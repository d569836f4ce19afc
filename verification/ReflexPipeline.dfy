/** What the assembled monitor decides is what the stored concerns mean: the whole path
    export -> parse -> merge by id -> compile -> mediate. */
module ReflexPipeline {
  import opened Strings
  import opened Sorting
  import opened JsonValues
  import opened Options
  import opened Filtering
  import opened Concerns
  import opened ReflexMonitors
  import opened ReflexPolicies
  import opened ReflexExport

  // ---- What concerns mean, without the pipeline ----

  /** Some advice of the concern blocks the profile, or its legacy tool-guard fields do. */
  predicate IsHardBlock(c: Concern, k: ActionKind) {
    var p := ProfileOf(k);
    && |Keywords(c, p.joinpoints)| > 0
    && ((exists i | 0 <= i < |c.advices| :: Guards(c.advices[i], c, p, IsBlockMode)) || LegacyBlocks(c, p))
  }

  predicate IsHardRewrite(c: Concern, k: ActionKind) {
    var p := ProfileOf(k);
    && |Keywords(c, p.joinpoints)| > 0
    && exists i | 0 <= i < |c.advices| ::
         Guards(c.advices[i], c, p, IsRewriteMode) && PyStrip(c.advices[i].content) != ""
  }

  /** One of the concern's non-empty keywords occurs in the text. */
  predicate Mentions(c: Concern, k: ActionKind, text: string) {
    exists w | w in Keywords(c, ProfileOf(k).joinpoints) :: w != "" && Contains(text, w)
  }

  predicate MeansDeny(cs: seq<Concern>, k: ActionKind, text: string) {
    exists c | c in cs :: Exportable(c) && IsHardBlock(c, k) && Mentions(c, k, text)
  }

  predicate MeansRewrite(cs: seq<Concern>, k: ActionKind, text: string) {
    exists c | c in cs :: Exportable(c) && !IsHardBlock(c, k) && IsHardRewrite(c, k) && Mentions(c, k, text)
  }

  /** The rank one guarding concern asks for. */
  predicate Asks(c: Concern, k: ActionKind, rank: nat) { rank == if IsHardBlock(c, k) then 3 else 2 }

  /** The rank that the concerns ask for. */
  function MeantRank(cs: seq<Concern>, k: ActionKind, text: string): nat {
    if MeansDeny(cs, k, text) then 3 else if MeansRewrite(cs, k, text) then 2 else 1
  }

  // ---- What survives the pipeline ----

  /** The spec that reaches the bridge for one concern and kind: its exported row, if that row validates. */
  function Delivered(c: Concern, k: ActionKind): Option<PolicySpec> {
    var row := ExportRow(c, k);
    if row.None? then None else ParseRow(row.value)
  }

  predicate Selects(sel: Selection, k: ActionKind) {
    sel.AllKinds? || sel.kind == k
  }

  /** Place of a kind in the alphabetical order of kind names, in which the merged export is sorted. */
  function KindPlace(k: ActionKind): nat {
    match k
    case MemoryWrite => 0
    case MessageOut => 1
    case QueueEnqueue => 2
    case Spawn => 3
    case ToolCall => 4
    case ToolResultPersist => 5
  }

  /** A delivered spec is kept by the merge unless the same concern is delivered again under a later kind name. */
  predicate Kept(c: Concern, k: ActionKind, sel: Selection) {
    && Selects(sel, k)
    && Delivered(c, k).Some?
    && forall k2: ActionKind | Selects(sel, k2) && Delivered(c, k2).Some? :: KindPlace(k2) <= KindPlace(k)
  }

  ghost predicate DistinctIds(cs: seq<Concern>) {
    forall i, j | 0 <= i < j < |cs| :: cs[i].id != cs[j].id
  }

  function BridgeSpecs(cs: seq<Concern>, sel: Selection): seq<PolicySpec> {
    Accepted(Exported(cs, sel))
  }

  /** What the monitor assembled from the exported concerns, and from nothing else, decides. */
  function PipelineDecision(cs: seq<Concern>, sel: Selection, host: Host, a: Action, s: State): Decision {
    var cfg := RuntimeConfig([], false);
    Ruling(MonitorOf(AllSpecs(cfg, Some(BridgeSpecs(cs, sel))), host).policies, a, s, host.order)
  }

  function PipelineRank(cs: seq<Concern>, sel: Selection, host: Host, a: Action, s: State): nat {
    PipelineDecision(cs, sel, host, a, s).Rank()
  }

  // ---- The search functions of the exporter find what the meaning asks for ----

  lemma {:induction false} FirstBlockFinds(advs: seq<AopAdvice>, c: Concern, p: Profile)
    ensures FirstBlock(advs, c, p).Some? <==> exists i | 0 <= i < |advs| :: Guards(advs[i], c, p, IsBlockMode)
  {
    if |advs| > 0 && !Guards(advs[0], c, p, IsBlockMode) {
      FirstBlockFinds(advs[1..], c, p);
      forall i | 1 <= i < |advs|
        ensures advs[i] == advs[1..][i - 1]
      {
      }
    }
  }

  lemma {:induction false} FirstRewriteFinds(advs: seq<AopAdvice>, c: Concern, p: Profile)
    ensures FirstRewrite(advs, c, p).Some? <==>
            exists i | 0 <= i < |advs| :: Guards(advs[i], c, p, IsRewriteMode) && PyStrip(advs[i].content) != ""
  {
    if |advs| > 0 && !(Guards(advs[0], c, p, IsRewriteMode) && PyStrip(advs[0].content) != "") {
      FirstRewriteFinds(advs[1..], c, p);
      forall i | 1 <= i < |advs|
        ensures advs[i] == advs[1..][i - 1]
      {
      }
    }
  }

  lemma HardBlockIsMeant(c: Concern, k: ActionKind)
    ensures HardBlock(c, ProfileOf(k)).Some? <==> IsHardBlock(c, k)
    ensures HardRewrite(c, ProfileOf(k)).Some? <==> IsHardRewrite(c, k)
  {
    FirstBlockFinds(c.advices, c, ProfileOf(k));
    FirstRewriteFinds(c.advices, c, ProfileOf(k));
  }

  // ---- One exported row through the validator ----

  /** Adding the effect fields leaves the fields the validator needs as they were. */
  lemma RowFields(c: Concern, k: ActionKind, needles: seq<string>, reason: string, row: Json)
    requires row == DenyRow(c, k, needles, reason) ||
             exists content: string :: row == RewriteRow(c, k, needles, reason, content)
    ensures row.Obj?
    ensures row.Get("id") == Str(c.id)
    ensures row.Get("action_kind") == Str(KindName(k))
    ensures row.Get("deny_reason") == Str(reason)
    ensures ParseCriticality(row.Get("criticality")) == Some(SafetyCritical)
    ensures row.Get("predicate") == Obj(Row(c, k, needles, reason)).Get("predicate")
  {
  }

  lemma EffectFields(c: Concern, k: ActionKind, needles: seq<string>, reason: string, content: string)
    ensures DenyRow(c, k, needles, reason).Get("effect") == Str("deny")
    ensures DenyRow(c, k, needles, reason).Get("rewrite_content") == Undefined
    ensures RewriteRow(c, k, needles, reason, content).Get("effect") == Str("rewrite")
    ensures RewriteRow(c, k, needles, reason, content).Get("rewrite_content") == Str(content)
  {
    assert "effect" !in Row(c, k, needles, reason) && "rewrite_content" !in Row(c, k, needles, reason);
  }

  lemma RowPredicate(c: Concern, k: ActionKind, needles: seq<string>, reason: string)
    ensures var pred := Obj(Row(c, k, needles, reason)).Get("predicate");
            && pred.Obj?
            && ParsePredicate(pred) ==
               if |NonEmpty(needles)| == 0 then None
               else Some(Needles(if k.ToolCall? then ArgsContains else TextContains, NonEmpty(needles), false))
  {
    WordsOfStrItems(needles);
    var pred := Obj(Row(c, k, needles, reason)).Get("predicate");
    assert pred.Get("kind") == Str(if k.ToolCall? then "args_contains" else "text_contains");
    assert pred.Get("needles") == Arr(StrItems(needles));
    assert "case_insensitive" !in pred.fields;
  }

  /** The spec of a delivered row, spelled out. */
  function SpecOf(c: Concern, k: ActionKind, reason: string, effect: Effect, content: Option<string>): PolicySpec {
    PolicySpec(c.id, SafetyCritical, k,
               Needles(if k.ToolCall? then ArgsContains else TextContains,
                       NonEmpty(Keywords(c, ProfileOf(k).joinpoints)), false),
               reason, Some(effect), content)
  }

  lemma DenyRowParses(c: Concern, k: ActionKind, reason: string)
    ensures var needles := Keywords(c, ProfileOf(k).joinpoints);
            ParseRow(DenyRow(c, k, needles, reason)) ==
            if JsTrim(c.id) == "" || |NonEmpty(needles)| == 0 then None
            else Some(SpecOf(c, k, reason, DenyEffect, None))
  {
    var needles := Keywords(c, ProfileOf(k).joinpoints);
    var row := DenyRow(c, k, needles, reason);
    RowFields(c, k, needles, reason, row);
    EffectFields(c, k, needles, reason, "");
    RowPredicate(c, k, needles, reason);
    ParseFromFields(row, c.id, k, SafetyCritical, ParsePredicate(row.Get("predicate")), reason, "");
  }

  lemma RewriteRowParses(c: Concern, k: ActionKind, reason: string, content: string)
    requires content != ""
    ensures var needles := Keywords(c, ProfileOf(k).joinpoints);
            ParseRow(RewriteRow(c, k, needles, reason, content)) ==
            if JsTrim(c.id) == "" || |NonEmpty(needles)| == 0 || JsTrim(content) == "" then None
            else Some(SpecOf(c, k, reason, RewriteEffect, Some(content)))
  {
    var needles := Keywords(c, ProfileOf(k).joinpoints);
    var row := RewriteRow(c, k, needles, reason, content);
    RowFields(c, k, needles, reason, row);
    EffectFields(c, k, needles, reason, content);
    RowPredicate(c, k, needles, reason);
    ParseFromFields(row, c.id, k, SafetyCritical, ParsePredicate(row.Get("predicate")), reason, content);
  }

  // ---- What a delivered spec says ----

  lemma {:induction false} NonEmptyMembers(words: seq<string>, w: string)
    ensures w in NonEmpty(words) <==> w in words && w != ""
  {
    if |words| > 0 {
      NonEmptyMembers(words[..|words| - 1], w);
      assert words == words[..|words| - 1] + [words[|words| - 1]];
    }
  }

  lemma {:induction false} FirstRewriteNotBlank(advs: seq<AopAdvice>, c: Concern, p: Profile)
    ensures FirstRewrite(advs, c, p).Some? ==> FirstRewrite(advs, c, p).value != ""
  {
    if |advs| > 0 {
      FirstRewriteNotBlank(advs[1..], c, p);
    }
  }

  /** The replacement text of a hard rewrite is one the bridge does not regard as blank. */
  predicate VisibleRewrite(c: Concern, k: ActionKind) {
    HardRewrite(c, ProfileOf(k)).Some? && JsTrim(HardRewrite(c, ProfileOf(k)).value) != ""
  }

  /** A concern is delivered exactly when it is exportable, named, has a usable keyword, and blocks or visibly
      rewrites. */
  lemma DeliveredMeaning(c: Concern, k: ActionKind)
    ensures Delivered(c, k).Some? <==>
            && Exportable(c) && JsTrim(c.id) != "" && |NonEmpty(Keywords(c, ProfileOf(k).joinpoints))| > 0
            && (IsHardBlock(c, k) || VisibleRewrite(c, k))
    ensures Delivered(c, k).Some? ==>
              var sp := Delivered(c, k).value;
              && sp.id == c.id && sp.kind == k && (Rewrites(sp) <==> !IsHardBlock(c, k))
              && sp.test.Needles? && !sp.test.caseInsensitive
              && sp.test.needles == NonEmpty(Keywords(c, ProfileOf(k).joinpoints))
  {
    var p := ProfileOf(k);
    HardBlockIsMeant(c, k);
    FirstRewriteNotBlank(c.advices, c, p);
    if HardBlock(c, p).Some? {
      DenyRowParses(c, k, HardBlock(c, p).value);
    } else if HardRewrite(c, p).Some? {
      RewriteRowParses(c, k, PyStrip(OrElse(Some(c.description), "Rewritten by " + c.id)), HardRewrite(c, p).value);
    }
  }

  lemma DeliveredApplies(c: Concern, k: ActionKind, host: Host, a: Action)
    requires Delivered(c, k).Some?
    ensures Applies(Delivered(c, k).value, host, a) <==> a.kind == k && Mentions(c, k, host.serializeArgs(a.args))
  {
    DeliveredMeaning(c, k);
    var text := host.serializeArgs(a.args);
    var words := Keywords(c, ProfileOf(k).joinpoints);
    var needles := NonEmpty(words);
    if Mentions(c, k, text) {
      var w :| w in words && w != "" && Contains(text, w);
      NonEmptyMembers(words, w);
      var i :| 0 <= i < |needles| && needles[i] == w;
      assert Contains(text, needles[i]);
    }
    if i :| 0 <= i < |needles| && Contains(text, needles[i]) {
      NonEmptyMembers(words, needles[i]);
    }
  }

  lemma DeliveredMentions(c: Concern, k: ActionKind, text: string)
    requires Mentions(c, k, text)
    ensures |NonEmpty(Keywords(c, ProfileOf(k).joinpoints))| > 0
  {
    var w :| w in Keywords(c, ProfileOf(k).joinpoints) && w != "" && Contains(text, w);
    NonEmptyMembers(Keywords(c, ProfileOf(k).joinpoints), w);
  }

  // ---- Which specs reach the merge, and in which order ----

  lemma {:induction false} RowsOfKindsMembers(cs: seq<Concern>, kinds: seq<ActionKind>, row: Json)
    ensures row in RowsOfKinds(cs, kinds) <==> exists k | k in kinds :: row in ExportedOneKind(cs, k)
  {
    if |kinds| > 0 {
      RowsOfKindsMembers(cs, kinds[..|kinds| - 1], row);
      assert kinds == kinds[..|kinds| - 1] + [kinds[|kinds| - 1]];
    }
  }

  lemma OneKindMembers(cs: seq<Concern>, k: ActionKind, row: Json)
    ensures row in ExportedOneKind(cs, k) <==> exists c | c in cs :: ExportRow(c, k) == Some(row)
  {
    SortSameMembers(Rows(cs, k), RowId, LexLe, row);
    FilterMapMembers(cs, RowOf(k), row);
  }

  lemma KindOfRow(cs: seq<Concern>, sel: Selection, row: Json) returns (k: ActionKind)
    requires row in Exported(cs, sel)
    ensures Selects(sel, k) && row in ExportedOneKind(cs, k)
  {
    match sel
    case Only(one) => k := one;
    case AllKinds =>
      SortSameMembers(RowsOfKinds(cs, KINDS), RowKey, PairLe, row);
      RowsOfKindsMembers(cs, KINDS, row);
      k :| k in KINDS && row in ExportedOneKind(cs, k);
  }

  lemma ExportedOrigin(cs: seq<Concern>, sel: Selection, row: Json) returns (k: ActionKind, c: Concern)
    requires row in Exported(cs, sel)
    ensures Selects(sel, k) && c in cs && ExportRow(c, k) == Some(row)
  {
    k := KindOfRow(cs, sel, row);
    OneKindMembers(cs, k, row);
    c :| c in cs && ExportRow(c, k) == Some(row);
  }

  lemma ExportedContains(cs: seq<Concern>, sel: Selection, k: ActionKind, c: Concern)
    requires Selects(sel, k) && c in cs && ExportRow(c, k).Some?
    ensures ExportRow(c, k).value in Exported(cs, sel)
  {
    var row := ExportRow(c, k).value;
    OneKindMembers(cs, k, row);
    if sel.AllKinds? {
      AllKindsListed();
      RowsOfKindsMembers(cs, KINDS, row);
      SortSameMembers(RowsOfKinds(cs, KINDS), RowKey, PairLe, row);
    }
  }

  lemma AllKindsListed()
    ensures forall k: ActionKind :: k in KINDS
  {
    forall k: ActionKind
      ensures k in KINDS
    {
      match k
      case ToolCall => assert KINDS[0] == k;
      case Spawn => assert KINDS[1] == k;
      case MessageOut => assert KINDS[2] == k;
      case QueueEnqueue => assert KINDS[3] == k;
      case MemoryWrite => assert KINDS[4] == k;
      case ToolResultPersist => assert KINDS[5] == k;
    }
  }

  lemma BridgeMembers(cs: seq<Concern>, sel: Selection, sp: PolicySpec)
    ensures sp in BridgeSpecs(cs, sel) <==>
            exists k: ActionKind, c: Concern :: Selects(sel, k) && c in cs && Delivered(c, k) == Some(sp)
  {
    var rows := Exported(cs, sel);
    FilterMapMembers(rows, ParseRow, sp);
    if row :| row in rows && ParseRow(row) == Some(sp) {
      var k, c := ExportedOrigin(cs, sel, row);
      assert Delivered(c, k) == Some(sp);
    }
    if k: ActionKind, c: Concern :| Selects(sel, k) && c in cs && Delivered(c, k) == Some(sp) {
      ExportedContains(cs, sel, k, c);
    }
  }

  /** Rows that validate appear in ascending order of their kind names. */
  ghost predicate RowsAscend(rows: seq<Json>) {
    forall i, j | 0 <= i < j < |rows| && ParseRow(rows[i]).Some? && ParseRow(rows[j]).Some? ::
      KindPlace(ParseRow(rows[i]).value.kind) <= KindPlace(ParseRow(rows[j]).value.kind)
  }

  ghost predicate SpecsAscend(specs: seq<PolicySpec>) {
    forall i, j | 0 <= i < j < |specs| :: KindPlace(specs[i].kind) <= KindPlace(specs[j].kind)
  }

  lemma AcceptedAscends(rows: seq<Json>)
    requires RowsAscend(rows)
    ensures SpecsAscend(Accepted(rows))
  {
    FilterMapKeepsOrder(rows, ParseRow, (p: PolicySpec, q: PolicySpec) => KindPlace(p.kind) <= KindPlace(q.kind));
  }

  lemma FirstDifferenceDecides(a: string, b: string, n: nat)
    requires n < |a| && n < |b| && a[..n] == b[..n] && a[n] < b[n]
    ensures LexLe(a, b) && !LexLe(b, a)
  {
    if n > 0 {
      assert a[0] == a[..n][0] == b[..n][0] == b[0];
      assert a[1..][..n - 1] == a[..n][1..] && b[1..][..n - 1] == b[..n][1..];
      FirstDifferenceDecides(a[1..], b[1..], n - 1);
    }
  }

  lemma CloseKindNames()
    ensures !LexLe("message_out", "memory_write")
    ensures !LexLe("tool_result_persist", "tool_call")
  {
    FirstDifferenceDecides("memory_write", "message_out", 2);
    FirstDifferenceDecides("tool_call", "tool_result_persist", 5);
  }

  lemma KindNamesInOrder(j: ActionKind, k: ActionKind)
    requires LexLe(KindName(j), KindName(k))
    ensures KindPlace(j) <= KindPlace(k)
  {
    CloseKindNames();
  }

  lemma ParsedKindIsNamed(row: Json)
    requires ParseRow(row).Some?
    ensures RowKey(row).0 == KindName(ParseRow(row).value.kind)
  {
  }

  lemma ExportedAscends(cs: seq<Concern>, sel: Selection)
    ensures RowsAscend(Exported(cs, sel))
  {
    var rows := Exported(cs, sel);
    if sel.AllKinds? {
      PairLeIsOrder();
      SortSorts(RowsOfKinds(cs, KINDS), RowKey, PairLe);
    }
    forall i, j | 0 <= i < j < |rows| && ParseRow(rows[i]).Some? && ParseRow(rows[j]).Some?
      ensures KindPlace(ParseRow(rows[i]).value.kind) <= KindPlace(ParseRow(rows[j]).value.kind)
    {
      var ki, kj := ParseRow(rows[i]).value.kind, ParseRow(rows[j]).value.kind;
      ParsedKindIsNamed(rows[i]);
      ParsedKindIsNamed(rows[j]);
      if sel.AllKinds? {
        assert PairLe(RowKey(rows[i]), RowKey(rows[j]));
        LexLeTotal(KindName(ki), KindName(kj));
        KindNamesInOrder(ki, kj);
      } else {
        OneKindRows(cs, sel.kind, rows[i]);
        OneKindRows(cs, sel.kind, rows[j]);
      }
    }
  }

  lemma OneKindRows(cs: seq<Concern>, k: ActionKind, row: Json)
    requires row in ExportedOneKind(cs, k) && ParseRow(row).Some?
    ensures ParseRow(row).value.kind == k
  {
    var j, c := ExportedOrigin(cs, Only(k), row);
    DeliveredMeaning(c, k);
  }

  ghost predicate IdAndKindDetermine(specs: seq<PolicySpec>) {
    forall p, q | p in specs && q in specs && p.id == q.id && p.kind == q.kind :: p == q
  }

  /** `sp` is in the list and no spec of the same id has a later kind name. */
  ghost predicate Latest(specs: seq<PolicySpec>, sp: PolicySpec) {
    sp in specs && forall q | q in specs && q.id == sp.id :: KindPlace(q.kind) <= KindPlace(sp.kind)
  }

  lemma LastOfItsIdIsLatest(specs: seq<PolicySpec>, sp: PolicySpec)
    requires SpecsAscend(specs) && IdAndKindDetermine(specs)
    requires |specs| > 0 && specs[|specs| - 1].id == sp.id
    ensures sp == specs[|specs| - 1] <==> Latest(specs, sp)
  {
    var last := specs[|specs| - 1];
    forall q | q in specs
      ensures KindPlace(q.kind) <= KindPlace(last.kind)
    {
      var i :| 0 <= i < |specs| && specs[i] == q;
    }
    if Latest(specs, sp) {
      assert KindPlace(last.kind) == KindPlace(sp.kind);
      assert last.kind == sp.kind;
    }
  }

  lemma OtherIdsDoNotMatter(init: seq<PolicySpec>, last: PolicySpec, sp: PolicySpec)
    requires last.id != sp.id
    ensures Latest(init, sp) <==> Latest(init + [last], sp)
  {
    forall q
      ensures q in init + [last] <==> q in init || q == last
    {
    }
  }

  lemma PrefixStaysOrdered(init: seq<PolicySpec>, last: PolicySpec)
    requires SpecsAscend(init + [last]) && IdAndKindDetermine(init + [last])
    ensures SpecsAscend(init) && IdAndKindDetermine(init)
  {
    var specs := init + [last];
    assert forall i | 0 <= i < |init| :: init[i] == specs[i];
    assert forall q | q in init :: q in specs;
  }

  /** In an ascending list where id and kind determine the spec, the Map keeps the spec of the latest kind. */
  lemma {:induction false} LatestKindWins(specs: seq<PolicySpec>, sp: PolicySpec)
    requires SpecsAscend(specs) && IdAndKindDetermine(specs)
    ensures sp.id in LastById(specs) && LastById(specs)[sp.id] == sp <==> Latest(specs, sp)
  {
    if |specs| > 0 {
      var init, last := specs[..|specs| - 1], specs[|specs| - 1];
      assert specs == init + [last];
      if last.id == sp.id {
        LastOfItsIdIsLatest(specs, sp);
      } else {
        PrefixStaysOrdered(init, last);
        LatestKindWins(init, sp);
        OtherIdsDoNotMatter(init, last, sp);
      }
    }
  }

  /** The specs the monitor is built from are the kept ones, each from its own concern. */
  lemma Survivors(cs: seq<Concern>, sel: Selection, sp: PolicySpec)
    requires DistinctIds(cs)
    ensures sp in Unique(BridgeSpecs(cs, sel)) <==>
            exists c | c in cs :: Kept(c, sp.kind, sel) && Delivered(c, sp.kind) == Some(sp)
  {
    var specs := BridgeSpecs(cs, sel);
    ExportedAscends(cs, sel);
    AcceptedAscends(Exported(cs, sel));
    forall p, q | p in specs && q in specs && p.id == q.id && p.kind == q.kind
      ensures p == q
    {
      var c := Origin(cs, sel, p);
      var d := Origin(cs, sel, q);
    }
    LatestKindWins(specs, sp);
    UniqueHoldsLastById(specs, sp);
    if sp in Unique(specs) {
      var c := Origin(cs, sel, sp);
      KeptIffLatest(cs, sel, c, sp);
    }
    if c :| c in cs && Kept(c, sp.kind, sel) && Delivered(c, sp.kind) == Some(sp) {
      BridgeMembers(cs, sel, sp);
      DeliveredMeaning(c, sp.kind);
      KeptIffLatest(cs, sel, c, sp);
    }
  }

  lemma Origin(cs: seq<Concern>, sel: Selection, sp: PolicySpec) returns (c: Concern)
    requires sp in BridgeSpecs(cs, sel)
    ensures c in cs && c.id == sp.id && Selects(sel, sp.kind) && Delivered(c, sp.kind) == Some(sp)
  {
    BridgeMembers(cs, sel, sp);
    var k: ActionKind;
    k, c :| Selects(sel, k) && c in cs && Delivered(c, k) == Some(sp);
    DeliveredMeaning(c, k);
  }

  lemma KeptIffLatest(cs: seq<Concern>, sel: Selection, c: Concern, sp: PolicySpec)
    requires DistinctIds(cs) && c in cs && c.id == sp.id && Selects(sel, sp.kind) && Delivered(c, sp.kind) == Some(sp)
    ensures Kept(c, sp.kind, sel) <==>
            Latest(BridgeSpecs(cs, sel), sp)
  {
    forall q | q in BridgeSpecs(cs, sel) && q.id == sp.id
      ensures Selects(sel, q.kind) && Delivered(c, q.kind) == Some(q)
    {
      var d := Origin(cs, sel, q);
    }
    forall k: ActionKind | Selects(sel, k) && Delivered(c, k).Some?
      ensures Delivered(c, k).value in BridgeSpecs(cs, sel) && Delivered(c, k).value.id == sp.id
      ensures Delivered(c, k).value.kind == k
    {
      BridgeMembers(cs, sel, Delivered(c, k).value);
      DeliveredMeaning(c, k);
    }
  }

  // ---- The theorems ----

  /** With distinct ids, and no other assumption: the monitor denies exactly when a kept hard block mentions the
      action's serialised arguments, and acts at all exactly when some kept concern does. */
  lemma PipelineDecides(cs: seq<Concern>, sel: Selection, host: Host, a: Action, s: State)
    requires DistinctIds(cs)
    ensures var text := host.serializeArgs(a.args);
            var r := PipelineRank(cs, sel, host, a, s);
            && (r == 3 <==> exists c | c in cs ::
                 Kept(c, a.kind, sel) && IsHardBlock(c, a.kind) && Mentions(c, a.kind, text))
            && (r >= 2 <==> exists c | c in cs :: Kept(c, a.kind, sel) && Mentions(c, a.kind, text))
  {
    var specs := BridgeSpecs(cs, sel);
    assert AllSpecs(RuntimeConfig([], false), Some(specs)) == specs;
    AssembledRank(specs, host, a, s);
    forall c | c in cs && Kept(c, a.kind, sel)
      ensures var sp := Delivered(c, a.kind).value;
              && sp in Unique(specs) && (Rewrites(sp) <==> !IsHardBlock(c, a.kind))
              && (Applies(sp, host, a) <==> Mentions(c, a.kind, host.serializeArgs(a.args)))
    {
      DeliveredMeaning(c, a.kind);
      Survivors(cs, sel, Delivered(c, a.kind).value);
      DeliveredApplies(c, a.kind, host, a);
    }
    forall sp | sp in Unique(specs) && Applies(sp, host, a)
      ensures exists c | c in cs :: Kept(c, a.kind, sel) && Delivered(c, a.kind) == Some(sp)
    {
      Survivors(cs, sel, sp);
    }
  }

  /** With distinct ids the monitor never does more than the concerns mean, and it does as much exactly when a kept
      concern that asks for the meant rank mentions the arguments. */
  lemma RankIsMeantExactlyWhen(cs: seq<Concern>, sel: Selection, host: Host, a: Action, s: State)
    requires DistinctIds(cs)
    ensures var text := host.serializeArgs(a.args);
            var meant := MeantRank(cs, a.kind, text);
            && PipelineRank(cs, sel, host, a, s) <= meant
            && (PipelineRank(cs, sel, host, a, s) == meant <==>
                meant == 1 || exists c | c in cs ::
                  Kept(c, a.kind, sel) && Asks(c, a.kind, meant) && Mentions(c, a.kind, text))
  {
    var text := host.serializeArgs(a.args);
    PipelineDecides(cs, sel, host, a, s);
    PipelineRankBounds(cs, sel, host, a, s);
    forall c | c in cs && Kept(c, a.kind, sel)
      ensures Exportable(c) && (IsHardBlock(c, a.kind) || IsHardRewrite(c, a.kind))
    {
      DeliveredMeaning(c, a.kind);
      HardBlockIsMeant(c, a.kind);
    }
  }

  /** Nothing is delivered under two kinds that the export selects, once it is delivered under this one. */
  predicate NotShadowed(cs: seq<Concern>, sel: Selection, k: ActionKind) {
    forall c | c in cs && Delivered(c, k).Some? :: Kept(c, k, sel)
  }

  /** Meaning preservation, end to end. */
  lemma MonitorDecidesWhatConcernsMean(cs: seq<Concern>, sel: Selection, host: Host, a: Action, s: State)
    requires DistinctIds(cs) && Selects(sel, a.kind)
    requires forall c | c in cs :: JsTrim(c.id) != ""
    requires forall c | c in cs && IsHardRewrite(c, a.kind) :: VisibleRewrite(c, a.kind)
    requires NotShadowed(cs, sel, a.kind)
    ensures PipelineRank(cs, sel, host, a, s) == MeantRank(cs, a.kind, host.serializeArgs(a.args))
  {
    var text := host.serializeArgs(a.args);
    PipelineDecides(cs, sel, host, a, s);
    forall c | c in cs && Mentions(c, a.kind, text)
      ensures Kept(c, a.kind, sel) <==> Exportable(c) && (IsHardBlock(c, a.kind) || IsHardRewrite(c, a.kind))
    {
      DeliveredMeaning(c, a.kind);
      DeliveredMentions(c, a.kind, text);
      HardBlockIsMeant(c, a.kind);
    }
    PipelineRankBounds(cs, sel, host, a, s);
  }

  lemma PipelineRankBounds(cs: seq<Concern>, sel: Selection, host: Host, a: Action, s: State)
    ensures 1 <= PipelineRank(cs, sel, host, a, s) <= 3
  {
  }

  /** On a kind whose name no selected kind follows, every denial the concerns mean happens. */
  lemma MeantDenialHappens(cs: seq<Concern>, sel: Selection, host: Host, a: Action, s: State)
    requires DistinctIds(cs) && Selects(sel, a.kind) && forall c | c in cs :: JsTrim(c.id) != ""
    requires forall k: ActionKind | Selects(sel, k) :: KindPlace(k) <= KindPlace(a.kind)
    requires MeansDeny(cs, a.kind, host.serializeArgs(a.args))
    ensures PipelineRank(cs, sel, host, a, s) == 3
  {
    var text := host.serializeArgs(a.args);
    PipelineDecides(cs, sel, host, a, s);
    var c :| c in cs && Exportable(c) && IsHardBlock(c, a.kind) && Mentions(c, a.kind, text);
    KeptExactlyWhen(c, a.kind, sel, text);
  }

  lemma LastKind(k: ActionKind)
    requires k.ToolResultPersist?
    ensures forall j: ActionKind :: KindPlace(j) <= KindPlace(k)
  {
  }

  // ---- Where the pipeline does not do what the concerns mean ----

  lemma KeptExactlyWhen(c: Concern, k: ActionKind, sel: Selection, text: string)
    requires Selects(sel, k) && Exportable(c) && Mentions(c, k, text)
    ensures Kept(c, k, sel) <==>
            && JsTrim(c.id) != ""
            && (IsHardBlock(c, k) || VisibleRewrite(c, k))
            && forall j: ActionKind | Selects(sel, j) && Delivered(c, j).Some? :: KindPlace(j) <= KindPlace(k)
  {
    DeliveredMeaning(c, k);
    DeliveredMentions(c, k, text);
  }

  /** For one concern that guards the action, exactly three things can lose the guard: a blank id, a replacement
      text the bridge regards as blank, and a second delivery under a later kind name. */
  lemma GuardIsKeptExactlyWhen(c: Concern, sel: Selection, host: Host, a: Action, s: State)
    requires Selects(sel, a.kind) && Exportable(c) && Mentions(c, a.kind, host.serializeArgs(a.args))
    requires IsHardBlock(c, a.kind) || IsHardRewrite(c, a.kind)
    ensures PipelineRank([c], sel, host, a, s) == (if IsHardBlock(c, a.kind) then 3 else 2) <==>
            && JsTrim(c.id) != ""
            && (IsHardBlock(c, a.kind) || VisibleRewrite(c, a.kind))
            && forall k: ActionKind | Selects(sel, k) && Delivered(c, k).Some? :: KindPlace(k) <= KindPlace(a.kind)
    ensures !Kept(c, a.kind, sel) ==> PipelineRank([c], sel, host, a, s) == 1
  {
    KeptExactlyWhen(c, a.kind, sel, host.serializeArgs(a.args));
    OneConcernRank(c, sel, host, a, s);
  }

  lemma OneConcernRank(c: Concern, sel: Selection, host: Host, a: Action, s: State)
    requires Mentions(c, a.kind, host.serializeArgs(a.args))
    ensures PipelineRank([c], sel, host, a, s) ==
            if !Kept(c, a.kind, sel) then 1 else if IsHardBlock(c, a.kind) then 3 else 2
  {
    PipelineDecides([c], sel, host, a, s);
    PipelineRankBounds([c], sel, host, a, s);
    assert c in [c];
  }

  /** A concern that blocks `memory_write`: the same target belongs to the profile of persisted tool results. */
  const MEMORY_GUARD := Concern(
    "no-secrets", "no secrets", "keep secrets out of memory", None, [], None, None, None, None,
    [PointcutDef("pc", None, [], Some(PointcutMatch(Some(["secret"]), Null)), [])],
    [AopAdvice("adv", Before, "pc", "secrets stay out", None, None, None, None,
               Some(WeavingPolicy(Some(Block), None, Some("memory_write"), 200, 0.5)))],
    [], None, [], None, Active, Null, None, None)

  lemma MemoryGuardKeywords(k: ActionKind)
    ensures Keywords(MEMORY_GUARD, ProfileOf(k).joinpoints) == ["secret"]
  {
    var c, jps := MEMORY_GUARD, ProfileOf(k).joinpoints;
    assert c.pointcuts[..0] == [];
    assert DefKeywords(c.pointcuts, jps) == [] + ["secret"];
    assert Dedup(["secret"][..0]) == [];
    assert DefKeywords(c.pointcuts, jps) + LegacyKeywords(c.pointcut, jps) == ["secret"];
  }

  lemma MemoryGuardBlocks(k: ActionKind)
    requires k.MemoryWrite? || k.ToolResultPersist?
    ensures IsHardBlock(MEMORY_GUARD, k)
  {
    MemoryGuardKeywords(k);
    var p := ProfileOf(k);
    assert p.prefixes[if k.MemoryWrite? then 0 else 1] == "memory_write";
    assert Guards(MEMORY_GUARD.advices[0], MEMORY_GUARD, p, IsBlockMode);
  }

  lemma MemoryGuardIsNamed()
    ensures Exportable(MEMORY_GUARD) && JsTrim(MEMORY_GUARD.id) != ""
  {
    NonBlankSurvives("no-secrets", 0, JsBlank);
  }

  lemma GuardIsDelivered(c: Concern, k: ActionKind, word: string)
    requires Exportable(c) && JsTrim(c.id) != "" && IsHardBlock(c, k)
    requires word != "" && word in Keywords(c, ProfileOf(k).joinpoints)
    ensures Delivered(c, k).Some?
    ensures Kept(c, k, Only(k))
  {
    NonEmptyMembers(Keywords(c, ProfileOf(k).joinpoints), word);
    DeliveredMeaning(c, k);
  }

  lemma LaterDeliveryShadows(c: Concern, k: ActionKind, later: ActionKind, sel: Selection)
    requires Selects(sel, later) && Delivered(c, later).Some? && KindPlace(later) > KindPlace(k)
    ensures !Kept(c, k, sel)
  {
  }

  lemma GuardIsMeant(c: Concern, k: ActionKind, text: string, word: string)
    requires Exportable(c) && IsHardBlock(c, k)
    requires word != "" && word in Keywords(c, ProfileOf(k).joinpoints) && Contains(text, word)
    ensures Mentions(c, k, text) && MeansDeny([c], k, text)
  {
    assert c in [c];
  }

  /** A concern that hard-blocks two kinds loses its guard on the one whose name comes first in the full export,
      and keeps it when that kind is exported alone. */
  lemma ShadowedGuardIsLost(c: Concern, later: ActionKind, word: string, host: Host, a: Action, s: State)
    requires Exportable(c) && JsTrim(c.id) != "" && IsHardBlock(c, a.kind) && IsHardBlock(c, later)
    requires KindPlace(later) > KindPlace(a.kind)
    requires word != "" && Contains(host.serializeArgs(a.args), word)
    requires word in Keywords(c, ProfileOf(a.kind).joinpoints) && word in Keywords(c, ProfileOf(later).joinpoints)
    ensures MeansDeny([c], a.kind, host.serializeArgs(a.args))
    ensures PipelineRank([c], AllKinds, host, a, s) == 1
    ensures PipelineRank([c], Only(a.kind), host, a, s) == 3
  {
    GuardIsMeant(c, a.kind, host.serializeArgs(a.args), word);
    GuardIsDelivered(c, a.kind, word);
    GuardIsDelivered(c, later, word);
    LaterDeliveryShadows(c, a.kind, later, AllKinds);
    OneConcernRank(c, AllKinds, host, a, s);
    OneConcernRank(c, Only(a.kind), host, a, s);
  }

  /** Such a concern exists: one that blocks the target `memory_write` guards memory writes and persisted results. */
  lemma DoubleGuardExists() returns (c: Concern)
    ensures Exportable(c) && JsTrim(c.id) != "" && IsHardBlock(c, MemoryWrite) && IsHardBlock(c, ToolResultPersist)
    ensures Keywords(c, ProfileOf(MemoryWrite).joinpoints) == ["secret"]
    ensures Keywords(c, ProfileOf(ToolResultPersist).joinpoints) == ["secret"]
  {
    MemoryGuardBlocks(MemoryWrite);
    MemoryGuardBlocks(ToolResultPersist);
    MemoryGuardKeywords(MemoryWrite);
    MemoryGuardKeywords(ToolResultPersist);
    MemoryGuardIsNamed();
    c := MEMORY_GUARD;
  }

  /** A concern that rewrites what goes to memory into a byte-order mark. */
  const BLANK_REWRITE := MEMORY_GUARD.(advices := [
    AopAdvice("adv", Before, "pc", "\U{FEFF}", None, None, None, None,
              Some(WeavingPolicy(Some(RewriteMode), None, Some("memory_write"), 200, 0.5)))])

  /** A byte-order mark counts as text for the exporter and as blank for the bridge. */
  lemma ByteOrderMark()
    ensures PyStrip("\U{FEFF}") == "\U{FEFF}" && JsTrim("\U{FEFF}") == ""
  {
    NonBlankSurvives("\U{FEFF}", 0, PyBlank);
    var py, pyEnd := StripIsInnerPiece("\U{FEFF}", PyBlank);
    var js, jsEnd := StripIsInnerPiece("\U{FEFF}", JsBlank);
    assert JsBlank("\U{FEFF}"[0]);
  }

  lemma BlankRewriteGuards(p: Profile)
    requires p == ProfileOf(MemoryWrite)
    ensures var c := BLANK_REWRITE;
            Guards(c.advices[0], c, p, IsRewriteMode) && !Guards(c.advices[0], c, p, IsBlockMode)
  {
    assert p.prefixes[0] == "memory_write";
  }

  lemma BlankRewriteKeywords(joinpoints: set<string>)
    requires joinpoints == ProfileOf(MemoryWrite).joinpoints
    ensures Keywords(BLANK_REWRITE, joinpoints) == ["secret"]
  {
    MemoryGuardKeywords(MemoryWrite);
  }

  lemma NoBlockingAdvice(c: Concern, k: ActionKind)
    requires c.advice.None? && |c.advices| == 1 && !Guards(c.advices[0], c, ProfileOf(k), IsBlockMode)
    ensures !IsHardBlock(c, k)
  {
  }

  lemma OneAdviceRewrites(c: Concern, p: Profile)
    requires |c.advices| == 1 && Guards(c.advices[0], c, p, IsRewriteMode) && PyStrip(c.advices[0].content) != ""
    requires |Keywords(c, p.joinpoints)| > 0
    ensures HardRewrite(c, p) == Some(PyStrip(c.advices[0].content))
  {
  }

  lemma BlankRewriteRewrites()
    ensures !IsHardBlock(BLANK_REWRITE, MemoryWrite) && IsHardRewrite(BLANK_REWRITE, MemoryWrite)
    ensures Keywords(BLANK_REWRITE, ProfileOf(MemoryWrite).joinpoints) == ["secret"]
    ensures !VisibleRewrite(BLANK_REWRITE, MemoryWrite)
  {
    var p := ProfileOf(MemoryWrite);
    ByteOrderMark();
    BlankRewriteKeywords(p.joinpoints);
    BlankRewriteGuards(p);
    OneAdviceRewrites(BLANK_REWRITE, p);
    NoBlockingAdvice(BLANK_REWRITE, MemoryWrite);
  }

  /** So a rewrite that a concern means is lost when its replacement text is made of byte-order marks: the action goes
      through as it was. */
  lemma InvisibleReplacement(sel: Selection, host: Host, a: Action, s: State)
    requires a.kind.MemoryWrite? && Contains(host.serializeArgs(a.args), "secret")
    ensures MeansRewrite([BLANK_REWRITE], a.kind, host.serializeArgs(a.args))
    ensures PipelineRank([BLANK_REWRITE], sel, host, a, s) == 1
  {
    BlankRewriteRewrites();
    assert "secret" in Keywords(BLANK_REWRITE, ProfileOf(a.kind).joinpoints);
    assert BLANK_REWRITE in [BLANK_REWRITE];
    DeliveredMeaning(BLANK_REWRITE, a.kind);
    OneConcernRank(BLANK_REWRITE, sel, host, a, s);
  }

  // ---- Deleted concerns ----

  lemma {:induction false} LifecycleIsNotRead(advs: seq<AopAdvice>, c: Concern, d: Concern, p: Profile)
    requires d == c.(lifecycle := d.lifecycle)
    ensures FirstBlock(advs, c, p) == FirstBlock(advs, d, p) && FirstRewrite(advs, c, p) == FirstRewrite(advs, d, p)
  {
    if |advs| > 0 {
      LifecycleIsNotRead(advs[1..], c, d, p);
    }
  }

  lemma DeletedRow(c: Concern, k: ActionKind)
    ensures ExportRow(c.(lifecycle := Deleted), k) == ExportRow(c.(lifecycle := Active), k)
  {
    LifecycleIsNotRead(c.advices, c.(lifecycle := Deleted), c.(lifecycle := Active), ProfileOf(k));
  }

  lemma {:induction false} SameRowsOfKinds(cs: seq<Concern>, ds: seq<Concern>, kinds: seq<ActionKind>)
    requires forall k :: Rows(cs, k) == Rows(ds, k)
    ensures RowsOfKinds(cs, kinds) == RowsOfKinds(ds, kinds)
  {
    if |kinds| > 0 {
      SameRowsOfKinds(cs, ds, kinds[..|kinds| - 1]);
      assert Rows(cs, kinds[|kinds| - 1]) == Rows(ds, kinds[|kinds| - 1]);
    }
  }

  /** Deleting a concern changes no decision: the export, and with it the monitor, is that of the active concern. */
  lemma DeletedConcernsStillDecide(cs: seq<Concern>, i: nat, sel: Selection, host: Host, a: Action, s: State)
    requires i < |cs|
    ensures PipelineDecision(cs[i := cs[i].(lifecycle := Deleted)], sel, host, a, s) ==
            PipelineDecision(cs[i := cs[i].(lifecycle := Active)], sel, host, a, s)
  {
    var deleted, active := cs[i := cs[i].(lifecycle := Deleted)], cs[i := cs[i].(lifecycle := Active)];
    forall k: ActionKind
      ensures Rows(deleted, k) == Rows(active, k)
    {
      DeletedRow(cs[i], k);
      FilterMapSame(deleted, active, RowOf(k));
    }
    SameRowsOfKinds(deleted, active, KINDS);
    assert Exported(deleted, sel) == Exported(active, sel);
  }

  lemma MemoryGuardDenies(host: Host, a: Action, s: State)
    requires a.kind.MemoryWrite? && Contains(host.serializeArgs(a.args), "secret")
    ensures PipelineRank([MEMORY_GUARD], Only(a.kind), host, a, s) == 3
  {
    var c := MEMORY_GUARD;
    MemoryGuardBlocks(a.kind);
    MemoryGuardKeywords(a.kind);
    MemoryGuardIsNamed();
    GuardIsDelivered(c, a.kind, "secret");
    GuardIsMeant(c, a.kind, host.serializeArgs(a.args), "secret");
    OneConcernRank(c, Only(a.kind), host, a, s);
  }

  /** A deleted guard of the memory still denies. */
  lemma DeletedGuardDenies(host: Host, a: Action, s: State)
    requires a.kind.MemoryWrite? && Contains(host.serializeArgs(a.args), "secret")
    ensures PipelineRank([MEMORY_GUARD.(lifecycle := Deleted)], Only(a.kind), host, a, s) == 3
  {
    var c := MEMORY_GUARD;
    MemoryGuardDenies(host, a, s);
    DeletedConcernsStillDecide([c], 0, Only(a.kind), host, a, s);
    assert [c][0 := c.(lifecycle := Deleted)] == [c.(lifecycle := Deleted)];
    assert [c][0 := c.(lifecycle := Active)] == [c];
  }
}
