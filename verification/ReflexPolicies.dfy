/** Policy specs on the bridge side: validation (reflex-policy-spec.ts), compilation
    (reflex-policies.ts) and assembly of the monitor (reflex-policy-sync.ts). */
module ReflexPolicies {
  import opened Strings
  import opened Sorting
  import opened JsonValues
  import opened Options
  import opened Filtering
  import opened ReflexMonitors

  datatype Effect = DenyEffect | RewriteEffect

  datatype Matching = ArgsContains | TextContains

  datatype Predicate =
    | Needles(matching: Matching, needles: seq<string>, caseInsensitive: bool)
    | ToolName(names: seq<string>)

  datatype PolicySpec = PolicySpec(
    id: string,
    criticality: Criticality,
    kind: ActionKind,
    test: Predicate,
    denyReason: string,
    effect: Option<Effect>,
    rewriteContent: Option<string>
  )

  /** What the JavaScript host contributes: argument serialisation, case folding and string orders. */
  datatype Host = Host(
    serializeArgs: map<string, Json> -> string,
    stringify: Json -> string,
    lower: string -> string,
    order: IdOrder
  )

  function KindName(k: ActionKind): string {
    match k
    case ToolCall => "tool_call"
    case Spawn => "spawn"
    case MessageOut => "message_out"
    case QueueEnqueue => "queue_enqueue"
    case MemoryWrite => "memory_write"
    case ToolResultPersist => "tool_result_persist"
  }

  function KindOfName(name: string): (k: Option<ActionKind>)
    ensures k.Some? ==> KindName(k.value) == name
  {
    if name == "tool_call" then Some(ToolCall)
    else if name == "spawn" then Some(Spawn)
    else if name == "message_out" then Some(MessageOut)
    else if name == "queue_enqueue" then Some(QueueEnqueue)
    else if name == "memory_write" then Some(MemoryWrite)
    else if name == "tool_result_persist" then Some(ToolResultPersist)
    else None
  }

  // ---- parseReflexPolicyExport ----

  /** The non-empty strings of a JSON array, in order. */
  function Words(items: seq<Json>): seq<string> {
    if |items| == 0 then []
    else
      var init := Words(items[..|items| - 1]);
      var last := items[|items| - 1];
      if last.Str? && last.s != "" then init + [last.s] else init
  }

  function ParsePredicate(pred: Json): Option<Predicate> {
    var kind := pred.Get("kind");
    if (kind == Str("args_contains") || kind == Str("text_contains")) && pred.Get("needles").Arr? then
      var needles := Words(pred.Get("needles").items);
      if |needles| == 0 then None
      else Some(Needles(if kind == Str("args_contains") then ArgsContains else TextContains, needles,
                        pred.Get("case_insensitive") == Bool(true)))
    else if kind == Str("tool_name") && pred.Get("names").Arr? then
      var names := Words(pred.Get("names").items);
      if |names| == 0 then None else Some(ToolName(names))
    else None
  }

  function ParseCriticality(v: Json): Option<Criticality> {
    if v == Str("safety_critical") then Some(SafetyCritical)
    else if v == Str("advisory") then Some(Advisory)
    else None
  }

  function ParseEffect(v: Json): Option<Effect> {
    if v == Str("rewrite") then Some(RewriteEffect)
    else if v == Str("deny") then Some(DenyEffect)
    else None
  }

  /** The validated spec of one untrusted row, or nothing when the row is skipped. */
  function ParseRow(row: Json): Option<PolicySpec> {
    if !row.IsObject() then None
    else if !row.Get("id").Str? || JsTrim(row.Get("id").s) == "" then None
    else if !row.Get("action_kind").Str? || KindOfName(row.Get("action_kind").s).None? then None
    else if ParseCriticality(row.Get("criticality")).None? then None
    else if !row.Get("deny_reason").Str? then None
    else if !row.Get("predicate").IsObject() then None
    else if ParsePredicate(row.Get("predicate")).None? then None
    else
      var effect := ParseEffect(row.Get("effect"));
      var content := if row.Get("rewrite_content").Str? then row.Get("rewrite_content").s else "";
      if effect == Some(RewriteEffect) && JsTrim(content) == "" then None
      else Some(PolicySpec(
        row.Get("id").s, ParseCriticality(row.Get("criticality")).value,
        KindOfName(row.Get("action_kind").s).value, ParsePredicate(row.Get("predicate")).value,
        row.Get("deny_reason").s, effect, if content == "" then None else Some(content)))
  }

  /** The specs of the rows that pass validation, in row order. */
  function Accepted(rows: seq<Json>): seq<PolicySpec> {
    FilterMap(rows, ParseRow)
  }

  predicate IsExport(raw: Json) {
    raw.IsObject() && raw.Get("version") == Str("0.1") && raw.Get("policies").Arr?
  }

  method ParseReflexPolicyExport(raw: Json) returns (parsed: Option<seq<PolicySpec>>)
    ensures parsed.Some? <==> IsExport(raw)
    ensures parsed.Some? ==> parsed.value == Accepted(raw.Get("policies").items)
  {
    if !raw.IsObject() {
      return None;
    }
    if raw.Get("version") != Str("0.1") || !raw.Get("policies").Arr? {
      return None;
    }
    var rows := raw.Get("policies").items;
    var policies: seq<PolicySpec> := [];
    for i := 0 to |rows|
      invariant policies == Accepted(rows[..i])
    {
      FilterMapStep(rows, i, ParseRow);
      var spec := ParseRow(rows[i]);
      if spec.None? {
        continue;
      }
      policies := policies + [spec.value];
    }
    assert rows[..|rows|] == rows;
    parsed := Some(policies);
  }

  /** The specs that the validator can produce. */
  predicate WellFormed(p: PolicySpec) {
    && JsTrim(p.id) != ""
    && (p.effect == Some(RewriteEffect) ==> p.rewriteContent.Some? && JsTrim(p.rewriteContent.value) != "")
    && (p.rewriteContent.Some? ==> p.rewriteContent.value != "")
    && match p.test
       case Needles(_, needles, _) => |needles| > 0 && forall i | 0 <= i < |needles| :: needles[i] != ""
       case ToolName(names) => |names| > 0 && forall i | 0 <= i < |names| :: names[i] != ""
  }

  /** The JSON object a spec is written as. */
  function Wire(p: PolicySpec): Json {
    Obj(WithContent(WithEffect(RequiredFields(p), p.effect), p.rewriteContent))
  }

  function RequiredFields(p: PolicySpec): map<string, Json> {
    map["id" := Str(p.id),
        "criticality" := Str(if p.criticality.SafetyCritical? then "safety_critical" else "advisory"),
        "action_kind" := Str(KindName(p.kind)),
        "predicate" := WirePredicate(p.test),
        "deny_reason" := Str(p.denyReason)]
  }

  function WithEffect(m: map<string, Json>, effect: Option<Effect>): map<string, Json> {
    match effect
    case None => m
    case Some(e) => m["effect" := Str(if e.RewriteEffect? then "rewrite" else "deny")]
  }

  function WithContent(m: map<string, Json>, content: Option<string>): map<string, Json> {
    if content.Some? then m["rewrite_content" := Str(content.value)] else m
  }

  function WirePredicate(p: Predicate): Json {
    match p
    case Needles(m, needles, ci) =>
      Obj(map["kind" := Str(if m.ArgsContains? then "args_contains" else "text_contains"),
              "needles" := Arr(StrItems(needles)),
              "case_insensitive" := Bool(ci)])
    case ToolName(names) => Obj(map["kind" := Str("tool_name"), "names" := Arr(StrItems(names))])
  }

  function StrItems(words: seq<string>): (items: seq<Json>)
    ensures |items| == |words| && forall i | 0 <= i < |words| :: items[i] == Str(words[i])
  {
    seq(|words|, i requires 0 <= i < |words| => Str(words[i]))
  }

  lemma {:induction false} WordsOfStrItems(words: seq<string>)
    ensures Words(StrItems(words)) == NonEmpty(words)
  {
    if |words| > 0 {
      WordsOfStrItems(words[..|words| - 1]);
      assert StrItems(words)[..|words| - 1] == StrItems(words[..|words| - 1]);
    }
  }

  lemma {:induction false} NonEmptyIsIdentity(words: seq<string>)
    requires forall i | 0 <= i < |words| :: words[i] != ""
    ensures NonEmpty(words) == words
  {
    if |words| > 0 {
      NonEmptyIsIdentity(words[..|words| - 1]);
    }
  }

  lemma {:induction false} WordsAreNotBlank(items: seq<Json>)
    ensures forall i | 0 <= i < |Words(items)| :: Words(items)[i] != ""
  {
    if |items| > 0 {
      WordsAreNotBlank(items[..|items| - 1]);
    }
  }

  lemma PredicateFields(p: Predicate)
    ensures var w := WirePredicate(p);
            match p
            case Needles(m, needles, ci) =>
              && w.Get("kind") == Str(if m.ArgsContains? then "args_contains" else "text_contains")
              && w.Get("needles") == Arr(StrItems(needles))
              && w.Get("case_insensitive") == Bool(ci)
            case ToolName(names) =>
              && w.Get("kind") == Str("tool_name")
              && w.Get("names") == Arr(StrItems(names))
  {
  }

  lemma ParseNeedles(w: Json, m: Matching, needles: seq<string>, ci: bool)
    requires w.Get("kind") == Str(if m.ArgsContains? then "args_contains" else "text_contains")
    requires w.Get("needles") == Arr(StrItems(needles)) && w.Get("case_insensitive") == Bool(ci)
    requires |needles| > 0 && Words(StrItems(needles)) == needles
    ensures ParsePredicate(w) == Some(Needles(m, needles, ci))
  {
  }

  lemma ParseToolName(w: Json, names: seq<string>)
    requires w.Get("kind") == Str("tool_name") && w.Get("names") == Arr(StrItems(names))
    requires |names| > 0 && Words(StrItems(names)) == names
    ensures ParsePredicate(w) == Some(ToolName(names))
  {
  }

  lemma PredicateInvertsWire(p: PolicySpec)
    requires WellFormed(p)
    ensures ParsePredicate(WirePredicate(p.test)) == Some(p.test)
  {
    PredicateFields(p.test);
    var words := if p.test.Needles? then p.test.needles else p.test.names;
    WordsOfStrItems(words);
    NonEmptyIsIdentity(words);
    if p.test.Needles? {
      ParseNeedles(WirePredicate(p.test), p.test.matching, words, p.test.caseInsensitive);
    } else {
      ParseToolName(WirePredicate(p.test), words);
    }
  }

  lemma WireRequiredFields(p: PolicySpec)
    ensures var row := Wire(p);
            && row.Get("id") == Str(p.id)
            && row.Get("predicate") == WirePredicate(p.test)
            && row.Get("deny_reason") == Str(p.denyReason)
            && row.Get("action_kind") == Str(KindName(p.kind))
            && ParseCriticality(row.Get("criticality")) == Some(p.criticality)
  {
    var base := RequiredFields(p);
    var with := WithEffect(base, p.effect);
    assert base["id"] == Str(p.id) && with["id"] == base["id"];
  }

  lemma WireOptionalFields(p: PolicySpec)
    ensures var row := Wire(p);
            && ParseEffect(row.Get("effect")) == p.effect
            && row.Get("rewrite_content") ==
               (if p.rewriteContent.Some? then Str(p.rewriteContent.value) else Undefined)
  {
    assert "effect" !in RequiredFields(p) && "rewrite_content" !in RequiredFields(p);
  }

  lemma KindNameRoundTrip(k: ActionKind)
    ensures KindOfName(KindName(k)) == Some(k)
  {
  }

  /** The verdict on a row depends only on these fields. */
  lemma ParseFromFields(
    row: Json, id: string, k: ActionKind, crit: Criticality, test: Option<Predicate>, reason: string, content: string)
    requires row.IsObject() && row.Get("id") == Str(id) && row.Get("action_kind") == Str(KindName(k))
    requires ParseCriticality(row.Get("criticality")) == Some(crit) && row.Get("deny_reason") == Str(reason)
    requires row.Get("predicate").IsObject() && ParsePredicate(row.Get("predicate")) == test
    requires content == if row.Get("rewrite_content").Str? then row.Get("rewrite_content").s else ""
    ensures var effect := ParseEffect(row.Get("effect"));
            ParseRow(row) ==
            if JsTrim(id) == "" || test.None? || (effect == Some(RewriteEffect) && JsTrim(content) == "") then None
            else
              Some(PolicySpec(id, crit, k, test.value, reason, effect, if content == "" then None else Some(content)))
  {
    KindNameRoundTrip(k);
  }

  /** Every well-formed spec is what its wire form parses to. */
  lemma ParseInvertsWire(p: PolicySpec)
    requires WellFormed(p)
    ensures ParseRow(Wire(p)) == Some(p)
  {
    PredicateInvertsWire(p);
    WireRequiredFields(p);
    WireOptionalFields(p);
    ParseFromFields(Wire(p), p.id, p.kind, p.criticality, Some(p.test), p.denyReason,
                    if p.rewriteContent.Some? then p.rewriteContent.value else "");
  }

  /** Every parsed row is well-formed, so the wire forms of the well-formed specs are all there is to parse. */
  lemma ParseYieldsWellFormed(row: Json)
    ensures ParseRow(row).Some? ==> WellFormed(ParseRow(row).value)
  {
    var pred := row.Get("predicate");
    if pred.Get("needles").Arr? {
      WordsAreNotBlank(pred.Get("needles").items);
    }
    if pred.Get("names").Arr? {
      WordsAreNotBlank(pred.Get("names").items);
    }
    assert JsTrim("") == "";
  }

  function WireAll(specs: seq<PolicySpec>): (rows: seq<Json>)
    ensures |rows| == |specs| && forall i | 0 <= i < |specs| :: rows[i] == Wire(specs[i])
  {
    seq(|specs|, i requires 0 <= i < |specs| => Wire(specs[i]))
  }

  /** Writing well-formed specs and reading them back loses nothing and reorders nothing. */
  lemma ExportRoundTrip(specs: seq<PolicySpec>)
    requires forall i | 0 <= i < |specs| :: WellFormed(specs[i])
    ensures Accepted(WireAll(specs)) == specs
  {
    var rows := WireAll(specs);
    forall i | 0 <= i < |specs|
      ensures ParseRow(rows[i]) == Some(specs[i])
    {
      ParseInvertsWire(specs[i]);
    }
    FilterMapTotal(rows, ParseRow, specs);
  }

  // ---- compileReflexPolicies ----

  predicate ArgsContain(host: Host, a: Action, needles: seq<string>, caseInsensitive: bool) {
    var hay := if caseInsensitive then host.lower(host.serializeArgs(a.args)) else host.serializeArgs(a.args);
    exists i | 0 <= i < |needles| :: Contains(hay, if caseInsensitive then host.lower(needles[i]) else needles[i])
  }

  predicate Applies(spec: PolicySpec, host: Host, a: Action) {
    && a.kind == spec.kind
    && match spec.test
       case ToolName(names) => a.name in names
       case Needles(_, needles, ci) => ArgsContain(host, a, needles, ci)
  }

  predicate Rewrites(spec: PolicySpec) {
    spec.effect == Some(RewriteEffect) && spec.rewriteContent.Some? && spec.rewriteContent.value != ""
  }

  function Verdict(spec: PolicySpec, a: Action): Decision {
    if Rewrites(spec) then
      Rewrite(a.(args := a.args["content" := Str(spec.rewriteContent.value)]), spec.denyReason, spec.id)
    else Deny(spec.denyReason, spec.id)
  }

  function Compile(spec: PolicySpec, host: Host): ReflexPolicy {
    ReflexPolicy(
      spec.id,
      spec.criticality,
      (a: Action, s: State) => Value(Applies(spec, host, a)),
      (a: Action, s: State) => Value(if Applies(spec, host, a) then Verdict(spec, a) else Allow))
  }

  function CompileAll(specs: seq<PolicySpec>, host: Host): (ps: seq<ReflexPolicy>)
    ensures |ps| == |specs| && forall i | 0 <= i < |specs| :: ps[i] == Compile(specs[i], host)
  {
    seq(|specs|, i requires 0 <= i < |specs| => Compile(specs[i], host))
  }

  /** A compiled policy never throws, and speaks exactly when its predicate holds. */
  lemma CompiledVoice(spec: PolicySpec, host: Host, a: Action, s: State)
    ensures VoiceOf(Compile(spec, host), a, s) == if Applies(spec, host, a) then Speaks(Verdict(spec, a)) else Silent
    ensures VoiceRank(Compile(spec, host), a, s) ==
            if !Applies(spec, host, a) then 1 else if Rewrites(spec) then 2 else 3
  {
  }

  // ---- buildReflexRuntime ----

  /** `new Map()` filled in order: the last spec of every id. */
  function LastById(specs: seq<PolicySpec>): (m: map<string, PolicySpec>)
    ensures forall id | id in m :: m[id].id == id && m[id] in specs
    ensures forall p | p in specs :: p.id in m
  {
    if |specs| == 0 then map[]
    else
      var init := LastById(specs[..|specs| - 1]);
      assert specs == specs[..|specs| - 1] + [specs[|specs| - 1]];
      init[specs[|specs| - 1].id := specs[|specs| - 1]]
  }

  /** The ids in the order a Map keeps them: first insertion first. */
  function IdsInOrder(specs: seq<PolicySpec>): (ids: seq<string>)
    ensures forall id :: id in ids <==> id in LastById(specs)
    ensures forall i, j | 0 <= i < j < |ids| :: ids[i] != ids[j]
  {
    if |specs| == 0 then []
    else
      var init := IdsInOrder(specs[..|specs| - 1]);
      var id := specs[|specs| - 1].id;
      if id in init then init else init + [id]
  }

  /** `[...byId.values()]`. */
  function ValuesInOrder(ids: seq<string>, byId: map<string, PolicySpec>): (us: seq<PolicySpec>)
    requires forall i | 0 <= i < |ids| :: ids[i] in byId
    ensures |us| == |ids| && forall i | 0 <= i < |us| :: us[i] == byId[ids[i]]
  {
    seq(|ids|, i requires 0 <= i < |ids| => byId[ids[i]])
  }

  function Unique(specs: seq<PolicySpec>): seq<PolicySpec> {
    ValuesInOrder(IdsInOrder(specs), LastById(specs))
  }

  function ConservedCore(specs: seq<PolicySpec>): set<string> {
    set p | p in specs && p.criticality.SafetyCritical? :: p.id
  }

  /** `specs[i]` is `p`, and no later spec has its id. */
  predicate LastOfItsId(specs: seq<PolicySpec>, p: PolicySpec, i: nat) {
    i < |specs| && specs[i] == p && forall j | i < j < |specs| :: specs[j].id != p.id
  }

  ghost predicate HasLast(specs: seq<PolicySpec>, p: PolicySpec) { exists i: nat :: LastOfItsId(specs, p, i) }

  lemma LastStep(specs: seq<PolicySpec>, p: PolicySpec)
    requires |specs| > 0
    ensures var last := specs[|specs| - 1];
            HasLast(specs, p) <==> if last.id == p.id then last == p else HasLast(specs[..|specs| - 1], p)
  {
    var init, last := specs[..|specs| - 1], specs[|specs| - 1];
    if last.id != p.id {
      forall i: nat
        ensures LastOfItsId(specs, p, i) <==> LastOfItsId(init, p, i)
      {
        OtherIdsBehind(specs, p, i);
      }
    } else if last == p {
      assert LastOfItsId(specs, p, |specs| - 1);
    }
  }

  lemma OtherIdsBehind(specs: seq<PolicySpec>, p: PolicySpec, i: nat)
    requires |specs| > 0 && specs[|specs| - 1].id != p.id
    ensures LastOfItsId(specs, p, i) <==> LastOfItsId(specs[..|specs| - 1], p, i)
  {
  }

  predicate Holds(byId: map<string, PolicySpec>, p: PolicySpec) { p.id in byId && byId[p.id] == p }

  lemma LastByIdStep(specs: seq<PolicySpec>, p: PolicySpec)
    requires |specs| > 0
    ensures var last := specs[|specs| - 1];
            Holds(LastById(specs), p) <==>
            if last.id == p.id then last == p else Holds(LastById(specs[..|specs| - 1]), p)
  {
  }

  lemma {:induction false} LastByIdHoldsLast(specs: seq<PolicySpec>, p: PolicySpec)
    ensures Holds(LastById(specs), p) <==> HasLast(specs, p)
  {
    if |specs| > 0 {
      LastByIdHoldsLast(specs[..|specs| - 1], p);
      LastByIdStep(specs, p);
      LastStep(specs, p);
    }
  }

  lemma UniqueHoldsLastById(specs: seq<PolicySpec>, p: PolicySpec)
    ensures p in Unique(specs) <==> p.id in LastById(specs) && LastById(specs)[p.id] == p
  {
    var ids := IdsInOrder(specs);
    if p.id in LastById(specs) && LastById(specs)[p.id] == p {
      var i :| 0 <= i < |ids| && ids[i] == p.id;
      assert Unique(specs)[i] == p;
    }
  }

  /** A spec survives exactly when it stands in the list with no spec of its id behind it; no two survivors share
      an id. */
  lemma UniqueMembers(specs: seq<PolicySpec>, p: PolicySpec)
    ensures p in Unique(specs) <==> exists i: nat :: LastOfItsId(specs, p, i)
    ensures forall i, j | 0 <= i < j < |Unique(specs)| :: Unique(specs)[i].id != Unique(specs)[j].id
  {
    UniqueHoldsLastById(specs, p);
    LastByIdHoldsLast(specs, p);
  }

  const DEMO_TOOL_BLOCK_SPEC := PolicySpec(
    "demo-tool-block", SafetyCritical, ToolCall, Needles(ArgsContains, ["rm -rf", "rm  -rf"], false),
    "Refusing destructive shell command — `rm -rf` is blocked by demo-tool-block.", None, None)

  const DEMO_QUEUE_BLOCK_SPEC := PolicySpec(
    "oc.dogfood.queue-block", SafetyCritical, QueueEnqueue, Needles(TextContains, ["QUEUE_DOGFOOD_BLOCK"], false),
    "Follow-up queue blocked by OpenCOAT dogfood concern (oc.dogfood.queue-block).", None, None)

  datatype RuntimeConfig = RuntimeConfig(inlinePolicies: seq<PolicySpec>, includeDemoPolicy: bool)

  datatype ReflexRuntime = ReflexRuntime(monitor: ReflexMonitor, exportVersion: string, policyIds: seq<string>)

  function AllSpecs(cfg: RuntimeConfig, exported: Option<seq<PolicySpec>>): seq<PolicySpec> {
    cfg.inlinePolicies
    + (if exported.Some? then exported.value else [])
    + (if cfg.includeDemoPolicy && (exported.None? || |exported.value| == 0)
       then [DEMO_TOOL_BLOCK_SPEC, DEMO_QUEUE_BLOCK_SPEC] else [])
  }

  function MonitorOf(specs: seq<PolicySpec>, host: Host): ReflexMonitor {
    var unique := Unique(specs);
    NewMonitor(CompileAll(unique, host), ConservedCore(unique), host.order)
  }

  /** The `byId` loop. */
  method MergeById(specs: seq<PolicySpec>) returns (keys: seq<string>, byId: map<string, PolicySpec>)
    ensures keys == IdsInOrder(specs) && byId == LastById(specs)
  {
    keys, byId := [], map[];
    for i := 0 to |specs|
      invariant byId == LastById(specs[..i])
      invariant keys == IdsInOrder(specs[..i])
    {
      assert specs[..i + 1][..i] == specs[..i];
      if specs[i].id !in byId {
        keys := keys + [specs[i].id];
      }
      byId := byId[specs[i].id := specs[i]];
    }
    assert specs[..|specs|] == specs;
  }

  method BuildReflexRuntime(cfg: RuntimeConfig, exported: Option<seq<PolicySpec>>, host: Host)
    returns (runtime: ReflexRuntime)
    ensures runtime.monitor == MonitorOf(AllSpecs(cfg, exported), host)
    ensures runtime.policyIds == IdsInOrder(AllSpecs(cfg, exported))
    ensures runtime.exportVersion == if exported.Some? then "0.1" else "inline"
  {
    var keys, byId := MergeById(AllSpecs(cfg, exported));
    var unique := ValuesInOrder(keys, byId);
    var monitor := NewMonitor(CompileAll(unique, host), ConservedCore(unique), host.order);
    runtime := ReflexRuntime(monitor, if exported.Some? then "0.1" else "inline", keys);
  }

  /** The rank the assembled monitor decides with is the largest rank among the surviving specs that apply. */
  lemma AssembledRank(specs: seq<PolicySpec>, host: Host, a: Action, s: State)
    ensures var m := MonitorOf(specs, host);
            var r := Ruling(m.policies, a, s, host.order).Rank();
            && (r == 3 <==> exists p | p in Unique(specs) :: Applies(p, host, a) && !Rewrites(p))
            && (r >= 2 <==> exists p | p in Unique(specs) :: Applies(p, host, a))
  {
    var unique := Unique(specs);
    var ps := CompileAll(unique, host);
    var m := MonitorOf(specs, host);
    MonitorRankIsMaximum(ps, m.conservedCore, host.order, a, s);
    var r := Ruling(m.policies, a, s, host.order).Rank();
    forall p | p in unique && Applies(p, host, a)
      ensures r >= if Rewrites(p) then 2 else 3
    {
      var i :| 0 <= i < |unique| && unique[i] == p;
      CompiledVoice(p, host, a, s);
      assert ps[i] in ps;
    }
    if r > 1 {
      var q :| q in ps && VoiceRank(q, a, s) == r;
      var i :| 0 <= i < |ps| && ps[i] == q;
      CompiledVoice(unique[i], host, a, s);
      assert unique[i] in unique;
    }
  }

  /** Every policy of the assembled monitor is compiled from a surviving spec. */
  lemma AssembledOrigin(specs: seq<PolicySpec>, host: Host, q: ReflexPolicy) returns (p: PolicySpec)
    requires q in MonitorOf(specs, host).policies
    ensures p in Unique(specs) && q == Compile(p, host)
  {
    var unique := Unique(specs);
    var ps := CompileAll(unique, host);
    SortSameMembers(ps, PolicyId, host.order.locale, q);
    var i :| 0 <= i < |ps| && ps[i] == q;
    p := unique[i];
  }
}
