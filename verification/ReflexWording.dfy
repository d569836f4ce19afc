/** What the assembled monitor says: the reasons of a denial and the text of a rewrite, traced back to the concerns. */
module ReflexWording {
  import opened Concerns
  import opened Filtering
  import opened JsonValues
  import opened Options
  import opened ReflexExport
  import opened ReflexMonitors
  import opened ReflexPipeline
  import opened ReflexPolicies
  import opened Sorting
  import opened Strings

  // ---- The order in which the policies of a monitor speak ----

  function SpecId(sp: PolicySpec): string { sp.id }

  function SortedSpecs(specs: seq<PolicySpec>, host: Host): seq<PolicySpec> {
    Sort(Unique(specs), SpecId, host.order.locale)
  }

  lemma MonitorPolicies(specs: seq<PolicySpec>, host: Host)
    ensures MonitorOf(specs, host).policies == CompileAll(SortedSpecs(specs, host), host)
  {
    var unique := Unique(specs);
    SortCommutes(unique, CompileAll(unique, host), (sp: PolicySpec) => Compile(sp, host), SpecId, PolicyId,
                 host.order.locale);
  }

  // ---- Which specs speak with a given rank ----

  /** The spec, if it applies to the action and asks for the given rank. */
  function SpeaksAt(host: Host, a: Action, rank: nat): PolicySpec -> Option<PolicySpec> {
    (sp: PolicySpec) => if Applies(sp, host, a) && Verdict(sp, a).Rank() == rank then Some(sp) else None
  }

  function Speakers(specs: seq<PolicySpec>, host: Host, a: Action, rank: nat): seq<PolicySpec> {
    FilterMap(specs, SpeaksAt(host, a, rank))
  }

  lemma SpeakersAre(specs: seq<PolicySpec>, host: Host, a: Action, rank: nat, sp: PolicySpec)
    ensures sp in Speakers(specs, host, a, rank) <==>
            sp in specs && Applies(sp, host, a) && Verdict(sp, a).Rank() == rank
  {
    FilterMapMembers(specs, SpeaksAt(host, a, rank), sp);
  }

  lemma {:induction false} VoicedBySpeakers(specs: seq<PolicySpec>, host: Host, a: Action, s: State, rank: nat)
    ensures var ds, sps := Voiced(CompileAll(specs, host), rank, a, s), Speakers(specs, host, a, rank);
            |ds| == |sps| && forall i | 0 <= i < |ds| :: ds[i] == Verdict(sps[i], a)
  {
    if |specs| > 0 {
      var init, last := specs[..|specs| - 1], specs[|specs| - 1];
      VoicedBySpeakers(init, host, a, s, rank);
      assert CompileAll(specs, host)[..|specs| - 1] == CompileAll(init, host);
      CompiledVoice(last, host, a, s);
    }
  }

  lemma {:induction false} NoCompiledFault(specs: seq<PolicySpec>, host: Host, a: Action, s: State)
    ensures FirstCriticalFault(CompileAll(specs, host), a, s) == |specs|
  {
    var k := FirstCriticalFault(CompileAll(specs, host), a, s);
    if k < |specs| {
      CompiledVoice(specs[k], host, a, s);
    }
  }

  lemma DecisionOfSpeakers(specs: seq<PolicySpec>, host: Host, a: Action, s: State)
    ensures var all := CompileAll(SortedSpecs(specs, host), host);
            Ruling(MonitorOf(specs, host).policies, a, s, host.order) ==
            Agreed(Voiced(all, 3, a, s), Voiced(all, 2, a, s), host.order)
  {
    MonitorPolicies(specs, host);
    NoCompiledFault(SortedSpecs(specs, host), host, a, s);
  }

  ghost predicate InIdOrder(sps: seq<PolicySpec>, host: Host) {
    forall i, j | 0 <= i < j < |sps| :: host.order.locale(sps[i].id, sps[j].id) && sps[i].id != sps[j].id
  }

  lemma SortedSpecsInOrder(specs: seq<PolicySpec>, host: Host)
    requires host.order.Valid()
    ensures InIdOrder(SortedSpecs(specs, host), host)
  {
    var unique := Unique(specs);
    var same := (x: string, y: string) => x == y;
    SortSorts(unique, SpecId, host.order.locale);
    SortPermutes(unique, SpecId, host.order.locale);
    assert DistinctKeys(unique, SpecId, same);
    SortKeepsDistinct(unique, SortedSpecs(specs, host), SpecId, same);
    assert forall x: PolicySpec :: SpecId(x) == x.id;
  }

  lemma SpeakersInOrder(specs: seq<PolicySpec>, host: Host, a: Action, rank: nat)
    requires InIdOrder(specs, host)
    ensures InIdOrder(Speakers(specs, host, a, rank), host)
  {
    FilterMapKeepsOrder(specs, SpeaksAt(host, a, rank),
                        (p: PolicySpec, q: PolicySpec) => host.order.locale(p.id, q.id) && p.id != q.id);
  }

  // ---- The concerns behind the speakers ----

  /** The text a hard block denies with, and the text a hard rewrite puts in place. */
  function DenyText(c: Concern, k: ActionKind): string { OrElse(HardBlock(c, ProfileOf(k)), "") }

  function RewriteText(c: Concern, k: ActionKind): string { OrElse(HardRewrite(c, ProfileOf(k)), "") }

  lemma {:induction false} FirstBlockIs(advs: seq<AopAdvice>, c: Concern, p: Profile) returns (i: nat)
    ensures i <= |advs| && forall j | 0 <= j < i :: !Guards(advs[j], c, p, IsBlockMode)
    ensures i < |advs| ==>
              Guards(advs[i], c, p, IsBlockMode) && FirstBlock(advs, c, p) == Some(BlockedBy(advs[i].content, c))
    ensures i == |advs| ==> FirstBlock(advs, c, p).None?
  {
    i := 0;
    if |advs| > 0 && !Guards(advs[0], c, p, IsBlockMode) {
      i := FirstBlockIs(advs[1..], c, p);
      assert forall j | 1 <= j < |advs| :: advs[j] == advs[1..][j - 1];
      i := i + 1;
    }
  }

  /** A block speaks with the content of its first blocking advice; the legacy advice speaks only when no other does. */
  lemma DenyTextIsOfFirstBlock(c: Concern, k: ActionKind) returns (i: nat)
    requires IsHardBlock(c, k)
    ensures i <= |c.advices| && forall j | 0 <= j < i :: !Guards(c.advices[j], c, ProfileOf(k), IsBlockMode)
    ensures i < |c.advices| ==>
              Guards(c.advices[i], c, ProfileOf(k), IsBlockMode) && DenyText(c, k) == BlockedBy(c.advices[i].content, c)
    ensures i == |c.advices| ==>
              LegacyBlocks(c, ProfileOf(k)) && DenyText(c, k) == BlockedBy(c.advice.value.content, c)
  {
    i := FirstBlockIs(c.advices, c, ProfileOf(k));
  }

  predicate RewritesBy(adv: AopAdvice, c: Concern, p: Profile) {
    Guards(adv, c, p, IsRewriteMode) && PyStrip(adv.content) != ""
  }

  lemma {:induction false} FirstRewriteIs(advs: seq<AopAdvice>, c: Concern, p: Profile) returns (i: nat)
    ensures i <= |advs| && forall j | 0 <= j < i :: !RewritesBy(advs[j], c, p)
    ensures i < |advs| ==> RewritesBy(advs[i], c, p) && FirstRewrite(advs, c, p) == Some(PyStrip(advs[i].content))
    ensures i == |advs| ==> FirstRewrite(advs, c, p).None?
  {
    i := 0;
    if |advs| > 0 && !RewritesBy(advs[0], c, p) {
      i := FirstRewriteIs(advs[1..], c, p);
      assert forall j | 1 <= j < |advs| :: advs[j] == advs[1..][j - 1];
      i := i + 1;
    }
  }

  /** A rewrite puts in the stripped content of its first rewriting advice that is not blank. */
  lemma RewriteTextIsOfFirstRewrite(c: Concern, k: ActionKind) returns (i: nat)
    requires IsHardRewrite(c, k)
    ensures i < |c.advices| && RewritesBy(c.advices[i], c, ProfileOf(k))
    ensures forall j | 0 <= j < i :: !RewritesBy(c.advices[j], c, ProfileOf(k))
    ensures RewriteText(c, k) == PyStrip(c.advices[i].content)
  {
    i := FirstRewriteIs(c.advices, c, ProfileOf(k));
    assert forall j | 0 <= j < |c.advices| && RewritesBy(c.advices[j], c, ProfileOf(k)) :: i <= j;
  }

  lemma DeliveredText(c: Concern, k: ActionKind)
    requires Delivered(c, k).Some?
    ensures IsHardBlock(c, k) || IsHardRewrite(c, k)
    ensures IsHardBlock(c, k) ==> Delivered(c, k).value.denyReason == DenyText(c, k)
    ensures !IsHardBlock(c, k) ==> Delivered(c, k).value.rewriteContent == Some(RewriteText(c, k))
  {
    var p := ProfileOf(k);
    HardBlockIsMeant(c, k);
    FirstRewriteNotBlank(c.advices, c, p);
    if HardBlock(c, p).Some? {
      DenyRowParses(c, k, HardBlock(c, p).value);
    } else if HardRewrite(c, p).Some? {
      RewriteRowParses(c, k, PyStrip(OrElse(Some(c.description), "Rewritten by " + c.id)), HardRewrite(c, p).value);
    }
  }

  /** The concern is kept and speaks about the action with the given rank. */
  predicate Voices(c: Concern, sel: Selection, host: Host, a: Action, rank: nat) {
    Kept(c, a.kind, sel) && Mentions(c, a.kind, host.serializeArgs(a.args)) && Asks(c, a.kind, rank)
  }

  function PipelineSpeakers(cs: seq<Concern>, sel: Selection, host: Host, a: Action, rank: nat): seq<PolicySpec> {
    Speakers(SortedSpecs(BridgeSpecs(cs, sel), host), host, a, rank)
  }

  lemma SpeakingConcern(c: Concern, sel: Selection, host: Host, a: Action, rank: nat)
    requires Kept(c, a.kind, sel)
    ensures var sp := Delivered(c, a.kind).value;
            && sp.id == c.id && sp.kind == a.kind
            && (Applies(sp, host, a) && Verdict(sp, a).Rank() == rank <==> Voices(c, sel, host, a, rank))
  {
    DeliveredMeaning(c, a.kind);
    DeliveredApplies(c, a.kind, host, a);
  }

  predicate Owns(cs: seq<Concern>, sel: Selection, host: Host, a: Action, rank: nat, sp: PolicySpec, c: Concern) {
    c in cs && Voices(c, sel, host, a, rank) && Delivered(c, a.kind) == Some(sp) && c.id == sp.id
  }

  lemma OwnerOf(cs: seq<Concern>, sel: Selection, host: Host, a: Action, rank: nat, sp: PolicySpec)
    returns (c: Concern)
    requires DistinctIds(cs) && sp in PipelineSpeakers(cs, sel, host, a, rank)
    ensures Owns(cs, sel, host, a, rank, sp, c)
  {
    var specs := BridgeSpecs(cs, sel);
    SpeakersAre(SortedSpecs(specs, host), host, a, rank, sp);
    SortSameMembers(Unique(specs), SpecId, host.order.locale, sp);
    Survivors(cs, sel, sp);
    c :| c in cs && Kept(c, sp.kind, sel) && Delivered(c, sp.kind) == Some(sp);
    SpeakingConcern(c, sel, host, a, rank);
  }

  lemma OwnedSpeaks(cs: seq<Concern>, sel: Selection, host: Host, a: Action, rank: nat, c: Concern)
    requires DistinctIds(cs) && c in cs && Voices(c, sel, host, a, rank)
    ensures Delivered(c, a.kind).value in PipelineSpeakers(cs, sel, host, a, rank)
  {
    var specs, sp := BridgeSpecs(cs, sel), Delivered(c, a.kind).value;
    SpeakingConcern(c, sel, host, a, rank);
    Survivors(cs, sel, sp);
    SortSameMembers(Unique(specs), SpecId, host.order.locale, sp);
    SpeakersAre(SortedSpecs(specs, host), host, a, rank, sp);
  }

  lemma Owners(cs: seq<Concern>, sel: Selection, host: Host, a: Action, rank: nat) returns (owners: seq<Concern>)
    requires DistinctIds(cs)
    ensures |owners| == |PipelineSpeakers(cs, sel, host, a, rank)|
    ensures forall i | 0 <= i < |owners| ::
              Owns(cs, sel, host, a, rank, PipelineSpeakers(cs, sel, host, a, rank)[i], owners[i])
  {
    var sps := PipelineSpeakers(cs, sel, host, a, rank);
    var owns := (sp: PolicySpec, c: Concern) => Owns(cs, sel, host, a, rank, sp, c);
    forall sp | sp in sps
      ensures HasRelated(sp, owns)
    {
      var c := OwnerOf(cs, sel, host, a, rank, sp);
      assert owns(sp, c);
    }
    owners := ChooseEach(sps, owns);
    forall i | 0 <= i < |owners|
      ensures Owns(cs, sel, host, a, rank, sps[i], owners[i])
    {
      assert owns(sps[i], owners[i]);
    }
  }

  lemma SameIdSameConcern(cs: seq<Concern>, c: Concern, d: Concern)
    requires DistinctIds(cs) && c in cs && d in cs && c.id == d.id
    ensures c == d
  {
  }

  /** The concerns that speak with one rank, in the order of the monitor. */
  lemma SpeakingConcerns(cs: seq<Concern>, sel: Selection, host: Host, a: Action, rank: nat)
    returns (owners: seq<Concern>)
    requires DistinctIds(cs) && host.order.Valid()
    ensures forall c :: c in owners <==> c in cs && Voices(c, sel, host, a, rank)
    ensures forall i, j | 0 <= i < j < |owners| ::
              host.order.locale(owners[i].id, owners[j].id) && owners[i].id != owners[j].id
    ensures |owners| == |PipelineSpeakers(cs, sel, host, a, rank)|
    ensures forall i | 0 <= i < |owners| ::
              Owns(cs, sel, host, a, rank, PipelineSpeakers(cs, sel, host, a, rank)[i], owners[i])
  {
    var sps := PipelineSpeakers(cs, sel, host, a, rank);
    owners := Owners(cs, sel, host, a, rank);
    SortedSpecsInOrder(BridgeSpecs(cs, sel), host);
    SpeakersInOrder(SortedSpecs(BridgeSpecs(cs, sel), host), host, a, rank);
    forall c | c in cs && Voices(c, sel, host, a, rank)
      ensures c in owners
    {
      OwnedSpeaks(cs, sel, host, a, rank, c);
      var i :| 0 <= i < |sps| && sps[i] == Delivered(c, a.kind).value;
      SpeakingConcern(c, sel, host, a, rank);
      SameIdSameConcern(cs, c, owners[i]);
    }
  }

  // ---- The words of a decision ----

  lemma {:induction false} ReasonsAt(ds: seq<Decision>)
    requires forall i | 0 <= i < |ds| :: !ds[i].Allow?
    ensures |Reasons(ds)| == |ds| && forall i | 0 <= i < |ds| :: Reasons(ds)[i] == ds[i].reason
  {
    if |ds| > 0 {
      ReasonsAt(ds[..|ds| - 1]);
    }
  }

  function DenyTexts(cs: seq<Concern>, k: ActionKind): (texts: seq<string>)
    ensures |texts| == |cs| && forall i | 0 <= i < |cs| :: texts[i] == DenyText(cs[i], k)
  {
    seq(|cs|, i requires 0 <= i < |cs| => DenyText(cs[i], k))
  }

  lemma PipelineAgrees(cs: seq<Concern>, sel: Selection, host: Host, a: Action, s: State)
    ensures var all := CompileAll(SortedSpecs(BridgeSpecs(cs, sel), host), host);
            PipelineDecision(cs, sel, host, a, s) ==
            Agreed(Voiced(all, 3, a, s), Voiced(all, 2, a, s), host.order)
  {
    var specs := BridgeSpecs(cs, sel);
    assert AllSpecs(RuntimeConfig([], false), Some(specs)) == specs;
    DecisionOfSpeakers(specs, host, a, s);
  }

  lemma DenialOfOwner(cs: seq<Concern>, sel: Selection, host: Host, a: Action, sp: PolicySpec, c: Concern)
    requires Owns(cs, sel, host, a, 3, sp, c)
    ensures Verdict(sp, a) == Deny(DenyText(c, a.kind), c.id)
  {
    DeliveredMeaning(c, a.kind);
    DeliveredText(c, a.kind);
  }

  predicate DeniesFor(d: Decision, c: Concern, k: ActionKind) {
    d == Deny(DenyText(c, k), c.id)
  }

  /** The denials that the monitor collects, each with its concern. */
  lemma DenialsOfOwners(cs: seq<Concern>, sel: Selection, host: Host, a: Action, s: State, owners: seq<Concern>)
    requires |owners| == |PipelineSpeakers(cs, sel, host, a, 3)|
    requires forall i | 0 <= i < |owners| ::
               Owns(cs, sel, host, a, 3, PipelineSpeakers(cs, sel, host, a, 3)[i], owners[i])
    ensures var denials := Voiced(CompileAll(SortedSpecs(BridgeSpecs(cs, sel), host), host), 3, a, s);
            |denials| == |owners| && forall i | 0 <= i < |owners| :: DeniesFor(denials[i], owners[i], a.kind)
  {
    VoicedBySpeakers(SortedSpecs(BridgeSpecs(cs, sel), host), host, a, s, 3);
    forall i | 0 <= i < |owners| {
      DenialOfOwner(cs, sel, host, a, PipelineSpeakers(cs, sel, host, a, 3)[i], owners[i]);
    }
  }

  lemma DenialWords(
    denials: seq<Decision>, rewrites: seq<Decision>, owners: seq<Concern>, k: ActionKind, order: IdOrder)
    requires |denials| == |owners| && forall i | 0 <= i < |owners| :: DeniesFor(denials[i], owners[i], k)
    requires forall i | 0 <= i < |denials| :: !denials[i].Allow?
    requires forall i | 0 <= i < |rewrites| :: rewrites[i].Rewrite?
    requires Agreed(denials, rewrites, order).Deny?
    ensures |owners| > 0
    ensures Agreed(denials, rewrites, order) == Deny(Join(NonEmpty(DenyTexts(owners, k)), "\n"), owners[0].id)
  {
    ReasonsAt(denials);
    assert Reasons(denials) == DenyTexts(owners, k);
  }

  /** A denial gives the non-empty deny texts of exactly the kept hard blocks that mention the arguments, each once and
      in the order of their ids, one per line; it names the first of these concerns. */
  lemma DenialSpeaksForConcerns(cs: seq<Concern>, sel: Selection, host: Host, a: Action, s: State)
    returns (blockers: seq<Concern>)
    requires DistinctIds(cs) && host.order.Valid()
    requires PipelineDecision(cs, sel, host, a, s).Deny?
    ensures forall c :: c in blockers <==> c in cs && Voices(c, sel, host, a, 3)
    ensures forall i, j | 0 <= i < j < |blockers| ::
              host.order.locale(blockers[i].id, blockers[j].id) && blockers[i].id != blockers[j].id
    ensures |blockers| > 0
    ensures PipelineDecision(cs, sel, host, a, s) ==
            Deny(Join(NonEmpty(DenyTexts(blockers, a.kind)), "\n"), blockers[0].id)
  {
    var all := CompileAll(SortedSpecs(BridgeSpecs(cs, sel), host), host);
    PipelineAgrees(cs, sel, host, a, s);
    blockers := SpeakingConcerns(cs, sel, host, a, 3);
    DenialsOfOwners(cs, sel, host, a, s, blockers);
    DenialWords(Voiced(all, 3, a, s), Voiced(all, 2, a, s), blockers, a.kind, host.order);
  }

  lemma RewriteOfOwner(cs: seq<Concern>, sel: Selection, host: Host, a: Action, sp: PolicySpec, c: Concern)
    requires Owns(cs, sel, host, a, 2, sp, c)
    ensures RewritesFor(Verdict(sp, a), c, a)
  {
    DeliveredMeaning(c, a.kind);
    DeliveredText(c, a.kind);
  }

  /** The decision replaces the content by the rewrite text of the concern and leaves the other arguments. */
  predicate RewritesFor(d: Decision, c: Concern, a: Action) {
    && d.Rewrite? && d.policyId == c.id
    && d.action == a.(args := a.args["content" := Str(RewriteText(c, a.kind))])
  }

  lemma RewritesOfOwners(cs: seq<Concern>, sel: Selection, host: Host, a: Action, s: State, owners: seq<Concern>)
    requires |owners| == |PipelineSpeakers(cs, sel, host, a, 2)|
    requires forall i | 0 <= i < |owners| ::
               Owns(cs, sel, host, a, 2, PipelineSpeakers(cs, sel, host, a, 2)[i], owners[i])
    ensures var rewrites := Voiced(CompileAll(SortedSpecs(BridgeSpecs(cs, sel), host), host), 2, a, s);
            |rewrites| == |owners| && forall i | 0 <= i < |owners| :: RewritesFor(rewrites[i], owners[i], a)
  {
    VoicedBySpeakers(SortedSpecs(BridgeSpecs(cs, sel), host), host, a, s, 2);
    forall i | 0 <= i < |owners| {
      RewriteOfOwner(cs, sel, host, a, PipelineSpeakers(cs, sel, host, a, 2)[i], owners[i]);
    }
  }

  lemma LeastOwner(rewrites: seq<Decision>, owners: seq<Concern>, order: IdOrder) returns (n: nat)
    requires order.Valid() && |rewrites| == |owners| > 0
    requires forall i | 0 <= i < |owners| :: rewrites[i].Rewrite? && rewrites[i].policyId == owners[i].id
    ensures n < |owners| && LeastRewrite(rewrites, order) == rewrites[n]
    ensures forall d | d in owners :: order.codeUnit(owners[n].id, d.id)
  {
    LeastRewriteIsLeast(rewrites, order);
    n :| 0 <= n < |rewrites| && rewrites[n] == LeastRewrite(rewrites, order);
    forall d | d in owners
      ensures order.codeUnit(owners[n].id, d.id)
    {
      var i :| 0 <= i < |owners| && owners[i] == d;
      assert rewrites[i] in rewrites;
    }
  }

  /** A rewrite puts the text of one concern in place of the content: of the kept rewriting concerns that mention the
      arguments, the one whose id comes first in code-unit order. */
  lemma RewriteSpeaksForLeastConcern(cs: seq<Concern>, sel: Selection, host: Host, a: Action, s: State)
    returns (c: Concern)
    requires DistinctIds(cs) && host.order.Valid()
    requires PipelineDecision(cs, sel, host, a, s).Rewrite?
    ensures c in cs && Voices(c, sel, host, a, 2)
    ensures RewritesFor(PipelineDecision(cs, sel, host, a, s), c, a)
    ensures forall d | d in cs && Voices(d, sel, host, a, 2) :: host.order.codeUnit(c.id, d.id)
  {
    var all := CompileAll(SortedSpecs(BridgeSpecs(cs, sel), host), host);
    PipelineAgrees(cs, sel, host, a, s);
    var owners := SpeakingConcerns(cs, sel, host, a, 2);
    RewritesOfOwners(cs, sel, host, a, s, owners);
    var n := LeastOwner(Voiced(all, 2, a, s), owners, host.order);
    c := owners[n];
  }
}
