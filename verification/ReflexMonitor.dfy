/** The in-process reference monitor (reflex-monitor.ts): one decision folded from many policies. */
module ReflexMonitors {
  import opened Strings
  import opened Sorting
  import opened JsonValues
  import opened Options

  datatype Criticality = SafetyCritical | Advisory

  datatype ActionKind = ToolCall | Spawn | MessageOut | QueueEnqueue | MemoryWrite | ToolResultPersist

  datatype Action = Action(kind: ActionKind, name: string, args: map<string, Json>, raw: Json)

  datatype State = State(sessionId: string, turnId: string, features: map<string, Json>)

  datatype Decision =
    | Allow
    | Rewrite(action: Action, reason: string, policyId: string)
    | Deny(reason: string, policyId: string)
  {
    function Rank(): nat {
      match this
      case Allow => 1
      case Rewrite(_, _, _) => 2
      case Deny(_, _) => 3
    }
  }

  /** What a JavaScript call yields: a value, or a thrown value that may be an `Error`. */
  datatype Attempt<+T> = Value(value: T) | Thrown(message: Option<string>)

  datatype ReflexPolicy = ReflexPolicy(
    id: string,
    criticality: Criticality,
    applies: (Action, State) -> Attempt<bool>,
    decide: (Action, State) -> Attempt<Decision>
  )

  datatype DecisionRecord = DecisionRecord(
    turnId: string,
    actionKind: ActionKind,
    actionName: string,
    rank: nat,
    policyId: Option<string>,
    reason: Option<string>,
    criticality: Option<Criticality>
  )

  /** The two string orders of the JavaScript host: `localeCompare` and the `<=` operator. */
  datatype IdOrder = IdOrder(locale: (string, string) -> bool, codeUnit: (string, string) -> bool)
  {
    ghost predicate Valid() {
      TotalPreorder(locale) && TotalPreorder(codeUnit)
    }
  }

  datatype ReflexMonitor = ReflexMonitor(policies: seq<ReflexPolicy>, conservedCore: set<string>, order: IdOrder)

  function NewMonitor(policies: seq<ReflexPolicy>, conservedCore: set<string>, order: IdOrder): ReflexMonitor {
    ReflexMonitor(Sort(policies, PolicyId, order.locale), conservedCore, order)
  }

  function PolicyId(p: ReflexPolicy): string { p.id }

  function MergeDecisions(current: Decision, next: Decision, order: IdOrder): Decision {
    if next.Rank() > current.Rank() then next
    else if next.Rank() < current.Rank() then current
    else if current.Deny? && next.Deny? then
      Deny(Join(NonEmpty([current.reason, next.reason]), "\n"), current.policyId)
    else if current.Rewrite? && next.Rewrite? then
      if order.codeUnit(current.policyId, next.policyId) then current else next
    else current
  }

  // ---- What a single policy contributes ----

  datatype Voice = Silent | Faults(message: Option<string>) | Speaks(decision: Decision)

  function VoiceOf(p: ReflexPolicy, a: Action, s: State): Voice {
    match p.applies(a, s)
    case Thrown(m) => Faults(m)
    case Value(false) => Silent
    case Value(true) =>
      match p.decide(a, s)
      case Thrown(m) => Faults(m)
      case Value(d) => if d.Allow? then Silent else Speaks(d)
  }

  predicate CriticalFault(p: ReflexPolicy, a: Action, s: State) {
    p.criticality.SafetyCritical? && VoiceOf(p, a, s).Faults?
  }

  /** The rank a policy asks for; a safety-critical policy that throws asks for a denial. */
  function VoiceRank(p: ReflexPolicy, a: Action, s: State): nat {
    if CriticalFault(p, a, s) then 3
    else if VoiceOf(p, a, s).Speaks? then VoiceOf(p, a, s).decision.Rank()
    else 1
  }

  // ---- The reference meaning of a policy list ----

  /** Index of the first safety-critical policy that throws, or the length of the list. */
  function FirstCriticalFault(ps: seq<ReflexPolicy>, a: Action, s: State): (k: nat)
    ensures k <= |ps|
    ensures k < |ps| ==> CriticalFault(ps[k], a, s)
    ensures forall i | 0 <= i < k :: !CriticalFault(ps[i], a, s)
  {
    if |ps| == 0 then 0
    else
      var k := FirstCriticalFault(ps[..|ps| - 1], a, s);
      assert k < |ps| - 1 ==> ps[..|ps| - 1][k] == ps[k];
      if k < |ps| - 1 || CriticalFault(ps[|ps| - 1], a, s) then k else |ps|
  }

  /** The decisions of one rank, in list order. */
  function Voiced(ps: seq<ReflexPolicy>, rank: nat, a: Action, s: State): (ds: seq<Decision>)
    ensures forall i | 0 <= i < |ds| :: ds[i].Rank() == rank && !ds[i].Allow?
  {
    if |ps| == 0 then []
    else
      var init := Voiced(ps[..|ps| - 1], rank, a, s);
      var v := VoiceOf(ps[|ps| - 1], a, s);
      if v.Speaks? && !v.decision.Allow? && v.decision.Rank() == rank then init + [v.decision] else init
  }

  function Reasons(ds: seq<Decision>): seq<string>
    requires forall i | 0 <= i < |ds| :: !ds[i].Allow?
  {
    if |ds| == 0 then [] else Reasons(ds[..|ds| - 1]) + [ds[|ds| - 1].reason]
  }

  /** The first rewrite whose policy id no other rewrite's id precedes. */
  function LeastRewrite(ds: seq<Decision>, order: IdOrder): (d: Decision)
    requires |ds| > 0 && forall i | 0 <= i < |ds| :: ds[i].Rewrite?
    ensures d in ds && d.Rewrite?
  {
    if |ds| == 1 then ds[0]
    else
      var best := LeastRewrite(ds[..|ds| - 1], order);
      if order.codeUnit(best.policyId, ds[|ds| - 1].policyId) then best else ds[|ds| - 1]
  }

  function FaultText(message: Option<string>): string {
    if message.Some? then message.value else "Reflex policy evaluation failed"
  }

  /** The decision when no safety-critical policy throws. */
  function Consensus(ps: seq<ReflexPolicy>, a: Action, s: State, order: IdOrder): Decision {
    Agreed(Voiced(ps, 3, a, s), Voiced(ps, 2, a, s), order)
  }

  /** Denials outrank rewrites; all denials speak with one voice, of rewrites the one with the least id. */
  function Agreed(denials: seq<Decision>, rewrites: seq<Decision>, order: IdOrder): Decision
    requires forall i | 0 <= i < |denials| :: !denials[i].Allow?
    requires forall i | 0 <= i < |rewrites| :: rewrites[i].Rewrite?
  {
    if |denials| > 0 then Deny(Join(NonEmpty(Reasons(denials)), "\n"), denials[0].policyId)
    else if |rewrites| > 0 then LeastRewrite(rewrites, order)
    else Allow
  }

  /** What the monitor must decide: fail closed on the first safety-critical fault, else the consensus. */
  function Ruling(ps: seq<ReflexPolicy>, a: Action, s: State, order: IdOrder): Decision {
    var k := FirstCriticalFault(ps, a, s);
    if k < |ps| then
      Deny("ReflexMonitor fail-closed: " + FaultText(VoiceOf(ps[k], a, s).message), ps[k].id)
    else Consensus(ps, a, s, order)
  }

  /** The last policy that speaks with the given rank. */
  function LastVoiced(ps: seq<ReflexPolicy>, rank: nat, a: Action, s: State): Option<ReflexPolicy> {
    if |ps| == 0 then None
    else
      var v := VoiceOf(ps[|ps| - 1], a, s);
      if v.Speaks? && v.decision.Rank() == rank then Some(ps[|ps| - 1])
      else LastVoiced(ps[..|ps| - 1], rank, a, s)
  }

  /** What the monitor must record: an allow names nobody; otherwise the last policy of the
      deciding rank gives the criticality. */
  function RulingRecord(ps: seq<ReflexPolicy>, a: Action, s: State, order: IdOrder): DecisionRecord {
    var d := Ruling(ps, a, s, order);
    var k := FirstCriticalFault(ps, a, s);
    if k < |ps| then
      DecisionRecord(s.turnId, a.kind, a.name, 3, Some(ps[k].id), Some(FaultText(VoiceOf(ps[k], a, s).message)),
                     Some(ps[k].criticality))
    else
      var last := LastVoiced(ps, d.Rank(), a, s);
      DecisionRecord(s.turnId, a.kind, a.name, d.Rank(),
                     if d.Allow? then None else Some(d.policyId),
                     if d.Allow? then None else Some(d.reason),
                     if last.Some? then Some(last.value.criticality) else None)
  }

  // ---- The loop ----

  method Mediate(m: ReflexMonitor, a: Action, s: State) returns (decision: Decision, record: DecisionRecord)
    ensures decision == Ruling(m.policies, a, s, m.order)
    ensures record == RulingRecord(m.policies, a, s, m.order)
  {
    var ps := m.policies;
    decision := Allow;
    var winningPolicy: Option<ReflexPolicy> := None;
    var matchedPolicyId: Option<string> := None;
    for i := 0 to |ps|
      invariant FirstCriticalFault(ps[..i], a, s) == i
      invariant decision == Consensus(ps[..i], a, s, m.order)
      invariant winningPolicy.None? <==> decision.Allow?
      invariant winningPolicy == LastVoiced(ps[..i], decision.Rank(), a, s)
      invariant decision.Allow? ==> matchedPolicyId.None?
    {
      assert ps[..i + 1][..i] == ps[..i];
      FoldStep(ps[..i + 1], a, s, m.order);
      var policy := ps[i];
      var applies := policy.applies(a, s);
      if applies.Value? && !applies.value {
        NoFaultYet(ps, i, a, s);
        continue;
      }
      var attempt := if applies.Thrown? then Thrown(applies.message) else policy.decide(a, s);
      if attempt.Thrown? {
        if policy.criticality.SafetyCritical? {
          RulingAtFault(ps, i, a, s, m.order);
          var reason := FaultText(attempt.message);
          decision := Deny("ReflexMonitor fail-closed: " + reason, policy.id);
          record := DecisionRecord(
            s.turnId, a.kind, a.name, 3, Some(policy.id), Some(reason), Some(policy.criticality));
          return;
        }
        NoFaultYet(ps, i, a, s);
        continue;
      }
      NoFaultYet(ps, i, a, s);
      var next := attempt.value;
      if next.Allow? {
        continue;
      }
      matchedPolicyId := Some(policy.id);
      decision := if winningPolicy.Some? then MergeDecisions(decision, next, m.order) else next;
      if winningPolicy.None? || next.Rank() >= decision.Rank() {
        winningPolicy := Some(policy);
      }
    }
    assert ps[..|ps|] == ps;
    record := DecisionRecord(
      s.turnId, a.kind, a.name, decision.Rank(),
      if decision.Allow? then matchedPolicyId else Some(decision.policyId),
      if decision.Allow? then None else Some(decision.reason),
      if winningPolicy.Some? then Some(winningPolicy.value.criticality) else None);
  }

  /** One more policy: how the consensus and the last policy of its rank move. */
  lemma FoldStep(ps: seq<ReflexPolicy>, a: Action, s: State, order: IdOrder)
    requires |ps| > 0
    ensures var before := Consensus(ps[..|ps| - 1], a, s, order);
            var winner := LastVoiced(ps[..|ps| - 1], before.Rank(), a, s);
            var after := Consensus(ps, a, s, order);
            var v := VoiceOf(ps[|ps| - 1], a, s);
            && after == (if !v.Speaks? then before
                         else if before.Allow? then v.decision
                         else MergeDecisions(before, v.decision, order))
            && LastVoiced(ps, after.Rank(), a, s) ==
               (if v.Speaks? && v.decision.Rank() >= after.Rank() then Some(ps[|ps| - 1]) else winner)
  {
    ConsensusStep(ps, a, s, order);
  }

  /** Once the prefix has no safety-critical fault and the next policy has one, the ruling is settled. */
  lemma RulingAtFault(ps: seq<ReflexPolicy>, i: nat, a: Action, s: State, order: IdOrder)
    requires i < |ps| && FirstCriticalFault(ps[..i], a, s) == i && CriticalFault(ps[i], a, s)
    ensures FirstCriticalFault(ps, a, s) == i
  {
    var k := FirstCriticalFault(ps, a, s);
    assert forall j | 0 <= j < i :: ps[..i][j] == ps[j];
  }

  lemma NoFaultYet(ps: seq<ReflexPolicy>, i: nat, a: Action, s: State)
    requires i < |ps| && FirstCriticalFault(ps[..i], a, s) == i && !CriticalFault(ps[i], a, s)
    ensures FirstCriticalFault(ps[..i + 1], a, s) == i + 1
  {
    assert ps[..i + 1][..i] == ps[..i];
  }

  /** Adding the last policy to the consensus is one step of the fold. */
  lemma ConsensusStep(ps: seq<ReflexPolicy>, a: Action, s: State, order: IdOrder)
    requires |ps| > 0
    ensures var before := Consensus(ps[..|ps| - 1], a, s, order);
            var v := VoiceOf(ps[|ps| - 1], a, s);
            Consensus(ps, a, s, order) ==
            if !v.Speaks? then before
            else if before.Allow? then v.decision
            else MergeDecisions(before, v.decision, order)
  {
    var v := VoiceOf(ps[|ps| - 1], a, s);
    var denials := Voiced(ps[..|ps| - 1], 3, a, s);
    var rewrites := Voiced(ps[..|ps| - 1], 2, a, s);
    if v.Speaks? && v.decision.Deny? {
      AgreedDenial(denials, rewrites, v.decision, order);
    } else if v.Speaks? && v.decision.Rewrite? {
      AgreedRewrite(denials, rewrites, v.decision, order);
    }
  }

  lemma AgreedDenial(denials: seq<Decision>, rewrites: seq<Decision>, next: Decision, order: IdOrder)
    requires next.Deny? && forall i | 0 <= i < |denials| :: denials[i].Deny?
    requires forall i | 0 <= i < |rewrites| :: rewrites[i].Rewrite?
    ensures Agreed(denials + [next], rewrites, order) == MergeDecisions(Agreed(denials, rewrites, order), next, order)
  {
    DenialStep(denials, next);
  }

  lemma AgreedRewrite(denials: seq<Decision>, rewrites: seq<Decision>, next: Decision, order: IdOrder)
    requires next.Rewrite? && forall i | 0 <= i < |denials| :: denials[i].Deny?
    requires forall i | 0 <= i < |rewrites| :: rewrites[i].Rewrite?
    ensures Agreed(denials, rewrites + [next], order) == MergeDecisions(Agreed(denials, rewrites, order), next, order)
  {
    LeastRewriteStep(rewrites, next, order);
  }

  lemma DenialStep(denials: seq<Decision>, next: Decision)
    requires next.Deny? && forall i | 0 <= i < |denials| :: denials[i].Deny?
    ensures Join(NonEmpty(Reasons(denials + [next])), "\n") ==
            if |denials| == 0 then next.reason
            else Join(NonEmpty([Join(NonEmpty(Reasons(denials)), "\n"), next.reason]), "\n")
  {
    var all := denials + [next];
    assert all[..|all| - 1] == denials;
    JoinNonEmptyStep(Reasons(denials), next.reason);
  }

  lemma LeastRewriteStep(rewrites: seq<Decision>, next: Decision, order: IdOrder)
    requires next.Rewrite? && forall i | 0 <= i < |rewrites| :: rewrites[i].Rewrite?
    ensures LeastRewrite(rewrites + [next], order) ==
            if |rewrites| == 0 then next
            else
              var best := LeastRewrite(rewrites, order);
              if order.codeUnit(best.policyId, next.policyId) then best else next
  {
    var all := rewrites + [next];
    assert all[..|all| - 1] == rewrites;
  }

  /** Joining the accumulated text with one more reason joins the whole list. */
  lemma JoinNonEmptyStep(texts: seq<string>, last: string)
    ensures Join(NonEmpty(texts + [last]), "\n") == Join(NonEmpty([Join(NonEmpty(texts), "\n"), last]), "\n")
    ensures |texts| == 0 ==> Join(NonEmpty(texts + [last]), "\n") == last
  {
    var kept := NonEmpty(texts);
    NonEmptyHasNoBlanks(texts);
    JoinBlankOnlyWhenEmpty(kept, "\n");
    NonEmptySnoc(texts, last);
    JoinSnoc(kept, last, "\n");
    JoinOfPair(Join(kept, "\n"), last);
  }

  lemma JoinOfPair(x: string, y: string)
    ensures Join(NonEmpty([x, y]), "\n") == if x == "" then y else if y == "" then x else x + "\n" + y
  {
    NonEmptySnoc([], x);
    NonEmptySnoc([x], y);
    assert [] + [x] == [x] && [x] + [y] == [x, y];
    JoinSnoc(NonEmpty([x]), y, "\n");
    JoinSnoc([], x, "\n");
  }

  lemma JoinBlankOnlyWhenEmpty(parts: seq<string>, sep: string)
    requires sep != "" && forall i | 0 <= i < |parts| :: parts[i] != ""
    ensures Join(parts, sep) == "" <==> |parts| == 0
  {
  }

  // ---- Laws of the decision ----

  /** The decision has the highest rank any policy asks for, and never a rank nobody asks for. */
  lemma RulingIsMaximum(ps: seq<ReflexPolicy>, a: Action, s: State, order: IdOrder)
    ensures forall i | 0 <= i < |ps| :: VoiceRank(ps[i], a, s) <= Ruling(ps, a, s, order).Rank()
    ensures Ruling(ps, a, s, order).Rank() > 1 ==>
              exists i | 0 <= i < |ps| :: VoiceRank(ps[i], a, s) == Ruling(ps, a, s, order).Rank()
  {
    var k := FirstCriticalFault(ps, a, s);
    if k == |ps| {
      VoicedComplete(ps, 3, a, s);
      VoicedComplete(ps, 2, a, s);
    }
  }

  lemma {:induction false} VoicedComplete(ps: seq<ReflexPolicy>, rank: nat, a: Action, s: State)
    requires rank > 1
    ensures |Voiced(ps, rank, a, s)| > 0 <==>
            exists i | 0 <= i < |ps| :: VoiceOf(ps[i], a, s).Speaks? && VoiceOf(ps[i], a, s).decision.Rank() == rank
  {
    if |ps| > 0 {
      var init := ps[..|ps| - 1];
      VoicedComplete(init, rank, a, s);
      forall i | 0 <= i < |ps| - 1
        ensures init[i] == ps[i]
      {
      }
    }
  }

  lemma CriticalFaultForcesDeny(ps: seq<ReflexPolicy>, i: nat, a: Action, s: State, order: IdOrder)
    requires i < |ps| && CriticalFault(ps[i], a, s)
    ensures Ruling(ps, a, s, order).Deny?
    ensures RulingRecord(ps, a, s, order).criticality == Some(SafetyCritical)
  {
  }

  /** The order in which policies reach the constructor does not matter when no two ids compare equal. */
  lemma ConstructionOrderIrrelevant(ps: seq<ReflexPolicy>, qs: seq<ReflexPolicy>, core: set<string>, order: IdOrder)
    requires order.Valid()
    requires multiset(ps) == multiset(qs)
    requires DistinctKeys(ps, PolicyId, order.locale)
    ensures NewMonitor(ps, core, order) == NewMonitor(qs, core, order)
  {
    SortForgetsOrder(ps, qs, PolicyId, order.locale);
  }

  /** The rank of the monitor's decision is the largest rank among the policies it was given. */
  lemma MonitorRankIsMaximum(ps: seq<ReflexPolicy>, core: set<string>, order: IdOrder, a: Action, s: State)
    ensures var r := Ruling(NewMonitor(ps, core, order).policies, a, s, order).Rank();
            && (forall p | p in ps :: VoiceRank(p, a, s) <= r)
            && (r > 1 ==> exists p | p in ps :: VoiceRank(p, a, s) == r)
  {
    var sorted := NewMonitor(ps, core, order).policies;
    RulingIsMaximum(sorted, a, s, order);
    var r := Ruling(sorted, a, s, order).Rank();
    forall p | p in ps
      ensures VoiceRank(p, a, s) <= r
    {
      SortSameMembers(ps, PolicyId, order.locale, p);
      var i :| 0 <= i < |sorted| && sorted[i] == p;
    }
    if r > 1 {
      var i :| 0 <= i < |sorted| && VoiceRank(sorted[i], a, s) == r;
      SortSameMembers(ps, PolicyId, order.locale, sorted[i]);
    }
  }

  lemma AddingPolicyNeverLowersRank(
    ps: seq<ReflexPolicy>, p: ReflexPolicy, core: set<string>, order: IdOrder, a: Action, s: State)
    ensures Ruling(NewMonitor(ps, core, order).policies, a, s, order).Rank()
            <= Ruling(NewMonitor(ps + [p], core, order).policies, a, s, order).Rank()
  {
    MonitorRankIsMaximum(ps, core, order, a, s);
    MonitorRankIsMaximum(ps + [p], core, order, a, s);
  }

  /** Of all rewrites, the chosen one carries an id that no other rewrite's id precedes. */
  lemma {:induction false} LeastRewriteIsLeast(ds: seq<Decision>, order: IdOrder)
    requires order.Valid()
    requires |ds| > 0 && forall i | 0 <= i < |ds| :: ds[i].Rewrite?
    ensures forall d | d in ds :: order.codeUnit(LeastRewrite(ds, order).policyId, d.policyId)
  {
    var init, last := ds[..|ds| - 1], ds[|ds| - 1];
    if |ds| > 1 {
      LeastRewriteIsLeast(init, order);
      assert ds == init + [last];
    }
  }

  // ---- The ruling, read off the two calls to each policy ----

  /** The policy applies and decides this. */
  predicate Answers(p: ReflexPolicy, a: Action, s: State, d: Decision) {
    p.applies(a, s) == Value(true) && p.decide(a, s) == Value(d)
  }

  /** One of the two calls throws. */
  predicate Breaks(p: ReflexPolicy, a: Action, s: State) {
    p.applies(a, s).Thrown? || (p.applies(a, s) == Value(true) && p.decide(a, s).Thrown?)
  }

  /** What is said of the throw: the message of the call that threw, or a fixed text when it threw no `Error`. */
  predicate TextOfThrow(p: ReflexPolicy, a: Action, s: State, text: string) {
    var message :=
      if p.applies(a, s).Thrown? then p.applies(a, s).message
      else if p.decide(a, s).Thrown? then p.decide(a, s).message else None;
    (message == None && text == "Reflex policy evaluation failed") || message == Some(text)
  }

  predicate FailsClosed(p: ReflexPolicy, a: Action, s: State) { p.criticality == SafetyCritical && Breaks(p, a, s) }

  /** When a safety-critical policy throws, the first one that does denies, whatever the other policies say. */
  lemma FirstThrowDenies(ps: seq<ReflexPolicy>, k: nat, a: Action, s: State, order: IdOrder)
    requires k < |ps| && FailsClosed(ps[k], a, s) && forall j | 0 <= j < k :: !FailsClosed(ps[j], a, s)
    ensures Ruling(ps, a, s, order).Deny? && Ruling(ps, a, s, order).policyId == ps[k].id
    ensures exists text: string ::
              TextOfThrow(ps[k], a, s, text) && Ruling(ps, a, s, order).reason == "ReflexMonitor fail-closed: " + text
  {
    var n := FirstCriticalFault(ps, a, s);
    assert CriticalFault(ps[k], a, s) && n <= k;
    assert n < k ==> FailsClosed(ps[n], a, s);
    assert TextOfThrow(ps[k], a, s, FaultText(VoiceOf(ps[k], a, s).message));
  }

  /** Otherwise one denial is enough to deny; without any, one rewrite is enough to rewrite; and without either the
      action goes through. Advisory policies that throw count for nothing. */
  lemma RulingByAnswers(ps: seq<ReflexPolicy>, a: Action, s: State, order: IdOrder)
    requires forall p | p in ps :: !FailsClosed(p, a, s)
    ensures Ruling(ps, a, s, order).Deny? <==> exists p | p in ps :: exists d :: Answers(p, a, s, d) && d.Deny?
    ensures !Ruling(ps, a, s, order).Allow? <==> exists p | p in ps :: exists d :: Answers(p, a, s, d) && !d.Allow?
  {
    NoCriticalFault(ps, a, s);
    VoicedComplete(ps, 3, a, s);
    VoicedComplete(ps, 2, a, s);
    SpeaksAnswers(ps, 3, a, s);
    SpeaksAnswers(ps, 2, a, s);
  }

  lemma NoCriticalFault(ps: seq<ReflexPolicy>, a: Action, s: State)
    requires forall p | p in ps :: !FailsClosed(p, a, s)
    ensures FirstCriticalFault(ps, a, s) == |ps|
  {
    var n := FirstCriticalFault(ps, a, s);
    assert n < |ps| ==> FailsClosed(ps[n], a, s);
  }

  lemma SpeaksAnswers(ps: seq<ReflexPolicy>, rank: nat, a: Action, s: State)
    requires rank > 1
    ensures (exists i | 0 <= i < |ps| ::
               VoiceOf(ps[i], a, s).Speaks? && VoiceOf(ps[i], a, s).decision.Rank() == rank) <==>
            exists p | p in ps :: exists d :: Answers(p, a, s, d) && d.Rank() == rank
  {
    if i :| 0 <= i < |ps| && VoiceOf(ps[i], a, s).Speaks? && VoiceOf(ps[i], a, s).decision.Rank() == rank {
      assert ps[i] in ps && Answers(ps[i], a, s, VoiceOf(ps[i], a, s).decision);
    }
    if p :| p in ps && exists d :: Answers(p, a, s, d) && d.Rank() == rank {
      var i :| 0 <= i < |ps| && ps[i] == p;
      assert VoiceOf(ps[i], a, s).Speaks?;
    }
  }

  // ---- The record of a denial ----

  predicate Denies(p: ReflexPolicy, a: Action, s: State) {
    VoiceOf(p, a, s).Speaks? && VoiceOf(p, a, s).decision.Deny?
  }

  predicate IsOnlyDenier(ps: seq<ReflexPolicy>, k: nat, a: Action, s: State) {
    k < |ps| && forall j | 0 <= j < |ps| :: Denies(ps[j], a, s) <==> j == k
  }

  lemma {:induction false} FirstDenier(ps: seq<ReflexPolicy>, a: Action, s: State) returns (first: nat)
    requires |Voiced(ps, 3, a, s)| > 0
    ensures first < |ps| && Denies(ps[first], a, s)
    ensures Voiced(ps, 3, a, s)[0] == VoiceOf(ps[first], a, s).decision
    ensures forall k | 0 <= k < first :: !Denies(ps[k], a, s)
  {
    var init := ps[..|ps| - 1];
    if |Voiced(init, 3, a, s)| > 0 {
      first := FirstDenier(init, a, s);
      assert forall k | 0 <= k < |init| :: init[k] == ps[k];
    } else {
      first := |ps| - 1;
      VoicedComplete(init, 3, a, s);
      forall k | 0 <= k < first
        ensures !Denies(ps[k], a, s)
      {
        assert init[k] == ps[k];
      }
    }
  }

  lemma {:induction false} LastDenier(ps: seq<ReflexPolicy>, a: Action, s: State) returns (last: nat)
    requires |Voiced(ps, 3, a, s)| > 0
    ensures last < |ps| && Denies(ps[last], a, s)
    ensures LastVoiced(ps, 3, a, s) == Some(ps[last])
    ensures forall k | last < k < |ps| :: !Denies(ps[k], a, s)
  {
    last := |ps| - 1;
    if !Denies(ps[last], a, s) {
      var init := ps[..|ps| - 1];
      last := LastDenier(init, a, s);
      assert forall k | 0 <= k < |init| :: init[k] == ps[k];
    }
  }

  /** The record of every denial by consensus takes its id from the first denying policy and its criticality from the
      last one, so that both are about one policy if and only if a single policy denies. */
  lemma RecordMixesTwoPolicies(ps: seq<ReflexPolicy>, a: Action, s: State, order: IdOrder)
      returns (first: nat, last: nat)
    requires FirstCriticalFault(ps, a, s) == |ps| && Ruling(ps, a, s, order).Deny?
    ensures first <= last < |ps| && Denies(ps[first], a, s) && Denies(ps[last], a, s)
    ensures forall k | 0 <= k < |ps| && Denies(ps[k], a, s) :: first <= k <= last
    ensures RulingRecord(ps, a, s, order).policyId == Some(VoiceOf(ps[first], a, s).decision.policyId)
    ensures RulingRecord(ps, a, s, order).criticality == Some(ps[last].criticality)
    ensures first == last <==> exists k: nat :: IsOnlyDenier(ps, k, a, s)
  {
    first := FirstDenier(ps, a, s);
    last := LastDenier(ps, a, s);
    if first == last {
      assert IsOnlyDenier(ps, first, a, s);
    }
  }
}
