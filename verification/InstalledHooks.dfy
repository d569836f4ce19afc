/** The pending-injection buffer between host events and host pick-up points (hooks.py). */
module InstalledHooks {
  import opened Options
  import opened InjectionTree
  import opened Injectors
  import opened ToolGuard

  datatype Entry = Entry(joinpoint: string, rows: seq<Row>)

  predicate IsGuardJoinpoint(name: string) { name == "before_tool_call" }

  /** Entries that one `apply_to` call folds into the context. */
  predicate Applicable(e: Entry, joinpoint: Option<string>) {
    (joinpoint.None? || e.joinpoint == joinpoint.value) && !IsGuardJoinpoint(e.joinpoint)
  }

  // ---- The buffer with its history ----

  /** Every capture gets the next number; the numbers say where each capture went. */
  datatype History = History(
    captured: seq<Entry>, pending: seq<nat>, applied: seq<nat>, guarded: seq<nat>, dropped: seq<nat>)
  {
    predicate InRange() {
      forall i | 0 <= i < |pending| :: pending[i] < |captured|
    }

    /** The buffered entries, oldest first. */
    function Entries(): seq<Entry>
      requires InRange()
    {
      seq(|pending|, i requires 0 <= i < |pending| => captured[pending[i]])
    }
  }

  const EMPTY := History([], [], [], [], [])

  /** The numbers whose entries are applicable (or the others), in order. */
  function Filter(captured: seq<Entry>, ids: seq<nat>, joinpoint: Option<string>, applicable: bool): (r: seq<nat>)
    requires forall i | 0 <= i < |ids| :: ids[i] < |captured|
    ensures forall i | 0 <= i < |r| :: r[i] in ids && r[i] < |captured|
    ensures forall i | 0 <= i < |r| :: Applicable(captured[r[i]], joinpoint) == applicable
  {
    if |ids| == 0 then []
    else
      var init := Filter(captured, ids[..|ids| - 1], joinpoint, applicable);
      var last := ids[|ids| - 1];
      if Applicable(captured[last], joinpoint) == applicable then init + [last] else init
  }

  /** Position of the newest guard entry, or -1. */
  function NewestGuard(entries: seq<Entry>): (k: int)
    ensures -1 <= k < |entries|
    ensures k >= 0 ==> IsGuardJoinpoint(entries[k].joinpoint)
    ensures forall i | k < i < |entries| :: !IsGuardJoinpoint(entries[i].joinpoint)
  {
    if |entries| == 0 then -1
    else if IsGuardJoinpoint(entries[|entries| - 1].joinpoint) then |entries| - 1
    else
      var k := NewestGuard(entries[..|entries| - 1]);
      assert forall i | k < i < |entries| - 1 :: entries[..|entries| - 1][i] == entries[i];
      k
  }

  datatype Op =
    | Fire(joinpoint: Option<string>, injection: Option<seq<Row>>)
    | ApplyTo(only: Option<string>, drain: bool)
    | GuardToolCall(decoded: bool, drain: bool)
    | Clear

  function RemoveAt(ids: seq<nat>, k: nat): seq<nat>
    requires k < |ids|
  {
    ids[..k] + ids[k + 1..]
  }

  function Step(h: History, op: Op): (r: History)
    requires h.InRange()
    ensures r.InRange()
  {
    match op
    case Fire(jp, inj) =>
      if jp.Some? && inj.Some? && |inj.value| > 0 then
        h.(captured := h.captured + [Entry(jp.value, inj.value)], pending := h.pending + [|h.captured|])
      else h
    case ApplyTo(only, drain) =>
      if drain then
        h.(pending := Filter(h.captured, h.pending, only, false),
           applied := h.applied + Filter(h.captured, h.pending, only, true))
      else h
    case GuardToolCall(decoded, drain) =>
      var k := NewestGuard(h.Entries());
      if k >= 0 && decoded && drain then
        h.(pending := RemoveAt(h.pending, k), guarded := h.guarded + [h.pending[k]])
      else h
    case Clear => h.(pending := [], dropped := h.dropped + h.pending)
  }

  // ---- Every run ----

  function AllIds(n: nat): multiset<nat> {
    if n == 0 then multiset{} else AllIds(n - 1) + multiset{n - 1}
  }

  /** The pending numbers grow strictly, so the buffer is in capture order. */
  predicate InCaptureOrder(ids: seq<nat>) {
    forall i, j | 0 <= i < j < |ids| :: ids[i] < ids[j]
  }

  /** Every capture is pending, applied, guarded or dropped, and exactly once. */
  ghost predicate Accounted(h: History) {
    && h.InRange()
    && InCaptureOrder(h.pending)
    && multiset(h.pending) + multiset(h.applied) + multiset(h.guarded) + multiset(h.dropped) == AllIds(|h.captured|)
    && Placed(h)
  }

  /** Only other entries are applied, and only guard entries guarded. */
  ghost predicate Placed(h: History) {
    && (forall id | id in h.applied :: id < |h.captured| && !IsGuardJoinpoint(h.captured[id].joinpoint))
    && (forall id | id in h.guarded :: id < |h.captured| && IsGuardJoinpoint(h.captured[id].joinpoint))
  }

  lemma {:induction false} FilterSplits(captured: seq<Entry>, ids: seq<nat>, only: Option<string>)
    requires forall i | 0 <= i < |ids| :: ids[i] < |captured|
    ensures multiset(Filter(captured, ids, only, true)) + multiset(Filter(captured, ids, only, false)) == multiset(ids)
  {
    if |ids| > 0 {
      FilterSplits(captured, ids[..|ids| - 1], only);
      assert ids == ids[..|ids| - 1] + [ids[|ids| - 1]];
    }
  }

  lemma {:induction false} FilterKeepsOrder(captured: seq<Entry>, ids: seq<nat>, only: Option<string>, applicable: bool)
    requires forall i | 0 <= i < |ids| :: ids[i] < |captured|
    requires InCaptureOrder(ids)
    ensures InCaptureOrder(Filter(captured, ids, only, applicable))
  {
    if |ids| > 0 {
      var init := ids[..|ids| - 1];
      FilterKeepsOrder(captured, init, only, applicable);
      var kept := Filter(captured, init, only, applicable);
      forall j | 0 <= j < |kept|
        ensures kept[j] < ids[|ids| - 1]
      {
        var i :| 0 <= i < |init| && init[i] == kept[j];
        assert ids[i] == kept[j];
      }
    }
  }

  lemma RemoveAtSplits(ids: seq<nat>, k: nat)
    requires k < |ids|
    ensures multiset(RemoveAt(ids, k)) + multiset{ids[k]} == multiset(ids)
    ensures InCaptureOrder(ids) ==> InCaptureOrder(RemoveAt(ids, k))
  {
    assert ids == ids[..k] + [ids[k]] + ids[k + 1..];
    if InCaptureOrder(ids) {
      var r := RemoveAt(ids, k);
      assert forall i | 0 <= i < |r| :: r[i] == ids[if i < k then i else i + 1];
    }
  }

  lemma OneMoreOnBothSides(p: multiset<nat>, a: multiset<nat>, g: multiset<nat>, d: multiset<nat>, all: multiset<nat>,
        n: nat)
    requires p + a + g + d == all
    ensures (p + multiset{n}) + a + g + d == all + multiset{n}
  {
  }

  lemma MovedAcross(p: multiset<nat>, a: multiset<nat>, g: multiset<nat>, d: multiset<nat>, all: multiset<nat>,
        gone: multiset<nat>, kept: multiset<nat>)
    requires p + a + g + d == all && gone + kept == p
    ensures kept + (a + gone) + g + d == all
  {
  }

  lemma FireKeepsAccount(h: History, e: Entry)
    requires Accounted(h)
    ensures Accounted(h.(captured := h.captured + [e], pending := h.pending + [|h.captured|]))
  {
    var n := |h.captured|;
    AllIdsStep(n);
    assert multiset(h.pending + [n]) == multiset(h.pending) + multiset{n};
    OneMoreOnBothSides(
      multiset(h.pending), multiset(h.applied), multiset(h.guarded), multiset(h.dropped), AllIds(n), n);
    CapturesStay(h, e);
  }

  lemma AllIdsStep(n: nat)
    ensures AllIds(n + 1) == AllIds(n) + multiset{n}
  {
  }

  lemma CapturesStay(h: History, e: Entry)
    requires Accounted(h)
    ensures var after := h.(captured := h.captured + [e], pending := h.pending + [|h.captured|]);
            after.InRange() && Placed(after) && InCaptureOrder(after.pending)
  {
    var pending := h.pending + [|h.captured|];
    forall i, j | 0 <= i < j < |pending|
      ensures pending[i] < pending[j]
    {
      assert j < |h.pending| ==> pending[j] == h.pending[j];
    }
  }

  lemma ApplyKeepsPlaces(h: History, only: Option<string>)
    requires Accounted(h)
    ensures Placed(Step(h, ApplyTo(only, true)))
  {
    var gone := Filter(h.captured, h.pending, only, true);
    forall id | id in h.applied + gone
      ensures id < |h.captured| && !IsGuardJoinpoint(h.captured[id].joinpoint)
    {
      if id in gone {
        var i :| 0 <= i < |gone| && gone[i] == id;
      }
    }
  }

  lemma ApplyKeepsAccount(h: History, only: Option<string>)
    requires Accounted(h)
    ensures Accounted(Step(h, ApplyTo(only, true)))
  {
    var gone, kept := Filter(h.captured, h.pending, only, true), Filter(h.captured, h.pending, only, false);
    FilterSplits(h.captured, h.pending, only);
    FilterKeepsOrder(h.captured, h.pending, only, false);
    ApplyKeepsPlaces(h, only);
    assert multiset(h.applied + gone) == multiset(h.applied) + multiset(gone);
    MovedAcross(multiset(h.pending), multiset(h.applied), multiset(h.guarded), multiset(h.dropped),
                AllIds(|h.captured|), multiset(gone), multiset(kept));
  }

  lemma GuardKeepsAccount(h: History, k: nat)
    requires Accounted(h) && k < |h.pending| && IsGuardJoinpoint(h.captured[h.pending[k]].joinpoint)
    ensures Accounted(h.(pending := RemoveAt(h.pending, k), guarded := h.guarded + [h.pending[k]]))
  {
    RemoveAtSplits(h.pending, k);
    assert multiset(h.guarded + [h.pending[k]]) == multiset(h.guarded) + multiset{h.pending[k]};
  }

  lemma ClearKeepsAccount(h: History)
    requires Accounted(h)
    ensures Accounted(Step(h, Clear))
  {
    assert multiset(h.dropped + h.pending) == multiset(h.dropped) + multiset(h.pending);
  }

  lemma StepKeepsAccount(h: History, op: Op)
    requires Accounted(h)
    ensures Accounted(Step(h, op))
  {
    match op
    case Fire(jp, inj) =>
      if jp.Some? && inj.Some? {
        FireKeepsAccount(h, Entry(jp.value, inj.value));
      }
    case ApplyTo(only, drain) => ApplyKeepsAccount(h, only);
    case GuardToolCall(_, _) =>
      var k := NewestGuard(h.Entries());
      if k >= 0 {
        GuardKeepsAccount(h, k);
      }
    case Clear => ClearKeepsAccount(h);
  }

  function Run(ops: seq<Op>): (h: History)
    ensures h.InRange()
  {
    if |ops| == 0 then EMPTY else Step(Run(ops[..|ops| - 1]), ops[|ops| - 1])
  }

  lemma RunSnoc(ops: seq<Op>, op: Op)
    ensures Run(ops + [op]) == Step(Run(ops), op)
  {
    assert (ops + [op])[..|ops + [op]| - 1] == ops;
  }

  /** The account holds after every run. */
  lemma {:induction false} RunIsAccounted(ops: seq<Op>)
    ensures Accounted(Run(ops))
  {
    if |ops| > 0 {
      RunIsAccounted(ops[..|ops| - 1]);
      StepKeepsAccount(Run(ops[..|ops| - 1]), ops[|ops| - 1]);
    }
  }

  lemma {:induction false} AllIdsOnce(n: nat, id: nat)
    ensures AllIds(n)[id] == if id < n then 1 else 0
  {
    if n > 0 {
      AllIdsOnce(n - 1, id);
    }
  }

  /** Conservation, capture by capture: over every run, each capture is in exactly one place exactly once. */
  lemma EachCaptureOnce(ops: seq<Op>, id: nat)
    ensures var h := Run(ops);
            multiset(h.pending)[id] + multiset(h.applied)[id] + multiset(h.guarded)[id] + multiset(h.dropped)[id]
            == if id < |h.captured| then 1 else 0
  {
    var h := Run(ops);
    RunIsAccounted(ops);
    AllIdsOnce(|h.captured|, id);
    assert (multiset(h.pending) + multiset(h.applied) + multiset(h.guarded) + multiset(h.dropped))[id]
        == AllIds(|h.captured|)[id];
  }

  lemma {:induction false} NothingDroppedWithoutClear(ops: seq<Op>)
    requires forall i | 0 <= i < |ops| :: !ops[i].Clear?
    ensures Run(ops).dropped == []
  {
    if |ops| > 0 {
      NothingDroppedWithoutClear(ops[..|ops| - 1]);
    }
  }

  lemma NewestIsGreatest(h: History)
    requires h.InRange() && InCaptureOrder(h.pending) && NewestGuard(h.Entries()) >= 0
    ensures forall id | id in h.pending && IsGuardJoinpoint(h.captured[id].joinpoint) ::
              id <= h.pending[NewestGuard(h.Entries())]
  {
    var k := NewestGuard(h.Entries());
    forall id | id in h.pending && IsGuardJoinpoint(h.captured[id].joinpoint)
      ensures id <= h.pending[k]
    {
      var i :| 0 <= i < |h.pending| && h.pending[i] == id;
      assert h.Entries()[i] == h.captured[id];
    }
  }

  /** What a guard call consumes is the newest guard capture still pending. */
  lemma GuardTakesNewest(h: History, op: Op)
    requires Accounted(h) && op.GuardToolCall? && Step(h, op) != h
    ensures var taken := Step(h, op).guarded[|h.guarded|];
            && |Step(h, op).guarded| == |h.guarded| + 1
            && taken in h.pending && IsGuardJoinpoint(h.captured[taken].joinpoint)
            && forall id | id in h.pending && IsGuardJoinpoint(h.captured[id].joinpoint) :: id <= taken
  {
    NewestIsGreatest(h);
  }

  // ---- What a pick-up yields ----

  function EntryRows(entries: seq<Entry>): seq<Row> {
    if |entries| == 0 then [] else EntryRows(entries[..|entries| - 1]) + entries[|entries| - 1].rows
  }

  /** The applicable entries (or the others), in order. */
  function FilterEntries(entries: seq<Entry>, only: Option<string>, applicable: bool): seq<Entry> {
    if |entries| == 0 then []
    else
      var init := FilterEntries(entries[..|entries| - 1], only, applicable);
      var last := entries[|entries| - 1];
      if Applicable(last, only) == applicable then init + [last] else init
  }

  function EntriesAt(captured: seq<Entry>, ids: seq<nat>): (es: seq<Entry>)
    requires forall i | 0 <= i < |ids| :: ids[i] < |captured|
    ensures |es| == |ids| && forall i | 0 <= i < |ids| :: es[i] == captured[ids[i]]
  {
    seq(|ids|, i requires 0 <= i < |ids| => captured[ids[i]])
  }

  lemma {:induction false} FilteredEntries(captured: seq<Entry>, ids: seq<nat>, only: Option<string>, applicable: bool)
    requires forall i | 0 <= i < |ids| :: ids[i] < |captured|
    ensures EntriesAt(captured, Filter(captured, ids, only, applicable))
         == FilterEntries(EntriesAt(captured, ids), only, applicable)
  {
    if |ids| > 0 {
      FilteredEntries(captured, ids[..|ids| - 1], only, applicable);
      assert EntriesAt(captured, ids)[..|ids| - 1] == EntriesAt(captured, ids[..|ids| - 1]);
    }
  }

  /** One application of all applicable rows, in capture order. */
  function PickUp(pending: seq<Entry>, only: Option<string>, context: Tree, promptEnabled: bool): Tree {
    ApplyRows(context, EntryRows(FilterEntries(pending, only, true)), promptEnabled)
  }

  // ---- Which captures a pick-up takes, by their names ----

  /** A pick-up for this name, or for any, takes the captures of that name, or all, but leaves those that wait for a
      tool call. */
  predicate TakenBy(name: string, only: Option<string>) {
    name != "before_tool_call" && (only == None || only == Some(name))
  }

  lemma {:induction false} FilterMembers(
    captured: seq<Entry>, ids: seq<nat>, only: Option<string>, applicable: bool, id: nat)
    requires forall i | 0 <= i < |ids| :: ids[i] < |captured|
    ensures id in Filter(captured, ids, only, applicable) <==>
            id in ids && TakenBy(captured[id].joinpoint, only) == applicable
  {
    if |ids| > 0 {
      FilterMembers(captured, ids[..|ids| - 1], only, applicable, id);
      assert ids == ids[..|ids| - 1] + [ids[|ids| - 1]];
    }
  }

  /** A draining pick-up moves exactly the pending captures that it asks for, in capture order, to those applied, and
      leaves every other where it is. */
  lemma PickUpTakesByName(h: History, only: Option<string>)
    requires h.InRange() && InCaptureOrder(h.pending)
    ensures var r := Step(h, ApplyTo(only, true));
            && (forall id :: id in r.pending <==> id in h.pending && !TakenBy(h.captured[id].joinpoint, only))
            && InCaptureOrder(r.pending)
            && |r.applied| >= |h.applied| && r.applied[..|h.applied|] == h.applied
            && (forall id :: id in r.applied[|h.applied|..] <==>
                  id in h.pending && TakenBy(h.captured[id].joinpoint, only))
            && InCaptureOrder(r.applied[|h.applied|..])
            && r == h.(pending := r.pending, applied := r.applied)
    ensures Step(h, ApplyTo(only, false)) == h
  {
    var taken := Filter(h.captured, h.pending, only, true);
    assert (h.applied + taken)[|h.applied|..] == taken;
    FilterKeepsOrder(h.captured, h.pending, only, true);
    FilterKeepsOrder(h.captured, h.pending, only, false);
    forall id
      ensures id in taken <==> id in h.pending && TakenBy(h.captured[id].joinpoint, only)
      ensures id in Filter(h.captured, h.pending, only, false) <==>
              id in h.pending && !TakenBy(h.captured[id].joinpoint, only)
    {
      if id in h.pending {
        FilterMembers(h.captured, h.pending, only, true, id);
        FilterMembers(h.captured, h.pending, only, false, id);
      }
    }
  }

  /** The operation is a draining pick-up for the name or for any name. */
  predicate AsksFor(op: Op, name: string) {
    op == ApplyTo(None, true) || op == ApplyTo(Some(name), true)
  }

  /** The capture was pending when a draining pick-up asked for its name, or for any. */
  ghost predicate WasAskedFor(ops: seq<Op>, id: nat, name: string) {
    exists i | 0 <= i < |ops| :: id in Run(ops[..i]).pending && AsksFor(ops[i], name)
  }

  lemma AskedForLater(ops: seq<Op>, op: Op, id: nat, name: string)
    requires WasAskedFor(ops, id, name) || (id in Run(ops).pending && AsksFor(op, name))
    ensures WasAskedFor(ops + [op], id, name)
  {
    var all := ops + [op];
    if i :| 0 <= i < |ops| && id in Run(ops[..i]).pending && AsksFor(ops[i], name) {
      assert all[..i] == ops[..i] && all[i] == ops[i];
    } else {
      assert all[..|ops|] == ops && all[|ops|] == op;
    }
  }

  lemma CapturesAreKept(h: History, op: Op, id: nat)
    requires h.InRange() && id < |h.captured|
    ensures id < |Step(h, op).captured| && Step(h, op).captured[id] == h.captured[id]
  {
  }

  /** Over every run, what was applied was asked for. */
  lemma {:induction false} AppliedWasAskedFor(ops: seq<Op>, id: nat)
    requires id in Run(ops).applied
    ensures id < |Run(ops).captured| && WasAskedFor(ops, id, Run(ops).captured[id].joinpoint)
  {
    if |ops| > 0 {
      var init, op := ops[..|ops| - 1], ops[|ops| - 1];
      var h := Run(init);
      assert ops == init + [op];
      if id in h.applied {
        AppliedWasAskedFor(init, id);
        CapturesAreKept(h, op, id);
      } else {
        AppliedInStep(h, op, id);
      }
      AskedForLater(init, op, id, h.captured[id].joinpoint);
    }
  }

  lemma AppliedInStep(h: History, op: Op, id: nat)
    requires h.InRange() && id in Step(h, op).applied && id !in h.applied
    ensures id in h.pending && AsksFor(op, h.captured[id].joinpoint) && Step(h, op).captured == h.captured
  {
    FilterMembers(h.captured, h.pending, op.only, true, id);
  }

  lemma {:induction false} TakenEntries(pending: seq<Entry>, e: Entry, only: Option<string>)
    ensures EntryRows(FilterEntries(pending + [e], only, true)) ==
            EntryRows(FilterEntries(pending, only, true)) + if TakenBy(e.joinpoint, only) then e.rows else []
  {
    assert (pending + [e])[..|pending|] == pending;
    var before := FilterEntries(pending, only, true);
    assert (before + [e])[..|before|] == before;
  }

  /** What a pick-up makes of the context, entry by entry: one more pending entry is put on top if it is taken, and is
      passed over otherwise. */
  lemma PickUpStep(pending: seq<Entry>, e: Entry, only: Option<string>, context: Tree, promptEnabled: bool)
    ensures PickUp([], only, context, promptEnabled) == context
    ensures PickUp(pending + [e], only, context, promptEnabled) ==
            if e.joinpoint != "before_tool_call" && (only == None || only == Some(e.joinpoint))
            then ApplyRows(PickUp(pending, only, context, promptEnabled), e.rows, promptEnabled)
            else PickUp(pending, only, context, promptEnabled)
  {
    var rows := EntryRows(FilterEntries(pending, only, true));
    TakenEntries(pending, e, only);
    assert rows + [] == rows;
    ApplyRowsConcat(context, rows, e.rows, promptEnabled);
  }

  /** The entries captured at the joinpoint. */
  function CapturedAt(pending: seq<Entry>, name: string): seq<Entry> {
    if |pending| == 0 then []
    else
      var last := pending[|pending| - 1];
      CapturedAt(pending[..|pending| - 1], name) + if last.joinpoint == name then [last] else []
  }

  /** A pick-up for one name is a pick-up of everything from a buffer that only holds that name. */
  lemma {:induction false} PickUpByName(pending: seq<Entry>, name: string, context: Tree, promptEnabled: bool)
    ensures PickUp(pending, Some(name), context, promptEnabled) ==
            PickUp(CapturedAt(pending, name), None, context, promptEnabled)
  {
    if |pending| > 0 {
      var init, last := pending[..|pending| - 1], pending[|pending| - 1];
      PickUpByName(init, name, context, promptEnabled);
      assert pending == init + [last];
      PickUpStep(init, last, Some(name), context, promptEnabled);
      if last.joinpoint == name {
        PickUpStep(CapturedAt(init, name), last, None, context, promptEnabled);
      } else {
        assert CapturedAt(pending, name) == CapturedAt(init, name);
      }
    }
  }

  /** An event is captured exactly when it maps to a joinpoint and the runtime answers with rows; the capture is the
      newest of those pending. */
  lemma FireCapturesExactly(h: History, joinpoint: Option<string>, injection: Option<seq<Row>>)
    requires h.InRange()
    ensures var after := Step(h, Fire(joinpoint, injection));
            if joinpoint == None || injection == None || injection == Some([]) then after == h
            else
              && after.captured == h.captured + [Entry(joinpoint.value, injection.value)]
              && after.pending == h.pending + [|h.captured|]
              && after.applied == h.applied && after.guarded == h.guarded && after.dropped == h.dropped
  {
  }

  /** A guard call takes something exactly when it is decoded and drains and a capture of `before_tool_call` waits. */
  lemma GuardTakesExactlyWhen(h: History, decoded: bool, drain: bool)
    requires h.InRange()
    ensures Step(h, GuardToolCall(decoded, drain)) != h <==>
            decoded && drain && exists id | id in h.pending :: h.captured[id].joinpoint == "before_tool_call"
  {
    var k := NewestGuard(h.Entries());
    if id :| id in h.pending && h.captured[id].joinpoint == "before_tool_call" {
      var i :| 0 <= i < |h.pending| && h.pending[i] == id;
      assert h.Entries()[i] == h.captured[id];
    }
    if k >= 0 {
      assert h.Entries()[k] == h.captured[h.pending[k]];
    }
  }

  lemma EntriesAfterGuard(h: History, k: nat)
    requires h.InRange() && k == NewestGuard(h.Entries())
    ensures Step(h, GuardToolCall(true, true)).Entries() == h.Entries()[..k] + h.Entries()[k + 1..]
    ensures Step(h, GuardToolCall(true, false)) == h
  {
    var after := Step(h, GuardToolCall(true, true));
    assert |after.pending| == |h.pending| - 1 && after.captured == h.captured;
    forall i | 0 <= i < |after.pending|
      ensures after.Entries()[i] == (h.Entries()[..k] + h.Entries()[k + 1..])[i]
    {
      assert after.pending[i] == h.pending[if i < k then i else i + 1];
    }
  }

  // ---- The buffer object ----

  datatype GuardResult = NoAdvice | InvalidCall | Decoded(outcome: Outcome)

  class Hooks {
    const injector: OpenClawInjector
    var pending: seq<Entry>
    ghost var ops: seq<Op>

    /** The buffer is what the operations so far leave pending. */
    ghost predicate Valid()
      reads this
    {
      pending == Run(ops).Entries()
    }

    constructor (injector: OpenClawInjector)
      ensures Valid() && ops == [] && this.injector == injector
    {
      this.injector := injector;
      pending, ops := [], [];
    }

    /** The subscribed callback: the event was mapped to a joinpoint, or not, and the runtime answered. */
    method Callback(joinpoint: Option<string>, injection: Option<seq<Row>>)
      requires Valid()
      modifies this`pending, this`ops
      ensures Valid() && ops == old(ops) + [Fire(joinpoint, injection)]
    {
      RunSnoc(ops, Fire(joinpoint, injection));
      if joinpoint.Some? {
        if injection.Some? && |injection.value| > 0 {
          pending := pending + [Entry(joinpoint.value, injection.value)];
        }
      }
      ops := ops + [Fire(joinpoint, injection)];
      assert pending == Run(ops).Entries();
    }

    method ClearPending()
      requires Valid()
      modifies this`pending, this`ops
      ensures Valid() && ops == old(ops) + [Clear]
    {
      RunSnoc(ops, Clear);
      pending, ops := [], ops + [Clear];
    }

    /** The first loop of `apply_to`. */
    method Partition(only: Option<string>) returns (kept: seq<Entry>, applicable: seq<Entry>)
      ensures kept == FilterEntries(pending, only, false)
      ensures applicable == FilterEntries(pending, only, true)
    {
      kept, applicable := [], [];
      for i := 0 to |pending|
        invariant kept == FilterEntries(pending[..i], only, false)
        invariant applicable == FilterEntries(pending[..i], only, true)
      {
        assert pending[..i + 1][..i] == pending[..i];
        var entry := pending[i];
        if only.Some? && entry.joinpoint != only.value {
          kept := kept + [entry];
          continue;
        }
        if IsGuardJoinpoint(entry.joinpoint) {
          kept := kept + [entry];
          continue;
        }
        applicable := applicable + [entry];
      }
      assert pending[..|pending|] == pending;
    }

    /** `self._pending[:] = kept`, on request. */
    method Drain(kept: seq<Entry>, ghost only: Option<string>, drain: bool)
      requires Valid() && kept == FilterEntries(pending, only, false)
      modifies this`pending, this`ops
      ensures Valid() && ops == old(ops) + [Op.ApplyTo(only, drain)]
    {
      RunSnoc(ops, Op.ApplyTo(only, drain));
      FilteredEntries(Run(ops).captured, Run(ops).pending, only, false);
      assert pending == EntriesAt(Run(ops).captured, Run(ops).pending);
      if drain {
        pending := kept;
      }
      ops := ops + [Op.ApplyTo(only, drain)];
      assert pending == Run(ops).Entries();
    }

    /** `apply_to`: the applicable rows are folded in capture order, and drained on request. */
    method ApplyTo(context: HostDict, only: Option<string>, drain: bool) returns (out: HostDict)
      requires Valid() && context.Valid()
      modifies this`pending, this`ops
      ensures Valid() && ops == old(ops) + [Op.ApplyTo(only, drain)]
      ensures out.Valid() && fresh(out.Repr)
      ensures out.View() == PickUp(old(pending), only, old(context.View()), injector.injectIntoRuntimePrompt)
    {
      var kept;
      out, kept := Fold(context, only);
      Drain(kept, only, drain);
    }

    method Fold(context: HostDict, only: Option<string>) returns (out: HostDict, kept: seq<Entry>)
      requires context.Valid()
      ensures out.Valid() && fresh(out.Repr)
      ensures out.View() == PickUp(pending, only, context.View(), injector.injectIntoRuntimePrompt)
      ensures kept == FilterEntries(pending, only, false)
    {
      var applicable;
      kept, applicable := Partition(only);
      out := FoldEntries(context, applicable);
    }

    method FoldEntries(context: HostDict, applicable: seq<Entry>) returns (out: HostDict)
      requires context.Valid()
      ensures out.Valid() && fresh(out.Repr)
      ensures out.View() == ApplyRows(context.View(), EntryRows(applicable), injector.injectIntoRuntimePrompt)
    {
      if |applicable| == 0 {
        out := injector.DeepCopy(context);
        return;
      }
      ghost var tree := context.View();
      out := injector.Apply(applicable[0].rows, context);
      assert applicable[..1][..0] == [];
      assert EntryRows(applicable[..1]) == applicable[0].rows;
      for i := 1 to |applicable|
        invariant out.Valid() && fresh(out.Repr)
        invariant out.View() == ApplyRows(tree, EntryRows(applicable[..i]), injector.injectIntoRuntimePrompt)
      {
        assert applicable[..i + 1][..i] == applicable[..i];
        ApplyRowsConcat(tree, EntryRows(applicable[..i]), applicable[i].rows, injector.injectIntoRuntimePrompt);
        out := injector.Apply(applicable[i].rows, out);
      }
      assert applicable[..|applicable|] == applicable;
    }

    /** The backward search for a guard entry. */
    method FindNewest() returns (i: int)
      ensures i == NewestGuard(pending)
    {
      i := |pending| - 1;
      while i >= 0
        invariant -1 <= i < |pending|
        invariant forall j | i < j < |pending| :: !IsGuardJoinpoint(pending[j].joinpoint)
      {
        if IsGuardJoinpoint(pending[i].joinpoint) {
          return;
        }
        i := i - 1;
      }
    }

    /** `del self._pending[i]`, on request. */
    method Delete(i: nat, drain: bool)
      requires Valid() && i == NewestGuard(pending)
      modifies this`pending, this`ops
      ensures Valid() && ops == old(ops) + [Op.GuardToolCall(true, drain)]
    {
      RunSnoc(ops, Op.GuardToolCall(true, drain));
      EntriesAfterGuard(Run(ops), i);
      if drain {
        pending := pending[..i] + pending[i + 1..];
      }
      ops := ops + [Op.GuardToolCall(true, drain)];
    }

    /** `guard_tool_call`: newest guard entry first; without one, or with a call that fails validation, the buffer
        stays as it is. */
    method GuardToolCall(call: HostDict, drain: bool) returns (r: GuardResult)
      requires Valid() && call.Valid()
      modifies this`pending, this`ops
      ensures Valid()
      ensures r.NoAdvice? <==> NewestGuard(old(pending)) < 0
      ensures r.InvalidCall? <==> NewestGuard(old(pending)) >= 0 && ArgumentsOf(old(call.View())).None?
      ensures ops == if r.Decoded? then old(ops) + [Op.GuardToolCall(true, drain)] else old(ops)
      ensures !r.Decoded? ==> pending == old(pending)
      ensures r.Decoded? ==>
                && ArgumentsOf(old(call.View())).Some?
                && r.outcome.arguments.Valid()
                && r.outcome.State() ==
                   Meaning(ArgumentsOf(old(call.View())).value, old(pending)[NewestGuard(old(pending))].rows,
                           injector.injectIntoRuntimePrompt)
    {
      var i := FindNewest();
      if i < 0 {
        return NoAdvice;
      }
      var outcome := Guard(injector, call, pending[i].rows);
      if outcome.None? {
        return InvalidCall;
      }
      Delete(i, drain);
      r := Decoded(outcome.value);
    }
  }
}
