/** The observers behind joinpoints that are no plugin hooks (runtime-observers.ts): queue depth, task registry and
    run phases, each a small state machine over the host's events. */
module RuntimeObservers {
  import opened Options
  import opened Strings

  // ---- Queue depth ----

  /** A JavaScript value passed as a depth. */
  datatype Depth = NotANumber | NotFinite | Finite(r: real)

  datatype QueueEvent =
    | BeforeEnqueue(key: string, depthBefore: int, depthAfter: int)
    | BeforeCollect(key: string, depthBefore: int, depthAfter: int)

  datatype QueueOp = Poll(key: string, depth: int) | Native(sessionKey: Option<string>, reported: Depth)

  function DepthOf(depths: map<string, int>, key: string): int {
    if key in depths then depths[key] else 0
  }

  /** The key a native report is recorded under, if it is recorded. */
  function RecordedKey(op: QueueOp): Option<string>
    requires op.Native?
  {
    if op.sessionKey.None? || JsTrim(op.sessionKey.value) == "" || !op.reported.Finite? then None
    else Some(JsTrim(op.sessionKey.value))
  }

  function RecordedDepth(r: real): nat {
    if r.Floor < 0 then 0 else r.Floor
  }

  function QueueStep(depths: map<string, int>, op: QueueOp): map<string, int> {
    match op
    case Poll(key, depth) => depths[key := depth]
    case Native(_, reported) =>
      if RecordedKey(op).None? then depths else depths[RecordedKey(op).value := RecordedDepth(reported.r)]
  }

  /** The events of one poll: the depth went up, or it went down from a positive depth. */
  function DepthEvents(key: string, prev: int, next: int): seq<QueueEvent> {
    (if next > prev then [BeforeEnqueue(key, prev, next)] else [])
    + (if next < prev && prev > 0 then [BeforeCollect(key, prev, next)] else [])
  }

  function Depths(ops: seq<QueueOp>): map<string, int> {
    if |ops| == 0 then map[] else QueueStep(Depths(ops[..|ops| - 1]), ops[|ops| - 1])
  }

  /** Everything the polls emit over a run. */
  function QueueEvents(ops: seq<QueueOp>): seq<QueueEvent> {
    if |ops| == 0 then []
    else
      var init, last := ops[..|ops| - 1], ops[|ops| - 1];
      QueueEvents(init) +
      if last.Poll? then DepthEvents(last.key, DepthOf(Depths(init), last.key), last.depth) else []
  }

  /** Sum of depth changes reported by the events of one key. */
  function ReportedChange(events: seq<QueueEvent>, key: string): int {
    if |events| == 0 then 0
    else
      var last := events[|events| - 1];
      ReportedChange(events[..|events| - 1], key)
      + if last.key == key then last.depthAfter - last.depthBefore else 0
  }

  /** Sum of the jumps that native reports make in the recorded depth of one key. */
  function NativeChange(ops: seq<QueueOp>, key: string): int {
    if |ops| == 0 then 0
    else
      var init, last := ops[..|ops| - 1], ops[|ops| - 1];
      NativeChange(init, key)
      + if last.Native? && RecordedKey(last) == Some(key)
        then RecordedDepth(last.reported.r) - DepthOf(Depths(init), key) else 0
  }

  lemma {:induction false} ReportedChangeConcat(first: seq<QueueEvent>, second: seq<QueueEvent>, key: string)
    ensures ReportedChange(first + second, key) == ReportedChange(first, key) + ReportedChange(second, key)
  {
    if |second| == 0 {
      assert first + second == first;
    } else {
      ReportedChangeConcat(first, second[..|second| - 1], key);
      assert (first + second)[..|first + second| - 1] == first + second[..|second| - 1];
    }
  }

  lemma ChangeOfPoll(key: string, prev: int, next: int, asked: string)
    ensures ReportedChange(DepthEvents(key, prev, next), asked) ==
            if asked != key || (next < prev && prev <= 0) then 0 else next - prev
  {
    var events := DepthEvents(key, prev, next);
    assert |events| <= 1;
    assert |events| == 1 ==> events[..0] == [];
  }

  /** One poll reports exactly the change of depth, unless it falls from a depth that is not positive. */
  lemma PollReportsChange(key: string, prev: int, next: int)
    ensures ReportedChange(DepthEvents(key, prev, next), key) == next - prev <==> !(next < prev && prev <= 0)
  {
    ChangeOfPoll(key, prev, next, key);
  }

  predicate NaturalPolls(ops: seq<QueueOp>) {
    forall i | 0 <= i < |ops| && ops[i].Poll? :: ops[i].depth >= 0
  }

  lemma {:induction false} NaturalDepths(ops: seq<QueueOp>, key: string)
    requires NaturalPolls(ops)
    ensures DepthOf(Depths(ops), key) >= 0
  {
    if |ops| > 0 {
      NaturalDepths(ops[..|ops| - 1], key);
    }
  }

  /** How far the polls of a key fell from depths that were not positive. */
  function Unreported(ops: seq<QueueOp>, key: string): nat {
    if |ops| == 0 then 0
    else
      var init, last := ops[..|ops| - 1], ops[|ops| - 1];
      var prev := DepthOf(Depths(init), key);
      Unreported(init, key) + if last.Poll? && last.key == key && last.depth < prev <= 0 then prev - last.depth else 0
  }

  lemma ReportedStep(ops: seq<QueueOp>, key: string)
    requires |ops| > 0
    ensures var init, last := ops[..|ops| - 1], ops[|ops| - 1];
            ReportedChange(QueueEvents(ops), key) == ReportedChange(QueueEvents(init), key)
            + if last.Poll? && last.key == key && !(last.depth < DepthOf(Depths(init), key) <= 0)
              then last.depth - DepthOf(Depths(init), key) else 0
  {
    var init, last := ops[..|ops| - 1], ops[|ops| - 1];
    match last
    case Poll(k, depth) =>
      var prev := DepthOf(Depths(init), k);
      ChangeOfPoll(k, prev, depth, key);
      ReportedChangeConcat(QueueEvents(init), DepthEvents(k, prev, depth), key);
    case Native(_, _) =>
      assert QueueEvents(ops) == QueueEvents(init);
  }

  /** Over every run, the depth of a key is what the polls report for it and its native reports add, less what falls
      unreported. */
  lemma {:induction false} DepthAccount(ops: seq<QueueOp>, key: string)
    ensures DepthOf(Depths(ops), key) ==
            ReportedChange(QueueEvents(ops), key) + NativeChange(ops, key) - Unreported(ops, key)
  {
    if |ops| > 0 {
      DepthAccount(ops[..|ops| - 1], key);
      ReportedStep(ops, key);
    }
  }

  /** The value a key was last given, by a poll or a recorded native report. */
  function LastGiven(ops: seq<QueueOp>, key: string): int {
    if |ops| == 0 then 0
    else
      var last := ops[|ops| - 1];
      match last
      case Poll(k, depth) => if k == key then depth else LastGiven(ops[..|ops| - 1], key)
      case Native(_, reported) =>
        if RecordedKey(last) == Some(key) then RecordedDepth(reported.r) else LastGiven(ops[..|ops| - 1], key)
  }

  lemma {:induction false} DepthIsLastGiven(ops: seq<QueueOp>, key: string)
    ensures DepthOf(Depths(ops), key) == LastGiven(ops, key)
  {
    if |ops| > 0 {
      DepthIsLastGiven(ops[..|ops| - 1], key);
    }
  }

  /** The poll at `n` falls from a last given depth that is not positive. */
  predicate FallsUnseen(ops: seq<QueueOp>, key: string, n: nat) {
    n < |ops| && ops[n].Poll? && ops[n].key == key && ops[n].depth < LastGiven(ops[..n], key) <= 0
  }

  lemma FallsUnseenBefore(ops: seq<QueueOp>, key: string, n: nat)
    requires n + 1 < |ops|
    ensures FallsUnseen(ops, key, n) <==> FallsUnseen(ops[..|ops| - 1], key, n)
  {
    assert ops[..|ops| - 1][..n] == ops[..n];
  }

  ghost predicate HasFall(ops: seq<QueueOp>, key: string) { exists n: nat :: FallsUnseen(ops, key, n) }

  lemma HasFallStep(ops: seq<QueueOp>, key: string)
    requires |ops| > 0
    ensures HasFall(ops, key) <==> HasFall(ops[..|ops| - 1], key) || FallsUnseen(ops, key, |ops| - 1)
  {
    var init := ops[..|ops| - 1];
    if n: nat :| FallsUnseen(init, key, n) {
      FallsUnseenBefore(ops, key, n);
    }
    if n: nat :| FallsUnseen(ops, key, n) {
      if n < |ops| - 1 {
        FallsUnseenBefore(ops, key, n);
      }
    }
  }

  lemma {:induction false} UnreportedExactlyWhen(ops: seq<QueueOp>, key: string)
    ensures Unreported(ops, key) > 0 <==> HasFall(ops, key)
  {
    if |ops| > 0 {
      UnreportedExactlyWhen(ops[..|ops| - 1], key);
      DepthIsLastGiven(ops[..|ops| - 1], key);
      HasFallStep(ops, key);
    }
  }

  /** For every run and any depths: the changes the polls report for a key and the jumps of its native reports add up to
      its depth if and only if no poll of the key falls from a last given depth that is not positive. */
  lemma DepthIsSumExactlyWhen(ops: seq<QueueOp>, key: string)
    ensures DepthOf(Depths(ops), key) == ReportedChange(QueueEvents(ops), key) + NativeChange(ops, key) <==>
            !exists n: nat :: FallsUnseen(ops, key, n)
  {
    DepthAccount(ops, key);
    UnreportedExactlyWhen(ops, key);
  }

  /** So they always do when the polls count items. */
  lemma DepthIsSumOfChanges(ops: seq<QueueOp>, key: string)
    requires NaturalPolls(ops)
    ensures DepthOf(Depths(ops), key) == ReportedChange(QueueEvents(ops), key) + NativeChange(ops, key)
  {
    DepthIsSumExactlyWhen(ops, key);
    forall n: nat
      ensures !FallsUnseen(ops, key, n)
    {
      if n < |ops| {
        NaturalDepths(ops[..n], key);
        DepthIsLastGiven(ops[..n], key);
      }
    }
  }

  /** Some poll of the run reports this event, and the event starts at the depth last given before that poll. */
  predicate FromLastDepth(ops: seq<QueueOp>, e: QueueEvent) {
    exists n | 0 <= n < |ops| ::
      ops[n].Poll? && ops[n].key == e.key && ops[n].depth == e.depthAfter && e.depthBefore == LastGiven(ops[..n], e.key)
  }

  /** Every event of every run starts at the depth last given for its key. */
  lemma {:induction false} EventsStartAtLastDepth(ops: seq<QueueOp>)
    ensures forall e | e in QueueEvents(ops) :: FromLastDepth(ops, e)
  {
    if |ops| > 0 {
      var init, last, n := ops[..|ops| - 1], ops[|ops| - 1], |ops| - 1;
      EventsStartAtLastDepth(init);
      forall e | e in QueueEvents(ops)
        ensures FromLastDepth(ops, e)
      {
        if e in QueueEvents(init) {
          var m :| 0 <= m < n && init[m].Poll? && init[m].key == e.key && init[m].depth == e.depthAfter &&
                   e.depthBefore == LastGiven(init[..m], e.key);
          assert init[..m] == ops[..m] && ops[m] == init[m];
        } else {
          DepthIsLastGiven(init, last.key);
          assert e in DepthEvents(last.key, DepthOf(Depths(init), last.key), last.depth);
          assert ops[..n] == init && ops[n] == last;
        }
      }
    }
  }

  /** The poll at `n` reports this event: an enqueue when it rises above the depth last given, a collect when it falls
      from a positive one. */
  predicate ReportedAt(ops: seq<QueueOp>, n: nat, e: QueueEvent) {
    && n < |ops| && ops[n] == Poll(e.key, e.depthAfter) && e.depthBefore == LastGiven(ops[..n], e.key)
    && (e.BeforeEnqueue? ==> e.depthBefore < e.depthAfter)
    && (e.BeforeCollect? ==> e.depthBefore > e.depthAfter && e.depthBefore > 0)
  }

  lemma EventOfPoll(key: string, prev: int, next: int, e: QueueEvent)
    ensures e in DepthEvents(key, prev, next) <==>
            && e.key == key && e.depthBefore == prev && e.depthAfter == next
            && (e.BeforeEnqueue? ==> prev < next) && (e.BeforeCollect? ==> prev > next && prev > 0)
  {
  }

  lemma ReportedBefore(ops: seq<QueueOp>, n: nat, e: QueueEvent)
    requires n + 1 < |ops|
    ensures ReportedAt(ops, n, e) <==> ReportedAt(ops[..|ops| - 1], n, e)
  {
    assert ops[..|ops| - 1][..n] == ops[..n];
  }

  /** Over every run, the events are exactly those that some poll reports. */
  lemma {:induction false} QueueEventsExactly(ops: seq<QueueOp>, e: QueueEvent)
    ensures e in QueueEvents(ops) <==> exists n: nat :: ReportedAt(ops, n, e)
  {
    if |ops| > 0 {
      var init, last, n := ops[..|ops| - 1], ops[|ops| - 1], |ops| - 1;
      QueueEventsExactly(init, e);
      DepthIsLastGiven(init, e.key);
      assert ops[..n] == init;
      if last.Poll? {
        EventOfPoll(last.key, DepthOf(Depths(init), last.key), last.depth, e);
      }
      assert e in QueueEvents(ops) <==> e in QueueEvents(init) || ReportedAt(ops, n, e);
      if e in QueueEvents(init) {
        var m: nat :| ReportedAt(init, m, e);
        ReportedBefore(ops, m, e);
      }
      if m: nat :| ReportedAt(ops, m, e) {
        if m < n {
          ReportedBefore(ops, m, e);
        }
      }
    }
  }

  /** A native report of a finite number for a key that is not blank sets the depth of the trimmed key to that number
      rounded down, or to zero when it is negative; every other report changes nothing. */
  lemma NativeReportGives(depths: map<string, int>, sessionKey: Option<string>, reported: Depth, key: string)
    ensures var after := QueueStep(depths, Native(sessionKey, reported));
            if reported.Finite? && sessionKey.Some? && JsTrim(sessionKey.value) == key != "" then
              && DepthOf(after, key) >= 0
              && (reported.r < 0.0 ==> DepthOf(after, key) == 0)
              && (reported.r >= 0.0 ==> DepthOf(after, key) as real <= reported.r < DepthOf(after, key) as real + 1.0)
            else DepthOf(after, key) == DepthOf(depths, key)
  {
  }

  // ---- Tasks ----

  const TERMINAL: set<string> := {"succeeded", "failed", "timed_out", "cancelled", "lost"}

  datatype Task = Task(id: string, status: string, title: string)

  datatype TaskEvent =
    | BeforeCreate(session: string, id: string, status: string, title: string)
    | AfterCreate(session: string, id: string, status: string, title: string)
    | BeforeTerminal(session: string, id: string, status: string, previous: string)

  /** `next`: the statuses of one poll. */
  function Statuses(tasks: seq<Task>): map<string, string> {
    if |tasks| == 0 then map[]
    else Statuses(tasks[..|tasks| - 1])[tasks[|tasks| - 1].id := tasks[|tasks| - 1].status]
  }

  function EventsOfTask(session: string, prev: map<string, string>, t: Task): seq<TaskEvent> {
    if t.id !in prev then
      [BeforeCreate(session, t.id, t.status, t.title), AfterCreate(session, t.id, t.status, t.title)]
    else if prev[t.id] !in TERMINAL && t.status in TERMINAL then
      [BeforeTerminal(session, t.id, t.status, prev[t.id])]
    else []
  }

  function EventsOfPoll(session: string, prev: map<string, string>, tasks: seq<Task>): seq<TaskEvent> {
    if |tasks| == 0 then []
    else EventsOfPoll(session, prev, tasks[..|tasks| - 1]) + EventsOfTask(session, prev, tasks[|tasks| - 1])
  }

  datatype TaskPoll = TaskPoll(session: string, tasks: seq<Task>)

  predicate DistinctTasks(tasks: seq<Task>) {
    forall i, j | 0 <= i < j < |tasks| :: tasks[i].id != tasks[j].id
  }

  /** The statuses of the session's last poll in a run. */
  function Known(run: seq<TaskPoll>, session: string): map<string, string> {
    if |run| == 0 then map[]
    else if run[|run| - 1].session == session then Statuses(run[|run| - 1].tasks)
    else Known(run[..|run| - 1], session)
  }

  function TaskEvents(run: seq<TaskPoll>): seq<TaskEvent> {
    if |run| == 0 then []
    else
      var init, last := run[..|run| - 1], run[|run| - 1];
      TaskEvents(init) + EventsOfPoll(last.session, Known(init, last.session), last.tasks)
  }

  function Count(events: seq<TaskEvent>, p: TaskEvent -> bool): nat {
    if |events| == 0 then 0
    else Count(events[..|events| - 1], p) + if p(events[|events| - 1]) then 1 else 0
  }

  lemma {:induction false} CountConcat(first: seq<TaskEvent>, second: seq<TaskEvent>, p: TaskEvent -> bool)
    ensures Count(first + second, p) == Count(first, p) + Count(second, p)
  {
    if |second| == 0 {
      assert first + second == first;
    } else {
      CountConcat(first, second[..|second| - 1], p);
      assert (first + second)[..|first + second| - 1] == first + second[..|second| - 1];
    }
  }

  function Creates(session: string, id: string): TaskEvent -> bool {
    (e: TaskEvent) => e.BeforeCreate? && e.session == session && e.id == id
  }

  function Terminates(session: string, id: string): TaskEvent -> bool {
    (e: TaskEvent) => e.BeforeTerminal? && e.session == session && e.id == id
  }

  predicate Appears(prev: map<string, string>, next: map<string, string>, id: string) {
    id !in prev && id in next
  }

  predicate Finishes(prev: map<string, string>, next: map<string, string>, id: string) {
    id in prev && id in next && prev[id] !in TERMINAL && next[id] in TERMINAL
  }

  lemma CountOfTask(own: string, prev: map<string, string>, t: Task, session: string, id: string)
    ensures Count(EventsOfTask(own, prev, t), Creates(session, id)) ==
            if own == session && t.id == id && id !in prev then 1 else 0
    ensures Count(EventsOfTask(own, prev, t), Terminates(session, id)) ==
            if own == session && t.id == id && id in prev && prev[id] !in TERMINAL && t.status in TERMINAL then 1 else 0
  {
    var events := EventsOfTask(own, prev, t);
    if |events| == 2 {
      assert events[..1] == [events[0]] && events[..1][..0] == [];
    } else if |events| == 1 {
      assert events[..0] == [];
    }
  }

  lemma {:induction false} StatusesMembers(tasks: seq<Task>, id: string)
    ensures id in Statuses(tasks) <==> exists i | 0 <= i < |tasks| :: tasks[i].id == id
  {
    if |tasks| > 0 {
      StatusesMembers(tasks[..|tasks| - 1], id);
    }
  }

  /** In one poll with distinct ids, a task is created once when it appears, and ends once when it finishes. */
  lemma {:induction false} CountOfPoll(session: string, prev: map<string, string>, tasks: seq<Task>, id: string)
    requires DistinctTasks(tasks)
    ensures Count(EventsOfPoll(session, prev, tasks), Creates(session, id)) ==
            if Appears(prev, Statuses(tasks), id) then 1 else 0
    ensures Count(EventsOfPoll(session, prev, tasks), Terminates(session, id)) ==
            if Finishes(prev, Statuses(tasks), id) then 1 else 0
  {
    if |tasks| > 0 {
      var init, t := tasks[..|tasks| - 1], tasks[|tasks| - 1];
      CountOfPoll(session, prev, init, id);
      CountOfTask(session, prev, t, session, id);
      StatusesMembers(init, t.id);
      assert t.id !in Statuses(init);
      CountConcat(EventsOfPoll(session, prev, init), EventsOfTask(session, prev, t), Creates(session, id));
      CountConcat(EventsOfPoll(session, prev, init), EventsOfTask(session, prev, t), Terminates(session, id));
    }
  }

  lemma {:induction false} OtherSessionsCountNothing(
    session: string, other: string, prev: map<string, string>, tasks: seq<Task>, id: string)
    requires session != other
    ensures Count(EventsOfPoll(other, prev, tasks), Creates(session, id)) == 0
    ensures Count(EventsOfPoll(other, prev, tasks), Terminates(session, id)) == 0
  {
    if |tasks| > 0 {
      var init, events := tasks[..|tasks| - 1], EventsOfTask(other, prev, tasks[|tasks| - 1]);
      OtherSessionsCountNothing(session, other, prev, init, id);
      CountConcat(EventsOfPoll(other, prev, init), events, Creates(session, id));
      CountConcat(EventsOfPoll(other, prev, init), events, Terminates(session, id));
      CountOfTask(other, prev, tasks[|tasks| - 1], session, id);
    }
  }

  /** How often a task of a session goes from absent to present between consecutive polls of that session. */
  function AppearEdges(run: seq<TaskPoll>, session: string, id: string): nat {
    if |run| == 0 then 0
    else
      var init, last := run[..|run| - 1], run[|run| - 1];
      AppearEdges(init, session, id)
      + if last.session == session && Appears(Known(init, session), Statuses(last.tasks), id) then 1 else 0
  }

  /** How often it goes from a non-terminal to a terminal status. */
  function FinishEdges(run: seq<TaskPoll>, session: string, id: string): nat {
    if |run| == 0 then 0
    else
      var init, last := run[..|run| - 1], run[|run| - 1];
      FinishEdges(init, session, id)
      + if last.session == session && Finishes(Known(init, session), Statuses(last.tasks), id) then 1 else 0
  }

  /** Over every run of polls with distinct ids, creations count the appearances and endings count the finishes. */
  lemma {:induction false} TaskEventsCountEdges(run: seq<TaskPoll>, session: string, id: string)
    requires forall n | 0 <= n < |run| :: DistinctTasks(run[n].tasks)
    ensures Count(TaskEvents(run), Creates(session, id)) == AppearEdges(run, session, id)
    ensures Count(TaskEvents(run), Terminates(session, id)) == FinishEdges(run, session, id)
  {
    if |run| > 0 {
      var init, last := run[..|run| - 1], run[|run| - 1];
      TaskEventsCountEdges(init, session, id);
      var events := EventsOfPoll(last.session, Known(init, last.session), last.tasks);
      CountConcat(TaskEvents(init), events, Creates(session, id));
      CountConcat(TaskEvents(init), events, Terminates(session, id));
      if last.session == session {
        CountOfPoll(session, Known(init, session), last.tasks, id);
      } else {
        OtherSessionsCountNothing(session, last.session, Known(init, last.session), last.tasks, id);
      }
    }
  }

  /** Every creation is announced before and, as the very next event, after. */
  predicate Paired(events: seq<TaskEvent>) {
    && (forall i | 0 <= i < |events| && events[i].BeforeCreate? ::
          i + 1 < |events| &&
          events[i + 1] == AfterCreate(events[i].session, events[i].id, events[i].status, events[i].title))
    && (forall i | 0 <= i < |events| && events[i].AfterCreate? :: i > 0 && events[i - 1].BeforeCreate?)
  }

  lemma PairedConcat(first: seq<TaskEvent>, second: seq<TaskEvent>)
    requires Paired(first) && Paired(second)
    ensures Paired(first + second)
  {
    var all := first + second;
    forall i | 0 <= i < |all|
      ensures i < |first| ==> all[i] == first[i]
      ensures i >= |first| ==> all[i] == second[i - |first|]
    {
    }
  }

  lemma {:induction false} PollIsPaired(session: string, prev: map<string, string>, tasks: seq<Task>)
    ensures Paired(EventsOfPoll(session, prev, tasks))
  {
    if |tasks| > 0 {
      PollIsPaired(session, prev, tasks[..|tasks| - 1]);
      PairedConcat(EventsOfPoll(session, prev, tasks[..|tasks| - 1]), EventsOfTask(session, prev, tasks[|tasks| - 1]));
    }
  }

  lemma {:induction false} TaskEventsArePaired(run: seq<TaskPoll>)
    ensures Paired(TaskEvents(run))
  {
    if |run| > 0 {
      var init, last := run[..|run| - 1], run[|run| - 1];
      TaskEventsArePaired(init);
      PollIsPaired(last.session, Known(init, last.session), last.tasks);
      PairedConcat(TaskEvents(init), EventsOfPoll(last.session, Known(init, last.session), last.tasks));
    }
  }

  /** A known task appeared at some poll of its session and was in every poll of that session since. */
  lemma {:induction false} KnownSince(run: seq<TaskPoll>, session: string, id: string) returns (m: nat)
    requires id in Known(run, session)
    ensures m < |run| && run[m].session == session
    ensures Appears(Known(run[..m], session), Statuses(run[m].tasks), id)
    ensures forall j | m <= j < |run| && run[j].session == session :: id in Statuses(run[j].tasks)
  {
    var init, last := run[..|run| - 1], run[|run| - 1];
    if last.session == session && id !in Known(init, session) {
      m := |run| - 1;
      assert run[..m] == init;
    } else {
      m := KnownSince(init, session, id);
      assert run[..m] == init[..m];
    }
  }

  /** Every ending is preceded by a creation of the same task, with the task in every poll of the session since. */
  lemma EndingFollowsCreation(run: seq<TaskPoll>, n: nat, session: string, id: string) returns (m: nat)
    requires forall i | 0 <= i < |run| :: DistinctTasks(run[i].tasks)
    requires n < |run| && run[n].session == session
    requires Count(EventsOfPoll(session, Known(run[..n], session), run[n].tasks), Terminates(session, id)) > 0
    ensures m < n && run[m].session == session
    ensures Count(EventsOfPoll(session, Known(run[..m], session), run[m].tasks), Creates(session, id)) == 1
    ensures forall j | m <= j <= n && run[j].session == session :: id in Statuses(run[j].tasks)
  {
    CountOfPoll(session, Known(run[..n], session), run[n].tasks, id);
    m := KnownSince(run[..n], session, id);
    assert run[..n][..m] == run[..m];
    CountOfPoll(session, Known(run[..m], session), run[m].tasks, id);
    forall j | m <= j <= n && run[j].session == session
      ensures id in Statuses(run[j].tasks)
    {
      assert j < n ==> run[..n][j] == run[j];
    }
  }

  /** The poll at `n` reports this event about one of its tasks: a creation when the last poll of the session did not
      know the task, an ending when it knew it under a status that was not final and now it has a final one. */
  predicate TellsOf(session: string, prev: map<string, string>, t: Task, e: TaskEvent) {
    && e.session == session && e.id == t.id && e.status == t.status
    && match e
       case BeforeCreate(_, _, _, title) => t.id !in prev && title == t.title
       case AfterCreate(_, _, _, title) => t.id !in prev && title == t.title
       case BeforeTerminal(_, _, _, previous) =>
         && t.id in prev && previous == prev[t.id]
         && previous !in {"succeeded", "failed", "timed_out", "cancelled", "lost"}
         && t.status in {"succeeded", "failed", "timed_out", "cancelled", "lost"}
  }

  lemma EventOfTask(session: string, prev: map<string, string>, t: Task, e: TaskEvent)
    ensures e in EventsOfTask(session, prev, t) <==> TellsOf(session, prev, t, e)
  {
  }

  lemma {:induction false} EventsOfPollExactly(
    session: string, prev: map<string, string>, tasks: seq<Task>, e: TaskEvent)
    ensures e in EventsOfPoll(session, prev, tasks) <==> exists t | t in tasks :: TellsOf(session, prev, t, e)
  {
    if |tasks| > 0 {
      var init, last := tasks[..|tasks| - 1], tasks[|tasks| - 1];
      EventsOfPollExactly(session, prev, init, e);
      EventOfTask(session, prev, last, e);
      assert tasks == init + [last];
    }
  }

  predicate ToldAt(run: seq<TaskPoll>, n: nat, e: TaskEvent) {
    n < |run| && exists t | t in run[n].tasks :: TellsOf(run[n].session, Known(run[..n], run[n].session), t, e)
  }

  /** Over every run, the events are exactly those that some poll reports about one of its tasks. */
  lemma {:induction false} TaskEventsExactly(run: seq<TaskPoll>, e: TaskEvent)
    ensures e in TaskEvents(run) <==> exists n: nat :: ToldAt(run, n, e)
  {
    if |run| > 0 {
      var init, last, n := run[..|run| - 1], run[|run| - 1], |run| - 1;
      TaskEventsExactly(init, e);
      assert run[..n] == init;
      EventsOfPollExactly(last.session, Known(init, last.session), last.tasks, e);
      forall m: nat | m < n
        ensures ToldAt(run, m, e) <==> ToldAt(init, m, e)
      {
        assert init[..m] == run[..m];
      }
      assert e in TaskEvents(run) <==> e in TaskEvents(init) || ToldAt(run, n, e);
    }
  }

  /** What a session knows of a task is its status at the last place it has in the last poll of the session. */
  lemma {:induction false} KnownIsLastStatus(run: seq<TaskPoll>, n: nat, session: string, i: nat)
    requires n < |run| && run[n].session == session && forall m | n < m < |run| :: run[m].session != session
    requires i < |run[n].tasks| && forall j | i < j < |run[n].tasks| :: run[n].tasks[j].id != run[n].tasks[i].id
    ensures var t := run[n].tasks[i]; t.id in Known(run, session) && Known(run, session)[t.id] == t.status
  {
    if n == |run| - 1 {
      StatusIsLast(run[n].tasks, i);
    } else {
      KnownIsLastStatus(run[..|run| - 1], n, session, i);
    }
  }

  lemma {:induction false} StatusIsLast(tasks: seq<Task>, i: nat)
    requires i < |tasks| && forall j | i < j < |tasks| :: tasks[j].id != tasks[i].id
    ensures tasks[i].id in Statuses(tasks) && Statuses(tasks)[tasks[i].id] == tasks[i].status
  {
    if i < |tasks| - 1 {
      StatusIsLast(tasks[..|tasks| - 1], i);
    }
  }

  // ---- Run phases ----

  datatype AgentEvent = AgentEvent(runId: string, stream: string, phase: Option<string>)

  predicate Starts(e: AgentEvent, run: string) {
    e.runId == run && e.stream == "lifecycle" && e.phase == Some("start")
  }

  predicate Ends(e: AgentEvent, run: string) {
    e.runId == run && e.stream == "lifecycle" && (e.phase == Some("end") || e.phase == Some("error"))
  }

  /** `agentEventRunningJoinpoint` maps the event. */
  predicate ShowsWork(e: AgentEvent) {
    (e.stream == "item" && e.phase == Some("start")) || e.stream == "assistant" || e.stream == "tool"
  }

  /** The running phase is emitted for this event. */
  predicate Emits(running: set<string>, e: AgentEvent) {
    e.stream != "lifecycle" && e.runId in running && ShowsWork(e)
  }

  function RunStep(running: set<string>, e: AgentEvent): set<string> {
    if e.stream == "lifecycle" then
      if e.phase == Some("start") then running + {e.runId}
      else if e.phase == Some("end") || e.phase == Some("error") then running - {e.runId}
      else running
    else if Emits(running, e) then running - {e.runId}
    else running
  }

  function Running(events: seq<AgentEvent>): set<string> {
    if |events| == 0 then {} else RunStep(Running(events[..|events| - 1]), events[|events| - 1])
  }

  predicate EmittedAt(events: seq<AgentEvent>, n: nat, run: string)
    requires n < |events|
  {
    events[n].runId == run && Emits(Running(events[..n]), events[n])
  }

  function StartCount(events: seq<AgentEvent>, run: string): nat {
    if |events| == 0 then 0
    else StartCount(events[..|events| - 1], run) + if Starts(events[|events| - 1], run) then 1 else 0
  }

  function EmitCount(events: seq<AgentEvent>, run: string): nat {
    if |events| == 0 then 0
    else EmitCount(events[..|events| - 1], run) + if EmittedAt(events, |events| - 1, run) then 1 else 0
  }

  /** In every prefix the running phase is emitted at most once per start. */
  lemma {:induction false} EmissionsNeverExceedStarts(events: seq<AgentEvent>, run: string)
    ensures EmitCount(events, run) + (if run in Running(events) then 1 else 0) <= StartCount(events, run)
  {
    if |events| > 0 {
      EmissionsNeverExceedStarts(events[..|events| - 1], run);
    }
  }

  /** An open start: nothing since has ended the run or announced it as running. */
  predicate OpenStart(events: seq<AgentEvent>, m: nat, run: string) {
    && m < |events|
    && Starts(events[m], run)
    && forall j | m < j < |events| :: !Ends(events[j], run) && !EmittedAt(events, j, run)
  }

  /** A run is held as running exactly when it has an open start. */
  lemma {:induction false} RunningIffOpenStart(events: seq<AgentEvent>, run: string)
    ensures run in Running(events) <==> exists m: nat :: OpenStart(events, m, run)
  {
    if |events| > 0 {
      var init, last, n := events[..|events| - 1], events[|events| - 1], |events| - 1;
      RunningIffOpenStart(init, run);
      forall m: nat | m < n
        ensures OpenStart(events, m, run) <==>
                OpenStart(init, m, run) && !Ends(last, run) && !EmittedAt(events, n, run)
      {
        forall j | m < j < n
          ensures events[j] == init[j] && (EmittedAt(events, j, run) <==> EmittedAt(init, j, run))
        {
          assert events[..j] == init[..j];
        }
      }
      if Starts(last, run) {
        assert OpenStart(events, n, run);
      }
    }
  }

  /** The running phase is emitted exactly for the first event that shows work after an open start. */
  lemma EmissionNeedsOpenStart(events: seq<AgentEvent>, n: nat, run: string)
    requires n < |events|
    ensures EmittedAt(events, n, run) <==>
            && events[n].runId == run && events[n].stream != "lifecycle" && ShowsWork(events[n])
            && exists m: nat :: OpenStart(events[..n], m, run)
  {
    RunningIffOpenStart(events[..n], run);
  }

  /** The same with the events spelled out: the running phase is emitted for an item that starts, for assistant text and
      for a tool, when the run has started and since then has neither ended, nor failed, nor been emitted. */
  lemma EmittedExactly(events: seq<AgentEvent>, n: nat, run: string)
    requires n < |events|
    ensures EmittedAt(events, n, run) <==>
            && events[n].runId == run
            && (events[n].stream in {"assistant", "tool"} ||
                (events[n].stream == "item" && events[n].phase == Some("start")))
            && exists m: nat | m < n ::
                 && events[m] == AgentEvent(run, "lifecycle", Some("start"))
                 && forall j: nat | m < j < n ::
                      && events[j] != AgentEvent(run, "lifecycle", Some("end"))
                      && events[j] != AgentEvent(run, "lifecycle", Some("error"))
                      && !EmittedAt(events, j, run)
  {
    EmissionNeedsOpenStart(events, n, run);
    forall m: nat | m < n
      ensures OpenStart(events[..n], m, run) <==>
              && events[m] == AgentEvent(run, "lifecycle", Some("start"))
              && forall j: nat | m < j < n ::
                   && events[j] != AgentEvent(run, "lifecycle", Some("end"))
                   && events[j] != AgentEvent(run, "lifecycle", Some("error"))
                   && !EmittedAt(events, j, run)
    {
      OpenStartMeans(events, n, m, run);
    }
  }

  lemma OpenStartMeans(events: seq<AgentEvent>, n: nat, m: nat, run: string)
    requires m < n < |events|
    ensures OpenStart(events[..n], m, run) <==>
            && events[m] == AgentEvent(run, "lifecycle", Some("start"))
            && forall j: nat | m < j < n ::
                 && events[j] != AgentEvent(run, "lifecycle", Some("end"))
                 && events[j] != AgentEvent(run, "lifecycle", Some("error"))
                 && !EmittedAt(events, j, run)
  {
    forall j: nat | j < n
      ensures events[..n][j] == events[j] && (EmittedAt(events[..n], j, run) <==> EmittedAt(events, j, run))
    {
      assert events[..n][..j] == events[..j];
    }
    forall j: nat | j < n
      ensures Ends(events[j], run) <==> events[j] == AgentEvent(run, "lifecycle", Some("end")) ||
                                        events[j] == AgentEvent(run, "lifecycle", Some("error"))
    {
    }
  }

  /** The joinpoint an agent event is observed as, apart from the running phase. */
  function MappedJoinpoint(e: AgentEvent): Option<string> {
    match e.stream
    case "lifecycle" =>
      if e.phase == Some("start") then Some("reply_run.before_begin")
      else if e.phase == Some("error") then Some("error.detected")
      else None
    case "command_output" => Some("command.output_stream")
    case "patch" => Some("patch.summary_created")
    case "plan" => Some("planning.plan_updated")
    case "compaction" =>
      if e.phase == Some("start") then Some("before_memory_write")
      else if e.phase == Some("end") then Some("after_memory_write")
      else None
    case "approval" => if e.phase == Some("requested") then Some("approval.requested") else None
    case _ => None
  }

  /** Which events are observed as which joinpoints. */
  lemma MappedExactly(e: AgentEvent)
    ensures MappedJoinpoint(e) == Some("reply_run.before_begin") <==>
            e.stream == "lifecycle" && e.phase == Some("start")
    ensures MappedJoinpoint(e) == Some("error.detected") <==> e.stream == "lifecycle" && e.phase == Some("error")
    ensures MappedJoinpoint(e) == Some("before_memory_write") <==> e.stream == "compaction" && e.phase == Some("start")
    ensures MappedJoinpoint(e) == Some("after_memory_write") <==> e.stream == "compaction" && e.phase == Some("end")
    ensures MappedJoinpoint(e) == Some("approval.requested") <==> e.stream == "approval" && e.phase == Some("requested")
    ensures MappedJoinpoint(e) == Some("command.output_stream") <==> e.stream == "command_output"
    ensures MappedJoinpoint(e) == Some("patch.summary_created") <==> e.stream == "patch"
    ensures MappedJoinpoint(e) == Some("planning.plan_updated") <==> e.stream == "plan"
  {
  }

  // ---- The module state ----

  lemma DepthsSnoc(ops: seq<QueueOp>, op: QueueOp)
    ensures Depths(ops + [op]) == QueueStep(Depths(ops), op)
  {
    assert (ops + [op])[..|ops + [op]| - 1] == ops;
  }

  lemma KnownSnoc(run: seq<TaskPoll>, poll: TaskPoll, session: string)
    ensures Known(run + [poll], session) ==
            if poll.session == session then Statuses(poll.tasks) else Known(run, session)
  {
    assert (run + [poll])[..|run + [poll]| - 1] == run;
  }

  lemma RunningSnoc(events: seq<AgentEvent>, e: AgentEvent)
    ensures Running(events + [e]) == RunStep(Running(events), e)
  {
    assert (events + [e])[..|events + [e]| - 1] == events;
  }

  class Observers {
    var trackedSessionKeys: set<string>
    var queueDepthByKey: map<string, int>
    var taskStatusBySession: map<string, map<string, string>>
    var runningRuns: set<string>

    ghost var queueOps: seq<QueueOp>
    ghost var taskPolls: seq<TaskPoll>
    ghost var agentEvents: seq<AgentEvent>

    /** Each field is what the operations so far leave. */
    ghost predicate Valid()
      reads this
    {
      && queueDepthByKey == Depths(queueOps)
      && (forall s: string :: KnownTasks(s) == Known(taskPolls, s))
      && runningRuns == Running(agentEvents)
    }

    function KnownTasks(session: string): map<string, string>
      reads this`taskStatusBySession
    {
      if session in taskStatusBySession then taskStatusBySession[session] else map[]
    }

    constructor ()
      ensures Valid() && queueOps == [] && taskPolls == [] && agentEvents == []
    {
      trackedSessionKeys, queueDepthByKey, taskStatusBySession, runningRuns := {}, map[], map[], {};
      queueOps, taskPolls, agentEvents := [], [], [];
    }

    method RecordQueueDepthSnapshot(sessionKey: Option<string>, depth: Depth)
      requires Valid()
      modifies this`trackedSessionKeys, this`queueDepthByKey, this`queueOps
      ensures Valid() && queueOps == old(queueOps) + [Native(sessionKey, depth)]
      ensures trackedSessionKeys == old(trackedSessionKeys) +
              var k := RecordedKey(Native(sessionKey, depth)); if k.Some? then {k.value} else {}
    {
      DepthsSnoc(queueOps, Native(sessionKey, depth));
      queueOps := queueOps + [Native(sessionKey, depth)];
      if sessionKey.None? || JsTrim(sessionKey.value) == "" || !depth.Finite? {
        return;
      }
      var key := JsTrim(sessionKey.value);
      trackedSessionKeys := trackedSessionKeys + {key};
      var floor := depth.r.Floor;
      queueDepthByKey := queueDepthByKey[key := if 0 > floor then 0 else floor];
    }

    method DiffQueueDepth(sessionKey: string, nextDepth: int) returns (out: seq<QueueEvent>)
      requires Valid()
      modifies this`queueDepthByKey, this`queueOps
      ensures Valid() && queueOps == old(queueOps) + [Poll(sessionKey, nextDepth)]
      ensures QueueEvents(queueOps) == QueueEvents(old(queueOps)) + out
    {
      DepthsSnoc(queueOps, Poll(sessionKey, nextDepth));
      assert (queueOps + [Poll(sessionKey, nextDepth)])[..|queueOps|] == queueOps;
      queueOps := queueOps + [Poll(sessionKey, nextDepth)];
      var prev := if sessionKey in queueDepthByKey then queueDepthByKey[sessionKey] else 0;
      queueDepthByKey := queueDepthByKey[sessionKey := nextDepth];
      out := [];
      if nextDepth > prev {
        out := out + [BeforeEnqueue(sessionKey, prev, nextDepth)];
      }
      if nextDepth < prev && prev > 0 {
        out := out + [BeforeCollect(sessionKey, prev, nextDepth)];
      }
      assert out == DepthEvents(sessionKey, prev, nextDepth);
    }

    /** The loop of `diffTaskSnapshots`. */
    method CompareTasks(sessionKey: string, prev: map<string, string>, tasks: seq<Task>)
      returns (next: map<string, string>, events: seq<TaskEvent>)
      ensures next == Statuses(tasks) && events == EventsOfPoll(sessionKey, prev, tasks)
    {
      next, events := map[], [];
      for i := 0 to |tasks|
        invariant next == Statuses(tasks[..i])
        invariant events == EventsOfPoll(sessionKey, prev, tasks[..i])
      {
        assert tasks[..i + 1][..i] == tasks[..i];
        var task := tasks[i];
        next := next[task.id := task.status];
        if task.id !in prev {
          events := events + [BeforeCreate(sessionKey, task.id, task.status, task.title)];
          events := events + [AfterCreate(sessionKey, task.id, task.status, task.title)];
          continue;
        }
        if prev[task.id] !in TERMINAL && task.status in TERMINAL {
          events := events + [BeforeTerminal(sessionKey, task.id, task.status, prev[task.id])];
        }
      }
      assert tasks[..|tasks|] == tasks;
    }

    method DiffTaskSnapshots(sessionKey: string, tasks: seq<Task>) returns (events: seq<TaskEvent>)
      requires Valid()
      modifies this`taskStatusBySession, this`taskPolls
      ensures Valid() && taskPolls == old(taskPolls) + [TaskPoll(sessionKey, tasks)]
      ensures TaskEvents(taskPolls) == TaskEvents(old(taskPolls)) + events
    {
      var poll := TaskPoll(sessionKey, tasks);
      forall s: string {
        KnownSnoc(taskPolls, poll, s);
      }
      assert (taskPolls + [poll])[..|taskPolls|] == taskPolls;
      if sessionKey !in taskStatusBySession {
        taskStatusBySession := taskStatusBySession[sessionKey := map[]];
      }
      var prev := taskStatusBySession[sessionKey];
      assert prev == Known(taskPolls, sessionKey);
      var next;
      next, events := CompareTasks(sessionKey, prev, tasks);
      taskStatusBySession := taskStatusBySession[sessionKey := next];
      taskPolls := taskPolls + [poll];
    }

    /** The listener: the mapped joinpoint, and whether the running phase is emitted. */
    method OnAgentEvent(e: AgentEvent) returns (mapped: Option<string>, running: bool)
      requires Valid()
      modifies this`runningRuns, this`agentEvents
      ensures Valid() && agentEvents == old(agentEvents) + [e]
      ensures mapped == MappedJoinpoint(e)
      ensures running <==> EmittedAt(agentEvents, |old(agentEvents)|, e.runId)
    {
      RunningSnoc(agentEvents, e);
      assert (agentEvents + [e])[..|agentEvents|] == agentEvents;
      agentEvents := agentEvents + [e];
      mapped := MappedJoinpoint(e);
      if e.stream == "lifecycle" {
        if e.phase == Some("start") {
          runningRuns := runningRuns + {e.runId};
        }
        if e.phase == Some("end") || e.phase == Some("error") {
          runningRuns := runningRuns - {e.runId};
        }
        return mapped, false;
      }
      if e.runId !in runningRuns {
        return mapped, false;
      }
      if !ShowsWork(e) {
        return mapped, false;
      }
      runningRuns := runningRuns - {e.runId};
      running := true;
    }
  }
}
