/** One owner for a PID file, over crashes and reused PIDs (_pidfile.py). */
module PidFiles {
  import opened Options

  /** What a file holds: an integer or something that does not parse as one. */
  datatype Content = Number(n: int) | Unreadable

  type FileState = Option<Content>

  predicate Alive(pid: int, live: set<int>) { pid > 0 && pid in live }

  /** The recorded PID is this process's own or that of another live one. */
  predicate Held(file: FileState, live: set<int>, pid: int) {
    file.Some? && file.value.Number? && (file.value.n == pid || Alive(file.value.n, live))
  }

  /** The processes of one machine and the file at one path. */
  class Host {
    var file: FileState
    var live: set<int>

    constructor (file: FileState, live: set<int>)
      ensures this.file == file && this.live == live
    {
      this.file, this.live := file, live;
    }

    method ReadPid() returns (r: Option<int>)
      ensures r == if file.Some? && file.value.Number? then Some(file.value.n) else None
    {
      r := None;
      if file.Some? {
        match file.value {
          case Number(n) => r := Some(n);
          case Unreadable =>
        }
      }
    }
  }

  class PidFile {
    const host: Host
    const pid: int
    var owned: bool

    constructor (host: Host, pid: int)
      ensures this.host == host && this.pid == pid && !owned
    {
      this.host, this.pid, owned := host, pid, false;
    }

    /** `acquired` is false where the program raises `PidFileError`. */
    method Acquire() returns (acquired: bool)
      modifies this, host`file
      ensures (host.file, owned) == AfterAcquire(old(host.file), host.live, pid, old(owned))
      ensures acquired == owned
    {
      if owned {
        return true;
      }
      if host.file.Some? {
        var existing := host.ReadPid();
        if existing.Some? && (existing.value == pid || Alive(existing.value, host.live)) {
          return false;
        }
        host.file := None;
      }
      host.file := Some(Number(pid));
      owned := true;
      acquired := true;
    }

    method Release()
      modifies this, host`file
      ensures (host.file, owned) == AfterRelease(old(host.file), pid, old(owned))
    {
      if !owned {
        return;
      }
      owned := false;
      var existing := host.ReadPid();
      if existing != Some(pid) {
        return;
      }
      host.file := None;
    }
  }

  function AfterAcquire(file: FileState, live: set<int>, pid: int, owned: bool): (FileState, bool) {
    if owned || Held(file, live, pid) then (file, owned) else (Some(Number(pid)), true)
  }

  function AfterRelease(file: FileState, pid: int, owned: bool): (FileState, bool) {
    (if owned && file == Some(Number(pid)) then None else file, false)
  }

  // ---- Every run ----

  /** A `PidFile` object: the PID of its process and whether it owns the path. */
  datatype Handle = Handle(pid: int, owned: bool)

  datatype World = World(file: FileState, live: set<int>, handles: map<nat, Handle>)

  /** A process starts, creates an object, acquires, releases, or dies without releasing. */
  datatype Event = Start(pid: int) | Create(id: nat, pid: int) | Acquire(id: nat) | Release(id: nat) | Crash(pid: int)

  function Step(w: World, e: Event): World {
    match e
    case Start(pid) => if pid > 0 then w.(live := w.live + {pid}) else w
    case Create(id, pid) =>
      if pid in w.live && id !in w.handles then w.(handles := w.handles[id := Handle(pid, false)]) else w
    case Acquire(id) =>
      if id !in w.handles then w
      else
        var h := w.handles[id];
        var (file, owned) := AfterAcquire(w.file, w.live, h.pid, h.owned);
        w.(file := file, handles := w.handles[id := h.(owned := owned)])
    case Release(id) =>
      if id !in w.handles then w
      else
        var h := w.handles[id];
        var (file, owned) := AfterRelease(w.file, h.pid, h.owned);
        w.(file := file, handles := w.handles[id := h.(owned := owned)])
    case Crash(pid) =>
      World(w.file, w.live - {pid}, map id | id in w.handles && w.handles[id].pid != pid :: w.handles[id])
  }

  function Run(start: World, events: seq<Event>): World {
    if |events| == 0 then start else Step(Run(start, events[..|events| - 1]), events[|events| - 1])
  }

  /** Any file may lie around at first, but nobody owns it. */
  predicate Initial(w: World) {
    (forall pid | pid in w.live :: pid > 0) &&
    (forall id | id in w.handles :: w.handles[id].pid in w.live && !w.handles[id].owned)
  }

  /** Objects belong to live processes; an owner's PID is what the file records; and there is at most one owner. */
  predicate SingleOwner(w: World) {
    && (forall pid | pid in w.live :: pid > 0)
    && (forall id | id in w.handles :: w.handles[id].pid in w.live)
    && (forall id | id in w.handles && w.handles[id].owned :: w.file == Some(Number(w.handles[id].pid)))
    && (forall i, j | i in w.handles && j in w.handles && w.handles[i].owned && w.handles[j].owned :: i == j)
  }

  lemma StepKeepsSingleOwner(w: World, e: Event)
    requires SingleOwner(w)
    ensures SingleOwner(Step(w, e))
  {
  }

  lemma {:induction false} AlwaysSingleOwner(start: World, events: seq<Event>)
    requires Initial(start)
    ensures SingleOwner(Run(start, events))
  {
    if |events| > 0 {
      AlwaysSingleOwner(start, events[..|events| - 1]);
      StepKeepsSingleOwner(Run(start, events[..|events| - 1]), events[|events| - 1]);
    }
  }

  /** An acquisition succeeds exactly when the object owns the path already or no live process, its own included, is
      recorded; and success means that the file records its PID. */
  lemma AcquiresExactlyWhen(start: World, events: seq<Event>, id: nat)
    requires Initial(start) && id in Run(start, events).handles
    ensures var w := Run(start, events);
            var w' := Step(w, Acquire(id));
            && (w'.handles[id].owned <==> w.handles[id].owned || !Held(w.file, w.live, w.handles[id].pid))
            && (w'.handles[id].owned ==> w'.file == Some(Number(w.handles[id].pid)))
            && (!w'.handles[id].owned ==> w' == w)
  {
    AlwaysSingleOwner(start, events);
    var w := Run(start, events);
    if !Step(w, Acquire(id)).handles[id].owned {
      assert w.handles[id := w.handles[id]] == w.handles;
    }
  }

  /** A release removes the file exactly when the object owns the path, and then the file records its own PID: a file
      that records another PID is never removed. */
  lemma ReleaseRemovesOwnFileOnly(start: World, events: seq<Event>, id: nat)
    requires Initial(start) && id in Run(start, events).handles
    ensures var w := Run(start, events);
            var w' := Step(w, Release(id));
            && !w'.handles[id].owned
            && (w'.file != w.file <==> w.handles[id].owned)
            && (w'.file != w.file ==> w.file == Some(Number(w.handles[id].pid)) && w'.file == None)
  {
    AlwaysSingleOwner(start, events);
  }

  /** While nobody owns the path, an object is refused exactly when the file records the PID of a live process. */
  lemma RefusedThoughFreeExactlyWhen(start: World, events: seq<Event>, id: nat)
    requires Initial(start) && id in Run(start, events).handles
    requires forall i | i in Run(start, events).handles :: !Run(start, events).handles[i].owned
    ensures var w := Run(start, events);
            !Step(w, Acquire(id)).handles[id].owned <==>
            w.file.Some? && w.file.value.Number? && w.file.value.n in w.live
  {
    AlwaysSingleOwner(start, events);
  }

  /** That does happen: after a crash, a process that is given the dead owner's PID is refused, and nothing changes. */
  lemma ReusedPidIsRefused(pid: int, first: nat, second: nat)
    requires pid > 0 && first != second
    ensures var events := [Start(pid), Create(first, pid), Acquire(first), Crash(pid), Start(pid), Create(second, pid)];
            var w := Run(World(None, {}, map[]), events);
            w.handles == map[second := Handle(pid, false)] && Step(w, Acquire(second)) == w
  {
    var start, mine := World(None, {}, map[]), Some(Number(pid));
    var e1, e2, e3 := Start(pid), Create(first, pid), Acquire(first);
    var e4, e5, e6 := Crash(pid), Start(pid), Create(second, pid);
    var s1, s2, s3 := [e1], [e1, e2], [e1, e2, e3];
    var s4, s5 := [e1, e2, e3, e4], [e1, e2, e3, e4, e5];
    assert s1 == [] + [e1] && s2 == s1 + [e2] && s3 == s2 + [e3] && s4 == s3 + [e4] && s5 == s4 + [e5];
    assert [e1, e2, e3, e4, e5, e6] == s5 + [e6];
    RunSnoc(start, [], e1);
    RunSnoc(start, s1, e2);
    RunSnoc(start, s2, e3);
    RunSnoc(start, s3, e4);
    RunSnoc(start, s4, e5);
    RunSnoc(start, s5, e6);
    assert Step(start, e1) == World(None, {pid}, map[]);
    assert Step(Step(start, e1), e2) == World(None, {pid}, map[first := Handle(pid, false)]);
    var owning := World(mine, {pid}, map[first := Handle(pid, true)]);
    assert Step(World(None, {pid}, map[first := Handle(pid, false)]), e3) == owning;
    assert Step(owning, e4) == World(mine, {}, map[]);
    assert Step(World(mine, {}, map[]), e5) == World(mine, {pid}, map[]);
    var w := World(mine, {pid}, map[second := Handle(pid, false)]);
    assert Step(World(mine, {pid}, map[]), e6) == w;
    assert Step(w, Acquire(second)) == w;
  }

  lemma RunSnoc(start: World, events: seq<Event>, e: Event)
    ensures Run(start, events + [e]) == Step(Run(start, events), e)
  {
    assert (events + [e])[..|events|] == events;
  }
}
