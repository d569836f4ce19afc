/** Prompt-level advice on the bridge: rows remembered per run, merged and folded into one block
    (index.ts and injector.ts). */
module PromptFold {
  import opened Options
  import opened Strings

  datatype Row = Row(concernId: string, adviceType: string, target: string, mode: string, content: string)

  /** `agent_session_id`: missing, `null`, or an id. */
  datatype Session = Missing | Null | Id(id: string)

  datatype Injection = Injection(weaveId: string, session: Session, hostRound: Option<string>, rows: seq<Row>)

  // ---- mergeInjections ----

  predicate HasRows(i: Option<Injection>) { i.Some? && |i.value.rows| > 0 }

  function AllRows(injections: seq<Option<Injection>>): seq<Row> {
    if |injections| == 0 then []
    else
      var last := injections[|injections| - 1];
      AllRows(injections[..|injections| - 1]) + if last.Some? then last.value.rows else []
  }

  /** The last non-empty weave id among the injections that have rows. */
  function LastWeave(injections: seq<Option<Injection>>): string {
    if |injections| == 0 then ""
    else
      var last := injections[|injections| - 1];
      if HasRows(last) && last.value.weaveId != "" then last.value.weaveId
      else LastWeave(injections[..|injections| - 1])
  }

  /** The last session id among them. */
  function LastSession(injections: seq<Option<Injection>>): (s: Session)
    ensures !s.Null?
  {
    if |injections| == 0 then Missing
    else
      var last := injections[|injections| - 1];
      if HasRows(last) && last.value.session.Id? then last.value.session
      else LastSession(injections[..|injections| - 1])
  }

  function Merge(injections: seq<Option<Injection>>): Option<Injection> {
    if |AllRows(injections)| == 0 then None
    else Some(Injection(LastWeave(injections), LastSession(injections), None, AllRows(injections)))
  }

  method MergeInjections(injections: seq<Option<Injection>>) returns (r: Option<Injection>)
    ensures r == Merge(injections)
  {
    var rows: seq<Row>, turnId, session := [], "", Missing;
    for i := 0 to |injections|
      invariant rows == AllRows(injections[..i])
      invariant turnId == LastWeave(injections[..i])
      invariant session == LastSession(injections[..i])
    {
      assert injections[..i + 1][..i] == injections[..i];
      var inj := injections[i];
      if inj.None? || |inj.value.rows| == 0 {
        continue;
      }
      turnId := if inj.value.weaveId != "" then inj.value.weaveId else turnId;
      session := if inj.value.session.Id? then inj.value.session else session;
      rows := rows + inj.value.rows;
    }
    assert injections[..|injections|] == injections;
    if |rows| == 0 {
      return None;
    }
    r := Some(Injection(turnId, session, None, rows));
  }

  lemma {:induction false} RowsOfConcat(xs: seq<Option<Injection>>, ys: seq<Option<Injection>>)
    ensures AllRows(xs + ys) == AllRows(xs) + AllRows(ys)
  {
    if |ys| == 0 {
      assert xs + ys == xs;
    } else {
      var init, last := ys[..|ys| - 1], ys[|ys| - 1];
      RowsOfConcat(xs, init);
      assert ys == init + [last] && xs + ys == (xs + init) + [last];
      RowsSnoc(init, last);
      RowsSnoc(xs + init, last);
    }
  }

  lemma RowsSnoc(xs: seq<Option<Injection>>, last: Option<Injection>)
    ensures AllRows(xs + [last]) == AllRows(xs) + if last.Some? then last.value.rows else []
  {
    assert (xs + [last])[..|xs|] == xs;
  }

  lemma {:induction false} PartsOfConcat(xs: seq<Option<Injection>>, ys: seq<Option<Injection>>)
    ensures AllRows(xs + ys) == AllRows(xs) + AllRows(ys)
    ensures LastWeave(xs + ys) == if LastWeave(ys) != "" then LastWeave(ys) else LastWeave(xs)
    ensures LastSession(xs + ys) == if LastSession(ys).Id? then LastSession(ys) else LastSession(xs)
  {
    RowsOfConcat(xs, ys);
    if |ys| == 0 {
      assert xs + ys == xs;
    } else {
      PartsOfConcat(xs, ys[..|ys| - 1]);
      assert (xs + ys)[..|xs + ys| - 1] == xs + ys[..|ys| - 1];
    }
  }

  lemma {:induction false} NoRowsNoParts(xs: seq<Option<Injection>>)
    requires |AllRows(xs)| == 0
    ensures LastWeave(xs) == "" && LastSession(xs) == Missing
  {
    if |xs| > 0 {
      NoRowsNoParts(xs[..|xs| - 1]);
    }
  }

  lemma PartsOfOne(x: Option<Injection>)
    ensures AllRows([x]) == if x.Some? then x.value.rows else []
    ensures LastWeave([x]) == if HasRows(x) then x.value.weaveId else ""
    ensures LastSession([x]) == if HasRows(x) && x.value.session.Id? then x.value.session else Missing
  {
    assert [x][..0] == [];
  }

  /** Merging a merged prefix with the rest is merging everything. */
  lemma MergeOfMerged(xs: seq<Option<Injection>>, ys: seq<Option<Injection>>)
    ensures Merge([Merge(xs)] + ys) == Merge(xs + ys)
    ensures Merge(xs + [Merge(ys)]) == Merge(xs + ys)
  {
    PartsOfConcat(xs, ys);
    PartsOfConcat([Merge(xs)], ys);
    PartsOfConcat(xs, [Merge(ys)]);
    PartsOfOne(Merge(xs));
    PartsOfOne(Merge(ys));
    if |AllRows(xs)| == 0 {
      NoRowsNoParts(xs);
    }
    if |AllRows(ys)| == 0 {
      NoRowsNoParts(ys);
    }
  }

  lemma MergeAssociates(a: Option<Injection>, b: Option<Injection>, c: Option<Injection>)
    ensures Merge([Merge([a, b]), c]) == Merge([a, Merge([b, c])]) == Merge([a, b, c])
  {
    MergeOfMerged([a, b], [c]);
    MergeOfMerged([a], [b, c]);
    assert [a, b] + [c] == [a, b, c] == [a] + [b, c];
    assert [Merge([a, b])] + [c] == [Merge([a, b]), c] && [a] + [Merge([b, c])] == [a, Merge([b, c])];
  }

  /** `null` is neutral; what merging does to a single injection is to drop what it has no use for. */
  lemma NullIsNeutral(x: Option<Injection>)
    ensures Merge([None, x]) == Merge([x]) == Merge([x, None])
    ensures Merge([x]) == x <==>
            x.None? || (|x.value.rows| > 0 && x.value.hostRound.None? && !x.value.session.Null?)
  {
    PartsOfOne(x);
    PartsOfOne(None);
    PartsOfConcat([None], [x]);
    PartsOfConcat([x], [None]);
    assert [None] + [x] == [None, x] && [x] + [None] == [x, None];
    var rows := AllRows([x]);
    assert AllRows([None, x]) == [] + rows == rows;
    assert AllRows([x, None]) == rows + [] == rows;
  }

  /** Of two injections with rows the rows come one after the other; the later weave id and session id win where there
      are any, and the host round is dropped. */
  lemma MergeOfTwo(a: Injection, b: Injection)
    requires |a.rows| > 0 && |b.rows| > 0
    ensures Merge([Some(a), Some(b)]).Some?
    ensures var m := Merge([Some(a), Some(b)]).value;
            && m.rows == a.rows + b.rows && m.hostRound == None
            && m.weaveId == (if b.weaveId != "" then b.weaveId else a.weaveId)
            && m.session == (if b.session.Id? then b.session else if a.session.Id? then a.session else Missing)
  {
    PartsOfConcat([Some(a)], [Some(b)]);
    PartsOfOne(Some(a));
    PartsOfOne(Some(b));
    assert [Some(a)] + [Some(b)] == [Some(a), Some(b)];
  }

  // ---- foldPromptInjection ----

  const FOLDED_MODES: set<string> :=
    {"insert", "annotate", "warn", "verify", "defer", "block", "suppress", "escalate"}

  predicate Eligible(r: Row) {
    (r.target == "runtime_prompt" || "runtime_prompt." <= r.target) && r.mode in FOLDED_MODES
  }

  function Key(r: Row): string { r.concernId + "\n" + r.content }

  /** The eligible rows whose key no earlier eligible row has, in order. */
  function Kept(rows: seq<Row>): (ks: seq<Row>)
    ensures forall i | 0 <= i < |ks| :: Eligible(ks[i]) && ks[i] in rows
  {
    if |rows| == 0 then []
    else
      var init := Kept(rows[..|rows| - 1]);
      var last := rows[|rows| - 1];
      assert rows == rows[..|rows| - 1] + [last];
      if Eligible(last) && !HasKey(init, Key(last)) then init + [last] else init
  }

  predicate HasKey(rows: seq<Row>, key: string) {
    exists i | 0 <= i < |rows| :: Key(rows[i]) == key
  }

  function Chunk(r: Row): string {
    "[OpenCOAT · " + r.concernId + " · " + r.adviceType + "]\n" + JsTrim(r.content)
  }

  function Chunks(rows: seq<Row>): seq<string> {
    if |rows| == 0 then [] else Chunks(rows[..|rows| - 1]) + [Chunk(rows[|rows| - 1])]
  }

  /** The block that goes in front of the prompt. */
  function Folded(rows: seq<Row>): string {
    if |Kept(rows)| == 0 then ""
    else "\n\n<OpenCOAT>\n" + Join(Chunks(Kept(rows)), "\n\n") + "\n</OpenCOAT>\n"
  }

  method FoldRows(rows: seq<Row>) returns (chunks: seq<string>)
    ensures chunks == Chunks(Kept(rows))
  {
    chunks := [];
    var seen: set<string> := {};
    for i := 0 to |rows|
      invariant chunks == Chunks(Kept(rows[..i]))
      invariant forall key :: key in seen <==> HasKey(Kept(rows[..i]), key)
    {
      assert rows[..i + 1][..i] == rows[..i];
      var row := rows[i];
      ghost var kept := Kept(rows[..i]);
      if !(row.target == "runtime_prompt" || "runtime_prompt." <= row.target) {
        continue;
      }
      if row.mode !in FOLDED_MODES {
        continue;
      }
      var key := row.concernId + "\n" + row.content;
      if key in seen {
        continue;
      }
      seen := seen + {key};
      chunks := chunks + [Chunk(row)];
      HasKeySnoc(kept, row);
      assert (kept + [row])[..|kept|] == kept;
    }
    assert rows[..|rows|] == rows;
  }

  lemma {:induction false} ChunkForEach(rows: seq<Row>)
    ensures |Chunks(rows)| == |rows|
  {
    if |rows| > 0 {
      ChunkForEach(rows[..|rows| - 1]);
    }
  }

  method FoldPromptInjection(injection: Option<Injection>) returns (block: string)
    ensures block == if injection.Some? then Folded(injection.value.rows) else ""
  {
    if injection.None? || |injection.value.rows| == 0 {
      return "";
    }
    var chunks := FoldRows(injection.value.rows);
    ChunkForEach(Kept(injection.value.rows));
    if |chunks| == 0 {
      return "";
    }
    block := "\n\n<OpenCOAT>\n" + Join(chunks, "\n\n") + "\n</OpenCOAT>\n";
  }

  lemma HasKeySnoc(rows: seq<Row>, row: Row)
    ensures forall key :: HasKey(rows + [row], key) <==> HasKey(rows, key) || key == Key(row)
  {
    var all := rows + [row];
    forall key
      ensures HasKey(all, key) <==> HasKey(rows, key) || key == Key(row)
    {
      if i :| 0 <= i < |rows| && Key(rows[i]) == key {
        assert Key(all[i]) == key;
      }
      assert Key(all[|rows|]) == Key(row);
    }
  }

  lemma {:induction false} KeptHasEveryKey(rows: seq<Row>, r: Row)
    requires r in rows && Eligible(r)
    ensures HasKey(Kept(rows), Key(r))
  {
    var init, last := rows[..|rows| - 1], rows[|rows| - 1];
    assert rows == init + [last];
    if r in init {
      KeptHasEveryKey(init, r);
    }
    if Eligible(last) && !HasKey(Kept(init), Key(last)) {
      HasKeySnoc(Kept(init), last);
    }
  }

  /** The row is folded into the prompt: it targets the prompt or a part of it, and its mode is none of those that
      replace text. */
  ghost predicate ForPrompt(r: Row) {
    && (r.target == "runtime_prompt" || exists below: string :: r.target == "runtime_prompt." + below)
    && r.mode in {"insert", "annotate", "warn", "verify", "defer", "block", "suppress", "escalate"}
  }

  lemma EligibleIsForPrompt(r: Row)
    ensures Eligible(r) <==> ForPrompt(r)
  {
    var prompt := "runtime_prompt.";
    if prompt <= r.target {
      assert r.target == prompt + r.target[|prompt|..];
    }
  }

  /** Some row before it that goes to the prompt has the same id, line feed and text. */
  ghost predicate SaidBefore(rows: seq<Row>, r: Row) {
    exists q | q in rows :: ForPrompt(q) && q.concernId + "\n" + q.content == r.concernId + "\n" + r.content
  }

  lemma HasKeyIsSaidBefore(rows: seq<Row>, r: Row)
    ensures HasKey(Kept(rows), Key(r)) <==> SaidBefore(rows, r)
  {
    var ks := Kept(rows);
    if i :| 0 <= i < |ks| && Key(ks[i]) == Key(r) {
      EligibleIsForPrompt(ks[i]);
      assert ks[i] in rows;
    }
    if q :| q in rows && ForPrompt(q) && Key(q) == Key(r) {
      EligibleIsForPrompt(q);
      KeptHasEveryKey(rows, q);
    }
  }

  lemma KeptStep(rows: seq<Row>, r: Row)
    ensures Kept(rows + [r]) == if ForPrompt(r) && !SaidBefore(rows, r) then Kept(rows) + [r] else Kept(rows)
  {
    assert (rows + [r])[..|rows|] == rows;
    EligibleIsForPrompt(r);
    HasKeyIsSaidBefore(rows, r);
  }

  /** The block around some text. */
  function Block(inner: string): string { "\n\n<OpenCOAT>\n" + inner + "\n</OpenCOAT>\n" }

  function Headed(r: Row): string {
    "[OpenCOAT · " + r.concernId + " · " + r.adviceType + "]\n" + JsTrim(r.content)
  }

  /** What the rows say inside the block: nothing yet, or their headed texts with an empty line between them. */
  predicate Says(rows: seq<Row>, inner: Option<string>) {
    Folded(rows) == if inner.Some? then Block(inner.value) else ""
  }

  /** The block, row by row: a row that goes to the prompt and has not been said before adds its trimmed text under a
      heading with its concern and its kind of advice; every other row adds nothing. */
  lemma BlockGrows(rows: seq<Row>, r: Row) returns (before: Option<string>, after: Option<string>)
    ensures Folded([]) == ""
    ensures Says(rows, before) && Says(rows + [r], after)
    ensures after == if !ForPrompt(r) || SaidBefore(rows, r) then before
                     else if before.Some? then Some(before.value + "\n\n" + Headed(r)) else Some(Headed(r))
  {
    KeptStep(rows, r);
    var ks := Kept(rows);
    before := if |ks| == 0 then None else Some(Join(Chunks(ks), "\n\n"));
    after := if |Kept(rows + [r])| == 0 then None else Some(Join(Chunks(Kept(rows + [r])), "\n\n"));
    assert (ks + [r])[..|ks|] == ks;
    ChunkForEach(ks);
    JoinSnoc(Chunks(ks), Chunk(r), "\n\n");
  }

  /** No key is folded in twice. */
  lemma {:induction false} KeptKeysAreDistinct(rows: seq<Row>)
    ensures forall i, j | 0 <= i < j < |Kept(rows)| :: Key(Kept(rows)[i]) != Key(Kept(rows)[j])
  {
    if |rows| > 0 {
      KeptKeysAreDistinct(rows[..|rows| - 1]);
    }
  }

  /** Rows that are already there change nothing. */
  lemma {:induction false} RepeatsFoldAway(rows: seq<Row>, again: seq<Row>)
    requires forall r | r in again :: r in rows
    ensures Kept(rows + again) == Kept(rows)
  {
    if |again| == 0 {
      assert rows + again == rows;
    } else {
      var init, last := again[..|again| - 1], again[|again| - 1];
      RepeatsFoldAway(rows, init);
      assert (rows + again)[..|rows + again| - 1] == rows + init;
      if Eligible(last) {
        KeptHasEveryKey(rows, last);
      }
    }
  }

  /** Every eligible row's advice, that is its concern and its text, is among the kept rows. */
  predicate AllAdviceKept(rows: seq<Row>) {
    forall r | r in rows && Eligible(r) ::
      exists k | k in Kept(rows) :: k.concernId == r.concernId && k.content == r.content
  }

  /** No id, ended by a line feed, begins another. */
  predicate Separable(ids: set<string>) { forall a, b | a in ids && b in ids :: !(a + "\n" <= b) }

  lemma KeyTellsAdvice(a: Row, b: Row)
    requires Key(a) == Key(b) && |a.concernId| == |b.concernId|
    ensures a.concernId == b.concernId && a.content == b.content
  {
    var n := |a.concernId|;
    assert Key(a)[..n] == a.concernId && Key(b)[..n] == b.concernId;
    assert Key(a)[n + 1..] == a.content && Key(b)[n + 1..] == b.content;
  }

  lemma ShorterIdBegins(a: Row, b: Row)
    requires Key(a) == Key(b) && |a.concernId| < |b.concernId|
    ensures a.concernId + "\n" <= b.concernId
  {
    var n := |a.concernId| + 1;
    assert Key(a)[..n] == a.concernId + "\n";
    assert Key(b)[..n] == b.concernId[..n];
  }

  lemma SeparableKeepsAdvice(rows: seq<Row>, ids: set<string>, r: Row)
    requires Separable(ids) && (forall q | q in rows :: q.concernId in ids) && r in rows && Eligible(r)
    ensures exists k | k in Kept(rows) :: k.concernId == r.concernId && k.content == r.content
  {
    KeptHasEveryKey(rows, r);
    var ks := Kept(rows);
    var i :| 0 <= i < |ks| && Key(ks[i]) == Key(r);
    assert ks[i] in ks;
    if |ks[i].concernId| < |r.concernId| {
      ShorterIdBegins(ks[i], r);
    } else if |r.concernId| < |ks[i].concernId| {
      ShorterIdBegins(r, ks[i]);
    } else {
      KeyTellsAdvice(ks[i], r);
    }
  }

  function Advice(id: string, content: string): Row { Row(id, "t", "runtime_prompt", "insert", content) }

  /** Two ids of which one, ended by a line feed, begins the other: advice of the longer one is dropped. */
  lemma InseparableLosesAdvice(a: string, b: string)
    requires a + "\n" <= b
    ensures var first, second := Advice(a, b[|a| + 1..] + "\n"), Advice(b, "");
            Eligible(second) && Kept([first, second]) == [first] && !AllAdviceKept([first, second])
  {
    var first, second := Advice(a, b[|a| + 1..] + "\n"), Advice(b, "");
    assert b == a + "\n" + b[|a| + 1..];
    assert Key(first) == Key(second);
    KeptOfTwo(first, second);
    assert second in [first, second];
  }

  lemma KeptOfTwo(first: Row, second: Row)
    requires Eligible(first) && Key(first) == Key(second)
    ensures Kept([first, second]) == [first]
  {
    assert [first, second][..1] == [first] && [first][..0] == [];
    assert Kept([first]) == [first];
    assert Key([first][0]) == Key(second);
  }

  /** For a set of concern ids, no list of rows with these ids loses any advice if and only if no id of the set, ended
      by a line feed, begins another. */
  lemma AdviceIsKeptExactlyWhen(ids: set<string>)
    ensures (forall rows: seq<Row> | forall q | q in rows :: q.concernId in ids :: AllAdviceKept(rows)) <==>
            Separable(ids)
  {
    if Separable(ids) {
      forall rows: seq<Row> | forall q | q in rows :: q.concernId in ids
        ensures AllAdviceKept(rows)
      {
        forall r | r in rows && Eligible(r) {
          SeparableKeepsAdvice(rows, ids, r);
        }
      }
    } else {
      var a, b :| a in ids && b in ids && a + "\n" <= b;
      InseparableLosesAdvice(a, b);
      var rows := [Advice(a, b[|a| + 1..] + "\n"), Advice(b, "")];
      assert forall q | q in rows :: q.concernId in ids;
    }
  }

  // ---- Pending rows per run ----

  datatype Op = Remember(run: string, injection: Option<Injection>) | Take(run: string)

  function Pending(state: map<string, Injection>, run: string): Option<Injection> {
    if run in state then Some(state[run]) else None
  }

  function Step(state: map<string, Injection>, op: Op): map<string, Injection> {
    match op
    case Remember(run, inj) =>
      if !HasRows(inj) then state
      else
        var merged := Merge([Pending(state, run), inj]);
        if merged.Some? then state[run := merged.value] else state
    case Take(run) => map k | k in state && k != run :: state[k]
  }

  function StateOf(ops: seq<Op>): map<string, Injection> {
    if |ops| == 0 then map[] else Step(StateOf(ops[..|ops| - 1]), ops[|ops| - 1])
  }

  /** The injections remembered for a run since it was last taken. */
  function Since(ops: seq<Op>, run: string): seq<Option<Injection>> {
    if |ops| == 0 then []
    else
      var init, last := Since(ops[..|ops| - 1], run), ops[|ops| - 1];
      if last.run != run then init
      else if last.Take? then []
      else init + [last.injection]
  }

  lemma EmptyAddsNothing(xs: seq<Option<Injection>>, x: Option<Injection>)
    requires !HasRows(x)
    ensures Merge(xs + [x]) == Merge(xs)
  {
    PartsOfConcat(xs, [x]);
    PartsOfOne(x);
    assert AllRows(xs + [x]) == AllRows(xs) + [] == AllRows(xs);
  }

  lemma SomeRowsMerge(p: Option<Injection>, x: Option<Injection>)
    requires HasRows(x)
    ensures Merge([p, x]).Some?
  {
    PartsOfConcat([p], [x]);
    PartsOfOne(x);
    assert [p] + [x] == [p, x];
  }

  /** Over every history, what is pending for a run is the merge of what was remembered since its last take. */
  lemma {:induction false} PendingIsSince(ops: seq<Op>, run: string)
    ensures Pending(StateOf(ops), run) == Merge(Since(ops, run))
  {
    if |ops| > 0 {
      var init, last := ops[..|ops| - 1], ops[|ops| - 1];
      PendingIsSince(init, run);
      if last.run == run && last.Remember? {
        var before := Since(init, run);
        MergeOfMerged(before, [last.injection]);
        assert [Merge(before)] + [last.injection] == [Merge(before), last.injection];
        if HasRows(last.injection) {
          SomeRowsMerge(Merge(before), last.injection);
        } else {
          EmptyAddsNothing(before, last.injection);
        }
      }
    }
  }

  /** A remembered injection is merged into what is pending for its run, a take leaves nothing pending for its run, and
      neither touches another run. */
  lemma PendingStep(ops: seq<Op>, op: Op, run: string)
    ensures Pending(StateOf([]), run) == None
    ensures Pending(StateOf(ops + [op]), run) ==
            if op.run != run then Pending(StateOf(ops), run)
            else if op.Take? then None
            else Merge([Pending(StateOf(ops), run), op.injection])
  {
    assert (ops + [op])[..|ops|] == ops;
    if op.Remember? {
      PendingIsSince(ops, run);
      if HasRows(op.injection) {
        SomeRowsMerge(Pending(StateOf(ops), run), op.injection);
      } else {
        EmptyAddsNothing([Pending(StateOf(ops), run)], op.injection);
        var since := Since(ops, run);
        MergeOfMerged(since, []);
        assert since + [] == since && [Merge(since)] + [] == [Merge(since)];
        assert [Pending(StateOf(ops), run)] + [op.injection] == [Pending(StateOf(ops), run), op.injection];
      }
    }
  }

  function RowsSince(ops: seq<Op>, run: string): seq<Row> { AllRows(Since(ops, run)) }

  class PendingByRun {
    var pendingByRun: map<string, Injection>
    ghost var ops: seq<Op>

    ghost predicate Valid()
      reads this
    {
      pendingByRun == StateOf(ops)
    }

    constructor ()
      ensures Valid() && ops == []
    {
      pendingByRun, ops := map[], [];
    }

    method RememberInjection(run: string, inj: Option<Injection>)
      requires Valid()
      modifies this
      ensures Valid() && ops == old(ops) + [Remember(run, inj)]
    {
      assert (ops + [Remember(run, inj)])[..|ops|] == ops;
      ops := ops + [Remember(run, inj)];
      if inj.None? || |inj.value.rows| == 0 {
        return;
      }
      var prev := if run in pendingByRun then Some(pendingByRun[run]) else None;
      var merged := MergeInjections([prev, inj]);
      SomeRowsMerge(prev, inj);
      pendingByRun := pendingByRun[run := merged.value];
    }

    method TakePending(run: string) returns (merged: Option<Injection>)
      requires Valid()
      modifies this
      ensures Valid() && ops == old(ops) + [Take(run)]
      ensures merged == Merge(Since(old(ops), run))
    {
      PendingIsSince(ops, run);
      assert (ops + [Take(run)])[..|ops|] == ops;
      merged := if run in pendingByRun then Some(pendingByRun[run]) else None;
      pendingByRun := map k | k in pendingByRun && k != run :: pendingByRun[k];
      ops := ops + [Take(run)];
    }

    /** The `prompt_fold` case: the injection is remembered and then merged a second time, which shows nowhere. */
    method FoldPrompt(run: string, inj: Option<Injection>) returns (block: string)
      requires Valid()
      modifies this
      ensures Valid() && ops == old(ops) + [Remember(run, inj), Take(run)]
      ensures block == Folded(RowsSince(old(ops), run) + if inj.Some? then inj.value.rows else [])
    {
      SinceRemembered(ops, run, inj);
      ghost var since := Since(ops, run);
      RememberInjection(run, inj);
      var taken := TakePending(run);
      block := FoldTaken(since, taken, inj);
    }
  }

  lemma SinceRemembered(ops: seq<Op>, run: string, inj: Option<Injection>)
    ensures Since(ops + [Remember(run, inj)], run) == Since(ops, run) + [inj]
  {
    assert (ops + [Remember(run, inj)])[..|ops|] == ops;
  }

  /** Merging once more what was just taken. */
  method FoldTaken(ghost since: seq<Option<Injection>>, taken: Option<Injection>, inj: Option<Injection>)
    returns (block: string)
    requires taken == Merge(since + [inj])
    ensures block == Folded(AllRows(since) + if inj.Some? then inj.value.rows else [])
  {
    var merged := MergeInjections([taken, inj]);
    FoldedTwice(since, inj);
    assert [taken] + [inj] == [taken, inj];
    block := FoldPromptInjection(merged);
  }

  lemma FoldedTwice(since: seq<Option<Injection>>, inj: Option<Injection>)
    ensures var merged := Merge([Merge(since + [inj])] + [inj]);
            (if merged.Some? then Folded(merged.value.rows) else "") ==
            Folded(AllRows(since) + if inj.Some? then inj.value.rows else [])
  {
    var rows := if inj.Some? then inj.value.rows else [];
    MergeOfMerged(since + [inj], [inj]);
    PartsOfConcat(since + [inj], [inj]);
    PartsOfConcat(since, [inj]);
    PartsOfOne(inj);
    RepeatsFoldAway(AllRows(since) + rows, rows);
  }
}
