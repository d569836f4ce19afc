/** Writing the credentials file a second time with the same updates (configure_cmd.py). */
module EnvRewrites {
  import opened Options
  import opened Strings
  import opened Filtering
  import opened EnvFiles

  // ---- What the text tells ----

  /** What is printed for a key, if anything is. */
  function Printed(env: Env, k: string): Option<string> {
    if k in env && env[k] != "" then Some(Escape(env[k])) else None
  }

  lemma {:induction false} TerminatedConcat(xs: seq<string>, ys: seq<string>)
    ensures Terminated(xs + ys) == Terminated(xs) + Terminated(ys)
  {
    if |xs| == 0 {
      assert xs + ys == ys;
    } else {
      TerminatedConcat(xs[1..], ys);
      assert (xs + ys)[1..] == xs[1..] + ys;
      InParts(xs[0] + "\n", Terminated(xs[1..]), Terminated(ys));
    }
  }

  lemma FirstLineFeed(line: string, rest: string)
    requires '\n' !in line
    ensures First(line + "\n" + rest, c => c == '\n') == |line|
  {
    var text := line + "\n" + rest;
    assert forall i | 0 <= i < |line| :: text[i] == line[i] && line[i] in line;
    FirstIsUnique(text, c => c == '\n', |line|);
  }

  /** Lines without line feeds can be told from the text. */
  lemma {:induction false} TerminatedTellsLines(xs: seq<string>, ys: seq<string>)
    requires forall l | l in xs + ys :: '\n' !in l
    requires Terminated(xs) == Terminated(ys)
    ensures xs == ys
  {
    if |xs| > 0 && |ys| > 0 {
      assert xs[0] in xs + ys && ys[0] in xs + ys;
      var restX, restY := Terminated(xs[1..]), Terminated(ys[1..]);
      FirstLineFeed(xs[0], restX);
      FirstLineFeed(ys[0], restY);
      SameHead(xs[0], restX, ys[0], restY);
      assert forall l | l in xs[1..] + ys[1..] :: l in xs + ys;
      TerminatedTellsLines(xs[1..], ys[1..]);
      assert xs == [xs[0]] + xs[1..] && ys == [ys[0]] + ys[1..];
    }
  }

  lemma SameHead(a: string, restA: string, b: string, restB: string)
    requires a + "\n" + restA == b + "\n" + restB && |a| == |b|
    ensures a == b && restA == restB
  {
    var text := a + "\n" + restA;
    assert text[..|a|] == a && text[|a| + 1..] == restA;
    assert text == b + "\n" + restB;
    assert text[..|b|] == b && text[|b| + 1..] == restB;
  }

  lemma {:induction false} EntryLinesHave(ks: seq<string>, env: Env, line: (string, string) -> string, l: string)
    ensures l in EntryLines(ks, env, line) <==> exists k | k in ks && k in env :: env[k] != "" && line(k, env[k]) == l
  {
    if |ks| > 0 {
      var init, k := ks[..|ks| - 1], ks[|ks| - 1];
      EntryLinesHave(init, env, line, l);
      assert ks == init + [k];
    }
  }

  /** A line tells its key and its escaped value. */
  lemma LineTells(k: string, v: string, k': string, v': string)
    requires GoodKey(k) && GoodKey(k') && k + "=" + v == k' + "=" + v'
    ensures k == k' && v == v'
  {
    var l := k + "=" + v;
    FirstIsUnique(l, c => c == '=', |k|);
    assert l == k' + "=" + v';
    FirstIsUnique(l, c => c == '=', |k'|);
    assert l[..|k|] == k && l[..|k'|] == k';
    assert l[|k| + 1..] == v && l[|k'| + 1..] == v';
  }

  /** The line of a printed key is in the file, and no other line of that key is. */
  lemma LineOfKey(env: Env, k: string, v: string)
    requires GoodKeys(env) && GoodKey(k)
    ensures EntryLine(k, v) in EntryLines(SortedKeys(env.Keys), env, EntryLine) <==> Printed(env, k) == Some(Escape(v))
  {
    var ks := SortedKeys(env.Keys);
    EntryLinesHave(ks, env, EntryLine, EntryLine(k, v));
    if k' :| k' in ks && k' in env && env[k'] != "" && EntryLine(k', env[k']) == EntryLine(k, v) {
      LineTells(k', Escape(env[k']), k, Escape(v));
    }
    if k in env {
      assert k in ks;
    }
  }

  lemma NoLineFeedInEntryLine(k: string, v: string)
    requires GoodKey(k)
    ensures '\n' !in EntryLine(k, v) && '\r' !in EntryLine(k, v)
  {
    assert Break('\n') && Break('\r');
    EscapeFixes(v);
  }

  lemma EntryLinesHaveNoLineFeed(env: Env, l: string)
    requires GoodKeys(env) && l in EntryLines(SortedKeys(env.Keys), env, EntryLine)
    ensures '\n' !in l && '\r' !in l
  {
    EntryLinesHave(SortedKeys(env.Keys), env, EntryLine, l);
    var k :| k in SortedKeys(env.Keys) && k in env && env[k] != "" && EntryLine(k, env[k]) == l;
    NoLineFeedInEntryLine(k, env[k]);
  }

  lemma SameTextSameLines(header: seq<string>, a: Env, b: Env)
    requires GoodKeys(a) && GoodKeys(b)
    requires Terminated(PrintedLines(header, a, EntryLine)) == Terminated(PrintedLines(header, b, EntryLine))
    ensures EntryLines(SortedKeys(a.Keys), a, EntryLine) == EntryLines(SortedKeys(b.Keys), b, EntryLine)
  {
    var la, lb := EntryLines(SortedKeys(a.Keys), a, EntryLine), EntryLines(SortedKeys(b.Keys), b, EntryLine);
    TerminatedConcat(header, la);
    TerminatedConcat(header, lb);
    var front := Terminated(header);
    assert Terminated(la) == (front + Terminated(la))[|front|..];
    assert (front + Terminated(lb))[|front|..] == Terminated(lb);
    forall l | l in la + lb
      ensures '\n' !in l
    {
      EntryLinesHaveNoLineFeed(if l in la then a else b, l);
    }
    TerminatedTellsLines(la, lb);
  }

  /** Two environments with well-formed keys have the same text exactly when they print the same for every key. */
  lemma PrintedAlike(header: seq<string>, a: Env, b: Env)
    requires GoodKeys(a) && GoodKeys(b)
    ensures Terminated(PrintedLines(header, a, EntryLine)) == Terminated(PrintedLines(header, b, EntryLine)) <==>
            forall k :: Printed(a, k) == Printed(b, k)
  {
    if Terminated(PrintedLines(header, a, EntryLine)) == Terminated(PrintedLines(header, b, EntryLine)) {
      SameTextSameLines(header, a, b);
      forall k
        ensures Printed(a, k) == Printed(b, k)
      {
        SameLineForKey(a, b, k);
        SameLineForKey(b, a, k);
      }
    }
    if forall k :: Printed(a, k) == Printed(b, k) {
      forall k
        ensures (k in a && a[k] != "") <==> (k in b && b[k] != "")
        ensures k in a && a[k] != "" ==> EntryLine(k, a[k]) == EntryLine(k, b[k])
      {
        assert Printed(a, k) == Printed(b, k);
      }
      SamePrintsSameLines(header, a, b, EntryLine);
    }
  }

  lemma SameLineForKey(a: Env, b: Env, k: string)
    requires GoodKeys(a) && GoodKeys(b)
    requires EntryLines(SortedKeys(a.Keys), a, EntryLine) == EntryLines(SortedKeys(b.Keys), b, EntryLine)
    ensures Printed(a, k).Some? ==> Printed(b, k) == Printed(a, k)
  {
    if Printed(a, k).Some? {
      LineOfKey(a, k, a[k]);
      LineOfKey(b, k, a[k]);
    }
  }

  function KeptKeys(ks: seq<string>, env: Env): seq<string> {
    if |ks| == 0 then []
    else
      var init, k := KeptKeys(ks[..|ks| - 1], env), ks[|ks| - 1];
      if k in env && env[k] != "" then init + [k] else init
  }

  lemma {:induction false} KeptKeysAreTheKept(ks: seq<string>, env: Env)
    ensures forall k :: k in KeptKeys(ks, env) <==> k in ks && k in env && env[k] != ""
  {
    if |ks| > 0 {
      KeptKeysAreTheKept(ks[..|ks| - 1], env);
      assert ks == ks[..|ks| - 1] + [ks[|ks| - 1]];
    }
  }

  lemma {:induction false} KeptKeysStaySorted(ks: seq<string>, env: Env)
    requires StrictlySorted(ks)
    ensures StrictlySorted(KeptKeys(ks, env))
  {
    if |ks| > 0 {
      var init := ks[..|ks| - 1];
      KeptKeysStaySorted(init, env);
      KeptKeysAreTheKept(init, env);
      var kept := KeptKeys(init, env);
      forall i | 0 <= i < |kept|
        ensures kept[i] != ks[|ks| - 1] && LexLe(kept[i], ks[|ks| - 1])
      {
        assert kept[i] in init;
      }
    }
  }

  lemma {:induction false} KeptKeysPrintAlike(ks: seq<string>, env: Env, line: (string, string) -> string)
    ensures EntryLines(KeptKeys(ks, env), env, line) == EntryLines(ks, env, line)
  {
    if |ks| > 0 {
      KeptKeysPrintAlike(ks[..|ks| - 1], env, line);
      var kept := KeptKeys(ks[..|ks| - 1], env);
      assert (kept + [ks[|ks| - 1]])[..|kept|] == kept;
    }
  }

  lemma {:induction false} SameLines(ks: seq<string>, a: Env, b: Env, line: (string, string) -> string)
    requires forall k | k in ks :: (k in a && a[k] != "" <==> k in b && b[k] != "")
    requires forall k | k in ks && k in a && a[k] != "" :: line(k, a[k]) == line(k, b[k])
    ensures EntryLines(ks, a, line) == EntryLines(ks, b, line)
  {
    if |ks| > 0 {
      assert ks == ks[..|ks| - 1] + [ks[|ks| - 1]];
      SameLines(ks[..|ks| - 1], a, b, line);
    }
  }

  lemma SamePrintsSameLines(header: seq<string>, a: Env, b: Env, line: (string, string) -> string)
    requires forall k :: (k in a && a[k] != "") <==> (k in b && b[k] != "")
    requires forall k | k in a && a[k] != "" :: line(k, a[k]) == line(k, b[k])
    ensures PrintedLines(header, a, line) == PrintedLines(header, b, line)
  {
    var ka, kb := SortedKeys(a.Keys), SortedKeys(b.Keys);
    KeptKeysAreTheKept(ka, a);
    KeptKeysAreTheKept(kb, b);
    KeptKeysStaySorted(ka, a);
    KeptKeysStaySorted(kb, b);
    KeptKeysPrintAlike(ka, a, line);
    KeptKeysPrintAlike(kb, b, line);
    SortedOnlyOneWay(KeptKeys(ka, a), KeptKeys(kb, b));
    SameLines(KeptKeys(ka, a), a, b, line);
  }

  // ---- What a written file is ----

  /** An update that is not empty takes the place of what the file held, and an empty one changes nothing. */
  lemma MergedMeans(content: Option<string>, updates: Env, k: string)
    ensures k in Merged(content, updates) <==> k in Parsed(content) || (k in updates && updates[k] != "")
    ensures k in Merged(content, updates) ==>
              Merged(content, updates)[k] == if k in updates && updates[k] != "" then updates[k] else Parsed(content)[k]
  {
  }

  lemma {:induction false} KeptLines(ks: seq<string>, env: Env)
    ensures |EntryLines(ks, env, EntryLine)| == |KeptKeys(ks, env)|
    ensures forall i | 0 <= i < |KeptKeys(ks, env)| ::
              var k := KeptKeys(ks, env)[i]; k in env && EntryLines(ks, env, EntryLine)[i] == k + "=" + Escape(env[k])
  {
    if |ks| > 0 {
      KeptLines(ks[..|ks| - 1], env);
    }
  }

  /** The header, and below it one line for every key with a value, in ascending order of the keys, each line ended by a
      line feed. */
  lemma WrittenFile(header: seq<string>, content: Option<string>, updates: Env)
    returns (keys: seq<string>, lines: seq<string>)
    ensures forall i, j | 0 <= i < j < |keys| :: keys[i] != keys[j] && LexLe(keys[i], keys[j])
    ensures forall k :: k in keys <==> k in Merged(content, updates) && Merged(content, updates)[k] != ""
    ensures |lines| == |keys|
    ensures forall i | 0 <= i < |keys| :: lines[i] == keys[i] + "=" + Escape(Merged(content, updates)[keys[i]])
    ensures Written(header, content, updates) == Join(header + lines + [""], "\n")
  {
    var env := Merged(content, updates);
    var all := SortedKeys(env.Keys);
    keys, lines := KeptKeys(all, env), EntryLines(all, env, EntryLine);
    KeptKeysAreTheKept(all, env);
    KeptKeysStaySorted(all, env);
    KeptLines(all, env);
    JoinIsTerminated(header + lines);
  }

  // ---- Values that the parser cuts ----

  /** The lines that the parser makes of a printed value: the first ends the line of the key, the others stand alone. */
  function Cut(v: string): (ls: seq<string>)
    ensures |ls| > 0
  {
    assert |Escape(v) + "\n"| > 0;
    Lines(Escape(v) + "\n")
  }

  function Fragments(v: string): seq<string> { Cut(v)[1..] }

  lemma FirstCut(l: string) returns (n: nat)
    requires !OneLine(l)
    ensures n < |l| && OneLine(l[..n]) && Break(l[n])
  {
    n := First(l, Break);
    assert forall i | 0 <= i < |l| && Break(l[i]) :: n <= i;
    assert exists c | c in l :: Break(c);
  }

  /** The text is cut after each line end that is no carriage return. */
  ghost predicate CutsAtBreaks(lines: string -> seq<string>) {
    && lines("") == []
    && forall head: string, c: char, tail: string | OneLine(head) && Break(c) && c != '\r' ::
         lines(head + [c] + tail) == [head] + lines(tail)
  }

  lemma LinesCutsAtBreaks()
    ensures CutsAtBreaks(Lines)
  {
    forall head: string, c: char, tail: string | OneLine(head) && Break(c) && c != '\r'
      ensures Lines(head + [c] + tail) == [head] + Lines(tail)
    {
      LinesTakesOne(head, [c], tail);
    }
  }

  lemma CutAt(lines: string -> seq<string>, l: string, n: nat, after: string)
    requires CutsAtBreaks(lines)
    requires n < |l| && OneLine(l[..n]) && Break(l[n]) && l[n] != '\r'
    ensures lines(l + after) == [l[..n]] + lines(l[n + 1..] + after)
  {
    assert l + after == l[..n] + [l[n]] + (l[n + 1..] + after);
  }

  lemma OneLineEnds(lines: string -> seq<string>, l: string, rest: string)
    requires CutsAtBreaks(lines) && OneLine(l)
    ensures lines(l + ("\n" + rest)) == [l] + lines(rest)
    ensures lines(l + "\n") == [l]
  {
    assert l + ("\n" + rest) == l + ['\n'] + rest;
    assert l + "\n" == l + ['\n'] + "";
    assert lines(l + ['\n'] + "") == [l] + lines("");
  }

  /** A piece without carriage returns, ended by a line feed, is cut the same whatever follows. */
  lemma {:induction false} LinesOfPiece(lines: string -> seq<string>, l: string, rest: string)
    requires CutsAtBreaks(lines) && '\r' !in l
    ensures lines(l + ("\n" + rest)) == lines(l + "\n") + lines(rest)
    decreases |l|
  {
    if OneLine(l) {
      OneLineEnds(lines, l, rest);
    } else {
      var n := FirstCut(l);
      LinesOfPiece(lines, l[n + 1..], rest);
      CutAt(lines, l, n, "\n" + rest);
      CutAt(lines, l, n, "\n");
    }
  }

  /** What stands in front of a piece only makes its first line longer. */
  lemma LinesOfFronted(lines: string -> seq<string>, front: string, l: string)
    requires CutsAtBreaks(lines) && OneLine(front) && '\r' !in l
    ensures lines(l + "\n") != []
    ensures lines(front + l + "\n") == [front + lines(l + "\n")[0]] + lines(l + "\n")[1..]
  {
    if OneLine(l) {
      OneLineEnds(lines, l, "");
      OneLineEnds(lines, front + l, "");
    } else {
      var n := FirstCut(l);
      CutAt(lines, l, n, "\n");
      CutAt(lines, front + l, |front| + n, "\n");
      assert (front + l)[..|front| + n] == front + l[..n] && (front + l)[|front| + n + 1..] == l[n + 1..];
    }
  }

  // ---- What is read from a file whose values are cut ----

  function PiecesOf(lines: string -> seq<string>): string -> seq<string> { (l: string) => lines(l + "\n") }

  lemma {:induction false} LinesOfText(lines: string -> seq<string>, xs: seq<string>)
    requires CutsAtBreaks(lines) && forall l | l in xs :: '\r' !in l
    ensures lines(Terminated(xs)) == Flat(xs, PiecesOf(lines))
  {
    if |xs| > 0 {
      LinesOfText(lines, xs[1..]);
      InParts(xs[0], "\n", Terminated(xs[1..]));
      LinesOfPiece(lines, xs[0], Terminated(xs[1..]));
      FlatConcat([xs[0]], xs[1..], PiecesOf(lines));
      FlatOne(xs[0], PiecesOf(lines));
      assert xs == [xs[0]] + xs[1..];
    }
  }

  lemma {:induction false} HeaderStaysWhole(lines: string -> seq<string>, header: seq<string>)
    requires CutsAtBreaks(lines) && forall l | l in header :: OneLine(l)
    ensures Flat(header, PiecesOf(lines)) == header
  {
    if |header| > 0 {
      HeaderStaysWhole(lines, header[..|header| - 1]);
      OneLineEnds(lines, header[|header| - 1], "");
    }
  }

  /** The first value that `other` yields for a printed value, in the order of the keys. */
  function FirstOther(ks: seq<string>, env: Env, other: string -> Option<string>): Option<string> {
    if |ks| == 0 then None
    else
      var init, last := FirstOther(ks[..|ks| - 1], env, other), ks[|ks| - 1];
      if last in env && env[last] != "" then Or(init, other(env[last])) else init
  }

  function FragmentFor(k: string): string -> Option<string> { (v: string) => Find(Fragments(v), Entry, k) }

  /** The fragments of the printed values, in the order of the keys. */
  function Strays(ks: seq<string>, env: Env): seq<string> {
    if |ks| == 0 then []
    else
      var init, k := Strays(ks[..|ks| - 1], env), ks[|ks| - 1];
      if k in env && env[k] != "" then init + Fragments(env[k]) else init
  }

  /** What the fragments of `ks` have for a key. */
  function Stray(ks: seq<string>, env: Env, k: string): Option<string> { Find(Strays(ks, env), Entry, k) }

  lemma {:induction false} StrayIsFirst(ks: seq<string>, env: Env, k: string)
    ensures Find(Strays(ks, env), Entry, k) == FirstOther(ks, env, FragmentFor(k))
  {
    if |ks| > 0 {
      var init, last := ks[..|ks| - 1], ks[|ks| - 1];
      StrayIsFirst(init, env, k);
      if last in env && env[last] != "" {
        FindInConcat(Strays(init, env), Fragments(env[last]), Entry, k);
      }
    }
  }

  /** The keys in front of `k`. */
  function Before(ks: seq<string>, k: string): seq<string> {
    if |ks| == 0 || ks[|ks| - 1] == k then if |ks| == 0 then [] else ks[..|ks| - 1] else Before(ks[..|ks| - 1], k)
  }

  function Or(a: Option<string>, b: Option<string>): Option<string> { if a.Some? then a else b }

  lemma FindInEntry(k: string, v: string, wanted: string)
    requires GoodKey(k)
    ensures Find(Lines(EntryLine(k, v) + "\n"), Entry, wanted) ==
            if k == wanted then Some(Unquote(Cut(v)[0])) else Find(Fragments(v), Entry, wanted)
  {
    LinesCutsAtBreaks();
    EscapeFixes(v);
    FrontIsOneLine(k);
    LinesOfFronted(Lines, k + "=", Escape(v));
    var head := k + "=" + Cut(v)[0];
    FindInConcat([head], Fragments(v), Entry, wanted);
    FindInOne(head, Entry, wanted);
    EntryOfLine(k, Cut(v)[0]);
  }

  lemma FrontIsOneLine(k: string)
    requires GoodKey(k)
    ensures OneLine(k + "=")
  {
  }

  /** What the lines of the keys yield in turn, when a key's own line yields `own` and other lines yield `other`. */
  function FirstYield(ks: seq<string>, env: Env, k: string, own: string -> string, other: string -> Option<string>):
    Option<string>
  {
    if |ks| == 0 then None
    else
      var init, last := FirstYield(ks[..|ks| - 1], env, k, own, other), ks[|ks| - 1];
      if last in env && env[last] != "" then Or(init, if last == k then Some(own(env[last])) else other(env[last]))
      else init
  }

  lemma {:induction false} OwnYield(ks: seq<string>, env: Env, k: string, own: string -> string,
        other: string -> Option<string>)
    requires forall i, j | 0 <= i < j < |ks| :: ks[i] != ks[j]
    ensures k in ks && k in env && env[k] != "" ==>
              FirstYield(ks, env, k, own, other) ==
              Or(FirstYield(Before(ks, k), env, k, own, other), Some(own(env[k])))
  {
    if |ks| > 0 {
      OwnYield(ks[..|ks| - 1], env, k, own, other);
      assert ks == ks[..|ks| - 1] + [ks[|ks| - 1]];
    }
  }

  lemma {:induction false} FindIsYield(ks: seq<string>, env: Env, k: string)
    requires GoodKeys(env)
    ensures Find(Flat(EntryLines(ks, env, EntryLine), PiecesOf(Lines)), Entry, k) ==
            FirstYield(ks, env, k, OwnText, FragmentFor(k))
  {
    if |ks| > 0 {
      var init, last := ks[..|ks| - 1], ks[|ks| - 1];
      FindIsYield(init, env, k);
      if last in env && env[last] != "" {
        LastEntry(EntryLines(init, env, EntryLine), EntryLine(last, env[last]), last, env[last], k);
      }
    }
  }

  function OwnText(v: string): string { Unquote(Cut(v)[0]) }

  lemma {:induction false} OthersYield(ks: seq<string>, env: Env, k: string, own: string -> string,
        other: string -> Option<string>)
    requires k !in ks || k !in env || env[k] == ""
    ensures FirstOther(ks, env, other) == FirstYield(ks, env, k, own, other)
  {
    if |ks| > 0 {
      OthersYield(ks[..|ks| - 1], env, k, own, other);
      assert ks[|ks| - 1] in ks;
    }
  }

  lemma {:induction false} NotBefore(ks: seq<string>, k: string)
    requires forall i, j | 0 <= i < j < |ks| :: ks[i] != ks[j]
    ensures k !in Before(ks, k)
  {
    if |ks| > 0 {
      NotBefore(ks[..|ks| - 1], k);
    }
  }

  /** The first fragment for a key hides its own line if it comes earlier, and stands in for it if there is none. */
  lemma FindInFile(ks: seq<string>, env: Env, k: string)
    requires GoodKeys(env) && forall i, j | 0 <= i < j < |ks| :: ks[i] != ks[j]
    ensures Find(Flat(EntryLines(ks, env, EntryLine), PiecesOf(Lines)), Entry, k) ==
            if k in ks && k in env && env[k] != "" then Or(Stray(Before(ks, k), env, k), Some(OwnText(env[k])))
            else Stray(ks, env, k)
  {
    FindIsYield(ks, env, k);
    if k in ks && k in env && env[k] != "" {
      OwnYield(ks, env, k, OwnText, FragmentFor(k));
      NotBefore(ks, k);
      StrayIsFirst(Before(ks, k), env, k);
      OthersYield(Before(ks, k), env, k, OwnText, FragmentFor(k));
    } else {
      StrayIsFirst(ks, env, k);
      OthersYield(ks, env, k, OwnText, FragmentFor(k));
    }
  }

  lemma LastEntry(lines: seq<string>, line: string, last: string, v: string, k: string)
    requires GoodKey(last) && line == EntryLine(last, v)
    ensures Find(Flat(lines + [line], PiecesOf(Lines)), Entry, k) ==
            Or(Find(Flat(lines, PiecesOf(Lines)), Entry, k),
               if last == k then Some(Unquote(Cut(v)[0])) else Find(Fragments(v), Entry, k))
  {
    FlatConcat(lines, [line], PiecesOf(Lines));
    FlatOne(line, PiecesOf(Lines));
    FindInConcat(Flat(lines, PiecesOf(Lines)), Lines(line + "\n"), Entry, k);
    FindInEntry(last, v, k);
  }

  // ---- Writing again ----

  /** What the printed text of `env` has for a key. */
  lemma FindInText(header: seq<string>, env: Env, k: string)
    requires CommentBlock(header) && GoodKeys(env)
    ensures var ks := SortedKeys(env.Keys);
            Find(Lines(Terminated(PrintedLines(header, env, EntryLine))), Entry, k) ==
            if k in env && env[k] != "" then Or(Stray(Before(ks, k), env, k), Some(OwnText(env[k])))
            else Stray(ks, env, k)
  {
    var ks := SortedKeys(env.Keys);
    var lines := EntryLines(ks, env, EntryLine);
    LinesCutsAtBreaks();
    NoCarriageReturns(header, env);
    LinesOfText(Lines, header + lines);
    FlatConcat(header, lines, PiecesOf(Lines));
    forall l | l in header
      ensures OneLine(l)
    {
    }
    HeaderStaysWhole(Lines, header);
    HeaderHasNothing(header, k);
    FindInConcat(header, Flat(lines, PiecesOf(Lines)), Entry, k);
    FindInFile(ks, env, k);
  }

  lemma NoCarriageReturns(header: seq<string>, env: Env)
    requires CommentBlock(header) && GoodKeys(env)
    ensures forall l | l in PrintedLines(header, env, EntryLine) :: '\r' !in l
  {
    assert Break('\r');
    forall l | l in EntryLines(SortedKeys(env.Keys), env, EntryLine) {
      EntryLinesHaveNoLineFeed(env, l);
    }
  }

  lemma HeaderHasNothing(header: seq<string>, k: string)
    requires CommentBlock(header)
    ensures Find(header, Entry, k).None?
  {
    forall i | 0 <= i < |header|
      ensures Entry(header[i]).None?
    {
      CommentIsSkipped(header[i]);
    }
    EntriesOfSkipped(header, Entry);
  }

  lemma OneLineIsNotCut(v: string)
    requires OneLine(v)
    ensures Escape(v) == v && Cut(v) == [v] && Fragments(v) == []
  {
    assert Break('\n') && Break('\r');
    EscapeFixes(v);
    LinesCutsAtBreaks();
    OneLineEnds(Lines, v, "");
  }

  /** What the second write prints for a key that the updates do not touch is what the first one printed. If the key
      has an entry: no fragment in front of its line is an entry for it, and its value is clean, or the first such
      fragment has that very value. If it has none: no fragment is an entry for it, or the first that is has no
      value. */
  predicate Stays(env: Env, merged: Env, k: string) {
    var ks := SortedKeys(merged.Keys);
    if k in env && env[k] != "" then
      var stray := Stray(Before(ks, k), merged, k);
      if stray.Some? then stray.value == env[k] else Clean(env[k])
    else
      Stray(ks, merged, k).None? || Stray(ks, merged, k) == Some("")
  }

  lemma CleanIsFixed(v: string)
    requires OneLine(v)
    ensures Unquote(v) == v <==> Clean(v)
  {
    OneLineIsNotCut(v);
    CleanIsReadBack(v);
  }

  lemma PrintedOfOneLine(env: Env, k: string)
    requires k in env ==> OneLine(env[k])
    ensures Printed(env, k) == if k in env && env[k] != "" then Some(env[k]) else None
  {
    if k in env {
      OneLineIsNotCut(env[k]);
    }
  }

  /** What the second write finds for a key that the updates do not touch. */
  function ReadAgain(env: Env, merged: Env, k: string): Option<string> {
    var ks := SortedKeys(merged.Keys);
    if k in env && env[k] != "" then Or(Stray(Before(ks, k), merged, k), Some(Unquote(env[k])))
    else Stray(ks, merged, k)
  }

  lemma FoundAgain(header: seq<string>, content: Option<string>, updates: Env, k: string)
    requires CommentBlock(header) && GoodKeys(updates) && k !in NonEmptyOnes(updates)
    ensures var again := Parsed(Some(Written(header, content, updates)));
            (if k in again then Some(again[k]) else None) == ReadAgain(Parsed(content), Merged(content, updates), k)
  {
    ParsedIsGood(content);
    FindInText(header, Merged(content, updates), k);
    if k in Parsed(content) {
      OneLineIsNotCut(Parsed(content)[k]);
    }
  }

  lemma StaysExactlyWhen(env: Env, merged: Env, k: string)
    requires k in env ==> OneLine(env[k])
    ensures Stays(env, merged, k) <==>
            Visible(ReadAgain(env, merged, k)) == Visible(if k in env then Some(env[k]) else None)
  {
    if k in env {
      CleanIsFixed(env[k]);
    }
  }

  /** An empty value is not printed. */
  function Visible(v: Option<string>): Option<string> { if v == Some("") then None else v }

  /** One key, touched or not. */
  lemma SamePrintForKey(header: seq<string>, content: Option<string>, updates: Env, k: string)
    requires CommentBlock(header) && GoodKeys(updates)
    ensures var env, kept, merged := Parsed(content), NonEmptyOnes(updates), Merged(content, updates);
            var again := Merged(Some(Written(header, content, updates)), updates);
            Printed(again, k) == Printed(merged, k) <==> k in kept || Stays(env, merged, k)
  {
    if k !in NonEmptyOnes(updates) {
      ParsedIsGood(content);
      ParsedIsGood(Some(Written(header, content, updates)));
      FoundAgain(header, content, updates, k);
      StaysExactlyWhen(Parsed(content), Merged(content, updates), k);
      PrintedOfOneLine(Merged(content, updates), k);
      PrintedOfOneLine(Merged(Some(Written(header, content, updates)), updates), k);
    }
  }

  /** Writing the same updates again leaves the file as it is exactly when nothing moves for the keys the updates do
      not touch. Otherwise a value such as `'"x"'` loses a pair of quotes at every write, or a fragment of an updated
      value has become an entry of its own. */
  lemma SecondWriteIsStill(header: seq<string>, content: Option<string>, updates: Env)
    requires CommentBlock(header) && GoodKeys(updates)
    ensures var env, kept, merged := Parsed(content), NonEmptyOnes(updates), Merged(content, updates);
            var first := Written(header, content, updates);
            Written(header, Some(first), updates) == first <==> forall k :: k in kept || Stays(env, merged, k)
  {
    var first := Written(header, content, updates);
    ParsedIsGood(content);
    ParsedIsGood(Some(first));
    PrintedAlike(header, Merged(Some(first), updates), Merged(content, updates));
    forall k {
      SamePrintForKey(header, content, updates, k);
    }
  }

  lemma {:induction false} NoOthers(ks: seq<string>, env: Env, other: string -> Option<string>)
    requires forall k | k in env && env[k] != "" :: other(env[k]).None?
    ensures FirstOther(ks, env, other).None?
  {
    if |ks| > 0 {
      NoOthers(ks[..|ks| - 1], env, other);
    }
  }

  lemma NoStrays(ks: seq<string>, env: Env, k: string)
    requires forall j | j in env && env[j] != "" :: Printable(env[j])
    ensures Stray(ks, env, k).None?
  {
    forall j | j in env && env[j] != ""
      ensures FragmentFor(k)(env[j]).None?
    {
      PrintableIsNotCut(env[j]);
    }
    NoOthers(ks, env, FragmentFor(k));
    StrayIsFirst(ks, env, k);
  }

  lemma PrintableIsNotCut(v: string)
    requires Printable(v)
    ensures Fragments(v) == []
  {
    EscapeIsOneLine(v);
    LinesCutsAtBreaks();
    OneLineEnds(Lines, Escape(v), "");
  }

  /** For updates that fit on their lines: exactly when every entry they do not touch is clean. */
  lemma OrdinaryWriteIsStill(header: seq<string>, content: Option<string>, updates: Env)
    requires CommentBlock(header) && GoodKeys(updates)
    requires forall k | k in NonEmptyOnes(updates) :: Printable(updates[k])
    ensures var env, first := Parsed(content), Written(header, content, updates);
            Written(header, Some(first), updates) == first <==>
            forall k | k in env && env[k] != "" && k !in NonEmptyOnes(updates) :: Clean(env[k])
  {
    var env, merged := Parsed(content), Merged(content, updates);
    SecondWriteIsStill(header, content, updates);
    MergedIsGood(content, updates);
    forall k
      ensures Stays(env, merged, k) <==> (k in env && env[k] != "" ==> Clean(env[k]))
    {
      NoStrays(SortedKeys(merged.Keys), merged, k);
      NoStrays(Before(SortedKeys(merged.Keys), k), merged, k);
    }
  }

  // ---- Values that do not survive ----

  lemma CutOnce(lines: string -> seq<string>, a: string, sep: char, line: string)
    requires CutsAtBreaks(lines) && OneLine(a) && OneLine(line) && Break(sep) && sep != '\r'
    ensures lines(a + [sep] + line + "\n") == [a, line]
  {
    OneLineEnds(lines, line, "");
    InParts(a + [sep], line, "\n");
    assert lines(a + [sep] + (line + "\n")) == [a] + lines(line + "\n");
  }

  lemma NothingToEscape(a: string, sep: char, line: string)
    requires OneLine(a) && OneLine(line) && sep != '\n' && sep != '\r'
    ensures Escape(a + [sep] + line) == a + [sep] + line
  {
    assert Break('\n') && Break('\r');
    EscapeFixes(a + [sep] + line);
  }

  lemma CutInTwo(a: string, sep: char, line: string)
    requires OneLine(a) && OneLine(line) && Break(sep) && sep != '\n' && sep != '\r'
    ensures Cut(a + [sep] + line) == [a, line]
  {
    NothingToEscape(a, sep, line);
    LinesCutsAtBreaks();
    CutOnce(Lines, a, sep, line);
  }

  lemma OneKey(k: string)
    ensures SortedKeys({k}) == [k] && Before([k], k) == []
  {
    SortedOnlyOneWay(SortedKeys({k}), [k]);
  }

  /** What one written value is read as when it is cut in two and its second half is an entry. */
  lemma FindInOneWritten(header: seq<string>, k: string, v: string, line: string, x: string)
    requires CommentBlock(header) && GoodKey(k) && v != "" && Fragments(v) == [line]
    ensures Find(Lines(Written(header, None, map[k := v])), Entry, x) ==
            if x == k then Some(OwnText(v)) else Find([line], Entry, x)
  {
    var env := map[k := v];
    assert Merged(None, env) == env && env.Keys == {k};
    OneKey(k);
    FindInText(header, env, x);
    var one := [k];
    assert one[..|one| - 1] == [];
    assert Strays(one, env) == Strays([], env) + [line] == [line];
  }

  lemma CutValueReads(k: string, a: string, sep: char, j: string, b: string)
    requires GoodKey(j) && Clean(a) && Clean(b) && Break(sep) && sep != '\n' && sep != '\r'
    ensures var v, line := a + [sep] + (j + "=" + b), j + "=" + b;
            v != "" && Fragments(v) == [line] && OwnText(v) == a && Entry(line) == Some((j, b))
  {
    FrontIsOneLine(j);
    CutInTwo(a, sep, j + "=" + b);
    CleanIsFixed(a);
    CleanIsFixed(b);
    EntryOfLine(j, b);
  }

  /** A line or paragraph separator, or any other line end that the printer leaves alone, cuts an updated value in two,
      and what follows it can become an entry of its own. */
  lemma SeparatorInjectsEntry(header: seq<string>, k: string, a: string, sep: char, j: string, b: string)
    requires CommentBlock(header) && GoodKey(k) && GoodKey(j) && j != k && Clean(a) && Clean(b)
    requires Break(sep) && sep != '\n' && sep != '\r'
    ensures Parsed(Some(Written(header, None, map[k := a + [sep] + (j + "=" + b)]))) == map[k := a, j := b]
  {
    CutValueReads(k, a, sep, j, b);
    TwoEntries(header, k, a + [sep] + (j + "=" + b), j + "=" + b, a, j, b);
  }

  lemma TwoEntries(header: seq<string>, k: string, v: string, line: string, a: string, j: string, b: string)
    requires CommentBlock(header) && GoodKey(k) && j != k
    requires v != "" && Fragments(v) == [line] && OwnText(v) == a && Entry(line) == Some((j, b))
    ensures Parsed(Some(Written(header, None, map[k := v]))) == map[k := a, j := b]
  {
    var lines := Lines(Written(header, None, map[k := v]));
    forall x
      ensures Find(lines, Entry, x) == if x == k then Some(a) else if x == j then Some(b) else None
    {
      FindInOneWritten(header, k, v, line, x);
      FindInOne(line, Entry, x);
    }
    SameFinds(lines, Entry, map[k := a, j := b]);
  }

  /** Such an update: the key `B` appears in the file although nobody wrote it. */
  lemma SeparatorWitness()
    ensures Parsed(Some(Written([], None, map["A" := "a" + ['\U{2028}'] + ("B" + "=" + "1")]))) ==
            map["A" := "a", "B" := "1"]
    ensures !Clean("a" + ['\U{2028}'] + ("B" + "=" + "1"))
  {
    SeparatorInjectsEntry([], "A", "a", '\U{2028}', "B", "1");
    var v := "a" + ['\U{2028}'] + ("B" + "=" + "1");
    assert v[1] in v && Break(v[1]);
  }

  /** Stripping one kind of quote from both ends. */
  lemma StripOnePair(x: string, q: char)
    requires x != "" && x[0] != q && x[|x| - 1] != q
    ensures Strip([q] + x + [q], c => c == q) == x
  {
    var quoted := [q] + x + [q];
    assert quoted[1..] == x + [q];
    assert (x + [q])[0] == x[0] && (x + [q])[..|x|] == x;
    assert StripLeft(quoted, c => c == q) == StripLeft(x + [q], c => c == q) == x + [q];
    assert StripRight(x + [q], c => c == q) == StripRight(x, c => c == q) == x;
  }

  lemma NestedQuotes(x: string)
    requires Clean(x)
    ensures Unquote("'" + ("\"" + x + "\"") + "'") == "\"" + x + "\""
    ensures OneLine("\"" + x + "\"") && !Clean("\"" + x + "\"")
  {
    var inner := "\"" + x + "\"";
    var v := "'" + inner + "'";
    assert v[0] == v[|v| - 1] == '\'' && inner[0] == inner[|inner| - 1] == '"';
    StrippedIsFixed(v, PyBlank);
    StrippedIsFixed(v, c => c == '"');
    StripOnePair(inner, '\'');
  }

  lemma OneLineFile(line: string, k: string, v: string)
    requires OneLine(line) && Entry(line) == Some((k, v))
    ensures Parsed(Some(line + "\n")) == map[k := v]
  {
    LinesCutsAtBreaks();
    OneLineEnds(Lines, line, "");
    forall j
      ensures Find([line], Entry, j) == if j == k then Some(v) else None
    {
      FindInOne(line, Entry, j);
    }
    SameFinds([line], Entry, map[k := v]);
  }

  /** A file with a value in nested quotes holds an unclean value, so that writing it twice without any update changes
      it twice. */
  lemma NestedQuotesMove(header: seq<string>, k: string, x: string)
    requires CommentBlock(header) && GoodKey(k) && Clean(x)
    ensures var content := Some(k + "=" + ("'" + ("\"" + x + "\"") + "'") + "\n");
            var first := Written(header, content, map[]);
            Parsed(content) == map[k := "\"" + x + "\""] && Written(header, Some(first), map[]) != first
  {
    var inner := "\"" + x + "\"";
    var line := k + "=" + ("'" + inner + "'");
    NestedQuotes(x);
    FrontIsOneLine(k);
    EntryOfLine(k, "'" + inner + "'");
    OneLineFile(line, k, inner);
    UncleanEntryMoves(header, Some(line + "\n"), k);
  }

  lemma UncleanEntryMoves(header: seq<string>, content: Option<string>, k: string)
    requires CommentBlock(header) && k in Parsed(content) && Parsed(content)[k] != "" && !Clean(Parsed(content)[k])
    ensures var first := Written(header, content, map[]);
            Written(header, Some(first), map[]) != first
  {
    OrdinaryWriteIsStill(header, content, map[]);
  }
}
