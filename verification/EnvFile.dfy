/** The credentials file of the configuration wizard: a parser and a printer that are meant to be inverse
    (configure_cmd.py). */
module EnvFiles {
  import opened Options
  import opened Strings

  type Env = map<string, string>

  // ---- str.splitlines ----

  /** The characters at which `str.splitlines()` ends a line. */
  predicate Break(c: char) {
    '\n' <= c <= '\r' || '\U{001C}' <= c <= '\U{001E}' || c == '\U{0085}' || c == '\U{2028}' || c == '\U{2029}'
  }

  predicate OneLine(s: string) { forall c | c in s :: !Break(c) }

  /** The index of the first character that satisfies `p`, or the length. */
  function First(s: string, p: char -> bool): (n: nat)
    ensures n <= |s| && (n < |s| ==> p(s[n])) && forall i | 0 <= i < n :: !p(s[i])
  {
    if |s| == 0 || p(s[0]) then 0 else 1 + First(s[1..], p)
  }

  lemma FirstIsUnique(s: string, p: char -> bool, n: nat)
    requires n <= |s| && (n < |s| ==> p(s[n])) && forall i | 0 <= i < n :: !p(s[i])
    ensures First(s, p) == n
  {
  }

  function Lines(text: string): seq<string>
    decreases |text|
  {
    if |text| == 0 then []
    else
      var n := First(text, Break);
      if n == |text| then [text]
      else [text[..n]] + Lines(text[n + (if "\r\n" <= text[n..] then 2 else 1)..])
  }

  lemma CrLfInFront(ending: string, rest: string)
    requires ending == "\r\n" || (|ending| == 1 && !(ending[0] == '\r' && |rest| > 0 && rest[0] == '\n'))
    ensures "\r\n" <= ending + rest <==> ending == "\r\n"
  {
    var text := ending + rest;
    assert |rest| > 0 && |ending| == 1 ==> text[1] == rest[0];
    assert "\r\n" <= text <==> |text| > 1 && text[0] == '\r' && text[1] == '\n';
  }

  lemma FirstBreakAfter(line: string, tail: string)
    requires OneLine(line) && |tail| > 0 && Break(tail[0])
    ensures First(line + tail, Break) == |line|
  {
    var text := line + tail;
    assert forall i | 0 <= i < |line| :: text[i] == line[i] && line[i] in line;
    FirstIsUnique(text, Break, |line|);
  }

  lemma LinesCut(line: string, tail: string, n: nat)
    requires OneLine(line) && 0 < n <= |tail| && Break(tail[0]) && n == if "\r\n" <= tail then 2 else 1
    ensures Lines(line + tail) == [line] + Lines(tail[n..])
  {
    var text := line + tail;
    FirstBreakAfter(line, tail);
    assert text[..|line|] == line && text[|line|..] == tail && text[|line| + n..] == tail[n..];
  }

  /** One line and its end, which is a carriage return with a line feed or any other single line end. */
  lemma LinesTakesOne(line: string, ending: string, rest: string)
    requires OneLine(line)
    requires ending == "\r\n" ||
             (|ending| == 1 && Break(ending[0]) && !(ending[0] == '\r' && |rest| > 0 && rest[0] == '\n'))
    ensures Lines(line + ending + rest) == [line] + Lines(rest)
  {
    CrLfInFront(ending, rest);
    InParts(line, ending, rest);
    LinesCut(line, ending + rest, |ending|);
  }

  lemma InParts(a: string, b: string, c: string)
    ensures a + b + c == a + (b + c) && (b + c)[|b|..] == c
  {
  }

  /** The lines, each ended by a line feed. */
  function Terminated(lines: seq<string>): string {
    if |lines| == 0 then "" else lines[0] + "\n" + Terminated(lines[1..])
  }

  lemma LineFeedEndsLine(line: string, rest: string)
    requires OneLine(line)
    ensures Lines(line + "\n" + rest) == [line] + Lines(rest)
  {
    LinesTakesOne(line, "\n", rest);
  }

  lemma {:induction false} LinesOfTerminated(lines: seq<string>)
    requires forall i | 0 <= i < |lines| :: OneLine(lines[i])
    ensures Lines(Terminated(lines)) == lines
  {
    if |lines| > 0 {
      LineFeedEndsLine(lines[0], Terminated(lines[1..]));
      LinesOfTerminated(lines[1..]);
    }
  }

  lemma {:induction false} JoinIsTerminated(lines: seq<string>)
    ensures Join(lines + [""], "\n") == Terminated(lines)
  {
    JoinSnoc(lines, "", "\n");
    if |lines| > 0 {
      JoinEndsLine(lines);
    }
  }

  lemma {:induction false} JoinEndsLine(lines: seq<string>)
    requires |lines| > 0
    ensures Join(lines, "\n") + "\n" == Terminated(lines)
  {
    var init, last := lines[..|lines| - 1], lines[|lines| - 1];
    TerminatedSnoc(init, last);
    assert lines == init + [last];
    if |init| > 0 {
      JoinEndsLine(init);
    }
  }

  lemma {:induction false} TerminatedSnoc(lines: seq<string>, last: string)
    ensures Terminated(lines + [last]) == Terminated(lines) + last + "\n"
  {
    if |lines| > 0 {
      TerminatedSnoc(lines[1..], last);
      assert (lines + [last])[1..] == lines[1..] + [last];
    }
  }

  // ---- One line ----

  /** `v.strip().strip('"').strip("'")`. */
  function Unquote(v: string): string { Strip(Strip(PyStrip(v), c => c == '"'), c => c == '\'') }

  function Entry(raw: string): Option<(string, string)> {
    var line := PyStrip(raw);
    var eq := First(line, c => c == '=');
    if line == "" || line[0] == '#' || eq == |line| || PyStrip(line[..eq]) == "" then None
    else Some((PyStrip(line[..eq]), Unquote(line[eq + 1..])))
  }

  predicate GoodKey(k: string) {
    k != "" && '=' !in k && OneLine(k) && Stripped(k, PyBlank) && k[0] != '#'
  }

  /** A single line with neither blanks nor quotes at its ends. */
  predicate Clean(v: string) {
    OneLine(v) && Stripped(v, c => PyBlank(c) || c == '"' || c == '\'')
  }

  function Escape(v: string): string {
    if |v| == 0 then ""
    else (if v[0] == '\n' then "\\n" else if v[0] == '\r' then "" else [v[0]]) + Escape(v[1..])
  }

  /** `v` has no line ends but those the printer escapes. */
  predicate Printable(v: string) { forall c | c in v && Break(c) :: c == '\n' || c == '\r' }

  lemma {:induction false} EscapeIsOneLine(v: string)
    requires Printable(v)
    ensures OneLine(Escape(v))
  {
    if |v| > 0 {
      EscapeIsOneLine(v[1..]);
    }
  }

  lemma {:induction false} EscapeFixes(v: string)
    ensures '\n' !in Escape(v) && '\r' !in Escape(v)
    ensures '\n' !in v && '\r' !in v ==> Escape(v) == v
  {
    if |v| > 0 {
      EscapeFixes(v[1..]);
      assert v == [v[0]] + v[1..];
    }
  }

  lemma StripIsPiece(s: string, blank: char -> bool) returns (lo: nat, hi: nat)
    ensures lo <= hi <= |s| && Strip(s, blank) == s[lo..hi]
    ensures forall c | c in Strip(s, blank) :: c in s
  {
    lo, hi := StripIsInnerPiece(s, blank);
  }

  lemma UnquoteIsPiece(v: string)
    ensures forall c | c in Unquote(v) :: c in v
  {
    var s := PyStrip(v);
    var t := Strip(s, c => c == '"');
    var a, b := StripIsPiece(v, PyBlank);
    a, b := StripIsPiece(s, c => c == '"');
    a, b := StripIsPiece(t, c => c == '\'');
  }

  /** Of the values that fit on the line they are printed on, exactly the clean ones are read back. */
  lemma CleanIsReadBack(v: string)
    requires Printable(v)
    ensures Unquote(Escape(v)) == v <==> Clean(v)
  {
    assert Break('\n') && Break('\r');
    EscapeFixes(v);
    EscapeIsOneLine(v);
    UnquoteIsPiece(Escape(v));
    UnquoteFixes(v);
  }

  lemma UnquoteFixes(v: string)
    ensures Unquote(v) == v <==> Stripped(v, c => PyBlank(c) || c == '"' || c == '\'')
  {
    var s := PyStrip(v);
    var t := Strip(s, c => c == '"');
    var a, b := StripIsPiece(v, PyBlank);
    var c, d := StripIsPiece(s, c => c == '"');
    var e, f := StripIsPiece(t, c => c == '\'');
    StrippedIsFixed(v, PyBlank);
    StrippedIsFixed(v, c => c == '"');
    StrippedIsFixed(v, c => c == '\'');
  }

  lemma {:induction false} StripRightPasses(front: string, v: string, blank: char -> bool)
    requires front != "" && !blank(front[|front| - 1])
    ensures StripRight(front + v, blank) == front + StripRight(v, blank)
  {
    if |v| == 0 {
      assert front + v == front;
    } else if blank(v[|v| - 1]) {
      StripRightPasses(front, v[..|v| - 1], blank);
      assert (front + v)[..|front + v| - 1] == front + v[..|v| - 1];
    }
  }

  /** Reading one printed line gives back its key and the unquoted value. */
  lemma EntryOfLine(k: string, v: string)
    requires GoodKey(k)
    ensures Entry(k + "=" + v) == Some((k, Unquote(v)))
  {
    var front, raw := k + "=", k + "=" + v;
    var v' := StripRight(v, PyBlank);
    assert StripLeft(raw, PyBlank) == raw;
    StripRightPasses(front, v, PyBlank);
    var line := front + v';
    assert PyStrip(raw) == line && line[0] == k[0];
    FirstIsUnique(line, c => c == '=', |k|);
    assert line[..|k|] == k && line[|k| + 1..] == v';
    StrippedIsFixed(k, PyBlank);
    StripDropsTrailing(v, PyBlank);
  }

  /** Whatever a file holds, what is read from it has well-formed keys and one-line values. */
  lemma EntryIsGood(raw: string)
    requires OneLine(raw) && Entry(raw).Some?
    ensures GoodKey(Entry(raw).value.0) && OneLine(Entry(raw).value.1)
  {
    var line := PyStrip(raw);
    var lo, hi := StripIsInnerPiece(raw, PyBlank);
    var eq := First(line, c => c == '=');
    var name := line[..eq];
    var a, b := StripIsInnerPiece(name, PyBlank);
    assert a == 0 by {
      assert name[0] == line[0];
    }
    UnquoteIsPiece(line[eq + 1..]);
  }

  // ---- The line, the quotes and the escapes, spelled out ----

  lemma BreaksSpelled(c: char)
    ensures Break(c) <==> c in "\n\U{000B}\U{000C}\r\U{001C}\U{001D}\U{001E}\U{0085}\U{2028}\U{2029}"
  {
  }

  /** A line feed becomes a backslash and an n, a carriage return is dropped, every other character stays. */
  function Escaped(c: char): string { if c == '\n' then "\\n" else if c == '\r' then "" else [c] }

  /** Escaping goes character by character. */
  lemma {:induction false} EscapeByCharacter(v: string)
    ensures Escape(v) == Exchanged(v, Escaped)
  {
    if |v| > 0 {
      EscapeByCharacter(v[1..]);
    }
  }

  /** So an escaped text is the escaped halves one after the other. */
  lemma EscapeConcat(a: string, b: string)
    ensures Escape(a + b) == Escape(a) + Escape(b)
  {
    EscapeByCharacter(a);
    EscapeByCharacter(b);
    EscapeByCharacter(a + b);
    ExchangedConcat(a, b, Escaped);
  }

  /** The line, stripped, is no comment and splits at its first equals sign into this name and this value. */
  ghost predicate SplitsInto(raw: string, name: string, value: string) {
    PyStrip(raw) == name + "=" + value && '=' !in name && !("#" <= PyStrip(raw))
  }

  lemma SplitAtEquals(raw: string, name: string, value: string)
    requires SplitsInto(raw, name, value)
    ensures Entry(raw) == if PyStrip(name) == "" then None else Some((PyStrip(name), Unquote(value)))
  {
    var line := PyStrip(raw);
    assert forall i | 0 <= i < |name| :: line[i] == name[i] && name[i] in name;
    FirstIsUnique(line, c => c == '=', |name|);
    assert line[..|name|] == name && line[|name| + 1..] == value;
  }

  lemma EntrySplits(raw: string) returns (name: string, value: string)
    requires Entry(raw).Some?
    ensures SplitsInto(raw, name, value)
  {
    var line := PyStrip(raw);
    var eq := First(line, c => c == '=');
    name, value := line[..eq], line[eq + 1..];
    assert line == name + "=" + value;
  }

  /** A line has an entry exactly when it splits into a name that is not blank and a value; the name is stripped and the
      value unquoted. */
  lemma EntryExactly(raw: string, k: string, v: string)
    ensures Entry(raw) == Some((k, v)) <==>
            exists name: string, value: string ::
              SplitsInto(raw, name, value) && PyStrip(name) == k && k != "" && v == Unquote(value)
  {
    if Entry(raw) == Some((k, v)) {
      var name, value := EntrySplits(raw);
      SplitAtEquals(raw, name, value);
    }
    if name: string, value: string :|
      SplitsInto(raw, name, value) && PyStrip(name) == k && k != "" && v == Unquote(value) {
      SplitAtEquals(raw, name, value);
    }
  }

  /** All characters of `s` are `c`. */
  predicate Only(s: string, c: char) { forall i | 0 <= i < |s| :: s[i] == c }

  lemma StripOutside(a: string, x: string, b: string, blank: char -> bool)
    requires (forall i | 0 <= i < |a| :: blank(a[i])) && (forall i | 0 <= i < |b| :: blank(b[i]))
    requires x != "" && Stripped(x, blank)
    ensures Strip(a + x + b, blank) == x
  {
    StripLeftPasses(a, x + b, blank);
    assert a + x + b == a + (x + b);
    assert (x + b)[0] == x[0] && (x + b)[..|x|] == x;
    StripRightPasses(x, b, blank);
    AllStripped(b, blank);
  }

  lemma {:induction false} StripLeftPasses(a: string, rest: string, blank: char -> bool)
    requires forall i | 0 <= i < |a| :: blank(a[i])
    ensures StripLeft(a + rest, blank) == StripLeft(rest, blank)
  {
    if |a| == 0 {
      assert a + rest == rest;
    } else {
      assert (a + rest)[1..] == a[1..] + rest;
      StripLeftPasses(a[1..], rest, blank);
    }
  }

  lemma {:induction false} AllStripped(b: string, blank: char -> bool)
    requires forall i | 0 <= i < |b| :: blank(b[i])
    ensures StripRight(b, blank) == ""
  {
    if |b| > 0 {
      AllStripped(b[..|b| - 1], blank);
    }
  }

  /** Blanks come off first, then double quotes, then single ones, and nothing after that: what is left between them is
      the value. */
  lemma UnquoteSpelled(before: string, d: string, s: string, x: string, s': string, d': string, after: string)
    requires (forall i | 0 <= i < |before| :: PyBlank(before[i])) && (forall i | 0 <= i < |after| :: PyBlank(after[i]))
    requires Only(d, '"') && Only(d', '"') && Only(s, '\'') && Only(s', '\'')
    requires x != "" && Stripped(x, c => PyBlank(c) || c == '"' || c == '\'')
    ensures Unquote(before + (d + (s + x + s') + d') + after) == x
  {
    var inner := s + x + s';
    var quoted := d + inner + d';
    QuotesAreSolid();
    assert inner[0] == (if s == "" then x[0] else '\'');
    assert inner[|inner| - 1] == (if s' == "" then x[|x| - 1] else '\'');
    assert quoted[0] == (if d == "" then inner[0] else '"');
    assert quoted[|quoted| - 1] == (if d' == "" then inner[|inner| - 1] else '"');
    StripOutside(before, quoted, after, PyBlank);
    StripOutside(d, inner, d', c => c == '"');
    StripOutside(s, x, s', c => c == '\'');
  }

  lemma QuotesAreSolid()
    ensures !PyBlank('"') && !PyBlank('\'')
  {
  }

  // ---- The parser ----

  /** What `entry` reads from the lines; the first line of a key wins. */
  function EntriesOf(lines: seq<string>, entry: string -> Option<(string, string)>): Env {
    if |lines| == 0 then map[]
    else
      var init, e := EntriesOf(lines[..|lines| - 1], entry), entry(lines[|lines| - 1]);
      if e.Some? && e.value.0 !in init then init[e.value.0 := e.value.1] else init
  }

  function Parsed(content: Option<string>): Env {
    if content.None? then map[] else EntriesOf(Lines(content.value), Entry)
  }

  ghost predicate GoodKeys(env: Env) { forall k | k in env :: GoodKey(k) }

  /** Well-formed keys, and values that fit on the line they are printed on. */
  ghost predicate GoodEnv(env: Env) { GoodKeys(env) && forall k | k in env :: Printable(env[k]) }

  lemma {:induction false} LinesAreOneLine(text: string)
    ensures forall i | 0 <= i < |Lines(text)| :: OneLine(Lines(text)[i])
    decreases |text|
  {
    if |text| > 0 {
      var n := First(text, Break);
      if n < |text| {
        LinesAreOneLine(text[n + (if "\r\n" <= text[n..] then 2 else 1)..]);
      }
    }
  }

  /** Line `i` is the first that has an entry for `k`. */
  ghost predicate FirstFor(lines: seq<string>, entry: string -> Option<(string, string)>, k: string, i: nat) {
    && i < |lines| && entry(lines[i]).Some? && entry(lines[i]).value.0 == k
    && forall j | 0 <= j < i :: entry(lines[j]).None? || entry(lines[j]).value.0 != k
  }

  /** A key is read exactly when some line has an entry for it, and its value is that of the first such line. */
  lemma {:induction false} FirstLineWins(lines: seq<string>, entry: string -> Option<(string, string)>, k: string)
    ensures k in EntriesOf(lines, entry) ==>
              exists i: nat :: FirstFor(lines, entry, k, i) && entry(lines[i]).value.1 == EntriesOf(lines, entry)[k]
    ensures k !in EntriesOf(lines, entry) ==>
              forall i | 0 <= i < |lines| :: entry(lines[i]).None? || entry(lines[i]).value.0 != k
  {
    if |lines| > 0 {
      var init, n := lines[..|lines| - 1], |lines| - 1;
      FirstLineWins(init, entry, k);
      assert forall i | 0 <= i < n :: init[i] == lines[i];
      if k in EntriesOf(init, entry) {
        var i: nat :| FirstFor(init, entry, k, i) && entry(init[i]).value.1 == EntriesOf(init, entry)[k];
        assert FirstFor(lines, entry, k, i);
      } else if k in EntriesOf(lines, entry) {
        assert FirstFor(lines, entry, k, n);
      }
    }
  }

  lemma KeyIsGood(lines: seq<string>, k: string)
    requires k in EntriesOf(lines, Entry) && forall i | 0 <= i < |lines| :: OneLine(lines[i])
    ensures GoodKey(k) && OneLine(EntriesOf(lines, Entry)[k])
  {
    FirstLineWins(lines, Entry, k);
    var i: nat :| FirstFor(lines, Entry, k, i) && Entry(lines[i]).value.1 == EntriesOf(lines, Entry)[k];
    EntryIsGood(lines[i]);
  }

  lemma EntriesAreGood(lines: seq<string>)
    requires forall i | 0 <= i < |lines| :: OneLine(lines[i])
    ensures forall k | k in EntriesOf(lines, Entry) :: GoodKey(k) && OneLine(EntriesOf(lines, Entry)[k])
  {
    forall k | k in EntriesOf(lines, Entry) {
      KeyIsGood(lines, k);
    }
  }

  lemma ParsedIsGood(content: Option<string>)
    ensures GoodEnv(Parsed(content)) && forall k | k in Parsed(content) :: OneLine(Parsed(content)[k])
  {
    if content.Some? {
      LinesAreOneLine(content.value);
      EntriesAreGood(Lines(content.value));
    }
  }

  // ---- The printer ----

  /** The lines at the top of a written file: comments and blank lines, whatever their wording. */
  ghost predicate CommentBlock(header: seq<string>) {
    forall i | 0 <= i < |header| :: OneLine(header[i]) && (header[i] == "" || header[i][0] == '#')
  }

  function SortedKeys(keys: set<string>): (ks: seq<string>)
    ensures forall k :: k in ks <==> k in keys
    ensures forall i, j | 0 <= i < j < |ks| :: ks[i] != ks[j] && LexLe(ks[i], ks[j])
  {
    if keys == {} then []
    else
      LexLeIsOrder();
      LeastKey(keys);
      var k :| k in keys && forall j | j in keys :: LexLe(k, j);
      [k] + SortedKeys(keys - {k})
  }

  lemma {:induction false} LeastKey(keys: set<string>)
    requires keys != {}
    ensures exists k | k in keys :: forall j | j in keys :: LexLe(k, j)
  {
    var a :| a in keys;
    LexLeTotal(a, a);
    if keys == {a} {
      assert forall j | j in keys :: LexLe(a, j);
    } else {
      LeastKey(keys - {a});
      var b :| b in keys - {a} && forall j | j in keys - {a} :: LexLe(b, j);
      LexLeTotal(a, b);
      var least := if LexLe(a, b) then a else b;
      forall j | j in keys
        ensures LexLe(least, j)
      {
        if j != a && least == a {
          LexLeTransitive(a, b, j);
        }
      }
    }
  }

  function EntryLine(k: string, v: string): string { k + "=" + Escape(v) }

  function EntryLines(ks: seq<string>, env: Env, line: (string, string) -> string): seq<string> {
    if |ks| == 0 then []
    else
      var init, k := EntryLines(ks[..|ks| - 1], env, line), ks[|ks| - 1];
      if k in env && env[k] != "" then init + [line(k, env[k])] else init
  }

  function PrintedLines(header: seq<string>, env: Env, line: (string, string) -> string): seq<string> {
    header + EntryLines(SortedKeys(env.Keys), env, line)
  }

  function NonEmptyOnes(env: Env): Env { map k | k in env && env[k] != "" :: env[k] }

  function Merged(content: Option<string>, updates: Env): Env { Parsed(content) + NonEmptyOnes(updates) }

  function Written(header: seq<string>, content: Option<string>, updates: Env): string {
    Terminated(PrintedLines(header, Merged(content, updates), EntryLine))
  }

  method ReadLine(raw: string) returns (e: Option<(string, string)>)
    ensures e == Entry(raw)
  {
    var line := PyStrip(raw);
    if line == "" || line[0] == '#' {
      return None;
    }
    var eq := First(line, c => c == '=');
    if eq == |line| {
      return None;
    }
    var key := PyStrip(line[..eq]);
    if key == "" {
      return None;
    }
    e := Some((key, Unquote(line[eq + 1..])));
  }

  /** The printing loop. */
  method AddEntries(header: seq<string>, keys: seq<string>, merged: Env) returns (lines: seq<string>)
    requires forall k | k in keys :: k in merged
    ensures lines == header + EntryLines(keys, merged, EntryLine)
  {
    lines := [];
    for n := 0 to |keys|
      invariant lines == EntryLines(keys[..n], merged, EntryLine)
    {
      assert keys[..n + 1][..n] == keys[..n];
      assert keys[n] in keys;
      var val := merged[keys[n]];
      if val == "" {
        continue;
      }
      lines := lines + [keys[n] + "=" + Escape(val)];
    }
    assert keys[..|keys|] == keys;
    lines := header + lines;
  }

  class EnvFile {
    const header: seq<string>
    var content: Option<string>

    constructor (header: seq<string>, content: Option<string>)
      ensures this.header == header && this.content == content
    {
      this.header, this.content := header, content;
    }

    method Parse() returns (out: Env)
      ensures out == Parsed(content)
    {
      if content.None? {
        return map[];
      }
      out := map[];
      var lines := Lines(content.value);
      for n := 0 to |lines|
        invariant out == EntriesOf(lines[..n], Entry)
      {
        assert lines[..n + 1][..n] == lines[..n];
        var e := ReadLine(lines[n]);
        if e.Some? && e.value.0 !in out {
          out := out[e.value.0 := e.value.1];
        }
      }
      assert lines[..|lines|] == lines;
    }

    method Write(updates: Env)
      modifies this
      ensures content == Some(Written(header, old(content), updates))
    {
      var merged := Parse();
      merged := merged + map k | k in updates && updates[k] != "" :: updates[k];
      var lines := AddEntries(header, SortedKeys(merged.Keys), merged);
      JoinIsTerminated(lines);
      content := Some(Join(lines + [""], "\n"));
    }
  }

  // ---- Reading what was written ----

  lemma CommentIsSkipped(line: string)
    requires line == "" || line[0] == '#'
    ensures Entry(line).None?
  {
    assert StripLeft(line, PyBlank) == line;
    var hi := StripRightIsPrefix(line, PyBlank);
  }

  lemma {:induction false} EntriesOfSkipped(lines: seq<string>, entry: string -> Option<(string, string)>)
    requires forall i | 0 <= i < |lines| :: entry(lines[i]).None?
    ensures EntriesOf(lines, entry) == map[]
  {
    if |lines| > 0 {
      EntriesOfSkipped(lines[..|lines| - 1], entry);
    }
  }

  /** What is kept of `env` by printing and reading it, when `back` is what becomes of a value. */
  function ReadBack(env: Env, back: string -> string): Env { map k | k in env && env[k] != "" :: back(env[k]) }

  /** What the lines have for a key. */
  function Find(lines: seq<string>, entry: string -> Option<(string, string)>, k: string): Option<string> {
    var read := EntriesOf(lines, entry);
    if k in read then Some(read[k]) else None
  }

  lemma FindInOne(line: string, entry: string -> Option<(string, string)>, k: string)
    ensures Find([line], entry, k) ==
            if entry(line).Some? && entry(line).value.0 == k then Some(entry(line).value.1) else None
  {
    var one := [line];
    assert one[..|one| - 1] == [];
    assert EntriesOf([], entry) == map[];
  }

  lemma {:induction false} FindInConcat(
    a: seq<string>, b: seq<string>, entry: string -> Option<(string, string)>, k: string)
    ensures Find(a + b, entry, k) == if Find(a, entry, k).Some? then Find(a, entry, k) else Find(b, entry, k)
  {
    if |b| == 0 {
      assert a + b == a;
    } else {
      FindInConcat(a, b[..|b| - 1], entry, k);
      assert (a + b)[..|a + b| - 1] == a + b[..|b| - 1];
    }
  }

  lemma {:induction false} FindPrinted(ks: seq<string>, env: Env,
        entry: string -> Option<(string, string)>, line: (string, string) -> string, back: string -> string, k: string)
    requires forall j | j in env :: entry(line(j, env[j])) == Some((j, back(env[j])))
    ensures Find(EntryLines(ks, env, line), entry, k) ==
            if k in ks && k in env && env[k] != "" then Some(back(env[k])) else None
  {
    if |ks| > 0 {
      var init, last := ks[..|ks| - 1], ks[|ks| - 1];
      FindPrinted(init, env, entry, line, back, k);
      assert ks == init + [last];
      if last in env && env[last] != "" {
        FindInConcat(EntryLines(init, env, line), [line(last, env[last])], entry, k);
        FindInOne(line(last, env[last]), entry, k);
      }
    }
  }

  lemma {:induction false} EntryLinesAreOneLine(ks: seq<string>, env: Env, line: (string, string) -> string)
    requires forall k | k in env :: OneLine(line(k, env[k]))
    ensures forall i | 0 <= i < |EntryLines(ks, env, line)| :: OneLine(EntryLines(ks, env, line)[i])
  {
    if |ks| > 0 {
      EntryLinesAreOneLine(ks[..|ks| - 1], env, line);
    }
  }

  function PassedOn(v: string): string { Unquote(Escape(v)) }

  lemma ParsePrintedWith(header: seq<string>, env: Env,
        entry: string -> Option<(string, string)>, line: (string, string) -> string, back: string -> string)
    requires forall i | 0 <= i < |header| :: entry(header[i]).None?
    requires forall k | k in env :: entry(line(k, env[k])) == Some((k, back(env[k])))
    ensures EntriesOf(PrintedLines(header, env, line), entry) == ReadBack(env, back)
  {
    var ks := SortedKeys(env.Keys);
    EntriesOfSkipped(header, entry);
    forall k
      ensures Find(PrintedLines(header, env, line), entry, k) ==
              if k in env && env[k] != "" then Some(back(env[k])) else None
    {
      FindInConcat(header, EntryLines(ks, env, line), entry, k);
      FindPrinted(ks, env, entry, line, back, k);
    }
    SameFinds(PrintedLines(header, env, line), entry, ReadBack(env, back));
  }

  lemma SameFinds(lines: seq<string>, entry: string -> Option<(string, string)>, env: Env)
    requires forall k :: Find(lines, entry, k) == if k in env then Some(env[k]) else None
    ensures EntriesOf(lines, entry) == env
  {
    var read := EntriesOf(lines, entry);
    forall k
      ensures k in read <==> k in env
      ensures k in read ==> read[k] == env[k]
    {
      assert Find(lines, entry, k) == if k in env then Some(env[k]) else None;
    }
  }

  lemma LinesOfPrinted(header: seq<string>, env: Env, line: (string, string) -> string)
    requires forall i | 0 <= i < |header| :: OneLine(header[i])
    requires forall k | k in env :: OneLine(line(k, env[k]))
    ensures Lines(Terminated(PrintedLines(header, env, line))) == PrintedLines(header, env, line)
  {
    EntryLinesAreOneLine(SortedKeys(env.Keys), env, line);
    LinesOfTerminated(PrintedLines(header, env, line));
  }

  lemma LineIsReadBack(k: string, v: string)
    requires GoodKey(k) && Printable(v)
    ensures OneLine(EntryLine(k, v)) && Entry(EntryLine(k, v)) == Some((k, PassedOn(v)))
  {
    EscapeIsOneLine(v);
    EntryOfLine(k, Escape(v));
  }

  lemma ParsePrinted(header: seq<string>, env: Env)
    requires CommentBlock(header) && GoodEnv(env)
    ensures Lines(Terminated(PrintedLines(header, env, EntryLine))) == PrintedLines(header, env, EntryLine)
    ensures EntriesOf(PrintedLines(header, env, EntryLine), Entry) == ReadBack(env, PassedOn)
  {
    forall k | k in env
      ensures OneLine(EntryLine(k, env[k])) && Entry(EntryLine(k, env[k])) == Some((k, PassedOn(env[k])))
    {
      LineIsReadBack(k, env[k]);
    }
    forall i | 0 <= i < |header|
      ensures Entry(header[i]).None?
    {
      CommentIsSkipped(header[i]);
    }
    LinesOfPrinted(header, env, EntryLine);
    ParsePrintedWith(header, env, Entry, EntryLine, PassedOn);
  }

  lemma ReadBackIsAll(env: Env, back: string -> string)
    ensures ReadBack(env, back) == NonEmptyOnes(env) <==> forall k | k in env && env[k] != "" :: back(env[k]) == env[k]
  {
    var read, kept := ReadBack(env, back), NonEmptyOnes(env);
    if read == kept {
      forall k | k in env && env[k] != ""
        ensures back(env[k]) == env[k]
      {
        assert k in read && read[k] == kept[k];
      }
    }
  }

  lemma MergedIsGood(content: Option<string>, updates: Env)
    requires GoodKeys(updates)
    requires forall k | k in NonEmptyOnes(updates) :: Printable(updates[k])
    ensures GoodEnv(Merged(content, updates))
  {
    ParsedIsGood(content);
  }

  /** The round trip for updates that fit on their lines. */
  lemma PrintableWriteThenParse(header: seq<string>, content: Option<string>, updates: Env)
    requires CommentBlock(header) && GoodEnv(Merged(content, updates))
    ensures var merged := Merged(content, updates);
            Parsed(Some(Written(header, content, updates))) == NonEmptyOnes(merged) <==>
            forall k | k in merged && merged[k] != "" :: Clean(merged[k])
  {
    var merged := Merged(content, updates);
    ParsePrinted(header, merged);
    ReadBackIsAll(merged, PassedOn);
    forall k | k in merged
      ensures PassedOn(merged[k]) == merged[k] <==> Clean(merged[k])
    {
      CleanIsReadBack(merged[k]);
    }
  }

  /** The round trip: reading a written file yields the old entries overlaid with the non-empty updates, without
      the empty ones, exactly when the values that are kept are clean. */
  lemma WriteThenParse(header: seq<string>, content: Option<string>, updates: Env)
    requires CommentBlock(header) && GoodKeys(updates)
    ensures var merged := Merged(content, updates);
            Parsed(Some(Written(header, content, updates))) == NonEmptyOnes(merged) <==>
            forall k | k in merged && merged[k] != "" :: Clean(merged[k])
  {
    var merged, kept := Merged(content, updates), NonEmptyOnes(Merged(content, updates));
    var read := Parsed(Some(Written(header, content, updates)));
    if k :| k in NonEmptyOnes(updates) && !Printable(updates[k]) {
      ParsedIsGood(Some(Written(header, content, updates)));
      assert k in kept && kept[k] == updates[k] && !Clean(merged[k]);
    } else {
      MergedIsGood(content, updates);
      PrintableWriteThenParse(header, content, updates);
    }
  }

  /** One value survives the file if and only if it is clean. */
  lemma CleanExactly(header: seq<string>, k: string, v: string)
    requires CommentBlock(header) && GoodKey(k) && v != ""
    ensures Parsed(Some(Written(header, None, map[k := v]))) == map[k := v] <==> Clean(v)
  {
    var env := map[k := v];
    assert Merged(None, env) == env && NonEmptyOnes(env) == env;
    WriteThenParse(header, None, env);
    assert k in env && env[k] == v;
  }
}
