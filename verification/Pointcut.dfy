/** Pointcut expressions: the split at `&&`, and the two regular expressions that scan each part (aop.py). */
module Pointcuts {
  import opened Filtering
  import opened Options
  import opened Strings

  // ---- The regular expressions ----

  /** A match: the text of its group, and what follows it. */
  datatype Match = Match(text: string, rest: string)

  predicate LowerCase(c: char) { 'a' <= c <= 'z' }

  predicate WordChar(c: char) { LowerCase(c) || '0' <= c <= '9' || c == '_' }

  /** How many characters at the front are word characters. */
  function WordLength(s: string): (n: nat)
    ensures n <= |s|
  {
    if |s| > 0 && WordChar(s[0]) then 1 + WordLength(s[1..]) else 0
  }

  /** Where `c` first occurs, or the length. */
  function Until(s: string, c: char): (n: nat)
    ensures n <= |s|
  {
    if |s| == 0 || s[0] == c then 0 else 1 + Until(s[1..], c)
  }

  /** What is left of `s` after blanks and `c`. */
  function Skip(s: string, c: char, blank: char -> bool): Option<string> {
    var t := StripLeft(s, blank);
    if |t| > 0 && t[0] == c then Some(t[1..]) else None
  }

  /** `([a-z][a-z0-9_]*)\s*\(\s*\)` at the front. The word never gives a character back: what follows a word character
      would have to be a blank or the parenthesis. */
  function MatchCall(s: string, blank: char -> bool): Option<Match> {
    if |s| == 0 || !LowerCase(s[0]) then None
    else
      var n := WordLength(s);
      var inner := Skip(s[n..], '(', blank);
      var rest := if inner.Some? then Skip(inner.value, ')', blank) else None;
      if rest.Some? then Some(Match(s[..n], rest.value)) else None
  }

  /** The letters of `args`, in either case; the long s is a case variant of the s. */
  predicate ArgsWord(s: string) {
    && |s| >= 4 && (s[0] == 'a' || s[0] == 'A') && (s[1] == 'r' || s[1] == 'R') && (s[2] == 'g' || s[2] == 'G')
    && (s[3] == 's' || s[3] == 'S' || s[3] == '\U{017F}')
  }

  /** `q([^q]+)q\s*\)` at the front, for a quote `q`. */
  function MatchQuoted(s: string, q: char, blank: char -> bool): Option<Match> {
    if |s| == 0 || s[0] != q then None
    else
      var k := Until(s[1..], q);
      if k == 0 || k == |s| - 1 then None
      else
        var rest := Skip(s[k + 2..], ')', blank);
        if rest.Some? then Some(Match(s[1..k + 1], rest.value)) else None
  }

  /** `\s*([^)]+)\s*\)` at the front: everything up to the parenthesis, or the last blank when there are only blanks. */
  function MatchBare(s: string, blank: char -> bool): Option<Match> {
    var t := StripLeft(s, blank);
    var k := Until(t, ')');
    if k == |t| then None
    else if k > 0 then Some(Match(t[..k], t[k + 1..]))
    else
      var blanks := Until(s, ')');
      if blanks > 0 then Some(Match(s[blanks - 1..blanks], t[1..])) else None
  }

  /** The three alternatives behind `args(`. */
  function ArgsText(s: string, blank: char -> bool): Option<Match> {
    var t := StripLeft(s, blank);
    if MatchQuoted(t, '"', blank).Some? then MatchQuoted(t, '"', blank)
    else if MatchQuoted(t, '\'', blank).Some? then MatchQuoted(t, '\'', blank)
    else MatchBare(s, blank)
  }

  /** `args\s*\(\s*(?:"([^"]+)"|'([^']+)'|([^)]+))\s*\)` at the front, in either case. */
  function MatchArgs(s: string, blank: char -> bool): Option<Match> {
    var inner := if ArgsWord(s) then Skip(s[4..], '(', blank) else None;
    if inner.Some? then ArgsText(inner.value, blank) else None
  }

  function CallAt(blank: char -> bool): string -> Option<Match> { (s: string) => MatchCall(s, blank) }

  function ArgsAt(blank: char -> bool): string -> Option<Match> { (s: string) => MatchArgs(s, blank) }

  lemma SkipShrinks(s: string, c: char, blank: char -> bool)
    ensures Skip(s, c, blank).Some? ==> |Skip(s, c, blank).value| < |s|
  {
    var lo := StripLeftIsSuffix(s, blank);
  }

  /** No match is empty. */
  lemma MatchesShrink(s: string, blank: char -> bool)
    ensures MatchCall(s, blank).Some? ==> |MatchCall(s, blank).value.rest| < |s|
    ensures MatchArgs(s, blank).Some? ==> |MatchArgs(s, blank).value.rest| < |s|
  {
    var n := WordLength(s);
    SkipShrinks(s[n..], '(', blank);
    if Skip(s[n..], '(', blank).Some? {
      SkipShrinks(Skip(s[n..], '(', blank).value, ')', blank);
    }
    if ArgsWord(s) {
      SkipShrinks(s[4..], '(', blank);
      if Skip(s[4..], '(', blank).Some? {
        ArgsTextShrinks(Skip(s[4..], '(', blank).value, blank);
      }
    }
  }

  lemma QuotedShrinks(s: string, q: char, blank: char -> bool)
    ensures MatchQuoted(s, q, blank).Some? ==> |MatchQuoted(s, q, blank).value.rest| < |s|
  {
    if |s| > 0 {
      var k := Until(s[1..], q);
      if 0 < k < |s| - 1 {
        SkipShrinks(s[k + 2..], ')', blank);
      }
    }
  }

  lemma ArgsTextShrinks(s: string, blank: char -> bool)
    ensures ArgsText(s, blank).Some? ==> |ArgsText(s, blank).value.rest| < |s|
  {
    var lo := StripLeftIsSuffix(s, blank);
    QuotedShrinks(s[lo..], '"', blank);
    QuotedShrinks(s[lo..], '\'', blank);
  }

  ghost predicate Shrinks(matcher: string -> Option<Match>) {
    forall s :: matcher(s).Some? ==> |matcher(s).value.rest| < |s|
  }

  /** `finditer`: the texts of the matches from left to right, each search beginning behind the match before. */
  function Scan(matcher: string -> Option<Match>, s: string): seq<string>
    requires Shrinks(matcher)
    decreases |s|
  {
    if |s| == 0 then []
    else
      var m := matcher(s);
      if m.Some? then [m.value.text] + Scan(matcher, m.value.rest) else Scan(matcher, s[1..])
  }

  // ---- What stands behind a match, or in front of it, does not show ----

  /** A character that takes part in neither expression, unless between quotes or before a parenthesis. */
  predicate Inert(x: char) {
    && !WordChar(x) && x != '(' && x != ')' && x != '"' && x != '\''
    && x != 'A' && x != 'R' && x != 'G' && x != 'S' && x != '\U{017F}'
  }

  function Extend(m: Option<Match>, w: string): Option<Match> {
    if m.Some? then Some(Match(m.value.text, m.value.rest + w)) else None
  }

  lemma {:induction false} StripLeftAppend(s: string, w: string, blank: char -> bool)
    ensures StripLeft(s + w, blank) ==
            if StripLeft(s, blank) == "" then StripLeft(w, blank) else StripLeft(s, blank) + w
  {
    if |s| == 0 {
      assert s + w == w;
    } else {
      assert (s + w)[1..] == s[1..] + w;
      StripLeftAppend(s[1..], w, blank);
    }
  }

  lemma SkipAppend(s: string, w: string, c: char, blank: char -> bool)
    requires Skip(w, c, blank).None?
    ensures Skip(s + w, c, blank) ==
            if Skip(s, c, blank).Some? then Some(Skip(s, c, blank).value + w) else None
  {
    StripLeftAppend(s, w, blank);
    var t := StripLeft(s, blank);
    if t != "" {
      assert (t + w)[1..] == t[1..] + w;
    }
  }

  lemma {:induction false} WordLengthAppend(s: string, w: string)
    requires |w| > 0 ==> !WordChar(w[0])
    ensures WordLength(s + w) == WordLength(s)
  {
    if |s| == 0 {
      assert s + w == w;
    } else {
      assert (s + w)[1..] == s[1..] + w;
      WordLengthAppend(s[1..], w);
    }
  }

  lemma {:induction false} UntilAppend(s: string, w: string, c: char)
    requires c !in w
    ensures Until(s + w, c) == if Until(s, c) < |s| then Until(s, c) else |s| + |w|
  {
    if |s| == 0 {
      assert s + w == w;
      UntilNone(w, c);
    } else {
      assert (s + w)[1..] == s[1..] + w;
      UntilAppend(s[1..], w, c);
    }
  }

  lemma {:induction false} UntilNone(w: string, c: char)
    requires c !in w
    ensures Until(w, c) == |w|
  {
    if |w| > 0 {
      UntilNone(w[1..], c);
    }
  }

  /** Text that begins neither with a word character nor with a parenthesis, blanks apart. */
  predicate CallStops(w: string, blank: char -> bool) {
    |w| > 0 && !WordChar(w[0]) && Skip(w, '(', blank).None? && Skip(w, ')', blank).None?
  }

  lemma MatchCallAppend(s: string, w: string, blank: char -> bool)
    requires CallStops(w, blank)
    ensures MatchCall(s + w, blank) == Extend(MatchCall(s, blank), w)
  {
    if |s| > 0 {
      WordLengthAppend(s, w);
      var n := WordLength(s);
      assert (s + w)[n..] == s[n..] + w && (s + w)[..n] == s[..n];
      SkipAppend(s[n..], w, '(', blank);
      var inner := Skip(s[n..], '(', blank);
      if inner.Some? {
        SkipAppend(inner.value, w, ')', blank);
      }
    } else {
      assert s + w == w;
    }
  }

  lemma InertStops(x: char, blank: char -> bool)
    requires Inert(x)
    ensures CallStops([x], blank)
  {
    assert blank(x) ==> StripLeft([x], blank) == "";
  }

  lemma MatchQuotedAppend(s: string, x: char, q: char, blank: char -> bool)
    requires Inert(x) && (q == '"' || q == '\'')
    ensures MatchQuoted(s + [x], q, blank) == Extend(MatchQuoted(s, q, blank), [x])
  {
    var w := [x];
    InertStops(x, blank);
    if |s| > 0 && s[0] == q {
      assert (s + w)[1..] == s[1..] + w;
      UntilAppend(s[1..], w, q);
      var k := Until(s[1..], q);
      if 0 < k < |s| - 1 {
        assert (s + w)[k + 2..] == s[k + 2..] + w && (s + w)[1..k + 1] == s[1..k + 1];
        SkipAppend(s[k + 2..], w, ')', blank);
      }
    }
  }

  lemma {:induction false} UntilFinds(s: string, c: char)
    requires c in s
    ensures Until(s, c) < |s|
  {
    if s[0] != c {
      UntilFinds(s[1..], c);
    }
  }

  lemma StripLeftHolds(s: string, c: char, blank: char -> bool)
    requires c in StripLeft(s, blank)
    ensures c in s
  {
    var lo := StripLeftIsSuffix(s, blank);
  }

  lemma MatchBareAppend(s: string, x: char, blank: char -> bool)
    requires Inert(x)
    ensures MatchBare(s + [x], blank) == Extend(MatchBare(s, blank), [x])
  {
    var w := [x];
    var t := StripLeft(s, blank);
    StripLeftAppend(s, w, blank);
    if t != "" {
      UntilAppend(t, w, ')');
      UntilAppend(s, w, ')');
      var k := Until(t, ')');
      if k < |t| {
        assert (t + w)[k + 1..] == t[k + 1..] + w && (t + w)[..k] == t[..k];
      }
      if t[0] == ')' {
        StripLeftHolds(s, ')', blank);
        UntilFinds(s, ')');
        var b := Until(s, ')');
        assert b > 0 ==> (s + w)[b - 1..b] == s[b - 1..b];
      }
    } else {
      UntilNone(w, ')');
    }
  }

  lemma MatchArgsAppend(s: string, x: char, blank: char -> bool)
    requires Inert(x)
    ensures MatchArgs(s + [x], blank) == Extend(MatchArgs(s, blank), [x])
  {
    var w := [x];
    InertStops(x, blank);
    ArgsWordAppend(s, x);
    if ArgsWord(s) {
      assert (s + w)[4..] == s[4..] + w;
      SkipAppend(s[4..], w, '(', blank);
      if Skip(s[4..], '(', blank).Some? {
        ArgsTextAppend(Skip(s[4..], '(', blank).value, x, blank);
      }
    }
  }

  lemma ArgsWordAppend(s: string, x: char)
    requires Inert(x)
    ensures ArgsWord(s + [x]) == ArgsWord(s)
  {
    var t := s + [x];
    assert |s| < |t| && t[|s|] == x;
    assert forall i | 0 <= i < |s| :: t[i] == s[i];
  }

  lemma ArgsTextAppend(s: string, x: char, blank: char -> bool)
    requires Inert(x)
    ensures ArgsText(s + [x], blank) == Extend(ArgsText(s, blank), [x])
  {
    var t := StripLeft(s, blank);
    StripLeftAppend(s, [x], blank);
    MatchBareAppend(s, x, blank);
    if t != "" {
      MatchQuotedAppend(t, x, '"', blank);
      MatchQuotedAppend(t, x, '\'', blank);
    } else {
      NoQuotesHere(StripLeft([x], blank), x, blank);
    }
  }

  lemma NoQuotesHere(t: string, x: char, blank: char -> bool)
    requires Inert(x) && (t == "" || t == [x])
    ensures MatchQuoted(t, '"', blank).None? && MatchQuoted(t, '\'', blank).None?
  {
  }

  // ---- Scanning overlooks what is inert ----

  ghost predicate Ignores(matcher: string -> Option<Match>, x: char) {
    forall s :: matcher(s + [x]) == Extend(matcher(s), [x]) && matcher([x] + s).None?
  }

  lemma {:induction false} ScanBehind(matcher: string -> Option<Match>, s: string, x: char)
    requires Shrinks(matcher) && Ignores(matcher, x)
    ensures Scan(matcher, s + [x]) == Scan(matcher, s)
    decreases |s|
  {
    var t := s + [x];
    assert matcher(t) == Extend(matcher(s), [x]);
    if |s| == 0 {
      assert t == [x] + "" && t[1..] == "";
      assert matcher([x] + "").None?;
    } else if matcher(s).Some? {
      ScanBehind(matcher, matcher(s).value.rest, x);
    } else {
      assert t[1..] == s[1..] + [x];
      ScanBehind(matcher, s[1..], x);
    }
  }

  lemma ScanInFront(matcher: string -> Option<Match>, s: string, x: char)
    requires Shrinks(matcher) && Ignores(matcher, x)
    ensures Scan(matcher, [x] + s) == Scan(matcher, s)
  {
    assert ([x] + s)[1..] == s;
  }

  lemma CallsAndArgsShrink(blank: char -> bool)
    ensures Shrinks(CallAt(blank)) && Shrinks(ArgsAt(blank))
  {
    forall s: string
      ensures MatchCall(s, blank).Some? ==> |MatchCall(s, blank).value.rest| < |s|
      ensures MatchArgs(s, blank).Some? ==> |MatchArgs(s, blank).value.rest| < |s|
    {
      MatchesShrink(s, blank);
    }
  }

  // ---- Expressions ----

  /** Splitting at `&&`, leftmost first. */
  function SplitAnd(s: string): (parts: seq<string>)
    ensures |parts| > 0
    decreases |s|
  {
    if |s| == 0 then [""]
    else if "&&" <= s then [""] + SplitAnd(s[2..])
    else PrependToFirst(s[0], SplitAnd(s[1..]))
  }

  function PrependToFirst(c: char, parts: seq<string>): seq<string> {
    if |parts| == 0 then [[c]] else [[c] + parts[0]] + parts[1..]
  }

  const NOT_JOINPOINTS: set<string> := {"args", "execution", "call", "within", "adviceexecution"}

  function JoinpointName(name: string): Option<string> { if name in NOT_JOINPOINTS then None else Some(name) }

  function Keyword(k: string): Option<string> { if PyStrip(k) != "" then Some(PyStrip(k)) else None }

  function KeywordsIn(text: string): seq<string> { FilterMap(SplitOn(text, ','), Keyword) }

  function Calls(part: string): seq<string> {
    CallsAndArgsShrink(PyBlank);
    Scan(CallAt(PyBlank), part)
  }

  function ArgTexts(part: string): seq<string> {
    CallsAndArgsShrink(PyBlank);
    Scan(ArgsAt(PyBlank), part)
  }

  /** The joinpoints and the keywords of one part. */
  function JoinpointsOf(part: string): seq<string> { FilterMap(Calls(part), JoinpointName) }

  function KeywordsOf(part: string): seq<string> { Flat(ArgTexts(part), KeywordsIn) }

  function Parts(expression: string, blank: char -> bool): seq<string> {
    Map(SplitAnd(expression), (part: string) => Strip(part, blank))
  }

  datatype Parsed = Parsed(joinpoints: seq<string>, keywords: seq<string>)

  function Parse(expression: string): Parsed {
    Parsed(Flat(Parts(expression, PyBlank), JoinpointsOf), Flat(Parts(expression, PyBlank), KeywordsOf))
  }

  lemma NothingInFront(sep: string, rest: string)
    ensures "" + sep + rest == sep + rest
  {
  }

  lemma JoinAfterStep(s: string, parts: seq<string>, sep: string)
    requires |parts| > 0 && |s| > 0 && Join(parts, sep) == s[1..]
    ensures Join(PrependToFirst(s[0], parts), sep) == s
  {
    JoinWithLongerHead(parts, [s[0]], sep);
    assert s == [s[0]] + s[1..];
  }

  /** Splitting loses nothing: the parts, joined again, are the expression. */
  lemma {:induction false} JoinOfSplitAnd(s: string)
    ensures Join(SplitAnd(s), "&&") == s
    decreases |s|
  {
    if |s| == 0 {
    } else if "&&" <= s {
      JoinOfSplitAnd(s[2..]);
      JoinFront("", SplitAnd(s[2..]), "&&");
      NothingInFront("&&", s[2..]);
    } else {
      JoinOfSplitAnd(s[1..]);
      JoinAfterStep(s, SplitAnd(s[1..]), "&&");
    }
  }

  lemma {:induction false} JoinFront(part: string, parts: seq<string>, sep: string)
    requires |parts| > 0
    ensures Join([part] + parts, sep) == part + sep + Join(parts, sep)
  {
    var all := [part] + parts;
    if |parts| == 1 {
      assert all[..1] == [part];
    } else {
      JoinFront(part, parts[..|parts| - 1], sep);
      assert all[..|all| - 1] == [part] + parts[..|parts| - 1];
    }
  }

  lemma {:induction false} JoinWithLongerHead(parts: seq<string>, front: string, sep: string)
    requires |parts| > 0
    ensures Join([front + parts[0]] + parts[1..], sep) == front + Join(parts, sep)
  {
    if |parts| == 1 {
      assert [front + parts[0]] + parts[1..] == [front + parts[0]];
    } else {
      assert parts == [parts[0]] + parts[1..];
      JoinFront(parts[0], parts[1..], sep);
      JoinFront(front + parts[0], parts[1..], sep);
    }
  }

  lemma SplitAtAnd(rest: string)
    ensures SplitAnd("&&" + rest) == [""] + SplitAnd(rest)
  {
    assert ("&&" + rest)[2..] == rest;
  }

  lemma SplitPast(c: char, rest: string)
    requires c != '&' || |rest| == 0 || rest[0] != '&'
    ensures SplitAnd([c] + rest) == PrependToFirst(c, SplitAnd(rest))
  {
    assert ([c] + rest)[1..] == rest;
  }

  lemma PrependConcat(c: char, xs: seq<string>, ys: seq<string>)
    requires |xs| > 0
    ensures PrependToFirst(c, xs + ys) == PrependToFirst(c, xs) + ys
  {
  }

  lemma PrependAppend(parts: seq<string>, first: char, last: char)
    requires |parts| > 0
    ensures PrependToFirst(first, AppendToLast(parts, last)) == AppendToLast(PrependToFirst(first, parts), last)
  {
    if |parts| == 1 {
      assert AppendToLast(parts, last) == [parts[0] + [last]];
      assert [first] + (parts[0] + [last]) == ([first] + parts[0]) + [last];
    } else {
      var front := PrependToFirst(first, parts);
      assert front[..|front| - 1] == [[first] + parts[0]] + parts[1..|parts| - 1];
    }
  }

  lemma CutAppend(parts: seq<string>, last: char)
    requires |parts| > 0
    ensures [""] + AppendToLast(parts, last) == AppendToLast([""] + parts, last)
  {
    assert ([""] + parts)[..|parts|] == [""] + parts[..|parts| - 1];
  }

  // ---- Parsing a conjunction ----

  /** `g` finds the same in a part with and without the character at its front or end. */
  ghost predicate Overlooks(g: string -> seq<string>, x: char) {
    forall s :: g(s + [x]) == g(s) && g([x] + s) == g(s)
  }

  lemma InertIsIgnored(x: char, blank: char -> bool)
    requires Inert(x)
    ensures Ignores(CallAt(blank), x) && Ignores(ArgsAt(blank), x)
  {
    InertStops(x, blank);
    forall s: string
      ensures MatchCall(s + [x], blank) == Extend(MatchCall(s, blank), [x]) && MatchCall([x] + s, blank).None?
      ensures MatchArgs(s + [x], blank) == Extend(MatchArgs(s, blank), [x]) && MatchArgs([x] + s, blank).None?
    {
      MatchCallAppend(s, [x], blank);
      MatchArgsAppend(s, x, blank);
      assert ([x] + s)[0] == x;
    }
  }

  lemma InertIsOverlooked(x: char)
    requires Inert(x)
    ensures Overlooks(JoinpointsOf, x) && Overlooks(KeywordsOf, x)
  {
    InertIsIgnored(x, PyBlank);
    CallsAndArgsShrink(PyBlank);
    forall s: string
      ensures JoinpointsOf(s + [x]) == JoinpointsOf(s) == JoinpointsOf([x] + s)
      ensures KeywordsOf(s + [x]) == KeywordsOf(s) == KeywordsOf([x] + s)
    {
      ScanBehind(CallAt(PyBlank), s, x);
      ScanInFront(CallAt(PyBlank), s, x);
      ScanBehind(ArgsAt(PyBlank), s, x);
      ScanInFront(ArgsAt(PyBlank), s, x);
    }
  }

  lemma BlanksAreInert()
    ensures forall x | PyBlank(x) :: Inert(x)
    ensures Inert('&')
  {
  }

  ghost predicate OverlooksBlanks(g: string -> seq<string>, blank: char -> bool) {
    forall x | blank(x) :: Overlooks(g, x)
  }

  lemma {:induction false} LeftBlanksOverlooked(s: string, g: string -> seq<string>, blank: char -> bool)
    requires OverlooksBlanks(g, blank)
    ensures g(StripLeft(s, blank)) == g(s)
  {
    if |s| > 0 && blank(s[0]) {
      LeftBlanksOverlooked(s[1..], g, blank);
      assert Overlooks(g, s[0]) && s == [s[0]] + s[1..];
    }
  }

  lemma {:induction false} RightBlanksOverlooked(s: string, g: string -> seq<string>, blank: char -> bool)
    requires OverlooksBlanks(g, blank)
    ensures g(StripRight(s, blank)) == g(s)
  {
    if |s| > 0 && blank(s[|s| - 1]) {
      RightBlanksOverlooked(s[..|s| - 1], g, blank);
      assert Overlooks(g, s[|s| - 1]) && s == s[..|s| - 1] + [s[|s| - 1]];
    }
  }

  /** The stripped parts hold what the parts hold. */
  lemma {:induction false} FlatOfStripped(parts: seq<string>, g: string -> seq<string>, blank: char -> bool)
    requires OverlooksBlanks(g, blank)
    ensures Flat(Map(parts, (part: string) => Strip(part, blank)), g) == Flat(parts, g)
  {
    if |parts| > 0 {
      var init, last := parts[..|parts| - 1], parts[|parts| - 1];
      FlatOfStripped(init, g, blank);
      LeftBlanksOverlooked(last, g, blank);
      RightBlanksOverlooked(StripLeft(last, blank), g, blank);
      FlatSnoc(Map(init, (part: string) => Strip(part, blank)), Strip(last, blank), g);
    }
  }

  lemma FlatSnoc(parts: seq<string>, part: string, g: string -> seq<string>)
    ensures Flat(parts + [part], g) == Flat(parts, g) + g(part)
  {
    assert (parts + [part])[..|parts|] == parts;
  }

  /** A single `&` is left over at the end, after the pairs are taken from the left. */
  predicate HalfOpen(s: string)
    decreases |s|
  {
    if |s| == 0 then false
    else if "&&" <= s then HalfOpen(s[2..])
    else if |s| == 1 then s[0] == '&'
    else HalfOpen(s[1..])
  }

  lemma {:induction false} HalfOpenEnd(s: string)
    requires HalfOpen(s)
    ensures |s| > 0 && s[|s| - 1] == '&' && !HalfOpen(s[..|s| - 1])
    decreases |s|
  {
    var init := s[..|s| - 1];
    if "&&" <= s {
      HalfOpenEnd(s[2..]);
      assert init[2..] == s[2..][..|s| - 3];
    } else if |s| > 1 {
      HalfOpenEnd(s[1..]);
      if |s| > 2 {
        assert init[1..] == s[1..][..|s| - 2] && init[0] == s[0] && init[1] == s[1];
      }
    }
  }

  lemma {:induction false} SplitAndConcat(a: string, b: string)
    requires !HalfOpen(a)
    ensures SplitAnd(a + ("&&" + b)) == SplitAnd(a) + SplitAnd(b)
    decreases |a|
  {
    var tail := "&&" + b;
    if |a| == 0 {
      assert a + tail == tail;
      SplitAtAnd(b);
    } else if "&&" <= a {
      assert a + tail == "&&" + (a[2..] + tail);
      SplitAndConcat(a[2..], b);
      SplitAtAnd(a[2..] + tail);
    } else {
      assert a + tail == [a[0]] + (a[1..] + tail);
      SplitAndConcat(a[1..], b);
      SplitPast(a[0], a[1..] + tail);
      PrependConcat(a[0], SplitAnd(a[1..]), SplitAnd(b));
    }
  }

  lemma {:induction false} SplitAndSnoc(a: string, c: char)
    requires c != '&' || !HalfOpen(a)
    ensures SplitAnd(a + [c]) == AppendToLast(SplitAnd(a), c)
    decreases |a|
  {
    if |a| == 0 {
      assert a + [c] == [c] + "";
      SplitPast(c, "");
    } else if "&&" <= a {
      assert a + [c] == "&&" + (a[2..] + [c]);
      SplitAndSnoc(a[2..], c);
      SplitAtAnd(a[2..] + [c]);
      CutAppend(SplitAnd(a[2..]), c);
    } else {
      assert a + [c] == [a[0]] + (a[1..] + [c]);
      SplitAndSnoc(a[1..], c);
      SplitPast(a[0], a[1..] + [c]);
      PrependAppend(SplitAnd(a[1..]), a[0], c);
    }
  }

  function FoundIn(expression: string, g: string -> seq<string>): seq<string> { Flat(SplitAnd(expression), g) }

  lemma FlatAppended(parts: seq<string>, c: char, g: string -> seq<string>)
    requires |parts| > 0 && Overlooks(g, c)
    ensures Flat(AppendToLast(parts, c), g) == Flat(parts, g)
  {
    var init, last := parts[..|parts| - 1], parts[|parts| - 1];
    FlatSnoc(init, last + [c], g);
    assert g(last + [c]) == g(last);
  }

  lemma FoundBehind(a: string, c: char, g: string -> seq<string>)
    requires Overlooks(g, c) && (c != '&' || !HalfOpen(a))
    ensures FoundIn(a + [c], g) == FoundIn(a, g)
  {
    SplitAndSnoc(a, c);
    FlatAppended(SplitAnd(a), c, g);
  }

  lemma FlatFront(part: string, parts: seq<string>, g: string -> seq<string>)
    ensures Flat([part] + parts, g) == g(part) + Flat(parts, g)
  {
    FlatConcat([part], parts, g);
    FlatOne(part, g);
  }

  lemma {:induction false} FoundInFront(b: string, c: char, g: string -> seq<string>)
    requires Overlooks(g, c) && g("") == []
    ensures FoundIn([c] + b, g) == FoundIn(b, g)
    decreases |b|
  {
    var s := [c] + b;
    assert s[1..] == b;
    if "&&" <= s {
      var rest := b[1..];
      assert s[2..] == rest && b == [c] + rest;
      FlatFront("", SplitAnd(rest), g);
      FoundInFront(rest, c, g);
    } else {
      var parts := SplitAnd(b);
      FlatFront([c] + parts[0], parts[1..], g);
      FlatFront(parts[0], parts[1..], g);
      assert parts == [parts[0]] + parts[1..];
    }
  }

  lemma FoundInClosedAnd(a: string, b: string, g: string -> seq<string>)
    requires !HalfOpen(a)
    ensures FoundIn(a + "&&" + b, g) == FoundIn(a, g) + FoundIn(b, g)
  {
    assert a + "&&" + b == a + ("&&" + b);
    SplitAndConcat(a, b);
    FlatConcat(SplitAnd(a), SplitAnd(b), g);
  }

  lemma FoundInAnd(a: string, b: string, g: string -> seq<string>)
    requires Overlooks(g, '&') && g("") == []
    ensures FoundIn(a + "&&" + b, g) == FoundIn(a, g) + FoundIn(b, g)
  {
    if HalfOpen(a) {
      HalfOpenEnd(a);
      var init := a[..|a| - 1];
      assert a == init + ['&'] && a + "&&" + b == init + "&&" + (['&'] + b);
      FoundInClosedAnd(init, ['&'] + b, g);
      FoundInFront(b, '&', g);
      FoundBehind(init, '&', g);
    } else {
      FoundInClosedAnd(a, b, g);
    }
  }

  /** What the parser finds is what stands in the unstripped parts. */
  lemma ParseFinds(expression: string)
    ensures Parse(expression) == Parsed(FoundIn(expression, JoinpointsOf), FoundIn(expression, KeywordsOf))
    ensures Overlooks(JoinpointsOf, '&') && Overlooks(KeywordsOf, '&')
    ensures OverlooksBlanks(JoinpointsOf, PyBlank) && OverlooksBlanks(KeywordsOf, PyBlank)
  {
    BlanksAreInert();
    InertIsOverlooked('&');
    forall x | PyBlank(x)
      ensures Overlooks(JoinpointsOf, x) && Overlooks(KeywordsOf, x)
    {
      InertIsOverlooked(x);
    }
    FlatOfStripped(SplitAnd(expression), JoinpointsOf, PyBlank);
    FlatOfStripped(SplitAnd(expression), KeywordsOf, PyBlank);
  }

  /** Parsing is a homomorphism, whatever the two expressions are: `a&&b` has the joinpoints of `a` and then those of
      `b`, and so for the keywords. */
  lemma ParseOfAnd(a: string, b: string)
    ensures Parse(a + "&&" + b).joinpoints == Parse(a).joinpoints + Parse(b).joinpoints
    ensures Parse(a + "&&" + b).keywords == Parse(a).keywords + Parse(b).keywords
  {
    ParseFinds(a);
    ParseFinds(b);
    ParseFinds(a + "&&" + b);
    NothingInNothing();
    FoundInAnd(a, b, JoinpointsOf);
    FoundInAnd(a, b, KeywordsOf);
  }

  lemma FoundBesideBlanks(a: string, c: char, g: string -> seq<string>)
    requires Overlooks(g, c) && c != '&' && g("") == []
    ensures FoundIn(a + [c], g) == FoundIn(a, g) == FoundIn([c] + a, g)
  {
    FoundBehind(a, c, g);
    FoundInFront(a, c, g);
  }

  /** Blanks around an expression, and so around a `&&`, do not matter. */
  lemma ParseOfBlanks(a: string, c: char)
    requires PyBlank(c)
    ensures Parse(a + [c]) == Parse(a) == Parse([c] + a)
  {
    ParseFinds(a);
    ParseFinds(a + [c]);
    ParseFinds([c] + a);
    NothingInNothing();
    FoundBesideBlanks(a, c, JoinpointsOf);
    FoundBesideBlanks(a, c, KeywordsOf);
  }

  lemma ParseOfSpacedAnd(a: string, b: string)
    ensures Parse(a + " && " + b) ==
            Parsed(Parse(a).joinpoints + Parse(b).joinpoints, Parse(a).keywords + Parse(b).keywords)
  {
    assert a + " && " + b == (a + [' ']) + "&&" + ([' '] + b);
    ParseOfAnd(a + [' '], [' '] + b);
    ParseOfBlanks(a, ' ');
    ParseOfBlanks(b, ' ');
  }

  lemma NothingInNothing()
    ensures JoinpointsOf("") == [] && KeywordsOf("") == []
  {
  }

  // ---- Expressions of one part ----

  predicate NoAnd(s: string) { forall i | 0 <= i < |s| - 1 :: !(s[i] == '&' && s[i + 1] == '&') }

  lemma {:induction false} SplitOfOne(s: string)
    requires NoAnd(s)
    ensures SplitAnd(s) == [s]
  {
    if |s| > 0 {
      SplitOfOne(s[1..]);
      assert s == [s[0]] + s[1..];
    }
  }

  lemma ParseOfOne(s: string)
    requires NoAnd(s)
    ensures Parse(s) == Parsed(JoinpointsOf(s), KeywordsOf(s))
  {
    ParseFinds(s);
    SplitOfOne(s);
    FlatOne(s, JoinpointsOf);
    FlatOne(s, KeywordsOf);
  }

  // ---- The parser ----

  method ScanPart(part: string) returns (joinpoints: seq<string>, keywords: seq<string>)
    ensures joinpoints == JoinpointsOf(part) && keywords == KeywordsOf(part)
  {
    joinpoints, keywords := [], [];
    if part == "" {
      return;
    }
    var names := Calls(part);
    for i := 0 to |names|
      invariant joinpoints == FilterMap(names[..i], JoinpointName)
    {
      FilterMapStep(names, i, JoinpointName);
      if names[i] !in NOT_JOINPOINTS {
        joinpoints := joinpoints + [names[i]];
      }
    }
    assert names[..|names|] == names;
    var texts := ArgTexts(part);
    for i := 0 to |texts|
      invariant keywords == Flat(texts[..i], KeywordsIn)
    {
      FlatStep(texts, i, KeywordsIn);
      if texts[i] != "" {
        keywords := keywords + FilterMap(SplitOn(texts[i], ','), Keyword);
      } else {
        NoTextNoKeywords();
      }
    }
    assert texts[..|texts|] == texts;
  }

  lemma NoTextNoKeywords()
    ensures KeywordsIn("") == []
  {
    assert SplitOn("", ',') == [""] && [""][..0] == [];
    assert PyStrip("") == "";
  }

  lemma FoundInStripped(s: string, g: string -> seq<string>)
    requires OverlooksBlanks(g, PyBlank) && !PyBlank('&') && g("") == []
    ensures FoundIn(PyStrip(s), g) == FoundIn(s, g)
  {
    FoundInStripLeft(s, g, PyBlank);
    FoundInStripRight(StripLeft(s, PyBlank), g, PyBlank);
  }

  lemma {:induction false} FoundInStripLeft(s: string, g: string -> seq<string>, blank: char -> bool)
    requires OverlooksBlanks(g, blank) && !blank('&') && g("") == []
    ensures FoundIn(StripLeft(s, blank), g) == FoundIn(s, g)
  {
    if |s| > 0 && blank(s[0]) {
      FoundInStripLeft(s[1..], g, blank);
      FoundInFront(s[1..], s[0], g);
      assert s == [s[0]] + s[1..];
    }
  }

  lemma {:induction false} FoundInStripRight(s: string, g: string -> seq<string>, blank: char -> bool)
    requires OverlooksBlanks(g, blank) && !blank('&')
    ensures FoundIn(StripRight(s, blank), g) == FoundIn(s, g)
  {
    if |s| > 0 && blank(s[|s| - 1]) {
      FoundInStripRight(s[..|s| - 1], g, blank);
      FoundBehind(s[..|s| - 1], s[|s| - 1], g);
      assert s == s[..|s| - 1] + [s[|s| - 1]];
    }
  }

  lemma ParseOfStripped(expression: string)
    ensures Parse(PyStrip(expression)) == Parse(expression)
  {
    ParseFinds(expression);
    ParseFinds(PyStrip(expression));
    NothingInNothing();
    FoundInStripped(expression, JoinpointsOf);
    FoundInStripped(expression, KeywordsOf);
  }

  lemma NothingToParse()
    ensures Parse("") == Parsed([], [])
  {
    ParseOfOne("");
    NothingInNothing();
  }

  method ParsePointcutExpression(expression: string) returns (joinpoints: seq<string>, keywords: seq<string>)
    ensures Parsed(joinpoints, keywords) == Parse(expression)
  {
    joinpoints, keywords := [], [];
    var expr := PyStrip(expression);
    ParseOfStripped(expression);
    if expr == "" {
      NothingToParse();
      return;
    }
    var pieces := SplitAnd(expr);
    ghost var parts := Parts(expr, PyBlank);
    MapAt(pieces, (part: string) => Strip(part, PyBlank));
    for i := 0 to |pieces|
      invariant joinpoints == Flat(parts[..i], JoinpointsOf)
      invariant keywords == Flat(parts[..i], KeywordsOf)
    {
      FlatStep(parts, i, JoinpointsOf);
      FlatStep(parts, i, KeywordsOf);
      var part := PyStrip(pieces[i]);
      var js, ks := ScanPart(part);
      joinpoints := joinpoints + js;
      keywords := keywords + ks;
    }
    assert parts[..|parts|] == parts;
  }
}
