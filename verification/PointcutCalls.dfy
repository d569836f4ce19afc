/** What the expression for calls finds: the exact joinpoints of an expression, and the parse of a call and of a quoted
    text (aop.py). */
module PointcutCalls {
  import opened Filtering
  import opened Options
  import opened Pointcuts
  import opened Strings

  // ---- Names and texts ----

  predicate IsName(name: string) {
    |name| > 0 && LowerCase(name[0]) && forall i | 0 <= i < |name| :: WordChar(name[i])
  }

  lemma {:induction false} WholeWord(w: string)
    requires forall i | 0 <= i < |w| :: WordChar(w[i])
    ensures WordLength(w) == |w|
  {
    if |w| > 0 {
      WholeWord(w[1..]);
    }
  }

  lemma {:induction false} ScanFinds(matcher: string -> Option<Match>, s: string, rest: string, text: string)
    requires Shrinks(matcher) && matcher(s) == Some(Match(text, rest)) && |s| > 0
    ensures Scan(matcher, s) == [text] + Scan(matcher, rest)
  {
  }

  lemma SkipHere(c: char, rest: string, blank: char -> bool)
    requires !blank(c)
    ensures Skip([c] + rest, c, blank) == Some(rest)
  {
    assert ([c] + rest)[1..] == rest;
  }

  lemma SkipStops(d: char, rest: string, c: char, blank: char -> bool)
    requires !blank(d) && c != d
    ensures Skip([d] + rest, c, blank).None?
  {
  }

  lemma MatchCallOfName(name: string, blank: char -> bool)
    requires IsName(name) && !blank('(') && !blank(')')
    ensures MatchCall(name + "()", blank) == Some(Match(name, ""))
  {
    var s := name + "()";
    WholeWord(name);
    WordLengthAppend(name, "()");
    assert s[|name|..] == ['('] + ")" && ")" == [')'] + "" && s[..|name|] == name;
    SkipHere('(', ")", blank);
    SkipHere(')', "", blank);
  }

  lemma CallsOfName(name: string)
    requires IsName(name)
    ensures Calls(name + "()") == [name]
  {
    CallsAndArgsShrink(PyBlank);
    MatchCallOfName(name, PyBlank);
    ScanFinds(CallAt(PyBlank), name + "()", "", name);
  }

  lemma ScanSkips(matcher: string -> Option<Match>, c: char, rest: string)
    requires Shrinks(matcher) && matcher([c] + rest).None?
    ensures Scan(matcher, [c] + rest) == Scan(matcher, rest)
  {
    assert ([c] + rest)[1..] == rest;
  }

  lemma NoArgsInParentheses()
    ensures ArgTexts("()") == []
  {
    CallsAndArgsShrink(PyBlank);
    assert "()" == ['('] + ")" && ")" == [')'] + "";
    ScanSkips(ArgsAt(PyBlank), '(', ")");
    ScanSkips(ArgsAt(PyBlank), ')', "");
  }

  /** An empty pair of parentheses holds no keyword, even behind `args`. */
  lemma {:induction false} NoArgsInCall(w: string)
    requires forall i | 0 <= i < |w| :: WordChar(w[i])
    ensures ArgTexts(w + "()") == []
  {
    CallsAndArgsShrink(PyBlank);
    if |w| == 0 {
      assert w + "()" == "()";
      NoArgsInParentheses();
    } else {
      NoMatchInCall(w, PyBlank);
      assert w + "()" == [w[0]] + (w[1..] + "()");
      NoArgsInCall(w[1..]);
      ScanSkips(ArgsAt(PyBlank), w[0], w[1..] + "()");
    }
  }

  lemma NoMatchInCall(w: string, blank: char -> bool)
    requires !blank('(') && !blank(')') && forall i | 0 <= i < |w| :: WordChar(w[i]) && !blank(w[i])
    ensures MatchArgs(w + "()", blank).None?
  {
    var s := w + "()";
    if ArgsWord(s) {
      assert forall i | 0 <= i < |w| :: s[i] == w[i];
      assert s[|w|] == '(' && s[|w| + 1] == ')';
      if |w| == 4 {
        assert s[4..] == ['('] + ")" && ")" == [')'] + "";
        SkipHere('(', ")", blank);
        assert StripLeft(")", blank) == ")" && Until(")", ')') == 0;
      } else {
        assert |w| > 4;
        assert s[4..] == [w[4]] + s[5..];
        SkipStops(w[4], s[5..], '(', blank);
      }
    }
  }

  ghost predicate Extends(matcher: string -> Option<Match>, w: string) {
    forall t :: matcher(t + w) == Extend(matcher(t), w)
  }

  lemma AndThenMore(text: string, xs: seq<string>, ys: seq<string>)
    ensures [text] + (xs + ys) == ([text] + xs) + ys
  {
  }

  lemma ScanAppendStep(matcher: string -> Option<Match>, s: string, w: string)
    requires Shrinks(matcher) && |s| > 0 && matcher(s + w) == Extend(matcher(s), w)
    requires var rest := if matcher(s).Some? then matcher(s).value.rest else s[1..];
             Scan(matcher, rest + w) == Scan(matcher, rest) + Scan(matcher, w)
    ensures Scan(matcher, s + w) == Scan(matcher, s) + Scan(matcher, w)
  {
    if matcher(s).Some? {
      var m := matcher(s).value;
      ScanFinds(matcher, s, m.rest, m.text);
      ScanFinds(matcher, s + w, m.rest + w, m.text);
      AndThenMore(m.text, Scan(matcher, m.rest), Scan(matcher, w));
    } else {
      assert s == [s[0]] + s[1..] && s + w == [s[0]] + (s[1..] + w);
      ScanSkips(matcher, s[0], s[1..]);
      ScanSkips(matcher, s[0], s[1..] + w);
    }
  }

  lemma {:induction false} ScanAppend(matcher: string -> Option<Match>, s: string, w: string)
    requires Shrinks(matcher) && Extends(matcher, w)
    ensures Scan(matcher, s + w) == Scan(matcher, s) + Scan(matcher, w)
    decreases |s|
  {
    if |s| == 0 {
      assert s + w == w;
    } else {
      ScanAppend(matcher, if matcher(s).Some? then matcher(s).value.rest else s[1..], w);
      ScanAppendStep(matcher, s, w);
    }
  }

  const OPENING := "args(\""

  const CLOSING := "\")"

  lemma {:induction false} CallsBehindWord(w: string, rest: string)
    requires forall i | 0 <= i < |w| :: WordChar(w[i])
    ensures Calls(w + (['('] + (['"'] + rest))) == Calls(rest)
  {
    CallsAndArgsShrink(PyBlank);
    var tail := ['('] + (['"'] + rest);
    if |w| == 0 {
      assert w + tail == tail;
      ScanSkips(CallAt(PyBlank), '(', ['"'] + rest);
      ScanSkips(CallAt(PyBlank), '"', rest);
    } else {
      NoCallBefore(w, rest);
      assert w + tail == [w[0]] + (w[1..] + tail);
      ScanSkips(CallAt(PyBlank), w[0], w[1..] + tail);
      CallsBehindWord(w[1..], rest);
    }
  }

  /** The calls in `args("text")` are those in the text. */
  lemma CallsInArgs(text: string)
    ensures Calls(OPENING + text + CLOSING) == Calls(text)
  {
    CallsAndArgsShrink(PyBlank);
    assert OPENING + text + CLOSING == "args" + (['('] + (['"'] + (text + CLOSING)));
    CallsBehindWord("args", text + CLOSING);
    ClosingStops();
    forall t: string
      ensures CallAt(PyBlank)(t + CLOSING) == Extend(CallAt(PyBlank)(t), CLOSING)
    {
      MatchCallAppend(t, CLOSING, PyBlank);
    }
    ScanAppend(CallAt(PyBlank), text, CLOSING);
  }

  lemma NoCallBefore(w: string, rest: string)
    requires |w| > 0 && forall i | 0 <= i < |w| :: WordChar(w[i])
    ensures MatchCall(w + (['('] + (['"'] + rest)), PyBlank).None?
  {
    var tail := ['('] + (['"'] + rest);
    WholeWord(w);
    WordLengthAppend(w, tail);
    assert (w + tail)[|w|..] == tail;
    SkipHere('(', ['"'] + rest, PyBlank);
    SkipStops('"', rest, ')', PyBlank);
  }

  lemma ClosingStops()
    ensures CallStops(CLOSING, PyBlank) && Calls(CLOSING) == []
  {
    CallsAndArgsShrink(PyBlank);
    assert CLOSING == ['"'] + ")" && ")" == [')'] + "";
    SkipStops('"', ")", '(', PyBlank);
    SkipStops('"', ")", ')', PyBlank);
    ScanSkips(CallAt(PyBlank), '"', ")");
    ScanSkips(CallAt(PyBlank), ')', "");
  }

  /** The one match in `args("text")` is the text, when no quote cuts it short. */
  lemma TextInArgs(text: string)
    requires |text| > 0 && '"' !in text
    ensures ArgTexts(OPENING + text + CLOSING) == [text]
  {
    CallsAndArgsShrink(PyBlank);
    var s, t := OPENING + text + CLOSING, ['"'] + (text + CLOSING);
    assert s[4..] == ['('] + t;
    SkipHere('(', t, PyBlank);
    assert StripLeft(t, PyBlank) == t;
    QuotedText(text, PyBlank);
    assert ArgsWord(s);
    ScanFinds(ArgsAt(PyBlank), s, "", text);
  }

  lemma QuotedText(text: string, blank: char -> bool)
    requires |text| > 0 && '"' !in text && !blank(')')
    ensures MatchQuoted(['"'] + (text + CLOSING), '"', blank) == Some(Match(text, ""))
  {
    var s := ['"'] + (text + CLOSING);
    assert s[1..] == text + CLOSING;
    UntilQuote(text);
    assert s[|text| + 2..] == [')'] + "" && s[1..|text| + 1] == text;
    SkipHere(')', "", blank);
  }

  lemma {:induction false} UntilQuote(text: string)
    requires '"' !in text
    ensures Until(text + CLOSING, '"') == |text|
  {
    if |text| == 0 {
      assert text + CLOSING == CLOSING;
    } else {
      assert (text + CLOSING)[1..] == text[1..] + CLOSING;
      UntilQuote(text[1..]);
    }
  }

  lemma JoinpointsOfName(name: string)
    requires IsName(name) && name !in NOT_JOINPOINTS
    ensures JoinpointsOf(name + "()") == [name]
  {
    CallsOfName(name);
    FilterMapTotal([name], JoinpointName, [name]);
  }

  lemma ParseOfName(name: string)
    requires IsName(name) && name !in NOT_JOINPOINTS
    ensures Parse(name + "()") == Parsed([name], [])
  {
    ParseOfOne(name + "()");
    JoinpointsOfName(name);
    NoArgsInCall(name);
  }

  lemma QuotedHasNoAnd(text: string)
    requires NoAnd(text)
    ensures NoAnd(OPENING + text + CLOSING)
  {
    var s := OPENING + text + CLOSING;
    forall i | 0 <= i < |s| - 1
      ensures !(s[i] == '&' && s[i + 1] == '&')
    {
      if 6 <= i < 6 + |text| {
        assert s[i] == text[i - 6];
        assert s[i + 1] == if i + 1 < 6 + |text| then text[i - 5] else '"';
      }
    }
  }

  /** A text that can stand in quotes without ending them or the part. */
  predicate Quotable(text: string) { text != "" && '"' !in text && NoAnd(text) }

  lemma ParseOfArgs(text: string)
    requires Quotable(text)
    ensures Parse(OPENING + text + CLOSING) == Parsed(JoinpointsOf(text), KeywordsIn(text))
  {
    QuotedHasNoAnd(text);
    ParseOfOne(OPENING + text + CLOSING);
    CallsInArgs(text);
    TextInArgs(text);
    FlatOne(text, KeywordsIn);
  }


  // ---- Joinpoints: the parts and the quotes do not matter ----

  lemma AndStops(b: string)
    ensures CallStops("&&" + b, PyBlank) && Calls("&&" + b) == Calls(b)
  {
    CallsAndArgsShrink(PyBlank);
    var w := ['&'] + (['&'] + b);
    assert "&&" + b == w;
    SkipStops('&', ['&'] + b, '(', PyBlank);
    SkipStops('&', ['&'] + b, ')', PyBlank);
    ScanSkips(CallAt(PyBlank), '&', ['&'] + b);
    ScanSkips(CallAt(PyBlank), '&', b);
  }

  /** No call spans a `&&`. */
  lemma CallsOfAnd(a: string, b: string)
    ensures Calls(a + "&&" + b) == Calls(a) + Calls(b)
  {
    CallsAndArgsShrink(PyBlank);
    AndStops(b);
    forall t: string
      ensures CallAt(PyBlank)(t + ("&&" + b)) == Extend(CallAt(PyBlank)(t), "&&" + b)
    {
      MatchCallAppend(t, "&&" + b, PyBlank);
    }
    ScanAppend(CallAt(PyBlank), a, "&&" + b);
    assert a + "&&" + b == a + ("&&" + b);
  }

  lemma {:induction false} JoinpointsOfJoin(parts: seq<string>)
    ensures Flat(parts, JoinpointsOf) == JoinpointsOf(Join(parts, "&&"))
  {
    if |parts| == 0 {
      NothingInNothing();
    } else {
      var init, last := parts[..|parts| - 1], parts[|parts| - 1];
      assert parts == init + [last];
      JoinpointsOfJoin(init);
      JoinSnoc(init, last, "&&");
      if |init| > 0 {
        CallsOfAnd(Join(init, "&&"), last);
        FilterMapConcat(Calls(Join(init, "&&")), Calls(last), JoinpointName);
      }
    }
  }

  /** The joinpoints of an expression are those of its text, taken as one part. */
  lemma JoinpointsIgnoreParts(expression: string)
    ensures Parse(expression).joinpoints == JoinpointsOf(expression)
  {
    ParseFinds(expression);
    JoinOfSplitAnd(expression);
    JoinpointsOfJoin(SplitAnd(expression));
  }

  // ---- Where calls begin ----

  predicate InWord(s: string, from: nat, to: nat) {
    to <= |s| && forall k | from <= k < to :: WordChar(s[k])
  }

  /** A call named `name` begins at `i`: the expression matches there, and no lower-case letter before `i` belongs to
      the same word. */
  predicate CallBegins(s: string, i: nat, name: string) {
    && i < |s| && MatchCall(s[i..], PyBlank).Some? && MatchCall(s[i..], PyBlank).value.text == name
    && forall j | 0 <= j < i && LowerCase(s[j]) :: !InWord(s, j, i)
  }

  /** The same for the rest of a text of which the last word may already have been tried. */
  predicate BeginsIn(s: string, i: nat, tried: bool, name: string) {
    CallBegins(s, i, name) && !(tried && InWord(s, 0, i))
  }

  /** What follows the word at the front is no empty pair of parentheses. */
  predicate WordFails(s: string) {
    var inner := Skip(s[WordLength(s)..], '(', PyBlank);
    inner.None? || Skip(inner.value, ')', PyBlank).None?
  }

  predicate TriedNext(c: char, tried: bool) { WordChar(c) && (tried || LowerCase(c)) }

  lemma InWordShifts(s: string, j: nat, i: nat)
    requires |s| > 0
    ensures InWord(s[1..], j, i) <==> InWord(s, j + 1, i + 1)
  {
    assert forall k | 0 <= k < |s| - 1 :: s[1..][k] == s[k + 1];
    if InWord(s[1..], j, i) {
      assert forall k | j + 1 <= k < i + 1 :: s[k] == s[1..][k - 1];
    }
  }

  lemma InWordFromFront(s: string, i: nat)
    requires |s| > 0
    ensures InWord(s, 0, i + 1) <==> WordChar(s[0]) && InWord(s, 1, i + 1)
  {
  }

  lemma BeginsInRest(s: string, i: nat, tried: bool, name: string)
    requires |s| > 0
    ensures BeginsIn(s, i + 1, tried, name) <==> BeginsIn(s[1..], i, TriedNext(s[0], tried), name)
  {
    InWordShifts(s, 0, i);
    InWordFromFront(s, i);
    if i < |s| - 1 {
      assert s[1..][i..] == s[i + 1..];
      forall j | 0 <= j < i
        ensures s[1..][j] == s[j + 1] && (InWord(s[1..], j, i) <==> InWord(s, j + 1, i + 1))
      {
        InWordShifts(s, j, i);
      }
      if BeginsIn(s[1..], i, TriedNext(s[0], tried), name) {
        forall j | 0 <= j < i + 1 && LowerCase(s[j])
          ensures !InWord(s, j, i + 1)
        {
          if j > 0 {
            assert s[1..][j - 1] == s[j];
          }
        }
      }
    }
  }

  lemma SkipMeans(s: string, c: char, blank: char -> bool) returns (lo: nat)
    requires Skip(s, c, blank).Some?
    ensures lo < |s| && s[lo] == c && Skip(s, c, blank).value == s[lo + 1..]
    ensures forall k | 0 <= k < lo :: blank(s[k])
  {
    lo := StripLeftIsSuffix(s, blank);
    assert s[lo..][1..] == s[lo + 1..];
  }

  lemma {:induction false} WordLengthMeans(s: string)
    ensures InWord(s, 0, WordLength(s)) && (WordLength(s) < |s| ==> !WordChar(s[WordLength(s)]))
  {
    if |s| > 0 && WordChar(s[0]) {
      WordLengthMeans(s[1..]);
      InWordShifts(s, 0, WordLength(s[1..]));
      InWordFromFront(s, WordLength(s[1..]));
    }
  }

  /** A match ends in a parenthesis, and its only lower-case letters stand in its word. */
  lemma CallSpan(s: string) returns (c: nat)
    requires MatchCall(s, PyBlank).Some?
    ensures 0 < c <= |s| && MatchCall(s, PyBlank).value.rest == s[c..] && s[c - 1] == ')' && LowerCase(s[0])
    ensures forall k | 0 < k < c && LowerCase(s[k]) :: InWord(s, 0, k)
  {
    var n := WordLength(s);
    WordLengthMeans(s);
    var open := SkipMeans(s[n..], '(', PyBlank);
    assert s[n..][open + 1..] == s[n + open + 1..];
    var close := SkipMeans(s[n + open + 1..], ')', PyBlank);
    c := n + open + 1 + close + 1;
    assert s[n + open + 1..][close + 1..] == s[c..];
    BlanksAreInert();
    forall k | n <= k < c
      ensures !LowerCase(s[k])
    {
      if k < n + open {
        assert PyBlank(s[n..][k - n]);
      } else if n + open < k < c - 1 {
        assert PyBlank(s[n + open + 1..][k - (n + open + 1)]);
      }
    }
  }

  lemma BeginsBehind(s: string, c: nat, i: nat, name: string)
    requires 0 < c <= |s| && s[c - 1] == ')' && c <= i
    ensures BeginsIn(s, i, false, name) <==> BeginsIn(s[c..], i - c, false, name)
  {
    var rest := s[c..];
    if i < |s| {
      assert rest[i - c..] == s[i..];
      assert forall k | 0 <= k < |rest| :: rest[k] == s[c + k];
      forall j | c <= j < i
        ensures InWord(s, j, i) <==> InWord(rest, j - c, i - c)
      {
        if InWord(rest, j - c, i - c) {
          assert forall k | j <= k < i :: s[k] == rest[k - c];
        }
      }
      forall j | 0 <= j < c
        ensures !InWord(s, j, i)
      {
        assert !WordChar(s[c - 1]);
      }
      if BeginsIn(s, i, false, name) {
        forall j | 0 <= j < i - c && LowerCase(rest[j])
          ensures !InWord(rest, j, i - c)
        {
          assert LowerCase(s[c + j]);
        }
      }
    }
  }

  lemma BeginsWhenFound(s: string, c: nat, i: nat, name: string)
    requires MatchCall(s, PyBlank).Some? && 0 < c <= |s| && s[c - 1] == ')' && LowerCase(s[0])
    requires forall k | 0 < k < c && LowerCase(s[k]) :: InWord(s, 0, k)
    ensures BeginsIn(s, i, false, name) <==>
            (i == 0 && name == MatchCall(s, PyBlank).value.text) || (c <= i && BeginsIn(s[c..], i - c, false, name))
  {
    if i == 0 {
      assert s[0..] == s;
    } else if i < c {
      assert LowerCase(s[i]) ==> InWord(s, 0, i);
      assert s[i..][0] == s[i];
    } else {
      BeginsBehind(s, c, i, name);
    }
  }

  /** A word that was tried at its first lower-case letter in vain fails at every other. */
  lemma TriedFails(s: string, tried: bool)
    requires |s| > 0 && MatchCall(s, PyBlank).None? && (tried ==> WordFails(s))
    ensures TriedNext(s[0], tried) ==> WordFails(s[1..])
  {
    if WordChar(s[0]) {
      assert s[WordLength(s)..] == s[1..][WordLength(s[1..])..];
    }
  }

  ghost predicate BeginsSomewhere(s: string, tried: bool, name: string) {
    exists i: nat :: BeginsIn(s, i, tried, name)
  }

  lemma BeginsStep(s: string, tried: bool, name: string)
    requires |s| > 0 && MatchCall(s, PyBlank).None?
    ensures BeginsSomewhere(s, tried, name) <==> BeginsSomewhere(s[1..], TriedNext(s[0], tried), name)
  {
    if i: nat :| BeginsIn(s, i, tried, name) {
      assert s[0..] == s;
      BeginsInRest(s, i - 1, tried, name);
    }
    if i: nat :| BeginsIn(s[1..], i, TriedNext(s[0], tried), name) {
      BeginsInRest(s, i, tried, name);
    }
  }

  lemma BeginsFound(s: string, name: string)
    requires MatchCall(s, PyBlank).Some?
    ensures var m := MatchCall(s, PyBlank).value;
            BeginsSomewhere(s, false, name) <==> name == m.text || BeginsSomewhere(m.rest, false, name)
  {
    var m := MatchCall(s, PyBlank).value;
    var c := CallSpan(s);
    if i: nat :| BeginsIn(s, i, false, name) {
      BeginsWhenFound(s, c, i, name);
    }
    if name == m.text {
      BeginsWhenFound(s, c, 0, name);
    }
    if i: nat :| BeginsIn(m.rest, i, false, name) {
      BeginsWhenFound(s, c, c + i, name);
    }
  }

  /** The scan finds exactly the calls that begin in the text. */
  lemma {:induction false} CallsAre(s: string, tried: bool, name: string)
    requires tried ==> WordFails(s)
    ensures name in Calls(s) <==> BeginsSomewhere(s, tried, name)
    decreases |s|
  {
    CallsAndArgsShrink(PyBlank);
    if |s| > 0 {
      var m := MatchCall(s, PyBlank);
      if m.Some? {
        MatchesShrink(s, PyBlank);
        CallsAre(m.value.rest, false, name);
        BeginsFound(s, name);
        ScanFinds(CallAt(PyBlank), s, m.value.rest, m.value.text);
      } else {
        TriedFails(s, tried);
        CallsAre(s[1..], TriedNext(s[0], tried), name);
        BeginsStep(s, tried, name);
        assert s == [s[0]] + s[1..];
        ScanSkips(CallAt(PyBlank), s[0], s[1..]);
      }
    }
  }

  /** The joinpoints of an expression are exactly the names, but for the reserved ones, of the calls that begin
      anywhere in it, quotes or not. */
  lemma JoinpointsExactly(expression: string, name: string)
    ensures name in Parse(expression).joinpoints <==>
            name !in NOT_JOINPOINTS && exists i: nat :: CallBegins(expression, i, name)
  {
    JoinpointsIgnoreParts(expression);
    FilterMapMembers(Calls(expression), JoinpointName, name);
    CallsAre(expression, false, name);
    if i: nat :| CallBegins(expression, i, name) {
      assert BeginsIn(expression, i, false, name);
    }
    if BeginsSomewhere(expression, false, name) {
      var i: nat :| BeginsIn(expression, i, false, name);
      assert CallBegins(expression, i, name);
    }
  }
}
