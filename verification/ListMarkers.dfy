/** The list markers at which a paragraph is cut: `(?m)^\s*(?:[-*•]|(?:\(?\d+\)|\d+\.))\s+` (extractor.py). */
module ListMarkers {
  import opened Extractor
  import opened Options
  import opened Strings

  predicate Bullet(c: char) { c == '-' || c == '*' || c == '\U{2022}' }

  /** The end of a bullet or of a number with its punctuation at `k`. No shorter run of digits could match: what
      follows it would be a digit. */
  function SignEnd(s: string, k: nat, digit: char -> bool): (e: Option<nat>)
    requires k <= |s|
    ensures e.Some? ==> k < e.value <= |s|
  {
    if k < |s| && Bullet(s[k]) then Some(k + 1)
    else
      var first := if k < |s| && s[k] == '(' then k + 1 else k;
      var d := SkipWhile(s, first, digit);
      if d == first || d == |s| then None
      else if s[d] == ')' || (s[d] == '.' && first == k) then Some(d + 1)
      else None
  }

  /** The end of a match at `i`, if there is one: at the start of a line, blanks, a sign, and at least one blank. */
  function MarkerEnd(s: string, i: nat, digit: char -> bool): (e: Option<nat>)
    requires i <= |s|
    ensures e.Some? ==> i < e.value <= |s|
  {
    if i > 0 && s[i - 1] != '\n' then None
    else
      var sign := SignEnd(s, SkipWhile(s, i, PyBlank), digit);
      var e := if sign.Some? then SkipWhile(s, sign.value, PyBlank) else 0;
      if sign.Some? && e > sign.value then Some(e) else None
  }

  /** `finditer`: where the matches from `i` on begin, each search beginning where the match before ended. */
  function MarkersFrom(s: string, i: nat, digit: char -> bool): seq<nat>
    requires i <= |s|
    decreases |s| - i
  {
    var e := MarkerEnd(s, i, digit);
    if e.Some? then [i] + MarkersFrom(s, e.value, digit)
    else if i == |s| then []
    else MarkersFrom(s, i + 1, digit)
  }

  function Markers(digit: char -> bool): string -> seq<nat> { (s: string) => MarkersFrom(s, 0, digit) }

  lemma IncreasingCons(m: nat, rest: seq<nat>, n: nat)
    requires m < n && Increasing(rest, n) && forall k | k in rest :: m < k
    ensures Increasing([m] + rest, n)
  {
    var all := [m] + rest;
    forall i, j | 0 <= i < j < |all|
      ensures all[i] < all[j]
    {
      assert rest[j - 1] in rest;
    }
  }

  lemma {:induction false} MarkersAreIncreasing(s: string, i: nat, digit: char -> bool)
    requires i <= |s|
    ensures Increasing(MarkersFrom(s, i, digit), |s|)
    ensures forall m | m in MarkersFrom(s, i, digit) :: i <= m
    decreases |s| - i
  {
    var e := MarkerEnd(s, i, digit);
    if e.Some? {
      MarkersAreIncreasing(s, e.value, digit);
      IncreasingCons(i, MarkersFrom(s, e.value, digit), |s|);
    } else if i < |s| {
      MarkersAreIncreasing(s, i + 1, digit);
    }
  }

  /** So everything that is proved of the segmenter for increasing positions holds for the expression. */
  lemma MarkersAreFound(digit: char -> bool)
    ensures FindsMarkers(Markers(digit))
  {
    forall p: string
      ensures Increasing(Markers(digit)(p), |p|)
    {
      MarkersAreIncreasing(p, 0, digit);
    }
  }

  /** No match begins between the end of one and the begin of the next, nor behind the last one. */
  ghost predicate AllMatches(s: string, ms: seq<nat>, from: nat, digit: char -> bool)
    requires from <= |s|
    decreases |ms|
  {
    if |ms| == 0 then forall k | from <= k <= |s| :: MarkerEnd(s, k, digit).None?
    else
      && from <= ms[0] <= |s| && MarkerEnd(s, ms[0], digit).Some?
      && (forall k | from <= k < ms[0] :: MarkerEnd(s, k, digit).None?)
      && AllMatches(s, ms[1..], MarkerEnd(s, ms[0], digit).value, digit)
  }

  lemma OneMoreUnmatched(s: string, ms: seq<nat>, i: nat, digit: char -> bool)
    requires i < |s| && MarkerEnd(s, i, digit).None? && AllMatches(s, ms, i + 1, digit)
    ensures AllMatches(s, ms, i, digit)
  {
  }

  /** The markers are exactly the leftmost matches. */
  lemma {:induction false} MarkersAreExact(s: string, i: nat, digit: char -> bool)
    requires i <= |s|
    ensures AllMatches(s, MarkersFrom(s, i, digit), i, digit)
    decreases |s| - i
  {
    var e := MarkerEnd(s, i, digit);
    if e.Some? {
      MarkersAreExact(s, e.value, digit);
      assert ([i] + MarkersFrom(s, e.value, digit))[1..] == MarkersFrom(s, e.value, digit);
    } else if i < |s| {
      MarkersAreExact(s, i + 1, digit);
      OneMoreUnmatched(s, MarkersFrom(s, i + 1, digit), i, digit);
    }
  }

  // ---- What a marker looks like ----

  /** No decimal digit is a blank or one of the signs. */
  ghost predicate DigitsOnly(digit: char -> bool) {
    forall c | digit(c) :: !PyBlank(c) && c !in "()-*.\U{2022}"
  }

  ghost predicate Number(d: string, digit: char -> bool) {
    |d| > 0 && forall i | 0 <= i < |d| :: digit(d[i])
  }

  /** A dash, a star, a bullet, a number with a full stop, or a number with one parenthesis behind it or two around. */
  ghost predicate IsSign(t: string, digit: char -> bool) {
    || t == "-" || t == "*" || t == "\U{2022}"
    || exists d: string :: Number(d, digit) && (t == d + "." || t == d + ")" || t == "(" + d + ")")
  }

  lemma {:induction false} SkipsRun(s: string, i: nat, j: nat, p: char -> bool)
    requires i <= j <= |s| && (forall n | i <= n < j :: p(s[n])) && (j < |s| ==> !p(s[j]))
    ensures SkipWhile(s, i, p) == j
    decreases j - i
  {
    if i < j {
      SkipsRun(s, i + 1, j, p);
    }
  }

  /** The part of `s` from `i` on begins with `t`. */
  predicate Stands(s: string, i: nat, t: string) {
    i + |t| <= |s| && forall n | 0 <= n < |t| :: s[i + n] == t[n]
  }

  lemma NumberIsRead(s: string, j: nat, d: string, close: char, digit: char -> bool)
    requires DigitsOnly(digit) && Number(d, digit) && (close == '.' || close == ')') && Stands(s, j, d + [close])
    ensures SignEnd(s, j, digit) == Some(j + |d| + 1)
  {
    var t := d + [close];
    forall m | j <= m < j + |d|
      ensures digit(s[m])
    {
      assert s[j + (m - j)] == t[m - j] == d[m - j];
    }
    assert s[j + |d|] == t[|d|] == close;
    SkipsRun(s, j, j + |d|, digit);
  }

  lemma ParenthesisedIsRead(s: string, j: nat, d: string, digit: char -> bool)
    requires DigitsOnly(digit) && Number(d, digit) && Stands(s, j, "(" + d + ")")
    ensures SignEnd(s, j, digit) == Some(j + |d| + 2)
  {
    var t := "(" + d + ")";
    assert s[j + 0] == t[0] == '(';
    forall m | j + 1 <= m < j + 1 + |d|
      ensures digit(s[m])
    {
      assert s[j + (m - j)] == t[m - j] == d[m - j - 1];
    }
    assert s[j + (1 + |d|)] == t[1 + |d|] == ')';
    SkipsRun(s, j + 1, j + 1 + |d|, digit);
  }

  /** A sign is read whole. */
  lemma SignIsRead(s: string, j: nat, t: string, digit: char -> bool)
    requires DigitsOnly(digit) && IsSign(t, digit) && Stands(s, j, t)
    ensures |t| > 0 && SignEnd(s, j, digit) == Some(j + |t|)
  {
    if t == "-" || t == "*" || t == "\U{2022}" {
      assert s[j + 0] == t[0];
    } else {
      var d: string :| Number(d, digit) && (t == d + "." || t == d + ")" || t == "(" + d + ")");
      if t == "(" + d + ")" {
        ParenthesisedIsRead(s, j, d, digit);
      } else {
        NumberIsRead(s, j, d, if t == d + "." then '.' else ')', digit);
      }
    }
  }

  lemma SignsAreSolid(c: char)
    requires c in "()-*.\U{2022}"
    ensures !PyBlank(c)
  {
  }

  /** What is read as a sign is one, and no blank is in it. */
  lemma ReadSignIsSign(s: string, j: nat, digit: char -> bool)
    requires DigitsOnly(digit) && j <= |s| && SignEnd(s, j, digit).Some?
    ensures var k := SignEnd(s, j, digit).value;
            j < k <= |s| && IsSign(s[j..k], digit) && forall i | j <= i < k :: !PyBlank(s[i])
  {
    var k := SignEnd(s, j, digit).value;
    if Bullet(s[j]) {
      assert s[j..k] == [s[j]];
      SignsAreSolid(s[j]);
    } else {
      ReadNumberIsSign(s, j, digit);
    }
  }

  lemma ReadNumberIsSign(s: string, j: nat, digit: char -> bool)
    requires DigitsOnly(digit) && j < |s| && !Bullet(s[j]) && SignEnd(s, j, digit).Some?
    ensures var k := SignEnd(s, j, digit).value;
            j < k <= |s| && IsSign(s[j..k], digit) && forall i | j <= i < k :: !PyBlank(s[i])
  {
    var k := SignEnd(s, j, digit).value;
    var first := if s[j] == '(' then j + 1 else j;
    var d, close := s[first..k - 1], s[k - 1];
    assert Number(d, digit);
    SignsAreSolid(close);
    if first == j {
      assert s[j..k] == d + [close];
    } else {
      SignsAreSolid(s[j]);
      assert s[j..k] == "(" + d + [close];
    }
    assert forall i | first <= i < k - 1 :: digit(s[i]);
  }

  ghost predicate BlankRun(s: string, i: nat, j: nat) {
    i <= j <= |s| && forall n | i <= n < j :: PyBlank(s[n])
  }

  /** The text from `i` is blanks, a sign, and at least one blank, of which `e` is the end. */
  ghost predicate Marked(s: string, i: nat, j: nat, k: nat, e: nat, digit: char -> bool) {
    && j < k < e && BlankRun(s, i, j) && (i == 0 || s[i - 1] == '\n')
    && BlankRun(s, k, e) && (e < |s| ==> !PyBlank(s[e]))
    && IsSign(s[j..k], digit)
  }

  lemma SignStartsSolid(t: string, digit: char -> bool)
    requires DigitsOnly(digit) && IsSign(t, digit)
    ensures |t| > 0 && !PyBlank(t[0])
  {
    if t == "-" || t == "*" || t == "\U{2022}" {
      SignsAreSolid(t[0]);
    } else {
      var d: string :| Number(d, digit) && (t == d + "." || t == d + ")" || t == "(" + d + ")");
      SignsAreSolid('(');
      assert t[0] == d[0] || t[0] == '(';
    }
  }

  lemma SignInText(s: string, j: nat, k: nat, digit: char -> bool)
    requires DigitsOnly(digit) && j <= k <= |s| && IsSign(s[j..k], digit)
    ensures j < k && !PyBlank(s[j]) && SignEnd(s, j, digit) == Some(k)
  {
    SignStartsSolid(s[j..k], digit);
    SignIsRead(s, j, s[j..k], digit);
  }

  lemma MarkerFromParts(s: string, i: nat, j: nat, k: nat, e: nat, digit: char -> bool)
    requires i <= |s| && (i == 0 || s[i - 1] == '\n')
    requires SkipWhile(s, i, PyBlank) == j && SignEnd(s, j, digit) == Some(k) && SkipWhile(s, k, PyBlank) == e > k
    ensures MarkerEnd(s, i, digit) == Some(e)
  {
  }

  lemma MarkedIsFound(s: string, i: nat, j: nat, k: nat, e: nat, digit: char -> bool)
    requires DigitsOnly(digit) && Marked(s, i, j, k, e, digit)
    ensures MarkerEnd(s, i, digit) == Some(e)
  {
    SignInText(s, j, k, digit);
    SkipsBlanks(s, i, j);
    SkipsBlanks(s, k, e);
    MarkerFromParts(s, i, j, k, e, digit);
  }

  lemma SkipsBlanks(s: string, i: nat, j: nat)
    requires BlankRun(s, i, j) && (j < |s| ==> !PyBlank(s[j]))
    ensures SkipWhile(s, i, PyBlank) == j
  {
    SkipsRun(s, i, j, PyBlank);
  }

  lemma FoundIsMarked(s: string, i: nat, digit: char -> bool) returns (j: nat, k: nat)
    requires DigitsOnly(digit) && i <= |s| && MarkerEnd(s, i, digit).Some?
    ensures Marked(s, i, j, k, MarkerEnd(s, i, digit).value, digit)
    ensures forall n | j <= n < k :: !PyBlank(s[n])
  {
    j := SkipWhile(s, i, PyBlank);
    ReadSignIsSign(s, j, digit);
    k := SignEnd(s, j, digit).value;
  }

  /** A marker is found at `i` exactly when the text there is marked, and it ends where the blanks behind the sign
      do. */
  lemma MarkerExactly(s: string, i: nat, e: nat, digit: char -> bool)
    requires DigitsOnly(digit) && i <= |s|
    ensures MarkerEnd(s, i, digit) == Some(e) <==> exists j: nat, k: nat :: Marked(s, i, j, k, e, digit)
  {
    if MarkerEnd(s, i, digit) == Some(e) {
      var j, k := FoundIsMarked(s, i, digit);
    }
    if j: nat, k: nat :| Marked(s, i, j, k, e, digit) {
      MarkedIsFound(s, i, j, k, e, digit);
    }
  }

  /** A sign with a blank behind it at the start of a line is a place to cut, or only blanks lie between such a place
      and it. */
  ghost predicate CutBefore(s: string, i: nat, ms: seq<nat>) {
    exists m | m in ms :: BlankRun(s, m, i)
  }

  lemma SignIsMarker(s: string, i: nat, t: string, digit: char -> bool)
    requires DigitsOnly(digit) && IsSign(t, digit)
    requires Stands(s, i, t) && i + |t| < |s| && PyBlank(s[i + |t|]) && (i == 0 || s[i - 1] == '\n')
    ensures MarkerEnd(s, i, digit).Some? && |t| > 0 && !PyBlank(s[i])
  {
    SignStartsSolid(t, digit);
    assert s[i + 0] == t[0];
    SkipsRun(s, i, i, PyBlank);
    SignIsRead(s, i, t, digit);
  }

  /** The blanks and the sign of a match. */
  lemma MatchParts(s: string, i: nat, digit: char -> bool) returns (j: nat, k: nat)
    requires DigitsOnly(digit) && i <= |s| && MarkerEnd(s, i, digit).Some?
    ensures j < k <= MarkerEnd(s, i, digit).value
    ensures BlankRun(s, i, j) && BlankRun(s, k, MarkerEnd(s, i, digit).value)
    ensures forall n | j <= n < k :: !PyBlank(s[n])
  {
    j, k := FoundIsMarked(s, i, digit);
  }

  lemma {:induction false} MarkedLineIsCut(s: string, from: nat, i: nat, digit: char -> bool)
    requires DigitsOnly(digit) && from <= i < |s| && (i == 0 || s[i - 1] == '\n')
    requires !PyBlank(s[i]) && MarkerEnd(s, i, digit).Some?
    ensures CutBefore(s, i, MarkersFrom(s, from, digit))
    decreases |s| - from
  {
    var e, ms := MarkerEnd(s, from, digit), MarkersFrom(s, from, digit);
    if e.Some? {
      var j, k := MatchParts(s, from, digit);
      LineStartsOutside(s, from, i, j, k, e.value);
      if i == j {
        assert from in ms;
      } else {
        MarkedLineIsCut(s, e.value, i, digit);
        CutLater(s, i, [from], MarkersFrom(s, e.value, digit));
      }
    } else {
      MarkedLineIsCut(s, from + 1, i, digit);
    }
  }

  /** So every line that begins with a sign and a blank is cut at, together with the blank lines before it. */
  lemma SignedLineIsCut(s: string, i: nat, t: string, digit: char -> bool)
    requires DigitsOnly(digit) && IsSign(t, digit)
    requires Stands(s, i, t) && i + |t| < |s| && PyBlank(s[i + |t|]) && (i == 0 || s[i - 1] == '\n')
    ensures CutBefore(s, i, Markers(digit)(s))
  {
    SignIsMarker(s, i, t, digit);
    MarkedLineIsCut(s, 0, i, digit);
  }

  /** A line that begins with something visible begins with the sign of a match, or behind the match. */
  lemma LineStartsOutside(s: string, from: nat, i: nat, j: nat, k: nat, e: nat)
    requires from <= i < |s| && !PyBlank(s[i]) && (i == 0 || s[i - 1] == '\n')
    requires j < k <= e && BlankRun(s, from, j) && BlankRun(s, k, e) && forall n | j <= n < k :: !PyBlank(s[n])
    ensures i == j || i >= e
  {
    assert PyBlank('\n');
    assert i > 0 ==> PyBlank(s[i - 1]);
  }

  lemma CutLater(s: string, i: nat, first: seq<nat>, rest: seq<nat>)
    requires CutBefore(s, i, rest)
    ensures CutBefore(s, i, first + rest)
  {
    var m :| m in rest && BlankRun(s, m, i);
    assert m in first + rest;
  }
}
