/** String helpers shared by the models: searching, joining and ordering. */
module Strings {

  /** `hay` contains `needle` as a contiguous substring. */
  predicate Contains(hay: string, needle: string) {
    exists i | 0 <= i <= |hay| :: OccursAt(hay, needle, i)
  }

  predicate OccursAt(hay: string, needle: string, i: nat)
    requires i <= |hay|
  {
    needle <= hay[i..]
  }

  /** The parts joined with `sep` between neighbours. */
  function Join(parts: seq<string>, sep: string): string {
    if |parts| == 0 then ""
    else if |parts| == 1 then parts[0]
    else Join(parts[..|parts| - 1], sep) + sep + parts[|parts| - 1]
  }

  /** The parts that are not empty, in order. */
  function NonEmpty(parts: seq<string>): seq<string> {
    if |parts| == 0 then []
    else
      var init := NonEmpty(parts[..|parts| - 1]);
      if parts[|parts| - 1] == "" then init else init + [parts[|parts| - 1]]
  }

  lemma {:induction false} NonEmptyHasNoBlanks(parts: seq<string>)
    ensures forall i | 0 <= i < |NonEmpty(parts)| :: NonEmpty(parts)[i] != ""
  {
    if |parts| > 0 {
      NonEmptyHasNoBlanks(parts[..|parts| - 1]);
    }
  }

  lemma JoinSnoc(parts: seq<string>, last: string, sep: string)
    ensures Join(parts + [last], sep) == if |parts| == 0 then last else Join(parts, sep) + sep + last
  {
    var all := parts + [last];
    assert all[..|all| - 1] == parts;
  }

  lemma NonEmptySnoc(parts: seq<string>, last: string)
    ensures NonEmpty(parts + [last]) == if last == "" then NonEmpty(parts) else NonEmpty(parts) + [last]
  {
    var all := parts + [last];
    assert all[..|all| - 1] == parts;
  }

  /** Python's and JavaScript's code-unit order on strings. */
  predicate LexLe(a: string, b: string) {
    |a| == 0 || (|b| > 0 && (a[0] < b[0] || (a[0] == b[0] && LexLe(a[1..], b[1..]))))
  }

  lemma {:induction false} LexLeTotal(a: string, b: string)
    ensures LexLe(a, b) || LexLe(b, a)
    ensures LexLe(a, b) && LexLe(b, a) ==> a == b
  {
    if |a| > 0 && |b| > 0 {
      LexLeTotal(a[1..], b[1..]);
      assert a == [a[0]] + a[1..] && b == [b[0]] + b[1..];
    }
  }

  lemma {:induction false} LexLeTransitive(a: string, b: string, c: string)
    requires LexLe(a, b) && LexLe(b, c)
    ensures LexLe(a, c)
  {
    if |a| > 0 && a[0] == b[0] == c[0] {
      LexLeTransitive(a[1..], b[1..], c[1..]);
    }
  }

  lemma LexLeIsOrder()
    ensures forall a: string, b: string :: LexLe(a, b) || LexLe(b, a)
    ensures forall a: string, b: string :: LexLe(a, b) && LexLe(b, a) ==> a == b
    ensures forall a: string, b: string, c: string :: LexLe(a, b) && LexLe(b, c) ==> LexLe(a, c)
  {
    forall a: string, b: string {
      LexLeTotal(a, b);
    }
    forall a: string, b: string, c: string | LexLe(a, b) && LexLe(b, c) {
      LexLeTransitive(a, b, c);
    }
  }

  /** Python's order on pairs of strings. */
  predicate PairLe(a: (string, string), b: (string, string)) {
    if a.0 == b.0 then LexLe(a.1, b.1) else LexLe(a.0, b.0)
  }

  lemma PairLeTransitive(a: (string, string), b: (string, string), c: (string, string))
    requires PairLe(a, b) && PairLe(b, c)
    ensures PairLe(a, c)
  {
    if a.0 == b.0 == c.0 {
      LexLeTransitive(a.1, b.1, c.1);
    } else {
      LexLeTotal(a.0, a.0);
      LexLeTotal(b.0, b.0);
      LexLeTransitive(a.0, b.0, c.0);
      LexLeTotal(a.0, b.0);
    }
  }

  lemma PairLeIsOrder()
    ensures forall a: (string, string), b: (string, string) :: PairLe(a, b) || PairLe(b, a)
    ensures forall a: (string, string), b: (string, string), c: (string, string) ::
              PairLe(a, b) && PairLe(b, c) ==> PairLe(a, c)
  {
    forall a: (string, string), b: (string, string)
      ensures PairLe(a, b) || PairLe(b, a)
    {
      LexLeTotal(a.0, b.0);
      LexLeTotal(a.1, b.1);
    }
    forall a: (string, string), b: (string, string), c: (string, string) | PairLe(a, b) && PairLe(b, c) {
      PairLeTransitive(a, b, c);
    }
  }

  /** `s` without the leading and trailing characters that satisfy `blank`. */
  function Strip(s: string, blank: char -> bool): string {
    StripRight(StripLeft(s, blank), blank)
  }

  function StripLeft(s: string, blank: char -> bool): string {
    if |s| > 0 && blank(s[0]) then StripLeft(s[1..], blank) else s
  }

  function StripRight(s: string, blank: char -> bool): string {
    if |s| > 0 && blank(s[|s| - 1]) then StripRight(s[..|s| - 1], blank) else s
  }

  /** What Python's `str.strip()` removes. */
  predicate PyBlank(c: char) {
    c in " \t\n\r\U{000B}\U{000C}\U{001C}\U{001D}\U{001E}\U{001F}\U{0085}\U{00A0}\U{1680}" ||
    '\U{2000}' <= c <= '\U{200A}' ||
    c in "\U{2028}\U{2029}\U{202F}\U{205F}\U{3000}"
  }

  /** What JavaScript's `String.prototype.trim()` removes. */
  predicate JsBlank(c: char) {
    c in " \t\n\r\U{000B}\U{000C}\U{00A0}\U{1680}\U{FEFF}" ||
    '\U{2000}' <= c <= '\U{200A}' ||
    c in "\U{2028}\U{2029}\U{202F}\U{205F}\U{3000}"
  }

  function PyStrip(s: string): string { Strip(s, PyBlank) }

  function JsTrim(s: string): string { Strip(s, JsBlank) }

  /** `s` cannot be shortened by `Strip`: it is empty or both its ends are not blank. */
  predicate Stripped(s: string, blank: char -> bool) {
    |s| > 0 ==> !blank(s[0]) && !blank(s[|s| - 1])
  }

  /** Stripping yields a stripped contiguous piece of the string, with only blanks around it. */
  lemma {:induction false} StripIsInnerPiece(s: string, blank: char -> bool) returns (lo: nat, hi: nat)
    ensures lo <= hi <= |s| && Strip(s, blank) == s[lo..hi]
    ensures forall i | 0 <= i < lo || hi <= i < |s| :: blank(s[i])
    ensures Stripped(Strip(s, blank), blank)
  {
    lo := StripLeftIsSuffix(s, blank);
    var left := StripLeft(s, blank);
    var keep := StripRightIsPrefix(left, blank);
    hi := lo + keep;
    assert left == s[lo..];
    assert left[..keep] == s[lo..hi];
    forall i | hi <= i < |s|
      ensures blank(s[i])
    {
      assert s[i] == left[i - lo];
    }
    assert keep > 0 ==> Strip(s, blank)[0] == left[0];
  }

  lemma {:induction false} StripLeftIsSuffix(s: string, blank: char -> bool) returns (lo: nat)
    ensures lo <= |s| && StripLeft(s, blank) == s[lo..]
    ensures forall i | 0 <= i < lo :: blank(s[i])
    ensures lo < |s| ==> !blank(s[lo])
  {
    lo := 0;
    if |s| > 0 && blank(s[0]) {
      var rest := StripLeftIsSuffix(s[1..], blank);
      lo := rest + 1;
      forall i | 0 <= i < lo
        ensures blank(s[i])
      {
        assert i > 0 ==> s[i] == s[1..][i - 1];
      }
    }
  }

  lemma {:induction false} StripRightIsPrefix(s: string, blank: char -> bool) returns (hi: nat)
    ensures hi <= |s| && StripRight(s, blank) == s[..hi]
    ensures forall i | hi <= i < |s| :: blank(s[i])
    ensures hi > 0 ==> !blank(s[hi - 1])
  {
    hi := |s|;
    if |s| > 0 && blank(s[|s| - 1]) {
      hi := StripRightIsPrefix(s[..|s| - 1], blank);
    }
  }

  lemma NonBlankSurvives(s: string, i: nat, blank: char -> bool)
    requires i < |s| && !blank(s[i])
    ensures Strip(s, blank) != ""
  {
    var lo, hi := StripIsInnerPiece(s, blank);
  }

  lemma StrippedIsFixed(s: string, blank: char -> bool)
    ensures Strip(s, blank) == s <==> Stripped(s, blank)
  {
    var lo, hi := StripIsInnerPiece(s, blank);
  }

  lemma {:induction false} StripDropsTrailing(v: string, blank: char -> bool)
    ensures Strip(StripRight(v, blank), blank) == Strip(v, blank)
  {
    if |v| > 0 && blank(v[|v| - 1]) {
      var w := v[..|v| - 1];
      StripDropsTrailing(w, blank);
      var lo := StripLeftIsSuffix(v, blank);
      var lo' := StripLeftIsSuffix(w, blank);
      if lo' < |w| {
        assert lo == lo';
        assert v[lo..][..|v[lo..]| - 1] == w[lo..];
      }
    }
  }

  ghost predicate StrictlySorted(ks: seq<string>) {
    forall i, j | 0 <= i < j < |ks| :: ks[i] != ks[j] && LexLe(ks[i], ks[j])
  }

  lemma {:induction false} SortedOnlyOneWay(xs: seq<string>, ys: seq<string>)
    requires StrictlySorted(xs) && StrictlySorted(ys) && forall k :: k in xs <==> k in ys
    ensures xs == ys
  {
    assert |ys| > 0 ==> ys[0] in ys;
    if |xs| > 0 {
      assert xs[0] in ys && ys[0] in xs;
      LexLeTotal(xs[0], ys[0]);
      var i :| 0 <= i < |ys| && ys[i] == xs[0];
      var j :| 0 <= j < |xs| && xs[j] == ys[0];
      assert xs[0] == ys[0];
      assert xs == [xs[0]] + xs[1..] && ys == [ys[0]] + ys[1..];
      forall k
        ensures k in xs[1..] <==> k in ys[1..]
      {
        assert k in xs[1..] <==> k in xs && k != xs[0];
        assert k in ys[1..] <==> k in ys && k != ys[0];
      }
      SortedOnlyOneWay(xs[1..], ys[1..]);
    }
  }

  /** The string with every character exchanged for its piece. */
  function Exchanged(s: string, piece: char -> string): string {
    if |s| == 0 then "" else piece(s[0]) + Exchanged(s[1..], piece)
  }

  lemma {:induction false} ExchangedConcat(a: string, b: string, piece: char -> string)
    ensures Exchanged(a + b, piece) == Exchanged(a, piece) + Exchanged(b, piece)
  {
    if |a| == 0 {
      assert a + b == b;
    } else {
      var c, rest := a[0], a[1..];
      ExchangedConcat(rest, b, piece);
      assert a == [c] + rest && a + b == [c] + (rest + b);
      ExchangedFirst(c, rest, piece);
      ExchangedFirst(c, rest + b, piece);
      AppendAssociates(piece(c), Exchanged(rest, piece), Exchanged(b, piece));
    }
  }

  lemma ExchangedFirst(c: char, rest: string, piece: char -> string)
    ensures Exchanged([c] + rest, piece) == piece(c) + Exchanged(rest, piece)
  {
    assert ([c] + rest)[1..] == rest;
  }

  lemma AppendAssociates(a: string, b: string, c: string)
    ensures a + b + c == a + (b + c)
  {
  }

  // ---- Splitting at a character ----

  /** `s.split(c)` for a single character. */
  function SplitOn(s: string, c: char): seq<string> {
    if |s| == 0 then [""]
    else
      var init, last := SplitOn(s[..|s| - 1], c), s[|s| - 1];
      if last == c then init + [""] else AppendToLast(init, last)
  }

  function AppendToLast(parts: seq<string>, c: char): seq<string> {
    if |parts| == 0 then [[c]] else parts[..|parts| - 1] + [parts[|parts| - 1] + [c]]
  }

  lemma JoinOfAppended(parts: seq<string>, c: char, sep: string)
    requires |parts| > 0
    ensures Join(AppendToLast(parts, c), sep) == Join(parts, sep) + [c]
  {
    var init, last := parts[..|parts| - 1], parts[|parts| - 1];
    assert parts == init + [last];
    JoinSnoc(init, last, sep);
    JoinSnoc(init, last + [c], sep);
  }

  lemma {:induction false} SplitOnJoins(s: string, c: char)
    ensures |SplitOn(s, c)| > 0 && Join(SplitOn(s, c), [c]) == s
  {
    if |s| > 0 {
      var init, last := SplitOn(s[..|s| - 1], c), s[|s| - 1];
      SplitOnJoins(s[..|s| - 1], c);
      assert s == s[..|s| - 1] + [last];
      if last == c {
        JoinSnoc(init, "", [c]);
      } else {
        JoinOfAppended(init, last, [c]);
      }
    }
  }

  lemma {:induction false} PartsHoldNone(s: string, c: char)
    ensures forall i | 0 <= i < |SplitOn(s, c)| :: c !in SplitOn(s, c)[i]
  {
    if |s| > 0 {
      PartsHoldNone(s[..|s| - 1], c);
    }
  }

  /** The parts do not hold the character, and joined again they are the whole. */
  lemma SplitOnSplits(s: string, c: char)
    ensures |SplitOn(s, c)| > 0 && Join(SplitOn(s, c), [c]) == s
    ensures forall i | 0 <= i < |SplitOn(s, c)| :: c !in SplitOn(s, c)[i]
  {
    SplitOnJoins(s, c);
    PartsHoldNone(s, c);
  }

  /** The last part is longer by `w`. */
  function ExtendLast(parts: seq<string>, w: string): seq<string>
    requires |parts| > 0
  {
    parts[..|parts| - 1] + [parts[|parts| - 1] + w]
  }

  lemma ExtendLastTwice(parts: seq<string>, w: string, c: char)
    requires |parts| > 0
    ensures AppendToLast(ExtendLast(parts, w), c) == ExtendLast(parts, w + [c])
  {
    assert parts[|parts| - 1] + (w + [c]) == parts[|parts| - 1] + w + [c];
  }

  lemma SplitOnOneMore(s: string, x: char, c: char)
    requires x != c
    ensures SplitOn(s + [x], c) == AppendToLast(SplitOn(s, c), x)
  {
    assert (s + [x])[..|s|] == s;
  }

  lemma {:induction false} SplitOnAppended(s: string, w: string, c: char)
    requires c !in w
    ensures |SplitOn(s, c)| > 0
    ensures SplitOn(s + w, c) == ExtendLast(SplitOn(s, c), w)
  {
    SplitOnHasParts(s, c);
    var parts := SplitOn(s, c);
    if |w| == 0 {
      assert s + w == s && parts[|parts| - 1] + w == parts[|parts| - 1];
    } else {
      var init, last := w[..|w| - 1], w[|w| - 1];
      assert last in w && c !in init;
      SplitOnAppended(s, init, c);
      assert s + w == (s + init) + [last] && w == init + [last];
      SplitOnOneMore(s + init, last, c);
      ExtendLastTwice(parts, init, last);
    }
  }

  lemma SplitOnHasParts(s: string, c: char)
    ensures |SplitOn(s, c)| > 0
  {
  }

  lemma SplitOnSnoc(s: string, w: string, c: char)
    requires c !in w
    ensures SplitOn(s + [c] + w, c) == SplitOn(s, c) + [w]
  {
    assert (s + [c])[..|s|] == s;
    SplitOnAppended(s + [c], w, c);
    assert "" + w == w;
  }

  /** Parts without the character come back from their joined text. */
  lemma {:induction false} SplitOnOfJoin(parts: seq<string>, c: char)
    requires |parts| > 0 && forall i | 0 <= i < |parts| :: c !in parts[i]
    ensures SplitOn(Join(parts, [c]), c) == parts
  {
    var init, last := parts[..|parts| - 1], parts[|parts| - 1];
    assert parts == init + [last];
    if |init| == 0 {
      SplitOnAppended("", last, c);
      assert "" + last == last;
    } else {
      SplitOnOfJoin(init, c);
      SplitOnSnoc(Join(init, [c]), last, c);
    }
  }
}
