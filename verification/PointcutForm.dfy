/** The documented form of a pointcut, `name() && args("...")`: exactly when its keywords and its joinpoint are read
    back (aop.py). */
module PointcutForms {
  import opened Filtering
  import opened Options
  import opened PointcutCalls
  import opened Pointcuts
  import opened Strings

  // ---- Every keyword that is read ----

  predicate Plain(keyword: string) { keyword != "" && ',' !in keyword && PyStrip(keyword) == keyword }

  lemma SliceHasNoAnd(s: string, lo: nat, hi: nat)
    requires NoAnd(s) && lo <= hi <= |s|
    ensures NoAnd(s[lo..hi])
  {
    var t := s[lo..hi];
    forall i | 0 <= i < |t| - 1
      ensures !(t[i] == '&' && t[i + 1] == '&')
    {
      assert t[i] == s[lo + i] && t[i + 1] == s[lo + i + 1];
    }
  }

  lemma {:induction false} UntilMeans(s: string, c: char)
    ensures Until(s, c) < |s| ==> s[Until(s, c)] == c
    ensures forall k | 0 <= k < Until(s, c) :: s[k] != c
  {
    if |s| > 0 && s[0] != c {
      UntilMeans(s[1..], c);
    }
  }

  /** The text of the match is a piece of the string, and the rest of the string begins behind a parenthesis that
      follows this piece. */
  predicate Cuts(s: string, m: Match, lo: nat, hi: nat, next: nat) {
    lo <= hi < next <= |s| && m.text == s[lo..hi] && m.rest == s[next..] && s[next - 1] == ')'
  }

  ghost predicate IsCut(s: string, m: Match) { exists lo: nat, hi: nat, next: nat :: Cuts(s, m, lo, hi, next) }

  lemma QuotedIsCut(s: string, q: char)
    requires MatchQuoted(s, q, PyBlank).Some?
    ensures IsCut(s, MatchQuoted(s, q, PyBlank).value)
  {
    var k := Until(s[1..], q);
    var close := SkipMeans(s[k + 2..], ')', PyBlank);
    assert s[k + 2..][close + 1..] == s[k + 2 + close + 1..];
    assert Cuts(s, MatchQuoted(s, q, PyBlank).value, 1, k + 1, k + 2 + close + 1);
  }

  lemma BareIsCut(s: string)
    requires MatchBare(s, PyBlank).Some?
    ensures IsCut(s, MatchBare(s, PyBlank).value)
  {
    var from := StripLeftIsSuffix(s, PyBlank);
    var t := s[from..];
    var k := Until(t, ')');
    UntilMeans(t, ')');
    if k > 0 {
      assert t[..k] == s[from..from + k] && t[k + 1..] == s[from + k + 1..];
      assert Cuts(s, MatchBare(s, PyBlank).value, from, from + k, from + k + 1);
    } else {
      var b := Until(s, ')');
      UntilMeans(s, ')');
      assert s[from] == ')' && t[1..] == s[from + 1..];
      assert Cuts(s, MatchBare(s, PyBlank).value, b - 1, b, from + 1);
    }
  }

  lemma CutShifts(s: string, from: nat, m: Match)
    requires from <= |s| && IsCut(s[from..], m)
    ensures IsCut(s, m)
  {
    var lo: nat, hi: nat, next: nat :| Cuts(s[from..], m, lo, hi, next);
    assert s[from..][lo..hi] == s[from + lo..from + hi] && s[from..][next..] == s[from + next..];
    assert Cuts(s, m, from + lo, from + hi, from + next);
  }

  lemma TextIsCut(s: string)
    requires ArgsText(s, PyBlank).Some?
    ensures IsCut(s, ArgsText(s, PyBlank).value)
  {
    var from := StripLeftIsSuffix(s, PyBlank);
    var t := s[from..];
    if MatchQuoted(t, '"', PyBlank).Some? {
      QuotedIsCut(t, '"');
      CutShifts(s, from, MatchQuoted(t, '"', PyBlank).value);
    } else if MatchQuoted(t, '\'', PyBlank).Some? {
      QuotedIsCut(t, '\'');
      CutShifts(s, from, MatchQuoted(t, '\'', PyBlank).value);
    } else {
      BareIsCut(s);
    }
  }

  lemma TextBehind(s: string) returns (from: nat)
    requires MatchArgs(s, PyBlank).Some?
    ensures from <= |s| && ArgsText(s[from..], PyBlank) == MatchArgs(s, PyBlank)
  {
    var open := SkipMeans(s[4..], '(', PyBlank);
    from := 4 + open + 1;
    assert s[4..][open + 1..] == s[from..];
  }

  lemma ArgsIsCut(s: string)
    requires MatchArgs(s, PyBlank).Some?
    ensures IsCut(s, MatchArgs(s, PyBlank).value)
  {
    var from := TextBehind(s);
    TextIsCut(s[from..]);
    CutShifts(s, from, MatchArgs(s, PyBlank).value);
  }

  lemma CutHasNoAnd(s: string, m: Match)
    requires NoAnd(s) && IsCut(s, m)
    ensures NoAnd(m.text) && NoAnd(m.rest)
  {
    var lo: nat, hi: nat, next: nat :| Cuts(s, m, lo, hi, next);
    SliceHasNoAnd(s, lo, hi);
    SliceHasNoAnd(s, next, |s|);
    assert s[next..|s|] == s[next..];
  }

  lemma {:induction false} TextsHaveNoAnd(s: string, text: string)
    requires NoAnd(s) && text in ArgTexts(s)
    ensures NoAnd(text)
    decreases |s|
  {
    CallsAndArgsShrink(PyBlank);
    var m := MatchArgs(s, PyBlank);
    if m.Some? {
      ArgsIsCut(s);
      CutHasNoAnd(s, m.value);
      if text != m.value.text {
        TextsHaveNoAnd(m.value.rest, text);
      }
    } else {
      SliceHasNoAnd(s, 1, |s|);
      assert s[1..|s|] == s[1..];
      TextsHaveNoAnd(s[1..], text);
    }
  }

  lemma SplitHeadIsPrefix(s: string)
    ensures SplitAnd(s)[0] <= s
    decreases |s|
  {
    if |s| > 0 && !("&&" <= s) {
      SplitHeadIsPrefix(s[1..]);
      assert s == [s[0]] + s[1..];
    }
  }

  lemma PrependHasNoAnd(c: char, part: string)
    requires NoAnd(part) && !(c == '&' && |part| > 0 && part[0] == '&')
    ensures NoAnd([c] + part)
  {
  }

  lemma {:induction false} PartsHaveNoAnd(s: string, part: string)
    requires part in SplitAnd(s)
    ensures NoAnd(part)
    decreases |s|
  {
    if |s| > 0 {
      if "&&" <= s {
        if part != "" {
          PartsHaveNoAnd(s[2..], part);
        }
      } else {
        var parts := SplitAnd(s[1..]);
        PartsHaveNoAnd(s[1..], parts[0]);
        SplitHeadIsPrefix(s[1..]);
        PrependHasNoAnd(s[0], parts[0]);
        if part != [s[0]] + parts[0] {
          PartsHaveNoAnd(s[1..], part);
        }
      }
    }
  }

  lemma {:induction false} PieceOfJoin(parts: seq<string>, sep: string, i: nat) returns (lo: nat, hi: nat)
    requires i < |parts|
    ensures lo <= hi <= |Join(parts, sep)| && parts[i] == Join(parts, sep)[lo..hi]
  {
    var init, last := parts[..|parts| - 1], parts[|parts| - 1];
    assert parts == init + [last];
    JoinSnoc(init, last, sep);
    var whole := Join(parts, sep);
    if i == |init| {
      lo, hi := |whole| - |last|, |whole|;
    } else {
      lo, hi := PieceOfJoin(init, sep, i);
      assert whole[lo..hi] == Join(init, sep)[lo..hi];
    }
  }

  lemma KeywordIsPlain(text: string, k: string)
    requires k in KeywordsIn(text)
    ensures Plain(k) && (NoAnd(text) ==> NoAnd(k))
  {
    FilterMapMembers(SplitOn(text, ','), Keyword, k);
    var piece :| piece in SplitOn(text, ',') && Keyword(piece) == Some(k);
    var lo, hi := StripIsInnerPiece(piece, PyBlank);
    StrippedIsFixed(k, PyBlank);
    SplitOnSplits(text, ',');
    var i :| 0 <= i < |SplitOn(text, ',')| && SplitOn(text, ',')[i] == piece;
    var from, to := PieceOfJoin(SplitOn(text, ','), [','], i);
    if NoAnd(text) {
      SliceHasNoAnd(text, from, to);
      SliceHasNoAnd(piece, lo, hi);
    }
  }

  lemma {:induction false} FlatMembers(parts: seq<string>, g: string -> seq<string>, k: string) returns (part: string)
    requires k in Flat(parts, g)
    ensures part in parts && k in g(part)
  {
    var init, last := parts[..|parts| - 1], parts[|parts| - 1];
    part := last;
    if k !in g(last) {
      part := FlatMembers(init, g, k);
    }
  }

  /** Whatever the expression: a keyword that is read is not blank, is stripped, and holds neither a comma nor `&&`. */
  lemma ReadKeywordsArePlain(expression: string, k: string)
    requires k in Parse(expression).keywords
    ensures Plain(k) && NoAnd(k)
  {
    ParseFinds(expression);
    var part := FlatMembers(SplitAnd(expression), KeywordsOf, k);
    var text := FlatMembers(ArgTexts(part), KeywordsIn, k);
    PartsHaveNoAnd(expression, part);
    TextsHaveNoAnd(part, text);
    KeywordIsPlain(text, k);
  }

  lemma AndIsNeverRead(expression: string, k: string)
    requires !NoAnd(k)
    ensures k !in Parse(expression).keywords
  {
    if k in Parse(expression).keywords {
      ReadKeywordsArePlain(expression, k);
    }
  }

  lemma JoinedIsPlain(a: string, b: string)
    requires Plain(a) && Plain(b)
    ensures Plain(a + " && " + b) && !NoAnd(a + " && " + b)
  {
    var k := a + " && " + b;
    var loA, hiA := StripIsInnerPiece(a, PyBlank);
    var loB, hiB := StripIsInnerPiece(b, PyBlank);
    assert k[0] == a[0] && k[|k| - 1] == b[|b| - 1];
    StrippedIsFixed(k, PyBlank);
    assert k[|a| + 1] == '&' && k[|a| + 2] == '&';
  }

  /** So a guard for two shell commands joined by `&&` never matches: its keyword is plain and is read from no
      expression. */
  lemma JoinedCommandIsNeverRead(a: string, b: string, expression: string)
    requires Plain(a) && Plain(b)
    ensures Plain(a + " && " + b) && a + " && " + b !in Parse(expression).keywords
  {
    JoinedIsPlain(a, b);
    AndIsNeverRead(expression, a + " && " + b);
  }

  // ---- Exactly when a quoted text is read ----

  function Occurs(s: string, c: char): nat { multiset(s)[c] }

  lemma OccursConcat(a: string, b: string, c: char)
    ensures Occurs(a + b, c) == Occurs(a, c) + Occurs(b, c)
  {
  }

  /** How often the character occurs in all the texts. */
  function Total(texts: seq<string>, c: char): nat {
    if |texts| == 0 then 0 else Total(texts[..|texts| - 1], c) + Occurs(texts[|texts| - 1], c)
  }

  lemma {:induction false} TotalConcat(a: seq<string>, b: seq<string>, c: char)
    ensures Total(a + b, c) == Total(a, c) + Total(b, c)
  {
    if |b| == 0 {
      assert a + b == a;
    } else {
      TotalConcat(a, b[..|b| - 1], c);
      assert (a + b)[..|a + b| - 1] == a + b[..|b| - 1];
    }
  }

  lemma TotalOne(text: string, c: char)
    ensures Total([text], c) == Occurs(text, c)
  {
    assert [text][..0] == [];
  }

  lemma OccursNowhere(s: string, c: char)
    ensures Occurs(s, c) == 0 <==> c !in s
  {
  }

  /** Stripping takes nothing but blanks. */
  lemma StripKeepsCount(s: string, c: char)
    requires !PyBlank(c)
    ensures Occurs(PyStrip(s), c) == Occurs(s, c)
  {
    var lo, hi := StripIsInnerPiece(s, PyBlank);
    assert s == s[..lo] + s[lo..hi] + s[hi..];
    assert forall k | 0 <= k < lo :: s[..lo][k] == s[k];
    assert forall k | 0 <= k < |s| - hi :: s[hi..][k] == s[hi + k];
    OccursNowhere(s[..lo], c);
    OccursNowhere(s[hi..], c);
    OccursConcat(s[..lo] + s[lo..hi], s[hi..], c);
    OccursConcat(s[..lo], s[lo..hi], c);
  }

  lemma {:induction false} KeywordsKeepCount(pieces: seq<string>, c: char)
    requires !PyBlank(c)
    ensures Total(FilterMap(pieces, Keyword), c) == Total(pieces, c)
  {
    if |pieces| > 0 {
      var init, last := pieces[..|pieces| - 1], pieces[|pieces| - 1];
      KeywordsKeepCount(init, c);
      StripKeepsCount(last, c);
      TotalConcat(FilterMap(init, Keyword), [PyStrip(last)], c);
      TotalOne(PyStrip(last), c);
    }
  }

  lemma {:induction false} JoinKeepsCount(parts: seq<string>, sep: char, c: char)
    requires c != sep
    ensures Occurs(Join(parts, [sep]), c) == Total(parts, c)
  {
    if |parts| > 0 {
      var init, last := parts[..|parts| - 1], parts[|parts| - 1];
      assert parts == init + [last];
      JoinSnoc(init, last, [sep]);
      JoinKeepsCount(init, sep, c);
      OccursConcat(Join(init, [sep]) + [sep], last, c);
      OccursConcat(Join(init, [sep]), [sep], c);
    }
  }

  /** The keywords of a text hold every other character as often as the text does. */
  lemma KeywordsInKeepCount(text: string, c: char)
    requires !PyBlank(c) && c != ','
    ensures Total(KeywordsIn(text), c) == Occurs(text, c)
  {
    SplitOnSplits(text, ',');
    KeywordsKeepCount(SplitOn(text, ','), c);
    JoinKeepsCount(SplitOn(text, ','), ',', c);
  }

  lemma {:induction false} FlatKeepsCount(texts: seq<string>, c: char)
    requires !PyBlank(c) && c != ','
    ensures Total(Flat(texts, KeywordsIn), c) == Total(texts, c)
  {
    if |texts| > 0 {
      var init, last := texts[..|texts| - 1], texts[|texts| - 1];
      FlatKeepsCount(init, c);
      KeywordsInKeepCount(last, c);
      TotalConcat(Flat(init, KeywordsIn), KeywordsIn(last), c);
    }
  }

  lemma OccursInHalves(s: string, lo: nat, mid: nat, hi: nat, c: char)
    requires lo <= mid <= hi <= |s|
    ensures Occurs(s[lo..hi], c) == Occurs(s[lo..mid], c) + Occurs(s[mid..hi], c)
  {
    assert s[lo..hi] == s[lo..mid] + s[mid..hi];
    OccursConcat(s[lo..mid], s[mid..hi], c);
  }

  lemma CutLoses(s: string, m: Match)
    requires IsCut(s, m)
    ensures Occurs(m.text, ')') + 1 + Occurs(m.rest, ')') <= Occurs(s, ')')
  {
    var lo: nat, hi: nat, next: nat :| Cuts(s, m, lo, hi, next);
    assert s[0..|s|] == s && s[next..|s|] == s[next..];
    OccursInHalves(s, 0, lo, |s|, ')');
    OccursInHalves(s, lo, hi, |s|, ')');
    OccursInHalves(s, hi, next, |s|, ')');
    assert s[hi..next][next - 1 - hi] == ')';
    OccursNowhere(s[hi..next], ')');
  }

  /** Every match uses up a parenthesis of its own. */
  lemma {:induction false} ScanLoses(s: string)
    ensures Total(ArgTexts(s), ')') + |ArgTexts(s)| <= Occurs(s, ')')
    decreases |s|
  {
    CallsAndArgsShrink(PyBlank);
    if |s| > 0 {
      var m := MatchArgs(s, PyBlank);
      if m.Some? {
        ArgsIsCut(s);
        MatchesShrink(s, PyBlank);
        ScanLoses(m.value.rest);
        CutLoses(s, m.value);
        ScanFinds(ArgsAt(PyBlank), s, m.value.rest, m.value.text);
        TotalConcat([m.value.text], ArgTexts(m.value.rest), ')');
        TotalOne(m.value.text, ')');
      } else {
        ScanLoses(s[1..]);
        assert s == [s[0]] + s[1..];
        ScanSkips(ArgsAt(PyBlank), s[0], s[1..]);
        OccursConcat([s[0]], s[1..], ')');
      }
    }
  }

  lemma QuotedStopsShort(text: string)
    requires '"' in text || text == ""
    requires MatchQuoted(['"'] + (text + CLOSING), '"', PyBlank).Some?
    ensures Occurs(MatchQuoted(['"'] + (text + CLOSING), '"', PyBlank).value.text, '"') == 0 < Occurs(text, '"')
  {
    var t := ['"'] + (text + CLOSING);
    assert t[1..] == text + CLOSING;
    var k := Until(text + CLOSING, '"');
    UntilMeans(text + CLOSING, '"');
    assert t[1..k + 1] == (text + CLOSING)[..k];
    OccursNowhere(t[1..k + 1], '"');
    OccursNowhere(text, '"');
  }

  lemma BareTakesQuote(text: string)
    ensures var m := MatchBare(['"'] + (text + CLOSING), PyBlank);
            && m.Some?
            && (Occurs(m.value.text, '"') != Occurs(text, '"') || Occurs(m.value.text, ')') != Occurs(text, ')'))
  {
    var t := ['"'] + (text + CLOSING);
    assert StripLeft(t, PyBlank) == t && t[|t| - 1] == ')';
    UntilFinds(t, ')');
    UntilMeans(t, ')');
    var k := Until(t, ')');
    OccursNowhere(t[..k], ')');
    OccursNowhere(text, ')');
    if ')' in text {
      assert Occurs(t[..k], ')') == 0 < Occurs(text, ')');
    } else {
      assert forall i | 0 <= i < |text| + 2 :: t[i] == if i == 0 || i == |text| + 1 then '"' else text[i - 1];
      assert k == |text| + 2;
      assert t[..k] == ['"'] + (text + ['"']);
      OccursConcat(['"'], text + ['"'], '"');
      OccursConcat(text, ['"'], '"');
    }
  }

  lemma ArgsBeginQuoted(text: string)
    ensures MatchArgs(OPENING + text + CLOSING, PyBlank) == ArgsText(['"'] + (text + CLOSING), PyBlank)
  {
    var s, t := OPENING + text + CLOSING, ['"'] + (text + CLOSING);
    assert s[4..] == ['('] + t && ArgsWord(s);
    SkipHere('(', t, PyBlank);
  }

  lemma QuotedOrBare(t: string)
    requires |t| > 0 && t[0] == '"'
    ensures ArgsText(t, PyBlank) ==
            if MatchQuoted(t, '"', PyBlank).Some? then MatchQuoted(t, '"', PyBlank) else MatchBare(t, PyBlank)
  {
    assert StripLeft(t, PyBlank) == t;
  }

  /** The first match in `args("text")` when the text is empty or holds a quote: it stops at that quote, or it takes
      the opening quote along. */
  lemma FirstMatchDiffers(text: string)
    requires text == "" || '"' in text
    ensures var m := MatchArgs(OPENING + text + CLOSING, PyBlank);
            && m.Some?
            && (Occurs(m.value.text, '"') != Occurs(text, '"') || Occurs(m.value.text, ')') != Occurs(text, ')'))
  {
    var t := ['"'] + (text + CLOSING);
    ArgsBeginQuoted(text);
    QuotedOrBare(t);
    if MatchQuoted(t, '"', PyBlank).Some? {
      QuotedStopsShort(text);
    } else {
      BareTakesQuote(text);
    }
  }

  /** One match is all there is when no parenthesis of the text is lost, and then the counts tell it from the text. */
  lemma TextsDiffer(texts: seq<string>, text: string)
    requires |texts| > 0 && Total(texts, ')') + |texts| <= Occurs(text, ')') + 1
    requires Occurs(texts[0], '"') != Occurs(text, '"') || Occurs(texts[0], ')') != Occurs(text, ')')
    ensures Total(texts, '"') != Occurs(text, '"') || Total(texts, ')') != Occurs(text, ')')
  {
    if |texts| == 1 {
      assert texts == [texts[0]];
      TotalOne(texts[0], '"');
      TotalOne(texts[0], ')');
    }
  }

  lemma OneMoreParenthesis(text: string)
    ensures Occurs(OPENING + text + CLOSING, ')') == Occurs(text, ')') + 1
  {
    OccursConcat(OPENING + text, CLOSING, ')');
    OccursConcat(OPENING, text, ')');
  }

  lemma FirstTextDiffers(text: string)
    requires text == "" || '"' in text
    ensures var texts := ArgTexts(OPENING + text + CLOSING);
            && |texts| > 0
            && (Occurs(texts[0], '"') != Occurs(text, '"') || Occurs(texts[0], ')') != Occurs(text, ')'))
  {
    CallsAndArgsShrink(PyBlank);
    FirstMatchDiffers(text);
    var m := MatchArgs(OPENING + text + CLOSING, PyBlank).value;
    ScanFinds(ArgsAt(PyBlank), OPENING + text + CLOSING, m.rest, m.text);
  }

  lemma CountsTell(texts: seq<string>, text: string, c: char)
    requires c == '"' || c == ')'
    ensures Total(texts, c) != Occurs(text, c) ==> Flat(texts, KeywordsIn) != KeywordsIn(text)
  {
    FlatKeepsCount(texts, c);
    KeywordsInKeepCount(text, c);
  }

  lemma SpoiledTexts(texts: seq<string>, text: string)
    requires Total(texts, '"') != Occurs(text, '"') || Total(texts, ')') != Occurs(text, ')')
    ensures Flat(texts, KeywordsIn) != KeywordsIn(text)
  {
    CountsTell(texts, text, '"');
    CountsTell(texts, text, ')');
  }

  lemma SpoiledByQuotes(text: string)
    requires text == "" || '"' in text
    ensures KeywordsOf(OPENING + text + CLOSING) != KeywordsIn(text)
  {
    var s := OPENING + text + CLOSING;
    FirstTextDiffers(text);
    ScanLoses(s);
    OneMoreParenthesis(text);
    TextsDiffer(ArgTexts(s), text);
    SpoiledTexts(ArgTexts(s), text);
  }

  // ---- A `&&` in the text ----

  lemma {:induction false} JoinHasNoAnd(parts: seq<string>)
    requires forall i | 0 <= i < |parts| :: NoAnd(parts[i])
    ensures NoAnd(Join(parts, [',']))
  {
    if |parts| > 0 {
      var init, last := parts[..|parts| - 1], parts[|parts| - 1];
      assert parts == init + [last];
      JoinHasNoAnd(init);
      JoinSnoc(init, last, [',']);
      CommaBetween(Join(init, [',']), last);
    }
  }

  lemma CommaBetween(a: string, b: string)
    requires NoAnd(a) && NoAnd(b)
    ensures NoAnd(a + [','] + b)
  {
    var s := a + [','] + b;
    assert forall i | 0 <= i < |s| :: s[i] == if i < |a| then a[i] else if i == |a| then ',' else b[i - |a| - 1];
  }

  /** Stripping hides no `&&`. */
  lemma StripKeepsAnd(s: string)
    requires !NoAnd(s)
    ensures PyStrip(s) != "" && !NoAnd(PyStrip(s))
  {
    var i :| 0 <= i < |s| - 1 && s[i] == '&' && s[i + 1] == '&';
    var lo, hi := StripIsInnerPiece(s, PyBlank);
    assert lo <= i && i + 1 < hi;
    assert PyStrip(s)[i - lo] == '&' && PyStrip(s)[i + 1 - lo] == '&';
  }

  lemma JoinWithAnd(parts: seq<string>) returns (i: nat)
    requires !NoAnd(Join(parts, [',']))
    ensures i < |parts| && !NoAnd(parts[i])
  {
    if forall k | 0 <= k < |parts| :: NoAnd(parts[k]) {
      JoinHasNoAnd(parts);
    }
    i :| 0 <= i < |parts| && !NoAnd(parts[i]);
  }

  /** A text that holds `&&` has a keyword that does. */
  lemma AndIsInKeyword(text: string) returns (k: string)
    requires !NoAnd(text)
    ensures k in KeywordsIn(text) && !NoAnd(k)
  {
    var pieces := SplitOn(text, ',');
    SplitOnSplits(text, ',');
    var i := JoinWithAnd(pieces);
    StripKeepsAnd(pieces[i]);
    k := PyStrip(pieces[i]);
    assert pieces[i] in pieces && Keyword(pieces[i]) == Some(k);
    FilterMapMembers(pieces, Keyword, k);
  }

  // ---- The theorems ----

  /** A pointcut as the documentation writes it. */
  function Printed(name: string, text: string): string { name + "()" + " && " + (OPENING + text + CLOSING) }

  lemma KeywordsOfPrinted(name: string, text: string)
    requires IsName(name)
    ensures Parse(Printed(name, text)).keywords == Parse(OPENING + text + CLOSING).keywords
  {
    ParseOfSpacedAnd(name + "()", OPENING + text + CLOSING);
    ParseOfOne(name + "()");
    NoArgsInCall(name);
  }

  lemma ArgsReadExactlyWhen(text: string)
    ensures Parse(OPENING + text + CLOSING).keywords == KeywordsIn(text) <==> Quotable(text)
  {
    if Quotable(text) {
      ParseOfArgs(text);
    } else if NoAnd(text) {
      QuotedHasNoAnd(text);
      ParseOfOne(OPENING + text + CLOSING);
      SpoiledByQuotes(text);
    } else {
      var k := AndIsInKeyword(text);
      AndIsNeverRead(OPENING + text + CLOSING, k);
    }
  }

  /** For every quoted text: its own keywords, cut at the commas, are what is read if and only if the text is not empty
      and holds neither a double quote nor `&&`. */
  lemma TextReadExactlyWhen(name: string, text: string)
    requires IsName(name)
    ensures Parse(Printed(name, text)).keywords == KeywordsIn(text) <==> Quotable(text)
  {
    KeywordsOfPrinted(name, text);
    ArgsReadExactlyWhen(text);
  }

  lemma KeywordsOfJoined(keywords: seq<string>)
    requires |keywords| > 0 && forall i | 0 <= i < |keywords| :: Plain(keywords[i])
    ensures KeywordsIn(Join(keywords, ",")) == keywords
  {
    SplitOnOfJoin(keywords, ',');
    FilterMapTotal(keywords, Keyword, keywords);
  }

  lemma OnlyPlainIsReadBack(expression: string)
    ensures forall k | k in Parse(expression).keywords :: Plain(k)
  {
    forall k | k in Parse(expression).keywords {
      ReadKeywordsArePlain(expression, k);
    }
  }

  lemma ReadBackIff(read: seq<string>, keywords: seq<string>, text: string)
    requires |keywords| > 0 && text == Join(keywords, ",")
    requires read == KeywordsIn(text) <==> Quotable(text)
    requires forall k | k in read :: Plain(k)
    ensures read == keywords <==> (forall k | k in keywords :: Plain(k)) && Quotable(text)
  {
    if forall k | k in keywords :: Plain(k) {
      KeywordsOfJoined(keywords);
    }
  }

  /** The round trip: for every list of keywords, what is read back is the list if and only if every keyword is plain
      and the joined text holds neither a double quote nor `&&`. */
  lemma KeywordsReadBackExactlyWhen(name: string, keywords: seq<string>)
    requires IsName(name) && |keywords| > 0
    ensures Parse(Printed(name, Join(keywords, ","))).keywords == keywords <==>
            (forall k | k in keywords :: Plain(k)) && Quotable(Join(keywords, ","))
  {
    var text := Join(keywords, ",");
    TextReadExactlyWhen(name, text);
    OnlyPlainIsReadBack(Printed(name, text));
    ReadBackIff(Parse(Printed(name, text)).keywords, keywords, text);
  }

  /** Its joinpoints are the name and, after it, the names of the calls inside the quotes, whatever the text. */
  lemma JoinpointsOfPrinted(name: string, text: string)
    requires IsName(name) && name !in NOT_JOINPOINTS
    ensures Parse(Printed(name, text)).joinpoints == [name] + Parse(text).joinpoints
  {
    ParseOfSpacedAnd(name + "()", OPENING + text + CLOSING);
    ParseOfName(name);
    JoinpointsIgnoreParts(OPENING + text + CLOSING);
    JoinpointsIgnoreParts(text);
    CallsInArgs(text);
  }

  /** Quoted text adds no joinpoint if and only if every call that begins in it has a reserved name. */
  lemma NameIsOnlyJoinpointExactlyWhen(name: string, text: string)
    requires IsName(name) && name !in NOT_JOINPOINTS
    ensures Parse(Printed(name, text)).joinpoints == [name] <==>
            forall i: nat, called | CallBegins(text, i, called) :: called in NOT_JOINPOINTS
  {
    JoinpointsOfPrinted(name, text);
    var added := Parse(text).joinpoints;
    if added == [] {
      forall i: nat, called | CallBegins(text, i, called)
        ensures called in NOT_JOINPOINTS
      {
        JoinpointsExactly(text, called);
      }
    } else {
      JoinpointsExactly(text, added[0]);
    }
  }

  /** So a keyword that is a call adds a joinpoint. */
  lemma KeywordTakenForJoinpoint(name: string, called: string)
    requires IsName(name) && name !in NOT_JOINPOINTS && IsName(called) && called !in NOT_JOINPOINTS
    ensures Parse(Printed(name, called + "()")).joinpoints == [name, called]
  {
    JoinpointsOfName(called);
    JoinpointsIgnoreParts(called + "()");
    JoinpointsOfPrinted(name, called + "()");
  }
}
