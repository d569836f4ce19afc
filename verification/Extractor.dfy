/** From governance text to candidate concerns: segmentation and the capped, deduplicating loop (extractor.py). */
module Extractor {
  import opened Filtering
  import opened Options
  import opened Strings

  // ---- Segmentation ----

  /** The part of a string from `lo` up to `hi`. */
  datatype Range = Range(lo: nat, hi: nat)

  function Slice(s: string): Range -> string { (r: Range) => if r.lo <= r.hi <= |s| then s[r.lo..r.hi] else "" }

  function Normalised(text: string): string { PyStrip(LineFeeds(text)) }

  /** `text.replace("\r\n", "\n").replace("\r", "\n")`. */
  function LineFeeds(text: string): string { ReplaceCr(ReplaceCrLf(text)) }

  function ReplaceCrLf(text: string): string
    decreases |text|
  {
    if |text| == 0 then ""
    else if "\r\n" <= text then "\n" + ReplaceCrLf(text[2..])
    else [text[0]] + ReplaceCrLf(text[1..])
  }

  function ReplaceCr(text: string): string {
    if |text| == 0 then "" else [if text[0] == '\r' then '\n' else text[0]] + ReplaceCr(text[1..])
  }

  /** Both replacements in one pass: each line end of either kind, taken whole, becomes one line feed. */
  function OneLineFeedEach(text: string): string
    decreases |text|
  {
    if |text| == 0 then ""
    else if "\r\n" <= text then "\n" + OneLineFeedEach(text[2..])
    else [if text[0] == '\r' then '\n' else text[0]] + OneLineFeedEach(text[1..])
  }

  lemma {:induction false} LineFeedsIsOnePass(text: string)
    ensures LineFeeds(text) == OneLineFeedEach(text) && '\r' !in LineFeeds(text)
    decreases |text|
  {
    if |text| > 0 {
      var n := if "\r\n" <= text then 2 else 1;
      LineFeedsIsOnePass(text[n..]);
      var head := if n == 2 then "\n" else [text[0]];
      assert ReplaceCrLf(text) == head + ReplaceCrLf(text[n..]);
      assert (head + ReplaceCrLf(text[n..]))[1..] == ReplaceCrLf(text[n..]);
    }
  }

  /** The end of the run of characters from `i` that satisfy `p`. */
  function SkipWhile(s: string, i: nat, p: char -> bool): (j: nat)
    requires i <= |s|
    ensures i <= j <= |s| && (forall k | i <= k < j :: p(s[k])) && (j < |s| ==> !p(s[j]))
    decreases |s| - i
  {
    if i < |s| && p(s[i]) then SkipWhile(s, i + 1, p) else i
  }

  /** The end of a match of `\n[ \t]*\n+` at `i`, if there is one. */
  function BlankLineEnd(s: string, i: nat): (e: Option<nat>)
    requires i < |s|
    ensures e.Some? ==> i < e.value <= |s| && forall k | i <= k < e.value :: PyBlank(s[k])
  {
    if s[i] != '\n' then None
    else
      var j := SkipWhile(s, i + 1, c => c == ' ' || c == '\t');
      if j < |s| && s[j] == '\n' then Some(SkipWhile(s, j, c => c == '\n')) else None
  }

  /** A break between paragraphs: a line feed, spaces and tabs, and all the line feeds that follow. */
  predicate IsBreak(s: string, i: nat, j: nat, e: nat) {
    && i < j < e <= |s| && s[i] == '\n' && (forall k | i < k < j :: s[k] == ' ' || s[k] == '\t')
    && (forall k | j <= k < e :: s[k] == '\n') && (e < |s| ==> s[e] != '\n')
  }

  lemma BlankLineExactly(s: string, i: nat, e: nat)
    requires i < |s|
    ensures BlankLineEnd(s, i) == Some(e) <==> exists j: nat :: IsBreak(s, i, j, e)
  {
    if s[i] == '\n' {
      var j := SkipWhile(s, i + 1, c => c == ' ' || c == '\t');
      if BlankLineEnd(s, i) == Some(e) {
        assert IsBreak(s, i, j, e);
      }
      if k: nat :| IsBreak(s, i, k, e) {
        assert s[k] == '\n' && k == j;
        var n := SkipWhile(s, j, c => c == '\n');
        assert n == e;
      }
    }
  }

  /** Splitting at blank lines: `start` is where the paragraph at hand began, `i` where the search is. */
  function Paragraphs(s: string, start: nat, i: nat): seq<Range>
    requires start <= i <= |s|
    decreases |s| - i
  {
    if i == |s| then [Range(start, |s|)]
    else
      var e := BlankLineEnd(s, i);
      if e.Some? then [Range(start, i)] + Paragraphs(s, e.value, e.value) else Paragraphs(s, start, i + 1)
  }

  predicate Increasing(starts: seq<nat>, n: nat) {
    (forall i, j | 0 <= i < j < |starts| :: starts[i] < starts[j]) && forall i | 0 <= i < |starts| :: starts[i] < n
  }

  /** The pieces before the last marker, and where the last marker is. */
  function CutAt(starts: seq<nat>): (seq<Range>, nat) {
    if |starts| == 0 then ([], 0)
    else
      var (pieces, cursor) := CutAt(starts[..|starts| - 1]);
      var start := starts[|starts| - 1];
      (if start > cursor then pieces + [Range(cursor, start)] else pieces, start)
  }

  function PieceRanges(n: nat, starts: seq<nat>): seq<Range> { CutAt(starts).0 + [Range(CutAt(starts).1, n)] }

  /** The ranges lie one after another between `from` and `to`, with gaps only if `gaps`. */
  predicate InOrder(rs: seq<Range>, from: nat, to: nat, gaps: bool) {
    if |rs| == 0 then from == to || (gaps && from < to)
    else
      var last := rs[|rs| - 1];
      last.lo <= last.hi && (last.hi == to || (gaps && last.hi < to)) && InOrder(rs[..|rs| - 1], from, last.lo, gaps)
  }

  lemma {:induction false} InOrderMeans(rs: seq<Range>, from: nat, to: nat, gaps: bool)
    requires InOrder(rs, from, to, gaps)
    ensures from <= to && forall i | 0 <= i < |rs| :: from <= rs[i].lo <= rs[i].hi <= to
    ensures forall i, j | 0 <= i < j < |rs| :: rs[i].hi <= rs[j].lo
  {
    if |rs| > 0 {
      InOrderMeans(rs[..|rs| - 1], from, rs[|rs| - 1].lo, gaps);
    }
  }

  lemma {:induction false} InOrderConcat(xs: seq<Range>, ys: seq<Range>, from: nat, mid: nat, to: nat)
    requires InOrder(xs, from, mid, true) && InOrder(ys, mid, to, true)
    ensures InOrder(xs + ys, from, to, true)
  {
    if |ys| == 0 {
      assert xs + ys == xs;
      InOrderWidens(xs, from, mid, to);
    } else {
      InOrderConcat(xs, ys[..|ys| - 1], from, mid, ys[|ys| - 1].lo);
      assert (xs + ys)[..|xs + ys| - 1] == xs + ys[..|ys| - 1];
    }
  }

  lemma InOrderWidens(rs: seq<Range>, from: nat, to: nat, beyond: nat)
    requires InOrder(rs, from, to, true) && to <= beyond
    ensures InOrder(rs, from, beyond, true)
  {
  }

  lemma {:induction false} GapsAllowed(rs: seq<Range>, from: nat, to: nat)
    requires InOrder(rs, from, to, false)
    ensures InOrder(rs, from, to, true)
  {
    if |rs| > 0 {
      GapsAllowed(rs[..|rs| - 1], from, rs[|rs| - 1].lo);
    }
  }

  lemma {:induction false} CutsHaveNoGaps(starts: seq<nat>, n: nat)
    requires Increasing(starts, n)
    ensures InOrder(CutAt(starts).0, 0, CutAt(starts).1, false) && CutAt(starts).1 <= n
    ensures |starts| > 0 ==> CutAt(starts).1 == starts[|starts| - 1]
  {
    if |starts| > 0 {
      var init := starts[..|starts| - 1];
      CutsHaveNoGaps(init, n);
      assert |init| > 0 ==> init[|init| - 1] < starts[|starts| - 1];
    }
  }

  lemma PiecesHaveNoGaps(starts: seq<nat>, n: nat)
    requires Increasing(starts, n)
    ensures InOrder(PieceRanges(n, starts), 0, n, false)
  {
    CutsHaveNoGaps(starts, n);
  }

  lemma {:induction false} CutStartsAtMarker(starts: seq<nat>, r: Range)
    requires r in CutAt(starts).0
    ensures r.lo < r.hi && (r.lo == 0 || r.lo in starts)
  {
    var init := starts[..|starts| - 1];
    assert starts == init + [starts[|starts| - 1]];
    assert CutAt(init).1 == 0 || CutAt(init).1 in init;
    if r in CutAt(init).0 {
      CutStartsAtMarker(init, r);
    }
  }

  lemma {:induction false} MarkerStartsPiece(starts: seq<nat>, n: nat, m: nat) returns (r: Range)
    requires Increasing(starts, n) && m in starts
    ensures r.lo == m && (m == CutAt(starts).1 || r in CutAt(starts).0)
  {
    var init, start := starts[..|starts| - 1], starts[|starts| - 1];
    assert starts == init + [start];
    r := Range(m, n);
    if m in init {
      r := MarkerStartsPiece(init, n, m);
      CutsHaveNoGaps(init, n);
      assert start > CutAt(init).1;
      if m == CutAt(init).1 {
        r := Range(m, start);
      }
    }
  }

  /** A paragraph is cut at every marker and nowhere else, and no piece of it is empty. */
  lemma PiecesStartAtMarkers(n: nat, starts: seq<nat>)
    requires Increasing(starts, n) && n > 0
    ensures forall r | r in PieceRanges(n, starts) :: r.lo < r.hi && (r.lo == 0 || r.lo in starts)
    ensures forall m | m in starts :: exists r | r in PieceRanges(n, starts) :: r.lo == m
  {
    forall r | r in CutAt(starts).0
      ensures r.lo < r.hi && (r.lo == 0 || r.lo in starts)
    {
      CutStartsAtMarker(starts, r);
    }
    CutsHaveNoGaps(starts, n);
    assert Range(CutAt(starts).1, n) in PieceRanges(n, starts);
    forall m | m in starts
      ensures exists r | r in PieceRanges(n, starts) :: r.lo == m
    {
      var r := MarkerStartsPiece(starts, n, m);
      assert r in CutAt(starts).0 ==> r in PieceRanges(n, starts);
    }
  }

  function Concat(parts: seq<string>): string {
    if |parts| == 0 then "" else Concat(parts[..|parts| - 1]) + parts[|parts| - 1]
  }

  lemma SplitSlice(s: string, from: nat, mid: nat, to: nat)
    requires from <= mid <= to <= |s|
    ensures s[from..mid] + s[mid..to] == s[from..to]
  {
  }

  lemma {:induction false} SlicesConcatenate(s: string, rs: seq<Range>, from: nat, to: nat)
    requires InOrder(rs, from, to, false) && from <= to <= |s|
    ensures Concat(Map(rs, Slice(s))) == s[from..to]
  {
    if |rs| > 0 {
      var init, last := rs[..|rs| - 1], rs[|rs| - 1];
      InOrderMeans(init, from, last.lo, false);
      SlicesConcatenate(s, init, from, last.lo);
      SplitSlice(s, from, last.lo, to);
    }
  }

  function Pieces(paragraph: string, starts: seq<nat>): seq<string> {
    Map(PieceRanges(|paragraph|, starts), Slice(paragraph))
  }

  /** Splitting at list markers loses nothing: the pieces concatenate back to the paragraph. */
  lemma PiecesConcatenateBack(paragraph: string, starts: seq<nat>)
    requires Increasing(starts, |paragraph|)
    ensures Concat(Pieces(paragraph, starts)) == paragraph
  {
    PiecesHaveNoGaps(starts, |paragraph|);
    SlicesConcatenate(paragraph, PieceRanges(|paragraph|, starts), 0, |paragraph|);
  }

  lemma CutStep(paragraph: string, starts: seq<nat>, i: nat)
    requires i < |starts|
    ensures var (pieces, cursor) := CutAt(starts[..i]);
            && CutAt(starts[..i + 1]).1 == starts[i]
            && Map(CutAt(starts[..i + 1]).0, Slice(paragraph)) == Map(pieces, Slice(paragraph)) +
               if starts[i] > cursor then [Slice(paragraph)(Range(cursor, starts[i]))] else []
  {
    assert starts[..i + 1][..i] == starts[..i];
    var (pieces, cursor) := CutAt(starts[..i]);
    MapSnoc(pieces, Range(cursor, starts[i]), Slice(paragraph));
  }

  lemma LastPiece(paragraph: string, starts: seq<nat>)
    ensures Pieces(paragraph, starts) ==
            Map(CutAt(starts).0, Slice(paragraph)) + [Slice(paragraph)(Range(CutAt(starts).1, |paragraph|))]
  {
    MapSnoc(CutAt(starts).0, Range(CutAt(starts).1, |paragraph|), Slice(paragraph));
  }

  method SplitListItems(paragraph: string, starts: seq<nat>) returns (pieces: seq<string>)
    requires Increasing(starts, |paragraph|)
    ensures pieces == Pieces(paragraph, starts)
  {
    LastPiece(paragraph, starts);
    assert paragraph[0..|paragraph|] == paragraph;
    if |starts| == 0 {
      return [paragraph];
    }
    pieces := [];
    var cursor := 0;
    for i := 0 to |starts|
      invariant pieces == Map(CutAt(starts[..i]).0, Slice(paragraph))
      invariant cursor == CutAt(starts[..i]).1 <= |paragraph|
    {
      CutStep(paragraph, starts, i);
      if starts[i] > cursor {
        pieces := pieces + [paragraph[cursor..starts[i]]];
      }
      cursor := starts[i];
    }
    assert starts[..|starts|] == starts;
    pieces := pieces + [paragraph[cursor..]];
  }

  // ---- Spans ----

  /** Where a piece is when it is stripped. */
  function SpanOf(s: string, r: Range): Range {
    var lo := r.lo + SkipWhile(Slice(s)(r), 0, PyBlank);
    Range(lo, lo + |PyStrip(Slice(s)(r))|)
  }

  function SpanIn(s: string, minimum: nat): Range -> Option<Range> {
    (r: Range) => if |PyStrip(Slice(s)(r))| >= minimum then Some(SpanOf(s, r)) else None
  }

  function Shift(offset: nat): Range -> Range { (r: Range) => Range(r.lo + offset, r.hi + offset) }

  /** All pieces of the paragraphs, as ranges of the whole text. `markers` finds the list markers of a paragraph. */
  function AllPieces(s: string, paragraphs: seq<Range>, markers: string -> seq<nat>): seq<Range> {
    if |paragraphs| == 0 then []
    else
      var p := paragraphs[|paragraphs| - 1];
      AllPieces(s, paragraphs[..|paragraphs| - 1], markers) + PiecesOf(s, p, markers)
  }

  function PiecesOf(s: string, p: Range, markers: string -> seq<nat>): seq<Range> {
    Map(PieceRanges(|Slice(s)(p)|, markers(Slice(s)(p))), Shift(p.lo))
  }

  function SpanRanges(s: string, markers: string -> seq<nat>, minimum: nat): seq<Range> {
    FilterMap(AllPieces(s, Paragraphs(s, 0, 0), markers), SpanIn(s, minimum))
  }

  function Spans(text: string, markers: string -> seq<nat>, minimum: nat): seq<string> {
    var s := Normalised(text);
    if s == "" then [] else Map(SpanRanges(s, markers, minimum), Slice(s))
  }

  ghost predicate FindsMarkers(markers: string -> seq<nat>) { forall p :: Increasing(markers(p), |p|) }

  lemma {:induction false} ParagraphsAreInOrder(s: string, start: nat, i: nat)
    requires start <= i <= |s|
    ensures InOrder(Paragraphs(s, start, i), start, |s|, true)
    decreases |s| - i
  {
    if i < |s| {
      var e := BlankLineEnd(s, i);
      if e.Some? {
        ParagraphsAreInOrder(s, e.value, e.value);
        OneRange(Range(start, i), e.value);
        InOrderConcat([Range(start, i)], Paragraphs(s, e.value, e.value), start, e.value, |s|);
      } else {
        ParagraphsAreInOrder(s, start, i + 1);
      }
    } else {
      OneRange(Range(start, |s|), |s|);
    }
  }

  lemma OneRange(r: Range, to: nat)
    requires r.lo <= r.hi <= to
    ensures InOrder([r], r.lo, to, true)
  {
    assert [r][..0] == [];
  }

  /** `s` from `start` on is cut at every blank line and nowhere else: no match begins inside a paragraph, and between
      two neighbours lies exactly one match. */
  ghost predicate CutAtBlankLines(s: string, ps: seq<Range>, start: nat)
    decreases |ps|
  {
    && |ps| > 0 && ps[0].lo == start <= ps[0].hi <= |s|
    && (forall k | start <= k < ps[0].hi :: BlankLineEnd(s, k).None?)
    && if |ps| == 1 then ps[0].hi == |s|
       else ps[0].hi < |s| && BlankLineEnd(s, ps[0].hi) == Some(ps[1].lo) && CutAtBlankLines(s, ps[1..], ps[1].lo)
  }

  lemma CutOnce(s: string, start: nat, i: nat, rest: seq<Range>, next: nat)
    requires start <= i < |s| && BlankLineEnd(s, i) == Some(next) && CutAtBlankLines(s, rest, next)
    requires forall k | start <= k < i :: BlankLineEnd(s, k).None?
    ensures CutAtBlankLines(s, [Range(start, i)] + rest, start)
  {
    assert ([Range(start, i)] + rest)[1..] == rest;
  }

  lemma {:induction false} ParagraphsAreCutAtBlankLines(s: string, start: nat, i: nat)
    requires start <= i <= |s| && forall k | start <= k < i :: BlankLineEnd(s, k).None?
    ensures CutAtBlankLines(s, Paragraphs(s, start, i), start)
    decreases |s| - i
  {
    if i < |s| {
      var e := BlankLineEnd(s, i);
      if e.Some? {
        ParagraphsAreCutAtBlankLines(s, e.value, e.value);
        CutOnce(s, start, i, Paragraphs(s, e.value, e.value), e.value);
      } else {
        ParagraphsAreCutAtBlankLines(s, start, i + 1);
      }
    }
  }

  /** A paragraph break consists of blanks, so every other character is in a paragraph. */
  lemma {:induction false} ParagraphsCover(s: string, start: nat, i: nat, k: nat)
    requires start <= i <= |s| && start <= k < |s| && !PyBlank(s[k])
    ensures exists p | p in Paragraphs(s, start, i) :: p.lo <= k < p.hi
    decreases |s| - i
  {
    if i < |s| {
      var e := BlankLineEnd(s, i);
      if e.Some? {
        if k >= e.value {
          ParagraphsCover(s, e.value, e.value, k);
        } else {
          assert Range(start, i) in Paragraphs(s, start, i);
        }
      } else {
        ParagraphsCover(s, start, i + 1, k);
      }
    } else {
      assert Range(start, |s|) in Paragraphs(s, start, i);
    }
  }

  lemma {:induction false} OrderShifts(rs: seq<Range>, from: nat, to: nat, offset: nat, gaps: bool)
    requires InOrder(rs, from, to, gaps)
    ensures InOrder(Map(rs, Shift(offset)), from + offset, to + offset, gaps)
  {
    if |rs| > 0 {
      var init, last := rs[..|rs| - 1], rs[|rs| - 1];
      OrderShifts(init, from, last.lo, offset, gaps);
      OrderSnoc(Map(init, Shift(offset)), Shift(offset)(last), from + offset, to + offset, gaps);
    }
  }

  lemma OrderSnoc(init: seq<Range>, last: Range, from: nat, to: nat, gaps: bool)
    requires InOrder(init, from, last.lo, gaps) && last.lo <= last.hi && (last.hi == to || (gaps && last.hi < to))
    ensures InOrder(init + [last], from, to, gaps)
  {
    assert (init + [last])[..|init|] == init;
  }

  lemma PiecesOfParagraph(s: string, p: Range, markers: string -> seq<nat>)
    requires p.lo <= p.hi <= |s| && FindsMarkers(markers)
    ensures InOrder(PiecesOf(s, p, markers), p.lo, p.hi, false)
  {
    var text := Slice(s)(p);
    PiecesHaveNoGaps(markers(text), |text|);
    OrderShifts(PieceRanges(|text|, markers(text)), 0, |text|, p.lo, false);
  }

  lemma SliceOfSlice(s: string, p: Range, r: Range)
    requires p.lo <= p.hi <= |s| && r.lo <= r.hi <= p.hi - p.lo
    ensures Slice(s)(Shift(p.lo)(r)) == Slice(Slice(s)(p))(r)
  {
    var inner := s[p.lo..p.hi];
    var one, two := inner[r.lo..r.hi], s[r.lo + p.lo..r.hi + p.lo];
    forall k | 0 <= k < r.hi - r.lo
      ensures one[k] == two[k]
    {
      assert inner[r.lo + k] == s[p.lo + r.lo + k];
    }
    assert one == two;
  }

  lemma {:induction false} ShiftedSlices(s: string, p: Range, rs: seq<Range>)
    requires p.lo <= p.hi <= |s| && forall i | 0 <= i < |rs| :: rs[i].lo <= rs[i].hi <= p.hi - p.lo
    ensures Map(Map(rs, Shift(p.lo)), Slice(s)) == Map(rs, Slice(Slice(s)(p)))
  {
    if |rs| > 0 {
      var init, last := rs[..|rs| - 1], rs[|rs| - 1];
      ShiftedSlices(s, p, init);
      SliceOfSlice(s, p, last);
      MapSnoc(Map(init, Shift(p.lo)), Shift(p.lo)(last), Slice(s));
    }
  }

  /** Cutting a paragraph and cutting the whole text at the shifted ranges give the same pieces. */
  lemma PiecesAreSlices(s: string, p: Range, markers: string -> seq<nat>)
    requires p.lo <= p.hi <= |s| && FindsMarkers(markers)
    ensures Map(PiecesOf(s, p, markers), Slice(s)) == Pieces(Slice(s)(p), markers(Slice(s)(p)))
  {
    var text := Slice(s)(p);
    PiecesHaveNoGaps(markers(text), |text|);
    OrderedSlices(s, p, PieceRanges(|text|, markers(text)));
  }

  lemma OrderedSlices(s: string, p: Range, rs: seq<Range>)
    requires p.lo <= p.hi <= |s| && InOrder(rs, 0, p.hi - p.lo, false)
    ensures Map(Map(rs, Shift(p.lo)), Slice(s)) == Map(rs, Slice(Slice(s)(p)))
  {
    InOrderMeans(rs, 0, p.hi - p.lo, false);
    ShiftedSlices(s, p, rs);
  }

  lemma {:induction false} AllPiecesInOrder(s: string, paragraphs: seq<Range>, markers: string -> seq<nat>, to: nat)
    requires InOrder(paragraphs, 0, to, true) && to <= |s| && FindsMarkers(markers)
    ensures InOrder(AllPieces(s, paragraphs, markers), 0, to, true)
  {
    if |paragraphs| > 0 {
      var init, p := paragraphs[..|paragraphs| - 1], paragraphs[|paragraphs| - 1];
      AllPiecesInOrder(s, init, markers, p.lo);
      PiecesOfParagraph(s, p, markers);
      GapsAllowed(PiecesOf(s, p, markers), p.lo, p.hi);
      InOrderConcat(AllPieces(s, init, markers), PiecesOf(s, p, markers), 0, p.lo, p.hi);
      InOrderWidens(AllPieces(s, paragraphs, markers), 0, p.hi, to);
    }
  }

  /** Stripping as a range: the blanks in front are skipped. */
  lemma StripIsSlice(text: string) returns (lo: nat, hi: nat)
    ensures lo <= hi <= |text| && lo == SkipWhile(text, 0, PyBlank) && hi - lo == |PyStrip(text)|
    ensures PyStrip(text) == text[lo..hi] && Stripped(PyStrip(text), PyBlank)
    ensures forall i | 0 <= i < |text| && !PyBlank(text[i]) :: lo <= i < hi
  {
    lo, hi := StripIsInnerPiece(text, PyBlank);
    var skip := SkipWhile(text, 0, PyBlank);
    if |PyStrip(text)| > 0 {
      assert PyStrip(text)[0] == text[lo];
    } else {
      lo, hi := skip, skip;
    }
  }

  /** A span lies inside its piece and is the stripped piece. */
  lemma SpanInside(s: string, r: Range)
    requires r.lo <= r.hi <= |s|
    ensures var v := SpanOf(s, r);
            r.lo <= v.lo <= v.hi <= r.hi && Slice(s)(v) == PyStrip(Slice(s)(r))
  {
    var text := Slice(s)(r);
    var lo, hi := StripIsSlice(text);
    SlicedAgain(s, r, Range(lo, hi), SpanOf(s, r));
  }

  lemma SlicedAgain(s: string, r: Range, inner: Range, v: Range)
    requires r.lo <= r.hi <= |s| && inner.lo <= inner.hi <= r.hi - r.lo
    requires v == Range(r.lo + inner.lo, r.lo + inner.hi)
    ensures Slice(s)(v) == Slice(s)(r)[inner.lo..inner.hi]
  {
    SliceOfSlice(s, r, inner);
  }

  lemma PyStripIsStripped(text: string)
    ensures Stripped(PyStrip(text), PyBlank)
  {
    var lo, hi := StripIsSlice(text);
  }

  lemma SpanHasNonBlanks(s: string, r: Range, k: nat)
    requires r.lo <= k < r.hi <= |s| && !PyBlank(s[k])
    ensures SpanOf(s, r).lo <= k < SpanOf(s, r).hi
  {
    var text := Slice(s)(r);
    var lo, hi := StripIsSlice(text);
    assert text[k - r.lo] == s[k];
  }

  /** A stripped, long enough substring. */
  predicate GoodSpan(s: string, minimum: nat, v: Range) {
    v.lo <= v.hi <= |s| && Stripped(Slice(s)(v), PyBlank) && |Slice(s)(v)| >= minimum
  }

  lemma SpanFacts(s: string, minimum: nat, r: Range, v: Range)
    requires r.lo <= r.hi <= |s| && SpanIn(s, minimum)(r) == Some(v)
    ensures r.lo <= v.lo <= v.hi <= r.hi && GoodSpan(s, minimum, v)
  {
    SpanInside(s, r);
    PyStripIsStripped(Slice(s)(r));
  }

  lemma {:induction false} SpansOfOrderedPieces(s: string, pieces: seq<Range>, minimum: nat, to: nat)
    requires InOrder(pieces, 0, to, true) && to <= |s|
    ensures InOrder(FilterMap(pieces, SpanIn(s, minimum)), 0, to, true)
    ensures forall v | v in FilterMap(pieces, SpanIn(s, minimum)) :: GoodSpan(s, minimum, v)
  {
    if |pieces| > 0 {
      var init, last := pieces[..|pieces| - 1], pieces[|pieces| - 1];
      SpansOfOrderedPieces(s, init, minimum, last.lo);
      var spans := FilterMap(init, SpanIn(s, minimum));
      if SpanIn(s, minimum)(last).Some? {
        var v := SpanIn(s, minimum)(last).value;
        SpanFacts(s, minimum, last, v);
        InOrderWidens(spans, 0, last.lo, v.lo);
        assert (spans + [v])[..|spans|] == spans;
      } else {
        InOrderWidens(spans, 0, last.lo, to);
      }
    }
  }

  /** The spans are long enough, stripped, disjoint substrings of the normalised text, in its order. */
  lemma SpansAreDisjointSubstrings(s: string, markers: string -> seq<nat>, minimum: nat)
    requires FindsMarkers(markers)
    ensures var vs := SpanRanges(s, markers, minimum);
            && (forall v | v in vs :: GoodSpan(s, minimum, v))
            && (forall i, j | 0 <= i < j < |vs| :: vs[i].hi <= vs[j].lo)
  {
    ParagraphsAreInOrder(s, 0, 0);
    AllPiecesInOrder(s, Paragraphs(s, 0, 0), markers, |s|);
    SpansOfOrderedPieces(s, AllPieces(s, Paragraphs(s, 0, 0), markers), minimum, |s|);
    InOrderMeans(SpanRanges(s, markers, minimum), 0, |s|, true);
  }

  lemma {:induction false} NoGapsCover(rs: seq<Range>, from: nat, to: nat, k: nat)
    requires InOrder(rs, from, to, false) && from <= k < to
    ensures exists r | r in rs :: r.lo <= k < r.hi
  {
    var init, last := rs[..|rs| - 1], rs[|rs| - 1];
    assert last in rs;
    if k < last.lo {
      NoGapsCover(init, from, last.lo, k);
    }
  }

  lemma {:induction false} PieceIsAmongAll(
    s: string, paragraphs: seq<Range>, markers: string -> seq<nat>, p: Range, r: Range)
    requires p in paragraphs && r in PiecesOf(s, p, markers)
    ensures r in AllPieces(s, paragraphs, markers)
  {
    var init, last := paragraphs[..|paragraphs| - 1], paragraphs[|paragraphs| - 1];
    assert paragraphs == init + [last];
    if p in init {
      PieceIsAmongAll(s, init, markers, p, r);
    }
  }

  lemma PieceOfParagraphCovers(s: string, p: Range, markers: string -> seq<nat>, k: nat) returns (r: Range)
    requires FindsMarkers(markers) && p.lo <= k < p.hi <= |s|
    ensures r in PiecesOf(s, p, markers) && r.lo <= k < r.hi <= |s|
  {
    var rs := PiecesOf(s, p, markers);
    PiecesOfParagraph(s, p, markers);
    NoGapsCover(rs, p.lo, p.hi, k);
    InOrderMeans(rs, p.lo, p.hi, false);
    r :| r in rs && r.lo <= k < r.hi;
  }

  lemma PieceCovers(s: string, markers: string -> seq<nat>, k: nat) returns (r: Range)
    requires FindsMarkers(markers) && k < |s| && !PyBlank(s[k])
    ensures r in AllPieces(s, Paragraphs(s, 0, 0), markers) && r.lo <= k < r.hi <= |s|
  {
    var paragraphs := Paragraphs(s, 0, 0);
    ParagraphsCover(s, 0, 0, k);
    ParagraphsAreInOrder(s, 0, 0);
    InOrderMeans(paragraphs, 0, |s|, true);
    var p :| p in paragraphs && p.lo <= k < p.hi;
    r := PieceOfParagraphCovers(s, p, markers, k);
    PieceIsAmongAll(s, paragraphs, markers, p, r);
  }

  /** Nothing but blanks and short pieces is left out: every other character is in a piece, and in a span if the
      stripped piece is long enough. */
  lemma OnlyShortPiecesAreDropped(s: string, markers: string -> seq<nat>, minimum: nat, k: nat)
    requires FindsMarkers(markers) && k < |s| && !PyBlank(s[k])
    ensures exists r | r in AllPieces(s, Paragraphs(s, 0, 0), markers) ::
              && r.lo <= k < r.hi
              && (|PyStrip(Slice(s)(r))| >= minimum ==>
                    SpanOf(s, r) in SpanRanges(s, markers, minimum) && SpanOf(s, r).lo <= k < SpanOf(s, r).hi)
  {
    var r := PieceCovers(s, markers, k);
    SpanHasNonBlanks(s, r, k);
    FilterMapMembers(AllPieces(s, Paragraphs(s, 0, 0), markers), SpanIn(s, minimum), SpanOf(s, r));
  }

  // ---- The segmenting loops ----

  function StripLong(minimum: nat): string -> Option<string> {
    (piece: string) => if |PyStrip(piece)| >= minimum then Some(PyStrip(piece)) else None
  }

  predicate Fit(rs: seq<Range>, n: nat) { forall i | 0 <= i < |rs| :: rs[i].lo <= rs[i].hi <= n }

  lemma {:induction false} SpansOfPieces(s: string, rs: seq<Range>, minimum: nat)
    requires Fit(rs, |s|)
    ensures Map(FilterMap(rs, SpanIn(s, minimum)), Slice(s)) == FilterMap(Map(rs, Slice(s)), StripLong(minimum))
  {
    if |rs| > 0 {
      var init, last := rs[..|rs| - 1], rs[|rs| - 1];
      SpansOfPieces(s, init, minimum);
      if SpanIn(s, minimum)(last).Some? {
        SpanInside(s, last);
        MapSnoc(FilterMap(init, SpanIn(s, minimum)), SpanIn(s, minimum)(last).value, Slice(s));
      }
    }
  }

  method KeepLongPieces(pieces: seq<string>, minimum: nat) returns (spans: seq<string>)
    ensures spans == FilterMap(pieces, StripLong(minimum))
  {
    spans := [];
    for i := 0 to |pieces|
      invariant spans == FilterMap(pieces[..i], StripLong(minimum))
    {
      FilterMapStep(pieces, i, StripLong(minimum));
      var stripped := PyStrip(pieces[i]);
      if |stripped| >= minimum {
        spans := spans + [stripped];
      }
    }
    assert pieces[..|pieces|] == pieces;
  }

  lemma PiecesStep(
    s: string, paragraphs: seq<Range>, i: nat, markers: string -> seq<nat>, keep: string -> Option<string>)
    requires FindsMarkers(markers) && i < |paragraphs| && paragraphs[i].lo <= paragraphs[i].hi <= |s|
    ensures var text := Slice(s)(paragraphs[i]);
            FilterMap(Map(AllPieces(s, paragraphs[..i + 1], markers), Slice(s)), keep) ==
            FilterMap(Map(AllPieces(s, paragraphs[..i], markers), Slice(s)), keep) +
            FilterMap(Pieces(text, markers(text)), keep)
  {
    assert paragraphs[..i + 1][..i] == paragraphs[..i];
    var before, pieces := AllPieces(s, paragraphs[..i], markers), PiecesOf(s, paragraphs[i], markers);
    MapConcat(before, pieces, Slice(s));
    PiecesAreSlices(s, paragraphs[i], markers);
    FilterMapConcat(Map(before, Slice(s)), Map(pieces, Slice(s)), keep);
  }

  method SplitParagraphs(s: string, paragraphs: seq<Range>, markers: string -> seq<nat>, minimum: nat,
        ghost keep: string -> Option<string>)
    returns (spans: seq<string>)
    requires FindsMarkers(markers) && Fit(paragraphs, |s|) && keep == StripLong(minimum)
    ensures spans == FilterMap(Map(AllPieces(s, paragraphs, markers), Slice(s)), keep)
  {
    spans := [];
    for i := 0 to |paragraphs|
      invariant spans == FilterMap(Map(AllPieces(s, paragraphs[..i], markers), Slice(s)), keep)
    {
      PiecesStep(s, paragraphs, i, markers, keep);
      var paragraph := s[paragraphs[i].lo..paragraphs[i].hi];
      var pieces := SplitListItems(paragraph, markers(paragraph));
      var kept := KeepLongPieces(pieces, minimum);
      spans := spans + kept;
    }
    assert paragraphs[..|paragraphs|] == paragraphs;
  }

  lemma ParagraphsFit(s: string)
    ensures InOrder(Paragraphs(s, 0, 0), 0, |s|, true) && Fit(Paragraphs(s, 0, 0), |s|)
  {
    ParagraphsAreInOrder(s, 0, 0);
    InOrderMeans(Paragraphs(s, 0, 0), 0, |s|, true);
  }

  lemma PiecesFit(s: string, paragraphs: seq<Range>, markers: string -> seq<nat>)
    requires FindsMarkers(markers) && InOrder(paragraphs, 0, |s|, true)
    ensures Fit(AllPieces(s, paragraphs, markers), |s|)
  {
    AllPiecesInOrder(s, paragraphs, markers, |s|);
    InOrderMeans(AllPieces(s, paragraphs, markers), 0, |s|, true);
  }

  method Segment(s: string, markers: string -> seq<nat>, minimum: nat) returns (spans: seq<string>)
    requires FindsMarkers(markers)
    ensures spans == Map(SpanRanges(s, markers, minimum), Slice(s))
  {
    var paragraphs := Paragraphs(s, 0, 0);
    ParagraphsFit(s);
    PiecesFit(s, paragraphs, markers);
    var pieces := AllPieces(s, paragraphs, markers);
    assert Fit(pieces, |s|);
    SpansOfPieces(s, pieces, minimum);
    spans := SplitParagraphs(s, paragraphs, markers, minimum, StripLong(minimum));
  }

  method SegmentSpans(text: string, markers: string -> seq<nat>, minimum: nat) returns (spans: seq<string>)
    requires FindsMarkers(markers)
    ensures spans == Spans(text, markers, minimum)
  {
    var normalised := PyStrip(LineFeeds(text));
    if normalised == "" {
      return [];
    }
    spans := Segment(normalised, markers, minimum);
  }
}
