/** The DOT drawing of a concern network: quoting, declarations and counted edges (dcn_dot.py). */
module DcnDot {
  import opened Filtering
  import opened Options
  import opened Sorting
  import opened Strings

  // ---- Quoting ----

  /** `text.replace(c, by)` for a single character. */
  function Replace(text: string, c: char, sub: string): string {
    if |text| == 0 then "" else (if text[0] == c then sub else [text[0]]) + Replace(text[1..], c, sub)
  }

  function Quote(caption: string): string {
    "\"" + Replace(Replace(Replace(caption, '\\', "\\\\"), '"', "\\\""), '\n', "\\n") + "\""
  }

  /** The same escaping done character by character. */
  function Escape(text: string): string {
    if |text| == 0 then "" else EscapeChar(text[0]) + Escape(text[1..])
  }

  function EscapeChar(c: char): string {
    if c == '\\' then "\\\\" else if c == '"' then "\\\"" else if c == '\n' then "\\n" else [c]
  }

  lemma {:induction false} ReplaceConcat(a: string, b: string, c: char, sub: string)
    ensures Replace(a + b, c, sub) == Replace(a, c, sub) + Replace(b, c, sub)
  {
    if |a| == 0 {
      assert a + b == b;
    } else {
      assert (a + b)[1..] == a[1..] + b;
      ReplaceConcat(a[1..], b, c, sub);
    }
  }

  lemma ReplaceOne(x: char, c: char, sub: string)
    ensures Replace([x], c, sub) == if x == c then sub else [x]
  {
    assert [x][1..] == [];
  }

  lemma ReplaceTwo(x: char, y: char, c: char, sub: string)
    ensures Replace([x, y], c, sub) == (if x == c then sub else [x]) + (if y == c then sub else [y])
  {
    assert [x, y] == [x] + [y];
    ReplaceConcat([x], [y], c, sub);
    ReplaceOne(x, c, sub);
    ReplaceOne(y, c, sub);
  }

  /** What the three replacements make of one character. */
  lemma ThreeReplacesOfOne(x: char)
    ensures Replace(Replace(Replace([x], '\\', "\\\\"), '"', "\\\""), '\n', "\\n") == EscapeChar(x)
  {
    ReplaceOne(x, '\\', "\\\\");
    ReplaceTwo('\\', '\\', '"', "\\\"");
    ReplaceTwo('\\', '\\', '\n', "\\n");
    ReplaceTwo('\\', '"', '\n', "\\n");
    ReplaceOne(x, '"', "\\\"");
    ReplaceOne(x, '\n', "\\n");
  }

  /** The order of the three replacements is right: no replacement touches what an earlier one put in. */
  lemma {:induction false} QuoteIsOnePass(text: string)
    ensures Quote(text) == "\"" + Escape(text) + "\""
  {
    ThreeReplaces(text);
  }

  lemma {:induction false} ThreeReplaces(text: string)
    ensures Replace(Replace(Replace(text, '\\', "\\\\"), '"', "\\\""), '\n', "\\n") == Escape(text)
  {
    if |text| > 0 {
      var x, rest := [text[0]], text[1..];
      assert text == x + rest;
      ThreeReplaces(rest);
      ThreeReplacesOfOne(text[0]);
      ReplaceConcat(x, rest, '\\', "\\\\");
      var x1, rest1 := Replace(x, '\\', "\\\\"), Replace(rest, '\\', "\\\\");
      ReplaceConcat(x1, rest1, '"', "\\\"");
      ReplaceConcat(Replace(x1, '"', "\\\""), Replace(rest1, '"', "\\\""), '\n', "\\n");
    }
  }

  /** Reads a quoted string from the front of `s`: its text and what follows the closing quote. */
  function ReadQuoted(s: string): Option<(string, string)> {
    if |s| > 0 && s[0] == '"' then ReadBody(s[1..]) else None
  }

  function ReadBody(s: string): Option<(string, string)>
    decreases |s|
  {
    if |s| == 0 then None
    else if s[0] == '"' then Some(("", s[1..]))
    else if s[0] == '\\' then
      if |s| == 1 then None
      else
        var tail := ReadBody(s[2..]);
        if tail.Some? then Some(([if s[1] == 'n' then '\n' else s[1]] + tail.value.0, tail.value.1)) else None
    else
      var tail := ReadBody(s[1..]);
      if tail.Some? then Some(([s[0]] + tail.value.0, tail.value.1)) else None
  }

  lemma ReadBodyOfEscapedChar(x: char, s: string)
    requires ReadBody(s).Some?
    ensures ReadBody(EscapeChar(x) + s) == Some(([x] + ReadBody(s).value.0, ReadBody(s).value.1))
  {
    var e := EscapeChar(x);
    assert (e + s)[|e|..] == s;
  }

  lemma {:induction false} ReadBodyOfEscape(text: string, s: string, rest: string)
    requires ReadBody(s) == Some(("", rest))
    ensures ReadBody(Escape(text) + s) == Some((text, rest))
  {
    if |text| == 0 {
      assert Escape(text) + s == s;
    } else {
      ReadBodyOfEscape(text[1..], s, rest);
      EscapeHead(text, s);
      ReadBodyOfEscapedChar(text[0], Escape(text[1..]) + s);
      assert text == [text[0]] + text[1..];
    }
  }

  lemma EscapeHead(text: string, s: string)
    requires |text| > 0
    ensures Escape(text) + s == EscapeChar(text[0]) + (Escape(text[1..]) + s)
  {
  }

  /** A quoted text is read back whole, whatever follows it; so no text can end its quotes early. */
  lemma ReadQuotedOfQuote(text: string, rest: string)
    ensures ReadQuoted(Quote(text) + rest) == Some((text, rest))
  {
    QuoteIsOnePass(text);
    var s := Quote(text) + rest;
    assert s[1..] == Escape(text) + ("\"" + rest);
    assert ("\"" + rest)[1..] == rest;
    ReadBodyOfEscape(text, "\"" + rest, rest);
  }

  // ---- Statements ----

  datatype Ref = ConcernRef(name: string) | JoinpointRef(name: string)

  function RawId(r: Ref): string { (if r.ConcernRef? then "c:" else "j:") + r.name }

  function ReadRef(id: string): Option<Ref> {
    if |id| < 2 || id[1] != ':' then None
    else if id[0] == 'c' then Some(ConcernRef(id[2..]))
    else if id[0] == 'j' then Some(JoinpointRef(id[2..]))
    else None
  }

  lemma ReadRefOfRawId(r: Ref)
    ensures ReadRef(RawId(r)) == Some(r)
  {
    assert RawId(r)[2..] == r.name;
  }

  /** Node ids are injective, and a concern never shares one with a joinpoint. */
  lemma NodeIdsAreInjective(a: Ref, b: Ref)
    ensures Quote(RawId(a)) == Quote(RawId(b)) <==> a == b
  {
    ReadQuotedOfQuote(RawId(a), "");
    ReadQuotedOfQuote(RawId(b), "");
    ReadRefOfRawId(a);
    ReadRefOfRawId(b);
  }

  datatype Style = Box | Dashed | Oval

  datatype Stmt = Node(node: Ref, style: Style, caption: string) | Edge(from: Ref, to: Ref, weight: Option<string>)

  function Attributes(style: Style): string {
    match style
    case Box => " [shape=box, label="
    case Dashed => " [shape=box, style=dashed, label="
    case Oval => " [shape=oval, label="
  }

  function Render(s: Stmt): string {
    match s
    case Node(node, style, caption) =>
      "  " + (Quote(RawId(node)) + (Attributes(style) + (Quote(caption) + "];")))
    case Edge(from, to, weight) =>
      "  " + (Quote(RawId(from)) + (" -> " + (Quote(RawId(to)) + Weight(weight))))
  }

  function Weight(weight: Option<string>): string {
    if weight.Some? then " [label=" + (Quote(weight.value) + "];") else ";"
  }

  /** What is left of `s` after `front`. */
  function After(s: string, front: string): Option<string> {
    if front <= s then Some(s[|front|..]) else None
  }

  function ReadNode(node: Ref, style: Style, s: string): Option<Stmt> {
    var caption := ReadQuoted(s);
    if caption.Some? && caption.value.1 == "];" then Some(Node(node, style, caption.value.0)) else None
  }

  function ReadEdge(from: Ref, s: string): Option<Stmt> {
    var target := ReadQuoted(s);
    if target.None? || ReadRef(target.value.0).None? then None
    else
      var to, rest := ReadRef(target.value.0).value, target.value.1;
      if rest == ";" then Some(Edge(from, to, None))
      else
        var weighted := After(rest, " [label=");
        var weight := if weighted.Some? then ReadQuoted(weighted.value) else None;
        if weight.Some? && weight.value.1 == "];" then Some(Edge(from, to, Some(weight.value.0))) else None
  }

  /** A reader for the statements, independent of how they are printed. */
  function Read(line: string): Option<Stmt> {
    var body := After(line, "  ");
    var id := if body.Some? then ReadQuoted(body.value) else None;
    if id.None? || ReadRef(id.value.0).None? then None
    else
      var node, rest := ReadRef(id.value.0).value, id.value.1;
      if After(rest, " -> ").Some? then ReadEdge(node, After(rest, " -> ").value)
      else if After(rest, Attributes(Box)).Some? then ReadNode(node, Box, After(rest, Attributes(Box)).value)
      else if After(rest, Attributes(Dashed)).Some? then ReadNode(node, Dashed, After(rest, Attributes(Dashed)).value)
      else if After(rest, Attributes(Oval)).Some? then ReadNode(node, Oval, After(rest, Attributes(Oval)).value)
      else None
  }

  lemma AfterFront(front: string, rest: string)
    ensures After(front + rest, front) == Some(rest)
  {
  }

  lemma OnlyOneStyle(style: Style, other: Style, rest: string)
    requires style != other
    ensures After(Attributes(style) + rest, Attributes(other)).None?
    ensures After(Attributes(style) + rest, " -> ").None?
  {
    var s, a := Attributes(style) + rest, Attributes(other);
    assert s[1] == '[';
    if style.Oval? || other.Oval? {
      assert s[8] == Attributes(style)[8] != a[8];
    } else {
      assert s[13] == Attributes(style)[13] != a[13];
    }
  }

  /** Every printed statement reads back as itself, so the drawing shows exactly the statements. */
  lemma ReadOfRender(s: Stmt)
    ensures Read(Render(s)) == Some(s)
  {
    match s
    case Node(node, style, caption) =>
      var rest := Attributes(style) + (Quote(caption) + "];");
      AfterFront("  ", Quote(RawId(node)) + rest);
      ReadQuotedOfQuote(RawId(node), rest);
      ReadRefOfRawId(node);
      AfterFront(Attributes(style), Quote(caption) + "];");
      ReadQuotedOfQuote(caption, "];");
      OnlyOneStyle(style, if style.Box? then Oval else Box, Quote(caption) + "];");
      if style.Oval? {
        OnlyOneStyle(style, Dashed, Quote(caption) + "];");
      }
    case Edge(from, to, weight) =>
      var rest := Quote(RawId(to)) + Weight(weight);
      AfterFront("  ", Quote(RawId(from)) + (" -> " + rest));
      ReadQuotedOfQuote(RawId(from), " -> " + rest);
      ReadRefOfRawId(from);
      AfterFront(" -> ", rest);
      ReadEdgeOfRest(from, to, weight);
  }

  lemma ReadEdgeOfRest(from: Ref, to: Ref, weight: Option<string>)
    ensures ReadEdge(from, Quote(RawId(to)) + Weight(weight)) == Some(Edge(from, to, weight))
  {
    ReadQuotedOfQuote(RawId(to), Weight(weight));
    ReadRefOfRawId(to);
    if weight.Some? {
      AfterFront(" [label=", Quote(weight.value) + "];");
      ReadQuotedOfQuote(weight.value, "];");
    }
  }

  lemma {:induction false} EscapeHasNoLineFeed(text: string)
    ensures '\n' !in Escape(text)
  {
    if |text| > 0 {
      EscapeHasNoLineFeed(text[1..]);
    }
  }

  lemma QuoteHasNoLineFeed(text: string)
    ensures '\n' !in Quote(text)
  {
    QuoteIsOnePass(text);
    EscapeHasNoLineFeed(text);
  }

  lemma FivePartsHaveNone(a: string, b: string, c: string, d: string, e: string, x: char)
    requires x !in a && x !in b && x !in c && x !in d && x !in e
    ensures x !in a + (b + (c + (d + e)))
  {
  }

  lemma AttributesHaveNoLineFeed(style: Style)
    ensures '\n' !in Attributes(style)
  {
  }

  lemma WeightHasNoLineFeed(weight: Option<string>)
    ensures '\n' !in Weight(weight)
  {
    if weight.Some? {
      QuoteHasNoLineFeed(weight.value);
    }
  }

  /** A statement stays on one line, so the lines of the drawing are its statements. */
  lemma RenderIsOneLine(s: Stmt)
    ensures '\n' !in Render(s)
  {
    match s
    case Node(node, style, caption) =>
      QuoteHasNoLineFeed(RawId(node));
      QuoteHasNoLineFeed(caption);
      AttributesHaveNoLineFeed(style);
      FivePartsHaveNone("  ", Quote(RawId(node)), Attributes(style), Quote(caption), "];", '\n');
    case Edge(from, to, weight) =>
      QuoteHasNoLineFeed(RawId(from));
      QuoteHasNoLineFeed(RawId(to));
      WeightHasNoLineFeed(weight);
      FivePartsHaveNone("  ", Quote(RawId(from)), " -> ", Quote(RawId(to)), Weight(weight), '\n');
  }

  // ---- The graph ----

  /** A concern of the snapshot; a missing field is the empty string. */
  datatype ConcernRow = ConcernRow(id: string, name: string, state: string)

  datatype Activation = Activation(concernId: string, joinpointId: string)

  type Pair = (string, string)

  predicate Usable(row: Activation) { row.concernId != "" && row.joinpointId != "" }

  function PairOf(row: Activation): Pair { (row.joinpointId, row.concernId) }

  function Caption(c: ConcernRow): string {
    (if c.name != "" then c.name else c.id) + "\n(" + (if c.state != "" then c.state else "?") + ")"
  }

  function ConcernStmts(concerns: seq<ConcernRow>, caption: ConcernRow -> string): seq<Stmt> {
    if |concerns| == 0 then []
    else
      var init, c := ConcernStmts(concerns[..|concerns| - 1], caption), concerns[|concerns| - 1];
      if c.id == "" then init else init + [Node(ConcernRef(c.id), Box, caption(c))]
  }

  function Ids(concerns: seq<ConcernRow>): set<string> {
    if |concerns| == 0 then {}
    else
      var init, c := concerns[..|concerns| - 1], concerns[|concerns| - 1];
      Ids(init) + if c.id == "" then {} else {c.id}
  }

  function ConcernsIn(rows: seq<Activation>): set<string> {
    if |rows| == 0 then {}
    else
      var init, last := rows[..|rows| - 1], rows[|rows| - 1];
      ConcernsIn(init) + if Usable(last) then {last.concernId} else {}
  }

  function JoinpointsIn(rows: seq<Activation>): set<string> {
    if |rows| == 0 then {}
    else
      var init, last := rows[..|rows| - 1], rows[|rows| - 1];
      JoinpointsIn(init) + if Usable(last) then {last.joinpointId} else {}
  }

  function Stub(declared: set<string>, cid: string): seq<Stmt> {
    if cid in declared then [] else [Node(ConcernRef(cid), Dashed, cid)]
  }

  function JoinpointNode(declared: set<string>, jp: string): seq<Stmt> {
    if jp in declared then [] else [Node(JoinpointRef(jp), Oval, jp)]
  }

  /** What one activation adds to the declarations. */
  function Declared(known: set<string>, earlier: seq<Activation>, row: Activation): seq<Stmt> {
    if !Usable(row) then []
    else Stub(known + ConcernsIn(earlier), row.concernId) + JoinpointNode(JoinpointsIn(earlier), row.joinpointId)
  }

  function RowStmts(known: set<string>, rows: seq<Activation>): seq<Stmt> {
    if |rows| == 0 then []
    else
      var init, last := rows[..|rows| - 1], rows[|rows| - 1];
      RowStmts(known, init) + Declared(known, init, last)
  }

  /** How often a pair occurs among the usable rows. */
  function Count(rows: seq<Activation>, p: Pair): nat {
    if |rows| == 0 then 0
    else
      var last := rows[|rows| - 1];
      Count(rows[..|rows| - 1], p) + if Usable(last) && PairOf(last) == p then 1 else 0
  }

  /** The pairs that occur, in the order in which they first do. */
  function Pairs(rows: seq<Activation>): seq<Pair> {
    if |rows| == 0 then []
    else
      var init, last := rows[..|rows| - 1], rows[|rows| - 1];
      Pairs(init) + if Usable(last) && Count(init, PairOf(last)) == 0 then [PairOf(last)] else []
  }

  function EdgeOf(rows: seq<Activation>, p: Pair, show: nat -> string): Stmt {
    Edge(JoinpointRef(p.0), ConcernRef(p.1), if Count(rows, p) > 1 then Some(show(Count(rows, p))) else None)
  }

  function EdgeStmts(rows: seq<Activation>, ps: seq<Pair>, show: nat -> string): seq<Stmt> {
    Map(ps, p => EdgeOf(rows, p, show))
  }

  function SortedPairs(rows: seq<Activation>): seq<Pair> { Sort(Pairs(rows), (p: Pair) => p, PairLe) }

  function Statements(concerns: seq<ConcernRow>, rows: seq<Activation>, show: nat -> string): seq<Stmt> {
    ConcernStmts(concerns, Caption) + RowStmts(Ids(concerns), rows) + EdgeStmts(rows, SortedPairs(rows), show)
  }

  // ---- The renderer ----

  const PREAMBLE := [
    "digraph DCN {",
    "  rankdir=LR;",
    "  graph [fontname=\"Helvetica\"];",
    "  node  [fontname=\"Helvetica\"];",
    "  edge  [fontname=\"Helvetica\", fontsize=10];"]

  lemma IdsSnoc(concerns: seq<ConcernRow>, c: ConcernRow)
    ensures Ids(concerns + [c]) == Ids(concerns) + if c.id == "" then {} else {c.id}
  {
    assert (concerns + [c])[..|concerns|] == concerns;
  }

  lemma {:induction false} IdsAreTheIds(concerns: seq<ConcernRow>, n: string)
    ensures n in Ids(concerns) <==> n != "" && exists i | 0 <= i < |concerns| :: concerns[i].id == n
  {
    if |concerns| > 0 {
      var init, c := concerns[..|concerns| - 1], concerns[|concerns| - 1];
      IdsAreTheIds(init, n);
      assert forall i | 0 <= i < |init| :: init[i] == concerns[i];
    }
  }

  function ConcernLines(concerns: seq<ConcernRow>, caption: ConcernRow -> string, render: Stmt -> string): seq<string> {
    if |concerns| == 0 then []
    else
      var init, c := ConcernLines(concerns[..|concerns| - 1], caption, render), concerns[|concerns| - 1];
      if c.id == "" then init else init + [render(Node(ConcernRef(c.id), Box, caption(c)))]
  }

  function ConcernIndex(concerns: seq<ConcernRow>): map<string, Ref> {
    if |concerns| == 0 then map[]
    else
      var init, c := ConcernIndex(concerns[..|concerns| - 1]), concerns[|concerns| - 1];
      if c.id == "" then init else init[c.id := ConcernRef(c.id)]
  }

  method DeclareConcerns(concerns: seq<ConcernRow>, caption: ConcernRow -> string, render: Stmt -> string)
    returns (lines: seq<string>, index: map<string, Ref>)
    ensures lines == ConcernLines(concerns, caption, render) && index == ConcernIndex(concerns)
  {
    lines, index := [], map[];
    for i := 0 to |concerns|
      invariant lines == ConcernLines(concerns[..i], caption, render) && index == ConcernIndex(concerns[..i])
    {
      assert concerns[..i + 1][..i] == concerns[..i];
      var c := concerns[i];
      if c.id == "" {
        continue;
      }
      var node := ConcernRef(c.id);
      index := index[c.id := node];
      lines := lines + [render(Node(node, Box, caption(c)))];
    }
    assert concerns[..|concerns|] == concerns;
  }

  lemma {:induction false} ConcernsDrawn(
    concerns: seq<ConcernRow>, caption: ConcernRow -> string, render: Stmt -> string)
    ensures ConcernLines(concerns, caption, render) == Map(ConcernStmts(concerns, caption), render)
  {
    if |concerns| > 0 {
      var init, c := concerns[..|concerns| - 1], concerns[|concerns| - 1];
      ConcernsDrawn(init, caption, render);
      MapSnoc(ConcernStmts(init, caption), Node(ConcernRef(c.id), Box, caption(c)), render);
    }
  }

  lemma {:induction false} ConcernsIndexed(concerns: seq<ConcernRow>)
    ensures ConcernIndex(concerns) == map n | n in Ids(concerns) :: ConcernRef(n)
  {
    if |concerns| > 0 {
      ConcernsIndexed(concerns[..|concerns| - 1]);
    }
  }

  lemma NamesStep(rows: seq<Activation>, row: Activation)
    ensures ConcernsIn(rows + [row]) == ConcernsIn(rows) + if Usable(row) then {row.concernId} else {}
    ensures JoinpointsIn(rows + [row]) == JoinpointsIn(rows) + if Usable(row) then {row.joinpointId} else {}
  {
    assert (rows + [row])[..|rows|] == rows;
  }

  /** The loop's variables: lines, the indexes of declared nodes, the counts and the order of their keys. */
  datatype Graph = Graph(lines: seq<string>, concerns: map<string, Ref>, joinpoints: map<string, Ref>,
                         counts: map<Pair, nat>, order: seq<Pair>)

  function GraphOf(rows: seq<Activation>, start: map<string, Ref>, render: Stmt -> string): Graph {
    if |rows| == 0 then Graph([], start, map[], map[], [])
    else AddRow(GraphOf(rows[..|rows| - 1], start, render), rows[|rows| - 1], render)
  }

  function AddRow(g: Graph, row: Activation, render: Stmt -> string): Graph {
    if !Usable(row) then g
    else
      var cid, jp, p := row.concernId, row.joinpointId, PairOf(row);
      Graph(
        g.lines + (if cid in g.concerns then [] else [render(Node(ConcernRef(cid), Dashed, cid))])
        + (if jp in g.joinpoints then [] else [render(Node(JoinpointRef(jp), Oval, jp))]),
        if cid in g.concerns then g.concerns else g.concerns[cid := ConcernRef(cid)],
        if jp in g.joinpoints then g.joinpoints else g.joinpoints[jp := JoinpointRef(jp)],
        g.counts[p := (if p in g.counts then g.counts[p] else 0) + 1],
        if p in g.counts then g.order else g.order + [p])
  }

  lemma GraphStep(rows: seq<Activation>, i: nat, start: map<string, Ref>, render: Stmt -> string)
    requires i < |rows|
    ensures GraphOf(rows[..i + 1], start, render) == AddRow(GraphOf(rows[..i], start, render), rows[i], render)
  {
    assert rows[..i + 1][..i] == rows[..i];
  }

  method AddActivations(rows: seq<Activation>, concernIndex: map<string, Ref>, render: Stmt -> string)
    returns (lines: seq<string>, concerns: map<string, Ref>, joinpoints: map<string, Ref>,
             counts: map<Pair, nat>, order: seq<Pair>)
    ensures Graph(lines, concerns, joinpoints, counts, order) == GraphOf(rows, concernIndex, render)
  {
    lines, concerns, joinpoints, counts, order := [], concernIndex, map[], map[], [];
    for i := 0 to |rows|
      invariant Graph(lines, concerns, joinpoints, counts, order) == GraphOf(rows[..i], concernIndex, render)
    {
      GraphStep(rows, i, concernIndex, render);
      var cid, jp := rows[i].concernId, rows[i].joinpointId;
      if cid == "" || jp == "" {
        continue;
      }
      if cid !in concerns {
        var stub := ConcernRef(cid);
        concerns := concerns[cid := stub];
        lines := lines + [render(Node(stub, Dashed, cid))];
      }
      if jp !in joinpoints {
        var node := JoinpointRef(jp);
        joinpoints := joinpoints[jp := node];
        lines := lines + [render(Node(node, Oval, jp))];
      }
      var p := (jp, cid);
      order := if p in counts then order else order + [p];
      counts := counts[p := (if p in counts then counts[p] else 0) + 1];
    }
    assert rows[..|rows|] == rows;
  }

  lemma {:induction false} GraphIndexes(rows: seq<Activation>, start: map<string, Ref>, render: Stmt -> string)
    requires forall n | n in start :: start[n] == ConcernRef(n)
    ensures var g := GraphOf(rows, start, render);
            && g.concerns.Keys == start.Keys + ConcernsIn(rows) && g.joinpoints.Keys == JoinpointsIn(rows)
            && (forall n | n in g.concerns :: g.concerns[n] == ConcernRef(n))
            && (forall n | n in g.joinpoints :: g.joinpoints[n] == JoinpointRef(n))
  {
    if |rows| > 0 {
      GraphIndexes(rows[..|rows| - 1], start, render);
    }
  }

  lemma DeclaredLines(known: set<string>, earlier: seq<Activation>, row: Activation, render: Stmt -> string)
    requires Usable(row)
    ensures Map(Declared(known, earlier, row), render) ==
            (if row.concernId in known + ConcernsIn(earlier) then []
             else [render(Node(ConcernRef(row.concernId), Dashed, row.concernId))])
            + (if row.joinpointId in JoinpointsIn(earlier) then []
               else [render(Node(JoinpointRef(row.joinpointId), Oval, row.joinpointId))])
  {
    var stub := Stub(known + ConcernsIn(earlier), row.concernId);
    var node := JoinpointNode(JoinpointsIn(earlier), row.joinpointId);
    MapConcat(stub, node, render);
    MapAt(stub, render);
    MapAt(node, render);
  }

  lemma RowStmtsSnoc(known: set<string>, rows: seq<Activation>, row: Activation, render: Stmt -> string)
    ensures Map(RowStmts(known, rows + [row]), render) ==
            Map(RowStmts(known, rows), render) + Map(Declared(known, rows, row), render)
  {
    assert (rows + [row])[..|rows|] == rows;
    MapConcat(RowStmts(known, rows), Declared(known, rows, row), render);
  }

  lemma AddRowLines(g: Graph, known: set<string>, earlier: seq<Activation>, row: Activation, render: Stmt -> string)
    requires g.concerns.Keys == known + ConcernsIn(earlier) && g.joinpoints.Keys == JoinpointsIn(earlier)
    ensures AddRow(g, row, render).lines == g.lines + Map(Declared(known, earlier, row), render)
  {
    if Usable(row) {
      DeclaredLines(known, earlier, row, render);
    }
  }

  lemma {:induction false} GraphLines(rows: seq<Activation>, start: map<string, Ref>, render: Stmt -> string)
    requires forall n | n in start :: start[n] == ConcernRef(n)
    ensures GraphOf(rows, start, render).lines == Map(RowStmts(start.Keys, rows), render)
  {
    if |rows| > 0 {
      var init, last := rows[..|rows| - 1], rows[|rows| - 1];
      GraphLines(init, start, render);
      GraphIndexes(init, start, render);
      AddRowLines(GraphOf(init, start, render), start.Keys, init, last, render);
      RowStmtsSnoc(start.Keys, init, last, render);
      assert rows == init + [last];
    }
  }

  lemma {:induction false} GraphCounts(rows: seq<Activation>, start: map<string, Ref>, render: Stmt -> string)
    ensures var g := GraphOf(rows, start, render);
            && (forall p :: p in g.counts <==> Count(rows, p) > 0)
            && (forall p | p in g.counts :: g.counts[p] == Count(rows, p))
            && g.order == Pairs(rows)
  {
    if |rows| > 0 {
      var init := rows[..|rows| - 1];
      GraphCounts(init, start, render);
      assert Pairs(init) + [] == Pairs(init);
    }
  }

  lemma {:induction false} CountedIsNamed(rows: seq<Activation>, p: Pair)
    requires Count(rows, p) > 0
    ensures p.1 in ConcernsIn(rows) && p.0 in JoinpointsIn(rows)
  {
    var init, last := rows[..|rows| - 1], rows[|rows| - 1];
    assert rows == init + [last];
    NamesStep(init, last);
    if Count(init, p) > 0 {
      CountedIsNamed(init, p);
    }
  }

  lemma {:induction false} PairsAreCounted(rows: seq<Activation>)
    ensures forall p :: p in Pairs(rows) <==> Count(rows, p) > 0
    ensures forall i, j | 0 <= i < j < |Pairs(rows)| :: Pairs(rows)[i] != Pairs(rows)[j]
  {
    if |rows| > 0 {
      var init, last := rows[..|rows| - 1], rows[|rows| - 1];
      PairsAreCounted(init);
      forall i | 0 <= i < |Pairs(init)|
        ensures Usable(last) && Count(init, PairOf(last)) == 0 ==> Pairs(init)[i] != PairOf(last)
      {
        assert Pairs(init)[i] in Pairs(init);
      }
    }
  }

  lemma SortedPairsAreCounted(rows: seq<Activation>)
    ensures forall p :: p in SortedPairs(rows) <==> Count(rows, p) > 0
  {
    PairsAreCounted(rows);
    forall p
      ensures p in SortedPairs(rows) <==> Count(rows, p) > 0
    {
      SortSameMembers(Pairs(rows), (p: Pair) => p, PairLe, p);
    }
  }

  method AddEdges(counts: map<Pair, nat>, pairs: seq<Pair>, concerns: map<string, Ref>, joinpoints: map<string, Ref>,
        show: nat -> string, render: Stmt -> string, ghost rows: seq<Activation>)
    returns (lines: seq<string>)
    requires forall p | p in pairs :: p in counts && counts[p] == Count(rows, p)
    requires forall p | p in pairs :: p.1 in concerns && concerns[p.1] == ConcernRef(p.1)
    requires forall p | p in pairs :: p.0 in joinpoints && joinpoints[p.0] == JoinpointRef(p.0)
    ensures lines == Map(EdgeStmts(rows, pairs, show), render)
  {
    lines := [];
    for i := 0 to |pairs|
      invariant lines == Map(EdgeStmts(rows, pairs[..i], show), render)
    {
      var p := pairs[i];
      assert p in pairs;
      assert pairs[..i + 1] == pairs[..i] + [p];
      var count := counts[p];
      var edge := Edge(joinpoints[p.0], concerns[p.1], if count > 1 then Some(show(count)) else None);
      EdgeStmtsSnoc(rows, pairs[..i], p, show, render);
      lines := lines + [render(edge)];
    }
    assert pairs[..|pairs|] == pairs;
  }

  lemma EdgeStmtsSnoc(rows: seq<Activation>, ps: seq<Pair>, p: Pair, show: nat -> string, render: Stmt -> string)
    ensures Map(EdgeStmts(rows, ps + [p], show), render) ==
            Map(EdgeStmts(rows, ps, show), render) + [render(EdgeOf(rows, p, show))]
  {
    MapSnoc(ps, p, p => EdgeOf(rows, p, show));
    MapSnoc(EdgeStmts(rows, ps, show), EdgeOf(rows, p, show), render);
  }

  method StatementsOf(concerns: seq<ConcernRow>, rows: seq<Activation>, show: nat -> string, render: Stmt -> string)
    returns (lines: seq<string>)
    ensures lines == Map(Statements(concerns, rows, show), render)
  {
    var nodes, concernIndex := DeclareConcerns(concerns, Caption, render);
    var more, allConcerns, joinpoints, counts, order := AddActivations(rows, concernIndex, render);
    ConcernsDrawn(concerns, Caption, render);
    ConcernsIndexed(concerns);
    GraphLines(rows, concernIndex, render);
    GraphIndexes(rows, concernIndex, render);
    GraphCounts(rows, concernIndex, render);
    var pairs := Sort(order, (p: Pair) => p, PairLe);
    forall p | p in pairs
      ensures p in counts && p.1 in ConcernsIn(rows) && p.0 in JoinpointsIn(rows)
    {
      SortedPairsAreCounted(rows);
      CountedIsNamed(rows, p);
    }
    var edges := AddEdges(counts, pairs, allConcerns, joinpoints, show, render, rows);
    StatementLines(concerns, rows, show, render);
    assert concernIndex.Keys == Ids(concerns);
    lines := nodes + more + edges;
  }

  lemma StatementLines(concerns: seq<ConcernRow>, rows: seq<Activation>, show: nat -> string, render: Stmt -> string)
    ensures Map(Statements(concerns, rows, show), render) ==
            Map(ConcernStmts(concerns, Caption), render) + Map(RowStmts(Ids(concerns), rows), render) +
            Map(EdgeStmts(rows, SortedPairs(rows), show), render)
  {
    var a, b := ConcernStmts(concerns, Caption), RowStmts(Ids(concerns), rows);
    MapConcat(a, b, render);
    MapConcat(a + b, EdgeStmts(rows, SortedPairs(rows), show), render);
  }

  function Drawing(stmts: seq<Stmt>): string { Join(PREAMBLE + Map(stmts, Render) + ["}"], "\n") + "\n" }

  /** The statements on the lines of a text. */
  function ReadLines(text: string): seq<Stmt> { FilterMap(SplitOn(text, '\n'), Read) }

  lemma {:induction false} ReadNothing(lines: seq<string>)
    requires forall i | 0 <= i < |lines| :: Read(lines[i]).None?
    ensures FilterMap(lines, Read) == []
  {
    if |lines| > 0 {
      ReadNothing(lines[..|lines| - 1]);
    }
  }

  lemma NotAStatement(line: string)
    requires |line| < 3 || line[0] != ' ' || line[2] != '"'
    ensures Read(line).None?
  {
  }

  lemma FrameHasNoStatement()
    ensures FilterMap(PREAMBLE, Read) == [] && FilterMap(["}", ""], Read) == []
  {
    NotAStatement("}");
    NotAStatement("");
    ReadNothing(["}", ""]);
    forall i | 0 <= i < |PREAMBLE|
      ensures Read(PREAMBLE[i]).None?
    {
      NotAStatement(PREAMBLE[i]);
    }
    ReadNothing(PREAMBLE);
  }

  lemma FrameIsOneLineEach(i: nat)
    requires i < |PREAMBLE|
    ensures '\n' !in PREAMBLE[i]
  {
  }

  lemma LinesOfJoin(lines: seq<string>)
    requires |lines| > 0 && forall i | 0 <= i < |lines| :: '\n' !in lines[i]
    ensures SplitOn(Join(lines, "\n") + "\n", '\n') == lines + [""]
  {
    SplitOnOfJoin(lines, '\n');
    SplitOnSnoc(Join(lines, "\n"), "", '\n');
    assert Join(lines, "\n") + ['\n'] + "" == Join(lines, "\n") + "\n";
  }

  lemma NoneInAny(front: seq<string>, inner: seq<string>, back: seq<string>, c: char)
    requires forall i | 0 <= i < |front| :: c !in front[i]
    requires forall i | 0 <= i < |inner| :: c !in inner[i]
    requires forall i | 0 <= i < |back| :: c !in back[i]
    ensures forall i | 0 <= i < |front + inner + back| :: c !in (front + inner + back)[i]
  {
  }

  lemma ReadRendered(stmts: seq<Stmt>)
    ensures FilterMap(Map(stmts, Render), Read) == stmts
    ensures forall i | 0 <= i < |Map(stmts, Render)| :: '\n' !in Map(stmts, Render)[i]
  {
    MapAt(stmts, Render);
    forall i | 0 <= i < |stmts|
      ensures Read(Map(stmts, Render)[i]) == Some(stmts[i]) && '\n' !in Map(stmts, Render)[i]
    {
      ReadOfRender(stmts[i]);
      RenderIsOneLine(stmts[i]);
    }
    FilterMapTotal(Map(stmts, Render), Read, stmts);
  }

  /** The lines of a drawing are the fixed frame around one line for each statement. */
  lemma DrawingLines(stmts: seq<Stmt>)
    ensures SplitOn(Drawing(stmts), '\n') == PREAMBLE + Map(stmts, Render) + ["}", ""]
  {
    ReadRendered(stmts);
    forall i | 0 <= i < |PREAMBLE|
      ensures '\n' !in PREAMBLE[i]
    {
      FrameIsOneLineEach(i);
    }
    NoneInAny(PREAMBLE, Map(stmts, Render), ["}"], '\n');
    LinesOfJoin(PREAMBLE + Map(stmts, Render) + ["}"]);
    assert PREAMBLE + Map(stmts, Render) + ["}"] + [""] == PREAMBLE + Map(stmts, Render) + ["}", ""];
  }

  lemma ReadBetween(front: seq<string>, inner: seq<string>, back: seq<string>)
    requires FilterMap(front, Read) == [] && FilterMap(back, Read) == []
    ensures FilterMap(front + inner + back, Read) == FilterMap(inner, Read)
  {
    FilterMapConcat(front, inner, Read);
    FilterMapConcat(front + inner, back, Read);
  }

  /** Read line by line, a drawing shows exactly its statements, each once and in order. */
  lemma ReadOfDrawing(stmts: seq<Stmt>)
    ensures ReadLines(Drawing(stmts)) == stmts
  {
    DrawingLines(stmts);
    ReadRendered(stmts);
    FrameHasNoStatement();
    ReadBetween(PREAMBLE, Map(stmts, Render), ["}", ""]);
  }

  /** The printed drawing is one line for each statement, between a fixed frame; reading its lines gives back the
      statements. */
  method DcnToDot(concerns: seq<ConcernRow>, rows: seq<Activation>, show: nat -> string) returns (dot: string)
    ensures dot == Join(PREAMBLE + Map(Statements(concerns, rows, show), Render) + ["}"], "\n") + "\n"
    ensures ReadLines(dot) == Statements(concerns, rows, show)
  {
    var lines := StatementsOf(concerns, rows, show, Render);
    dot := Join(PREAMBLE + lines + ["}"], "\n") + "\n";
    ReadOfDrawing(Statements(concerns, rows, show));
  }

  // ---- The drawing is faithful ----

  /** The declared nodes. */
  function Nodes(stmts: seq<Stmt>): set<Ref> { set i | 0 <= i < |stmts| && stmts[i].Node? :: stmts[i].node }

  /** No node is declared twice. */
  predicate Once(stmts: seq<Stmt>) {
    forall i, j | 0 <= i < j < |stmts| && stmts[i].Node? && stmts[j].Node? :: stmts[i].node != stmts[j].node
  }

  predicate DistinctIds(concerns: seq<ConcernRow>) {
    forall i, j | 0 <= i < j < |concerns| && concerns[i].id != "" :: concerns[i].id != concerns[j].id
  }

  lemma NodesSnoc(stmts: seq<Stmt>, s: Stmt)
    requires s.Node?
    ensures Nodes(stmts + [s]) == Nodes(stmts) + {s.node}
    ensures Once(stmts + [s]) <==> Once(stmts) && s.node !in Nodes(stmts)
  {
    var all := stmts + [s];
    assert forall i | 0 <= i < |stmts| :: all[i] == stmts[i];
    assert all[|stmts|] == s;
    forall r
      ensures r in Nodes(all) <==> r in Nodes(stmts) || r == s.node
    {
    }
  }

  /** Statements that declare nothing can be appended freely. */
  lemma NodesWithEdges(stmts: seq<Stmt>, edges: seq<Stmt>)
    requires forall i | 0 <= i < |edges| :: edges[i].Edge?
    ensures Nodes(stmts + edges) == Nodes(stmts) && (Once(stmts + edges) <==> Once(stmts))
  {
    var all := stmts + edges;
    assert forall i | 0 <= i < |stmts| :: all[i] == stmts[i];
    assert forall i | |stmts| <= i < |all| :: all[i] == edges[i - |stmts|];
    forall r
      ensures r in Nodes(all) <==> r in Nodes(stmts)
    {
    }
  }

  lemma DistinctSnoc(concerns: seq<ConcernRow>, c: ConcernRow)
    ensures DistinctIds(concerns + [c]) <==> DistinctIds(concerns) && (c.id == "" || c.id !in Ids(concerns))
  {
    var all := concerns + [c];
    assert forall i | 0 <= i < |concerns| :: all[i] == concerns[i];
    assert all[|concerns|] == c;
    IdsAreTheIds(concerns, c.id);
  }

  function Refs(concerns: set<string>, joinpoints: set<string>): set<Ref> {
    (set n | n in concerns :: ConcernRef(n)) + (set n | n in joinpoints :: JoinpointRef(n))
  }

  lemma {:induction false} ConcernStmtsDeclare(concerns: seq<ConcernRow>, caption: ConcernRow -> string)
    ensures Nodes(ConcernStmts(concerns, caption)) == Refs(Ids(concerns), {})
    ensures Once(ConcernStmts(concerns, caption)) <==> DistinctIds(concerns)
  {
    if |concerns| > 0 {
      var init, c := concerns[..|concerns| - 1], concerns[|concerns| - 1];
      assert concerns == init + [c];
      ConcernStmtsDeclare(init, caption);
      DistinctSnoc(init, c);
      IdsSnoc(init, c);
      NodesSnoc(ConcernStmts(init, caption), Node(ConcernRef(c.id), Box, caption(c)));
    }
  }

  lemma LastDeclares(before: seq<Stmt>, concerns: set<string>, joinpoints: set<string>, row: Activation)
    requires Nodes(before) == Refs(concerns, joinpoints)
    ensures var all := before + (Stub(concerns, row.concernId) + JoinpointNode(joinpoints, row.joinpointId));
            && Nodes(all) == Refs(concerns + {row.concernId}, joinpoints + {row.joinpointId})
            && (Once(all) <==> Once(before))
  {
    var stub, node := Stub(concerns, row.concernId), JoinpointNode(joinpoints, row.joinpointId);
    assert before + (stub + node) == before + stub + node;
    assert before + [] == before && before + stub + [] == before + stub;
    NodesSnoc(before, Node(ConcernRef(row.concernId), Dashed, row.concernId));
    assert Nodes(before + stub) == Refs(concerns + {row.concernId}, joinpoints);
    NodesSnoc(before + stub, Node(JoinpointRef(row.joinpointId), Oval, row.joinpointId));
  }

  lemma RowDeclares(before: seq<Stmt>, known: set<string>, earlier: seq<Activation>, row: Activation)
    requires Nodes(before) == Refs(known + ConcernsIn(earlier), JoinpointsIn(earlier))
    ensures var all := before + Declared(known, earlier, row);
            && Nodes(all) == Refs(known + ConcernsIn(earlier + [row]), JoinpointsIn(earlier + [row]))
            && (Once(all) <==> Once(before))
  {
    NamesStep(earlier, row);
    if Usable(row) {
      LastDeclares(before, known + ConcernsIn(earlier), JoinpointsIn(earlier), row);
      assert known + (ConcernsIn(earlier) + {row.concernId}) == known + ConcernsIn(earlier) + {row.concernId};
    } else {
      assert before + [] == before;
    }
  }

  lemma {:induction false} RowStmtsDeclare(stmts: seq<Stmt>, known: set<string>, rows: seq<Activation>)
    requires Nodes(stmts) == Refs(known, {})
    ensures Nodes(stmts + RowStmts(known, rows)) == Refs(known + ConcernsIn(rows), JoinpointsIn(rows))
    ensures Once(stmts + RowStmts(known, rows)) <==> Once(stmts)
  {
    if |rows| == 0 {
      assert stmts + RowStmts(known, rows) == stmts;
      assert known + ConcernsIn(rows) == known;
    } else {
      var init, last := rows[..|rows| - 1], rows[|rows| - 1];
      assert rows == init + [last];
      RowStmtsDeclare(stmts, known, init);
      var before := stmts + RowStmts(known, init);
      assert stmts + RowStmts(known, rows) == before + Declared(known, init, last);
      RowDeclares(before, known, init, last);
    }
  }

  /** The declared nodes are the concerns and joinpoints of the snapshot and of the usable activations, and each is
      declared exactly once if and only if the snapshot repeats no concern id. */
  lemma DeclaredExactlyOnce(concerns: seq<ConcernRow>, rows: seq<Activation>, show: nat -> string)
    ensures var stmts := Statements(concerns, rows, show);
            && Nodes(stmts) == Refs(Ids(concerns) + ConcernsIn(rows), JoinpointsIn(rows))
            && (Once(stmts) <==> DistinctIds(concerns))
  {
    ConcernStmtsDeclare(concerns, Caption);
    RowStmtsDeclare(ConcernStmts(concerns, Caption), Ids(concerns), rows);
    var edges := EdgeStmts(rows, SortedPairs(rows), show);
    MapAt(SortedPairs(rows), p => EdgeOf(rows, p, show));
    NodesWithEdges(ConcernStmts(concerns, Caption) + RowStmts(Ids(concerns), rows), edges);
  }

  // ---- Edges ----

  /** The edges are exactly one for each pair that occurs, weighted by how often it does, and both ends of each are
      declared. */
  lemma EdgesAreThePairs(concerns: seq<ConcernRow>, rows: seq<Activation>, show: nat -> string)
    ensures var ps, edges := SortedPairs(rows), EdgeStmts(rows, SortedPairs(rows), show);
            && (forall p :: p in ps <==> Count(rows, p) > 0)
            && (forall i, j | 0 <= i < j < |ps| :: ps[i] != ps[j])
            && |edges| == |ps| && (forall i | 0 <= i < |ps| :: edges[i] == EdgeOf(rows, ps[i], show))
            && (forall i | 0 <= i < |ps| :: {edges[i].from, edges[i].to} <= Nodes(Statements(concerns, rows, show)))
  {
    var ps := SortedPairs(rows);
    PairsAreCounted(rows);
    SortedPairsAreCounted(rows);
    NoRepeats(Pairs(rows), ps);
    MapAt(ps, p => EdgeOf(rows, p, show));
    DeclaredExactlyOnce(concerns, rows, show);
    forall i | 0 <= i < |ps|
      ensures ps[i].1 in ConcernsIn(rows) && ps[i].0 in JoinpointsIn(rows)
    {
      assert ps[i] in ps;
      CountedIsNamed(rows, ps[i]);
    }
  }

  /** The edges come sorted by joinpoint and then by concern. */
  lemma EdgesAreSorted(rows: seq<Activation>)
    ensures Sorted(SortedPairs(rows), (p: Pair) => p, PairLe)
  {
    PairLeIsOrder();
    SortSorts(Pairs(rows), (p: Pair) => p, PairLe);
  }

  lemma NoRepeats(xs: seq<Pair>, ys: seq<Pair>)
    requires ys == Sort(xs, (p: Pair) => p, PairLe)
    requires forall i, j | 0 <= i < j < |xs| :: xs[i] != xs[j]
    ensures forall i, j | 0 <= i < j < |ys| :: ys[i] != ys[j]
  {
    SortPermutes(xs, (p: Pair) => p, PairLe);
    forall i, j | 0 <= i < j < |ys|
      ensures ys[i] != ys[j]
    {
      var a, b := TwoPositions(ys, xs, i, j);
    }
  }

  function UsableRows(rows: seq<Activation>): nat {
    if |rows| == 0 then 0 else UsableRows(rows[..|rows| - 1]) + if Usable(rows[|rows| - 1]) then 1 else 0
  }

  /** The weights of the edges of `ps`, added up. */
  function Total(rows: seq<Activation>, ps: seq<Pair>): nat {
    if |ps| == 0 then 0 else Count(rows, ps[0]) + Total(rows, ps[1..])
  }

  lemma {:induction false} TotalSnoc(rows: seq<Activation>, ps: seq<Pair>, p: Pair)
    ensures Total(rows, ps + [p]) == Total(rows, ps) + Count(rows, p)
  {
    if |ps| == 0 {
      assert ps + [p] == [p];
    } else {
      TotalSnoc(rows, ps[1..], p);
      assert (ps + [p])[1..] == ps[1..] + [p];
    }
  }

  /** One more activation adds one to the total over pairs without repetition that include its pair. */
  lemma {:induction false} TotalGrows(rows: seq<Activation>, row: Activation, ps: seq<Pair>)
    requires forall i, j | 0 <= i < j < |ps| :: ps[i] != ps[j]
    ensures Total(rows + [row], ps) == Total(rows, ps) + if Usable(row) && PairOf(row) in ps then 1 else 0
  {
    assert (rows + [row])[..|rows|] == rows;
    if |ps| > 0 {
      TotalGrows(rows, row, ps[1..]);
      assert ps == [ps[0]] + ps[1..];
    }
  }

  lemma PairsSnoc(rows: seq<Activation>, row: Activation)
    ensures Pairs(rows + [row]) ==
            if Usable(row) && PairOf(row) !in Pairs(rows) then Pairs(rows) + [PairOf(row)] else Pairs(rows)
    ensures Usable(row) && PairOf(row) !in Pairs(rows) ==> Count(rows, PairOf(row)) == 0
    ensures forall i, j | 0 <= i < j < |Pairs(rows + [row])| :: Pairs(rows + [row])[i] != Pairs(rows + [row])[j]
  {
    PairsAreCounted(rows);
    PairsAreCounted(rows + [row]);
    assert (rows + [row])[..|rows|] == rows;
    assert Pairs(rows) + [] == Pairs(rows);
  }

  lemma {:induction false} TotalOfPairs(rows: seq<Activation>)
    ensures Total(rows, Pairs(rows)) == UsableRows(rows)
  {
    if |rows| > 0 {
      var init, last := rows[..|rows| - 1], rows[|rows| - 1];
      assert rows == init + [last];
      TotalOfPairs(init);
      PairsSnoc(init, last);
      TotalGrows(init, last, Pairs(rows));
      TotalSnoc(init, Pairs(init), PairOf(last));
    }
  }

  lemma {:induction false} TotalOfInsert(rows: seq<Activation>, p: Pair, ps: seq<Pair>)
    ensures Total(rows, Insert(p, ps, (p: Pair) => p, PairLe)) == Count(rows, p) + Total(rows, ps)
  {
    if |ps| > 0 && !PairLe(p, ps[0]) {
      TotalOfInsert(rows, p, ps[1..]);
    }
  }

  lemma {:induction false} TotalOfSort(rows: seq<Activation>, ps: seq<Pair>)
    ensures Total(rows, Sort(ps, (p: Pair) => p, PairLe)) == Total(rows, ps)
  {
    if |ps| > 0 {
      TotalOfSort(rows, ps[1..]);
      TotalOfInsert(rows, ps[0], Sort(ps[1..], (p: Pair) => p, PairLe));
    }
  }

  /** Conservation: the weights of the drawn edges add up to the activations with both ids. */
  lemma WeightsSumToActivations(rows: seq<Activation>)
    ensures Total(rows, SortedPairs(rows)) == UsableRows(rows)
  {
    TotalOfPairs(rows);
    TotalOfSort(rows, Pairs(rows));
  }

  // ---- The statements, spelled out ----

  lemma {:induction false} ConcernStmtsExactly(concerns: seq<ConcernRow>, caption: ConcernRow -> string, s: Stmt)
    ensures s in ConcernStmts(concerns, caption) <==>
            exists c | c in concerns :: c.id != "" && s == Node(ConcernRef(c.id), Box, caption(c))
  {
    if |concerns| > 0 {
      var init, last := concerns[..|concerns| - 1], concerns[|concerns| - 1];
      ConcernStmtsExactly(init, caption, s);
      assert concerns == init + [last];
    }
  }

  lemma {:induction false} NamedByRows(rows: seq<Activation>, n: string)
    ensures n in ConcernsIn(rows) <==> exists r | r in rows :: Usable(r) && r.concernId == n
    ensures n in JoinpointsIn(rows) <==> exists r | r in rows :: Usable(r) && r.joinpointId == n
  {
    if |rows| > 0 {
      var init, last := rows[..|rows| - 1], rows[|rows| - 1];
      NamedByRows(init, n);
      assert rows == init + [last];
    }
  }

  /** A dashed stub for a concern that the snapshot does not know, or an oval for a joinpoint. */
  predicate DrawnFor(known: set<string>, rows: seq<Activation>, s: Stmt) {
    || (exists n | n in ConcernsIn(rows) :: n !in known && s == Node(ConcernRef(n), Dashed, n))
    || (exists n | n in JoinpointsIn(rows) :: s == Node(JoinpointRef(n), Oval, n))
  }

  lemma DrawnStep(known: set<string>, rows: seq<Activation>, row: Activation, s: Stmt)
    ensures DrawnFor(known, rows + [row], s) <==> DrawnFor(known, rows, s) || s in Declared(known, rows, row)
  {
    NamesStep(rows, row);
  }

  lemma {:induction false} RowStmtsExactly(known: set<string>, rows: seq<Activation>, s: Stmt)
    ensures s in RowStmts(known, rows) <==> DrawnFor(known, rows, s)
  {
    if |rows| > 0 {
      var init, last := rows[..|rows| - 1], rows[|rows| - 1];
      RowStmtsExactly(known, init, s);
      DrawnStep(known, init, last, s);
      assert rows == init + [last];
    }
  }

  /** A boxed node shows a concern of the snapshot, by its name or else its id, and below it its state or a question
      mark; a dashed one shows the id of a concern that only an activation names; and an oval shows a joinpoint. */
  lemma NodesExactly(concerns: seq<ConcernRow>, rows: seq<Activation>, show: nat -> string, node: Ref, style: Style,
        caption: string)
    ensures Node(node, style, caption) in Statements(concerns, rows, show) <==>
            match style
            case Box => exists c | c in concerns ::
              && c.id != "" && node == ConcernRef(c.id)
              && caption ==
                 (if c.name == "" then c.id else c.name) + "\n(" + (if c.state == "" then "?" else c.state) + ")"
            case Dashed => exists r | r in rows ::
              && r.concernId != "" && r.joinpointId != "" && node == ConcernRef(r.concernId) && caption == r.concernId
              && forall c | c in concerns :: c.id != r.concernId
            case Oval => exists r | r in rows ::
              && r.concernId != "" && r.joinpointId != ""
              && node == JoinpointRef(r.joinpointId) && caption == r.joinpointId
  {
    var s, edges := Node(node, style, caption), EdgeStmts(rows, SortedPairs(rows), show);
    MapAt(SortedPairs(rows), p => EdgeOf(rows, p, show));
    assert s !in edges;
    ConcernStmtsExactly(concerns, Caption, s);
    RowStmtsExactly(Ids(concerns), rows, s);
    NamedByRows(rows, node.name);
    KnownIds(concerns, node.name);
  }

  lemma KnownIds(concerns: seq<ConcernRow>, n: string)
    ensures n != "" ==> (n in Ids(concerns) <==> exists c | c in concerns :: c.id == n)
  {
    IdsAreTheIds(concerns, n);
    if c :| c in concerns && c.id == n {
      var i :| 0 <= i < |concerns| && concerns[i] == c;
    }
  }

  lemma {:induction false} CountIsMultiplicity(rows: seq<Activation>, p: Pair)
    ensures Count(rows, p) == if p.0 != "" && p.1 != "" then multiset(rows)[Activation(p.1, p.0)] else 0
  {
    if |rows| > 0 {
      var init, last := rows[..|rows| - 1], rows[|rows| - 1];
      CountIsMultiplicity(init, p);
      assert rows == init + [last];
    }
  }

  /** An edge goes from a joinpoint to a concern that some activation names together, and is labelled with the number of
      such activations when there is more than one. */
  lemma EdgesExactly(concerns: seq<ConcernRow>, rows: seq<Activation>, show: nat -> string, j: string, c: string,
        weight: Option<string>)
    ensures var n := multiset(rows)[Activation(c, j)];
            Edge(JoinpointRef(j), ConcernRef(c), weight) in Statements(concerns, rows, show) <==>
            j != "" && c != "" && n > 0 && weight == if n == 1 then None else Some(show(n))
  {
    var e, ps := Edge(JoinpointRef(j), ConcernRef(c), weight), SortedPairs(rows);
    var edges := EdgeStmts(rows, ps, show);
    ConcernStmtsExactly(concerns, Caption, e);
    RowStmtsExactly(Ids(concerns), rows, e);
    MapAt(ps, p => EdgeOf(rows, p, show));
    SortedPairsAreCounted(rows);
    CountIsMultiplicity(rows, (j, c));
    if e in edges {
      var i :| 0 <= i < |edges| && edges[i] == e;
      assert EdgeOf(rows, ps[i], show) == e && ps[i] in ps;
    }
    if (j, c) in ps {
      var i :| 0 <= i < |ps| && ps[i] == (j, c);
      assert edges[i] == EdgeOf(rows, (j, c), show);
    }
  }

  predicate NothingToEscape(text: string) {
    forall i | 0 <= i < |text| :: text[i] != '\\' && text[i] != '"' && text[i] != '\n'
  }

  lemma {:induction false} PlainEscape(text: string)
    requires NothingToEscape(text)
    ensures Escape(text) == text
  {
    if |text| > 0 {
      assert text == [text[0]] + text[1..];
      PlainEscape(text[1..]);
    }
  }

  function InQuotes(text: string): string { "\"" + text + "\"" }

  lemma QuotedPlain(text: string)
    requires NothingToEscape(text)
    ensures Quote(text) == InQuotes(text)
  {
    QuoteIsOnePass(text);
    PlainEscape(text);
  }

  /** The printed nodes, for names and captions without anything to escape. */
  lemma PlainNodes(name: string, caption: string)
    requires NothingToEscape("c:" + name) && NothingToEscape("j:" + name) && NothingToEscape(caption)
    ensures Render(Node(ConcernRef(name), Box, caption)) ==
            "  " + (InQuotes("c:" + name) + (" [shape=box, label=" + (InQuotes(caption) + "];")))
    ensures Render(Node(ConcernRef(name), Dashed, caption)) ==
            "  " + (InQuotes("c:" + name) + (" [shape=box, style=dashed, label=" + (InQuotes(caption) + "];")))
    ensures Render(Node(JoinpointRef(name), Oval, caption)) ==
            "  " + (InQuotes("j:" + name) + (" [shape=oval, label=" + (InQuotes(caption) + "];")))
  {
    QuotedPlain("c:" + name);
    QuotedPlain("j:" + name);
    QuotedPlain(caption);
  }

  /** The printed edges, for names and counts without anything to escape. */
  lemma PlainEdges(joinpoint: string, concern: string, count: string)
    requires NothingToEscape("j:" + joinpoint) && NothingToEscape("c:" + concern) && NothingToEscape(count)
    ensures Render(Edge(JoinpointRef(joinpoint), ConcernRef(concern), None)) ==
            "  " + (InQuotes("j:" + joinpoint) + (" -> " + (InQuotes("c:" + concern) + ";")))
    ensures Render(Edge(JoinpointRef(joinpoint), ConcernRef(concern), Some(count))) ==
            "  " + (InQuotes("j:" + joinpoint) + (" -> " +
              (InQuotes("c:" + concern) + (" [label=" + (InQuotes(count) + "];")))))
  {
    QuotedPlain("j:" + joinpoint);
    QuotedPlain("c:" + concern);
    QuotedPlain(count);
  }
}
