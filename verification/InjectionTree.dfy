/** What an injection row does to a host context, as a function on trees (the meaning of injector.py). */
module InjectionTree {
  import opened Options
  import opened Strings

  /** A JSON-shaped host value: a string, a dict, or anything else (of which only the truth value matters). */
  datatype Tree = Text(s: string) | Other(truthy: bool, tag: int) | Dict(entries: map<string, Tree>)

  datatype Row = Row(target: string, mode: string, content: string)

  const OVERWRITE_MODES: set<string> := {"replace", "rewrite", "compress"}
  const BLOCK_MODES: set<string> := {"suppress", "block", "escalate"}

  // ---- Targets ----

  function FirstDot(s: string): (k: nat)
    ensures k <= |s|
    ensures k < |s| ==> s[k] == '.'
    ensures forall i | 0 <= i < k :: s[i] != '.'
  {
    if |s| == 0 || s[0] == '.' then 0 else 1 + FirstDot(s[1..])
  }

  /** The non-empty pieces between the dots. */
  function Segments(target: string): seq<string>
    decreases |target|
  {
    if |target| == 0 then []
    else
      var k := FirstDot(target);
      (if k == 0 then [] else [target[..k]]) + if k < |target| then Segments(target[k + 1..]) else []
  }

  lemma {:induction false} SegmentsOfDotted(a: string, b: string)
    ensures Segments(a + "." + b) == Segments(a) + Segments(b)
    decreases |a|
  {
    var whole := a + "." + b;
    var k := FirstDot(a);
    if k == |a| {
      FirstDotOfPlain(a, b);
      assert whole[..k] == a && whole[k + 1..] == b;
      assert |a| > 0 ==> a[..k] == a;
    } else {
      FirstDotOfPrefix(a, "." + b);
      assert whole == a + ("." + b);
      assert whole[k + 1..] == a[k + 1..] + "." + b && whole[..k] == a[..k];
      SegmentsOfDotted(a[k + 1..], b);
    }
  }

  lemma FirstDotIs(s: string, k: nat)
    requires k < |s| && s[k] == '.' && forall i | 0 <= i < k :: s[i] != '.'
    ensures FirstDot(s) == k
  {
    assert FirstDot(s) >= k;
  }

  lemma FirstDotOfPlain(a: string, b: string)
    requires FirstDot(a) == |a|
    ensures FirstDot(a + "." + b) == |a|
  {
    FirstDotIs(a + "." + b, |a|);
  }

  lemma FirstDotOfPrefix(a: string, b: string)
    requires FirstDot(a) < |a|
    ensures FirstDot(a + b) == FirstDot(a)
  {
    FirstDotIs(a + b, FirstDot(a));
  }

  // ---- Writing one row ----

  predicate Overwrites(mode: string) { mode in OVERWRITE_MODES || mode in BLOCK_MODES }

  /** The text a leaf holds after the row: the content, after the old text when the mode appends. */
  function LeafText(row: Row, cur: Option<Tree>): string {
    if !Overwrites(row.mode) && cur.Some? && cur.value.Text? && cur.value.s != "" then
      cur.value.s + "\n" + row.content
    else row.content
  }

  function EntryOf(t: Tree, key: string): Option<Tree> {
    if t.Dict? && key in t.entries then Some(t.entries[key]) else None
  }

  /** The dict at `key`, or the empty dict the walk puts there. */
  function DictAt(t: Tree, key: string): Tree {
    if EntryOf(t, key).Some? && EntryOf(t, key).value.Dict? then t.entries[key] else Dict(map[])
  }

  function Write(t: Tree, segs: seq<string>, row: Row): Tree
    decreases |segs|
  {
    if !t.Dict? || |segs| == 0 then t
    else if segs[0] == "*" then
      if |segs| > 1 then
        Dict(map k | k in t.entries :: if t.entries[k].Dict? then Write(t.entries[k], segs[1..], row) else t.entries[k])
      else Dict(map k | k in t.entries :: Text(LeafText(row, Some(t.entries[k]))))
    else if |segs| == 1 then Dict(t.entries[segs[0] := Text(LeafText(row, EntryOf(t, segs[0])))])
    else Dict(t.entries[segs[0] := Write(DictAt(t, segs[0]), segs[1..], row)])
  }

  /** The entries half-way through a trailing wildcard: the keys in `todo` are still to be written. */
  function LeavesWritten(entries: map<string, Tree>, todo: set<string>, row: Row): map<string, Tree> {
    map k | k in entries :: if k in todo then entries[k] else Text(LeafText(row, Some(entries[k])))
  }

  lemma LeavesWrittenStep(entries: map<string, Tree>, todo: set<string>, key: string, row: Row)
    requires key in todo && key in entries
    ensures LeavesWritten(entries, todo - {key}, row) ==
            LeavesWritten(entries, todo, row)[key := Text(LeafText(row, Some(entries[key])))]
  {
  }

  lemma LeavesWrittenEnds(entries: map<string, Tree>, row: Row)
    ensures LeavesWritten(entries, entries.Keys, row) == entries
    ensures Write(Dict(entries), ["*"], row) == Dict(LeavesWritten(entries, {}, row))
  {
  }

  /** The entries half-way through a mid-path wildcard. */
  function ChildrenWritten(
    entries: map<string, Tree>, todo: set<string>, rest: seq<string>, row: Row): map<string, Tree>
  {
    map k | k in entries :: if k in todo || !entries[k].Dict? then entries[k] else Write(entries[k], rest, row)
  }

  lemma ChildrenWrittenStep(entries: map<string, Tree>, todo: set<string>, key: string, rest: seq<string>, row: Row)
    requires key in todo && key in entries
    ensures ChildrenWritten(entries, todo - {key}, rest, row) ==
            if entries[key].Dict? then ChildrenWritten(entries, todo, rest, row)[key := Write(entries[key], rest, row)]
            else ChildrenWritten(entries, todo, rest, row)
  {
  }

  lemma ChildrenWrittenEnds(entries: map<string, Tree>, rest: seq<string>, row: Row)
    requires |rest| > 0
    ensures ChildrenWritten(entries, entries.Keys, rest, row) == entries
    ensures Write(Dict(entries), ["*"] + rest, row) == Dict(ChildrenWritten(entries, {}, rest, row))
  {
    assert (["*"] + rest)[1..] == rest;
  }

  predicate Skipped(row: Row, promptEnabled: bool) {
    (!promptEnabled && "runtime_prompt." <= row.target) || |Segments(row.target)| == 0
  }

  function ApplyRow(t: Tree, row: Row, promptEnabled: bool): Tree {
    if Skipped(row, promptEnabled) then t else Write(t, Segments(row.target), row)
  }

  function ApplyRows(t: Tree, rows: seq<Row>, promptEnabled: bool): Tree {
    if |rows| == 0 then t
    else ApplyRow(ApplyRows(t, rows[..|rows| - 1], promptEnabled), rows[|rows| - 1], promptEnabled)
  }

  /** Applying two row lists one after the other is applying their concatenation. */
  lemma {:induction false} ApplyRowsConcat(t: Tree, first: seq<Row>, second: seq<Row>, promptEnabled: bool)
    ensures ApplyRows(t, first + second, promptEnabled) ==
            ApplyRows(ApplyRows(t, first, promptEnabled), second, promptEnabled)
  {
    if |second| == 0 {
      assert first + second == first;
    } else {
      var init := second[..|second| - 1];
      ApplyRowsConcat(t, first, init, promptEnabled);
      assert (first + second)[..|first + second| - 1] == first + init;
    }
  }

  // ---- What a write changes, path by path ----

  function Lookup(t: Tree, path: seq<string>): Option<Tree> {
    if |path| == 0 then Some(t)
    else if t.Dict? && path[0] in t.entries then Lookup(t.entries[path[0]], path[1..])
    else None
  }

  /** The target reaches this path: literal segments agree, and what a `*` stands for exists already. */
  predicate Hits(t: Tree, segs: seq<string>, path: seq<string>)
    decreases |segs|
  {
    && |path| == |segs| > 0
    && t.Dict?
    && if segs[0] == "*" then
         path[0] in t.entries &&
         (|segs| == 1 || (t.entries[path[0]].Dict? && Hits(t.entries[path[0]], segs[1..], path[1..])))
       else
         path[0] == segs[0] && (|segs| == 1 || Hits(DictAt(t, segs[0]), segs[1..], path[1..]))
  }

  lemma LookupInEmpty(path: seq<string>)
    requires |path| > 0
    ensures Lookup(Dict(map[]), path) == None
  {
  }

  /** Paths as long as the target or longer: a reached path holds the new text and nothing lies below it; every
      other such path is as it was. */
  lemma {:induction false} WriteAtDepth(t: Tree, segs: seq<string>, row: Row, path: seq<string>)
    requires |path| >= |segs| > 0
    ensures Lookup(Write(t, segs, row), path) ==
            if !Hits(t, segs, path[..|segs|]) then Lookup(t, path)
            else if |path| == |segs| then Some(Text(LeafText(row, Lookup(t, path))))
            else None
    decreases |segs|
  {
    if t.Dict? {
      var after := Write(t, segs, row);
      if |segs| == 1 {
        assert path[1..] == [] || |path| > 1;
      } else {
        assert path[..|segs|][1..] == path[1..][..|segs| - 1];
        if segs[0] == "*" {
          if path[0] in t.entries && t.entries[path[0]].Dict? {
            WriteAtDepth(t.entries[path[0]], segs[1..], row, path[1..]);
          }
        } else if path[0] == segs[0] {
          WriteAtDepth(DictAt(t, segs[0]), segs[1..], row, path[1..]);
          LookupInEmpty(path[1..]);
        }
      }
    }
  }

  /** The target and the path agree as far as both go. */
  predicate Touches(segs: seq<string>, path: seq<string>) {
    forall i | 0 <= i < |segs| && i < |path| :: segs[i] == "*" || segs[i] == path[i]
  }

  /** The frame: a path that leaves the target at a literal segment keeps its value. */
  lemma {:induction false} WriteFrame(t: Tree, segs: seq<string>, row: Row, path: seq<string>)
    requires !Touches(segs, path)
    ensures Lookup(Write(t, segs, row), path) == Lookup(t, path)
    decreases |segs|
  {
    if t.Dict? && (segs[0] == "*" || segs[0] == path[0]) {
      assert |segs| > 1 && |path| > 1 && !Touches(segs[1..], path[1..]) by {
        var i :| 0 <= i < |segs| && i < |path| && segs[i] != "*" && segs[i] != path[i];
        assert segs[1..][i - 1] == segs[i] && path[1..][i - 1] == path[i];
      }
      if segs[0] == "*" {
        if path[0] in t.entries && t.entries[path[0]].Dict? {
          WriteFrame(t.entries[path[0]], segs[1..], row, path[1..]);
        }
      } else {
        WriteFrame(DictAt(t, segs[0]), segs[1..], row, path[1..]);
        LookupInEmpty(path[1..]);
      }
    }
  }

  /** Every proper literal prefix of the target is a dict afterwards, even when it was missing or not a dict. */
  lemma {:induction false} LiteralPrefixBecomesDict(t: Tree, segs: seq<string>, row: Row, n: nat)
    requires t.Dict? && n < |segs| && forall i | 0 <= i < n :: segs[i] != "*"
    ensures Lookup(Write(t, segs, row), segs[..n]).Some? && Lookup(Write(t, segs, row), segs[..n]).value.Dict?
    decreases |segs|
  {
    if n > 0 {
      LiteralPrefixBecomesDict(DictAt(t, segs[0]), segs[1..], row, n - 1);
      assert segs[..n][1..] == segs[1..][..n - 1];
    }
  }

  /** Nothing lies under the path: it is missing, holds no dict, or holds an empty one. */
  predicate Barren(t: Tree, path: seq<string>) {
    var was := Lookup(t, path);
    was.None? || !was.value.Dict? || was.value.entries == map[]
  }

  predicate Literal(segs: seq<string>) { forall i | 0 <= i < |segs| :: segs[i] != "*" }

  lemma WildcardKeepsKeys(t: Tree, rest: seq<string>, row: Row)
    requires t.Dict?
    ensures Write(t, ["*"] + rest, row).Dict?
    ensures Write(t, ["*"] + rest, row).entries.Keys == t.entries.Keys
  {
  }

  lemma NoKeysNoEntries(m: map<string, Tree>, n: map<string, Tree>)
    requires m.Keys == n.Keys
    ensures m == map[] <==> n == map[]
  {
    assert m.Keys == {} ==> m == map[];
    assert n.Keys == {} ==> n == map[];
  }

  lemma LookupInDictAt(t: Tree, key: string, path: seq<string>)
    requires t.Dict? && |path| > 0
    ensures Lookup(t, [key] + path) == Lookup(DictAt(t, key), path)
  {
    assert ([key] + path)[1..] == path && ([key] + path)[0] == key;
    LookupInEmpty(path);
    if key in t.entries {
      assert Lookup(t, [key] + path) == Lookup(t.entries[key], path);
    }
  }

  /** Below a literal segment the walk goes on in the dict there, or in a new one. */
  lemma LookupBelow(t: Tree, key: string, path: seq<string>)
    requires t.Dict?
    ensures Barren(t, [key] + path) <==> Barren(DictAt(t, key), path)
  {
    if |path| == 0 {
      assert [key] + path == [key] && [key][1..] == [];
      assert Lookup(t, [key]) == EntryOf(t, key);
    } else {
      LookupInDictAt(t, key, path);
    }
  }

  /** A wildcard under a parent with nothing in it leaves an empty dict there, whatever the parent was and however deep
      it lies; a text or a number at the parent is lost. */
  lemma {:induction false} EmptyDictLeftBehind(t: Tree, parent: seq<string>, rest: seq<string>, row: Row)
    requires t.Dict? && Literal(parent)
    ensures Lookup(Write(t, parent + ["*"] + rest, row), parent) == Some(Dict(map[])) <==> Barren(t, parent)
    decreases |parent|
  {
    var segs := parent + ["*"] + rest;
    if |parent| == 0 {
      assert segs == ["*"] + rest;
      WildcardKeepsKeys(t, rest, row);
      NoKeysNoEntries(Write(t, segs, row).entries, t.entries);
    } else {
      var below := parent[1..];
      assert segs[1..] == below + ["*"] + rest && parent == [parent[0]] + below;
      EmptyDictLeftBehind(DictAt(t, parent[0]), below, rest, row);
      LookupBelow(t, parent[0], below);
    }
  }

  /** So a row under such a parent is dropped, in the sense that the context stays as it was, if and only if an empty
      dict stood there already. */
  lemma {:induction false} BarrenRowDroppedExactlyWhen(t: Tree, parent: seq<string>, rest: seq<string>, row: Row)
    requires t.Dict? && Literal(parent) && Barren(t, parent)
    ensures Write(t, parent + ["*"] + rest, row) == t <==> Lookup(t, parent) == Some(Dict(map[]))
  {
    EmptyDictLeftBehind(t, parent, rest, row);
    if Lookup(t, parent) == Some(Dict(map[])) {
      EmptyParentStays(t, parent, rest, row);
    }
  }

  lemma {:induction false} EmptyParentStays(t: Tree, parent: seq<string>, rest: seq<string>, row: Row)
    requires t.Dict? && Literal(parent) && Lookup(t, parent) == Some(Dict(map[]))
    ensures Write(t, parent + ["*"] + rest, row) == t
  {
    var segs := parent + ["*"] + rest;
    if |parent| == 0 {
      assert segs == ["*"] + rest;
      WildcardKeepsKeys(t, rest, row);
      NoKeysNoEntries(Write(t, segs, row).entries, t.entries);
    } else {
      var child := t.entries[parent[0]];
      assert segs[1..] == parent[1..] + ["*"] + rest;
      EmptyParentStays(child, parent[1..], rest, row);
      assert t.entries[parent[0] := child] == t.entries;
    }
  }

  // ---- Paths shorter than the target ----

  /** The walk comes by this path: literal segments agree, and what a `*` stands for exists already. */
  predicate Reaches(t: Tree, segs: seq<string>, path: seq<string>)
    requires |path| <= |segs|
    decreases |segs|
  {
    |path| == 0 ||
    (t.Dict? && if segs[0] == "*" then path[0] in t.entries && Reaches(t.entries[path[0]], segs[1..], path[1..])
                else path[0] == segs[0] && Reaches(DictAt(t, segs[0]), segs[1..], path[1..]))
  }

  /** What the walk finds there: what the tree held, or the empty dict that a literal segment puts in place of
      anything else. */
  function Found(t: Tree, segs: seq<string>, path: seq<string>): Tree
    requires |path| <= |segs|
  {
    var was := Lookup(t, path);
    if was.Some? && (was.value.Dict? || |path| == 0 || segs[|path| - 1] == "*") then was.value else Dict(map[])
  }

  lemma FoundBelow(t: Tree, child: Tree, segs: seq<string>, path: seq<string>)
    requires 0 < |path| <= |segs| && t.Dict?
    requires if segs[0] == "*" then path[0] in t.entries && child == t.entries[path[0]]
             else path[0] == segs[0] && child == DictAt(t, segs[0])
    requires |path| > 1 ==> child.Dict?
    ensures Found(t, segs, path) == Found(child, segs[1..], path[1..])
  {
    if |path| == 1 {
      assert path[1..] == [] && (path[0] in t.entries ==> Lookup(t, path) == Some(t.entries[path[0]]));
    } else {
      assert segs[1..][|path| - 2] == segs[|path| - 1] && path == [path[0]] + path[1..];
      LookupInDictAt(t, path[0], path[1..]);
    }
  }

  /** Paths shorter than the target: where the walk comes by, what it finds is written with the rest of the target;
      every other such path is as it was. */
  lemma {:induction false} WriteAboveDepth(t: Tree, segs: seq<string>, row: Row, path: seq<string>)
    requires |path| < |segs|
    ensures Lookup(Write(t, segs, row), path) ==
            if Reaches(t, segs, path) then Some(Write(Found(t, segs, path), segs[|path|..], row)) else Lookup(t, path)
    decreases |segs|
  {
    if |path| == 0 {
      assert segs[0..] == segs;
    } else if t.Dict? {
      assert segs[1..][|path| - 1..] == segs[|path|..];
      if segs[0] == "*" {
        if path[0] in t.entries {
          WriteAboveDepth(t.entries[path[0]], segs[1..], row, path[1..]);
          if Reaches(t.entries[path[0]], segs[1..], path[1..]) {
            FoundBelow(t, t.entries[path[0]], segs, path);
          }
        }
      } else if path[0] == segs[0] {
        WriteAboveDepth(DictAt(t, segs[0]), segs[1..], row, path[1..]);
        FoundBelow(t, DictAt(t, segs[0]), segs, path);
        if |path| > 1 {
          LookupInEmpty(path[1..]);
        }
      }
    }
  }

  /** No key named `*` ever appears. */
  lemma {:induction false} NoNewStarKey(t: Tree, segs: seq<string>, row: Row, path: seq<string>)
    requires |path| > 0 && path[|path| - 1] == "*"
    ensures Lookup(Write(t, segs, row), path).Some? ==> Lookup(t, path).Some?
    decreases |segs|
  {
    if t.Dict? && |segs| > 0 {
      var after := Write(t, segs, row);
      if |path| == 1 {
        assert path[0] in after.entries ==> path[0] in t.entries;
        assert Lookup(after, path).Some? <==> path[0] in after.entries;
      } else if |segs| == 1 {
        if path[0] in after.entries && after.entries[path[0]].Text? {
          assert Lookup(after.entries[path[0]], path[1..]) == None;
        }
      } else {
        assert path[1..][|path| - 2] == path[|path| - 1];
        if segs[0] == "*" {
          if path[0] in t.entries && t.entries[path[0]].Dict? {
            NoNewStarKey(t.entries[path[0]], segs[1..], row, path[1..]);
          }
        } else if path[0] == segs[0] {
          NoNewStarKey(DictAt(t, segs[0]), segs[1..], row, path[1..]);
          LookupInEmpty(path[1..]);
        }
      }
    }
  }

  lemma {:induction false} NoNewStarKeyInRun(t: Tree, rows: seq<Row>, promptEnabled: bool, path: seq<string>)
    requires |path| > 0 && path[|path| - 1] == "*"
    ensures Lookup(ApplyRows(t, rows, promptEnabled), path).Some? ==> Lookup(t, path).Some?
  {
    if |rows| > 0 {
      var row := rows[|rows| - 1];
      NoNewStarKeyInRun(t, rows[..|rows| - 1], promptEnabled, path);
      NoNewStarKey(ApplyRows(t, rows[..|rows| - 1], promptEnabled), Segments(row.target), row, path);
    }
  }

  /** A path that no row of the list touches keeps its value. */
  lemma {:induction false} RunFrame(t: Tree, rows: seq<Row>, promptEnabled: bool, path: seq<string>)
    requires forall i | 0 <= i < |rows| :: !Touches(Segments(rows[i].target), path)
    ensures Lookup(ApplyRows(t, rows, promptEnabled), path) == Lookup(t, path)
  {
    if |rows| > 0 {
      var row := rows[|rows| - 1];
      RunFrame(t, rows[..|rows| - 1], promptEnabled, path);
      WriteFrame(ApplyRows(t, rows[..|rows| - 1], promptEnabled), Segments(row.target), row, path);
    }
  }

  // ---- What a reached path holds afterwards ----

  /** A row whose mode neither overwrites nor blocks puts its content on a new line below a text that is there; every
      other row, and every row on a path without a text, leaves its content alone. */
  lemma ReachedPathHolds(t: Tree, segs: seq<string>, row: Row, path: seq<string>)
    requires Hits(t, segs, path)
    ensures var was := Lookup(t, path);
            Lookup(Write(t, segs, row), path) ==
            if was.Some? && was.value.Text? && was.value.s != "" &&
               row.mode !in {"replace", "rewrite", "compress", "suppress", "block", "escalate"}
            then Some(Text(was.value.s + "\n" + row.content))
            else Some(Text(row.content))
  {
    assert path[..|segs|] == path;
    WriteAtDepth(t, segs, row, path);
  }

  /** What a wildcard stands for at place `i` of the path is there, and is a dict if the target goes on. */
  predicate StandsForOne(t: Tree, segs: seq<string>, path: seq<string>, i: nat)
    requires i < |segs| && i < |path|
  {
    var was := Lookup(t, path[..i + 1]);
    segs[i] == "*" ==> was.Some? && (i + 1 < |segs| ==> was.value.Dict?)
  }

  lemma StandsBelow(t: Tree, child: Tree, segs: seq<string>, path: seq<string>, i: nat)
    requires 0 < i < |segs| == |path| && t.Dict?
    requires child == if segs[0] == "*" && path[0] in t.entries then t.entries[path[0]] else DictAt(t, path[0])
    ensures StandsForOne(t, segs, path, i) <==> StandsForOne(child, segs[1..], path[1..], i - 1)
  {
    var below := path[1..][..i];
    assert path[..i + 1] == [path[0]] + below && segs[1..][i - 1] == segs[i];
    LookupInDictAt(t, path[0], below);
    if path[0] in t.entries {
      assert path[..i + 1][1..] == below;
      assert Lookup(t, path[..i + 1]) == Lookup(t.entries[path[0]], below);
    }
  }

  lemma FirstStands(t: Tree, segs: seq<string>, path: seq<string>)
    requires 0 < |segs| == |path| && t.Dict?
    ensures StandsForOne(t, segs, path, 0) <==>
            (segs[0] == "*" ==> path[0] in t.entries && (|segs| > 1 ==> t.entries[path[0]].Dict?))
  {
    assert path[..1] == [path[0]];
    assert [path[0]][1..] == [];
    assert Lookup(t, [path[0]]) == EntryOf(t, path[0]);
  }

  /** A target reaches the paths of its own length that agree with its literal segments and on which everything that a
      wildcard stands for is there, a dict wherever the target goes on. */
  lemma {:induction false} ReachedExactly(t: Tree, segs: seq<string>, path: seq<string>)
    requires |segs| > 0 && |path| == |segs|
    ensures Hits(t, segs, path) <==>
            && t.Dict? && (forall i | 0 <= i < |segs| :: segs[i] == "*" || segs[i] == path[i])
            && forall i: nat | i < |segs| :: StandsForOne(t, segs, path, i)
    decreases |segs|
  {
    if t.Dict? {
      FirstStands(t, segs, path);
      if |segs| > 1 && (segs[0] == "*" ==> path[0] in t.entries && t.entries[path[0]].Dict?) {
        var child := if segs[0] == "*" then t.entries[path[0]] else DictAt(t, path[0]);
        ReachedExactly(child, segs[1..], path[1..]);
        assert (forall i | 0 <= i < |segs| :: segs[i] == "*" || segs[i] == path[i]) <==>
               (segs[0] == "*" || segs[0] == path[0]) &&
               forall i | 0 <= i < |segs| - 1 :: segs[1..][i] == "*" || segs[1..][i] == path[1..][i];
        forall i: nat | 0 < i < |segs|
          ensures StandsForOne(t, segs, path, i) <==> StandsForOne(child, segs[1..], path[1..], i - 1)
        {
          StandsBelow(t, child, segs, path, i);
        }
        StandsFromSecond(t, child, segs, path);
      }
    }
  }

  lemma StandsFromSecond(t: Tree, child: Tree, segs: seq<string>, path: seq<string>)
    requires 1 < |segs| == |path|
    requires forall i: nat | 0 < i < |segs| ::
               StandsForOne(t, segs, path, i) <==> StandsForOne(child, segs[1..], path[1..], i - 1)
    ensures (forall i: nat | i < |segs| :: StandsForOne(t, segs, path, i)) <==>
            StandsForOne(t, segs, path, 0) &&
            forall i: nat | i < |segs| - 1 :: StandsForOne(child, segs[1..], path[1..], i)
  {
    if StandsForOne(t, segs, path, 0) &&
       forall i: nat | i < |segs| - 1 :: StandsForOne(child, segs[1..], path[1..], i) {
      forall i: nat | i < |segs|
        ensures StandsForOne(t, segs, path, i)
      {
        assert i > 0 ==> StandsForOne(child, segs[1..], path[1..], i - 1);
      }
    }
    if forall i: nat | i < |segs| :: StandsForOne(t, segs, path, i) {
      forall i: nat | i < |segs| - 1
        ensures StandsForOne(child, segs[1..], path[1..], i)
      {
        assert StandsForOne(t, segs, path, i + 1);
      }
    }
  }

  lemma {:induction false} LiteralPathIsReached(t: Tree, path: seq<string>)
    requires t.Dict? && |path| > 0 && Literal(path)
    ensures Hits(t, path, path)
    decreases |path|
  {
    if |path| > 1 {
      LiteralPathIsReached(DictAt(t, path[0]), path[1..]);
    }
  }

  lemma {:induction false} RunKeepsRoot(t: Tree, rows: seq<Row>, promptEnabled: bool)
    requires t.Dict?
    ensures ApplyRows(t, rows, promptEnabled).Dict?
  {
    if |rows| > 0 {
      RunKeepsRoot(t, rows[..|rows| - 1], promptEnabled);
    }
  }

  /** The row takes part in the run and its target is this path. */
  predicate Addresses(row: Row, promptEnabled: bool, path: seq<string>) {
    !Skipped(row, promptEnabled) && Segments(row.target) == path
  }

  /** The contents of the rows that address the path, in row order. */
  function ContentsFor(rows: seq<Row>, promptEnabled: bool, path: seq<string>): seq<string> {
    if |rows| == 0 then []
    else
      var row := rows[|rows| - 1];
      ContentsFor(rows[..|rows| - 1], promptEnabled, path)
      + if Addresses(row, promptEnabled, path) then [row.content] else []
  }

  /** The parts from the first that is not empty. */
  function FromVisible(parts: seq<string>): seq<string> {
    if |parts| > 0 && parts[0] == "" then FromVisible(parts[1..]) else parts
  }

  /** What stands on a path that held `was` when the contents have been put there one below the other. */
  function Lines(was: Option<Tree>, contents: seq<string>): string {
    Join(FromVisible((if was.Some? && was.value.Text? then [was.value.s] else []) + contents), "\n")
  }

  lemma {:induction false} FromVisibleSnoc(parts: seq<string>, last: string)
    ensures FromVisible(parts + [last]) ==
            if FromVisible(parts) == [] then (if last == "" then [] else [last]) else FromVisible(parts) + [last]
  {
    if |parts| > 0 {
      assert (parts + [last])[1..] == parts[1..] + [last];
      FromVisibleSnoc(parts[1..], last);
    } else {
      assert parts + [last] == [last];
    }
  }

  lemma {:induction false} FromVisibleStartsVisibly(parts: seq<string>)
    ensures FromVisible(parts) != [] ==> FromVisible(parts)[0] != ""
  {
    if |parts| > 0 {
      FromVisibleStartsVisibly(parts[1..]);
    }
  }

  lemma {:induction false} JoinIsVisible(parts: seq<string>, sep: string)
    requires |parts| > 0 && parts[0] != ""
    ensures Join(parts, sep) != ""
  {
    if |parts| > 1 {
      JoinIsVisible(parts[..|parts| - 1], sep);
    }
  }

  lemma OneMoreLine(was: Option<Tree>, contents: seq<string>, content: string)
    ensures Lines(was, contents + [content]) ==
            if Lines(was, contents) == "" then content else Lines(was, contents) + "\n" + content
  {
    var parts := (if was.Some? && was.value.Text? then [was.value.s] else []) + contents;
    assert (if was.Some? && was.value.Text? then [was.value.s] else []) + (contents + [content]) == parts + [content];
    FromVisibleSnoc(parts, content);
    FromVisibleStartsVisibly(parts);
    JoinSnoc(FromVisible(parts), content, "\n");
    if FromVisible(parts) != [] {
      JoinIsVisible(FromVisible(parts), "\n");
    }
  }

  lemma LinesOfNothing(was: Option<Tree>)
    ensures Lines(was, []) == if was.Some? && was.value.Text? then was.value.s else ""
  {
    var parts := if was.Some? && was.value.Text? then [was.value.s] else [];
    assert parts + [] == parts;
    if |parts| > 0 {
      assert parts[1..] == [];
    }
  }

  /** Rows that append to one literal path, among any rows that stay clear of it, leave what the path held followed by
      all their contents, one per line and in row order; empty texts at the front leave no line. */
  lemma {:induction false} RunAppends(t: Tree, rows: seq<Row>, promptEnabled: bool, path: seq<string>)
    requires t.Dict? && |path| > 0 && Literal(path)
    requires forall i | 0 <= i < |rows| ::
               if Addresses(rows[i], promptEnabled, path) then
                 rows[i].mode !in {"replace", "rewrite", "compress", "suppress", "block", "escalate"}
               else Skipped(rows[i], promptEnabled) || !Touches(Segments(rows[i].target), path)
    ensures var was, contents := Lookup(t, path), ContentsFor(rows, promptEnabled, path);
            Lookup(ApplyRows(t, rows, promptEnabled), path) ==
            if contents == [] then was else Some(Text(Lines(was, contents)))
  {
    if |rows| > 0 {
      var init, row := rows[..|rows| - 1], rows[|rows| - 1];
      var before := ApplyRows(t, init, promptEnabled);
      RunAppends(t, init, promptEnabled, path);
      RunKeepsRoot(t, init, promptEnabled);
      if Addresses(row, promptEnabled, path) {
        LiteralPathIsReached(before, path);
        ReachedPathHolds(before, path, row, path);
        OneMoreLine(Lookup(t, path), ContentsFor(init, promptEnabled, path), row.content);
        LinesOfNothing(Lookup(t, path));
      } else {
        assert ContentsFor(rows, promptEnabled, path) == ContentsFor(init, promptEnabled, path);
        if !Skipped(row, promptEnabled) {
          WriteFrame(before, Segments(row.target), row, path);
        }
      }
    }
  }

  // ---- Which rows take part ----

  lemma FirstDotOfAll(a: string)
    requires '.' !in a
    ensures FirstDot(a) == |a|
  {
    var k := FirstDot(a);
    assert forall i | 0 <= i < |a| :: a[i] in a;
  }

  /** Dotless names joined by dots are the segments of the target. */
  lemma {:induction false} SegmentsOfJoin(names: seq<string>)
    requires forall i | 0 <= i < |names| :: names[i] != "" && '.' !in names[i]
    ensures Segments(Join(names, ".")) == names
  {
    if |names| > 0 {
      var init, last := names[..|names| - 1], names[|names| - 1];
      FirstDotOfAll(last);
      assert last[..|last|] == last;
      assert Segments(last) == [last];
      assert names == init + [last];
      if |init| > 0 {
        SegmentsOfJoin(init);
        SegmentsOfDotted(Join(init, "."), last);
      }
    }
  }

  ghost predicate BelowPrompt(target: string) { exists below: string :: target == "runtime_prompt." + below }

  lemma BelowPromptIsPrefix(target: string)
    ensures BelowPrompt(target) <==> "runtime_prompt." <= target
  {
    var prompt := "runtime_prompt.";
    if prompt <= target {
      assert target == prompt + target[|prompt|..];
    }
  }

  /** The rows that a run with the prompt switched off takes: all but those below the prompt. */
  ghost function WithoutPrompt(rows: seq<Row>): seq<Row> {
    if |rows| == 0 then []
    else
      var row := rows[|rows| - 1];
      WithoutPrompt(rows[..|rows| - 1]) + if BelowPrompt(row.target) then [] else [row]
  }

  /** Switching the prompt off is leaving out the rows below it. */
  lemma {:induction false} PromptOffDropsRows(t: Tree, rows: seq<Row>)
    ensures ApplyRows(t, rows, false) == ApplyRows(t, WithoutPrompt(rows), true)
  {
    if |rows| > 0 {
      var init, row := rows[..|rows| - 1], rows[|rows| - 1];
      PromptOffDropsRows(t, init);
      var kept := WithoutPrompt(rows);
      BelowPromptIsPrefix(row.target);
      if BelowPrompt(row.target) {
        assert kept == WithoutPrompt(init);
      } else {
        assert kept == WithoutPrompt(init) + [row];
        assert kept[..|kept| - 1] == WithoutPrompt(init);
      }
    }
  }

  /** A row with no segment in its target changes nothing, and with the prompt on every other row is written. */
  lemma RowIsWritten(t: Tree, row: Row)
    ensures Segments(row.target) == [] ==> ApplyRow(t, row, true) == t
    ensures Segments(row.target) != [] ==> ApplyRow(t, row, true) == Write(t, Segments(row.target), row)
  {
  }
}
