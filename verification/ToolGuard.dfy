/** Decoding tool-guard rows into block / notes / rewritten arguments (tool_guard.py). */
module ToolGuard {
  import opened Options
  import opened Strings
  import opened InjectionTree
  import opened Injectors

  const TOOL_CALL := "tool_call"
  const PREFIX := TOOL_CALL + "."
  const ARGUMENTS := PREFIX + "arguments"

  predicate TargetsArguments(target: string) {
    target == ARGUMENTS || ARGUMENTS + "." <= target
  }

  /** The row's target relative to the arguments; no leaf means every argument. */
  function Stripped(row: Row): Row
    requires TargetsArguments(row.target)
  {
    var remainder := StripLeft(row.target[|ARGUMENTS|..], c => c == '.');
    row.(target := if remainder == "" then "*" else remainder)
  }

  predicate Truthy(t: Tree) {
    match t
    case Text(s) => s != ""
    case Other(truthy, _) => truthy
    case Dict(entries) => entries != map[]
  }

  /** `tool_call.get("arguments", {}) or {}`; a truthy value that is no dict fails validation. */
  function ArgumentsOf(call: Tree): Option<Tree> {
    var v := EntryOf(call, "arguments");
    if v.None? || !Truthy(v.value) then Some(Dict(map[]))
    else if v.value.Dict? then v
    else None
  }

  /** A call without arguments, or with ones that count as false, is guarded with none; a dict is taken as it is; and
      anything else is refused. */
  lemma ArgumentsSpelled(call: map<string, Tree>, s: string, tag: int, entries: map<string, Tree>)
    ensures "arguments" !in call ==> ArgumentsOf(Dict(call)) == Some(Dict(map[]))
    ensures ArgumentsOf(Dict(call["arguments" := Dict(entries)])) == Some(Dict(entries))
    ensures ArgumentsOf(Dict(call["arguments" := Text("")])) == Some(Dict(map[]))
    ensures ArgumentsOf(Dict(call["arguments" := Other(false, tag)])) == Some(Dict(map[]))
    ensures ArgumentsOf(Dict(call["arguments" := Other(true, tag)])) == None
    ensures s != "" ==> ArgumentsOf(Dict(call["arguments" := Text(s)])) == None
  {
  }

  // ---- What a row list means for one call ----

  predicate IsGuardRow(row: Row) { PREFIX <= row.target }

  predicate IsBlockRow(row: Row) { IsGuardRow(row) && row.mode in BLOCK_MODES }

  predicate IsRewriteRow(row: Row) {
    IsGuardRow(row) && row.mode in OVERWRITE_MODES && TargetsArguments(row.target)
  }

  predicate IsNoteRow(row: Row) {
    IsGuardRow(row) && row.mode !in BLOCK_MODES && row.mode !in OVERWRITE_MODES
  }

  /** The rows of one sort, in order. */
  function Select(rows: seq<Row>, keep: Row -> bool): seq<Row> {
    if |rows| == 0 then []
    else
      var init := Select(rows[..|rows| - 1], keep);
      if keep(rows[|rows| - 1]) then init + [rows[|rows| - 1]] else init
  }

  function Contents(rows: seq<Row>): seq<string> {
    if |rows| == 0 then [] else Contents(rows[..|rows| - 1]) + [rows[|rows| - 1].content]
  }

  /** Blank texts before the first visible one leave no trace; everything after it is joined line by line. */
  function AfterBlanks(texts: seq<string>): seq<string> {
    if |texts| == 0 then [] else if texts[0] == "" then AfterBlanks(texts[1..]) else texts
  }

  function BlockReason(rows: seq<Row>): Option<string> {
    var blocks := Select(rows, IsBlockRow);
    if |blocks| == 0 then None else Some(Join(AfterBlanks(Contents(blocks)), "\n"))
  }

  function RewrittenArguments(args: Tree, rows: seq<Row>, promptEnabled: bool): Tree {
    if |rows| == 0 then args
    else
      var before := RewrittenArguments(args, rows[..|rows| - 1], promptEnabled);
      if IsRewriteRow(rows[|rows| - 1]) then ApplyRow(before, Stripped(rows[|rows| - 1]), promptEnabled) else before
  }

  datatype Decision = Decision(blocked: bool, blockReason: Option<string>, notes: seq<string>, arguments: Tree)

  /** The decision a row list stands for, given the arguments the call came with. */
  function Meaning(start: Tree, rows: seq<Row>, promptEnabled: bool): Decision {
    Decision(exists i | 0 <= i < |rows| :: IsBlockRow(rows[i]),
             BlockReason(rows),
             Contents(Select(rows, IsNoteRow)),
             RewrittenArguments(start, rows, promptEnabled))
  }

  /** What one row adds to a decision. */
  function Decide(row: Row, d: Decision, promptEnabled: bool): Decision {
    if IsBlockRow(row) then
      d.(blocked := true,
         blockReason := if d.blockReason.Some? && d.blockReason.value != ""
                        then Some(d.blockReason.value + "\n" + row.content) else Some(row.content))
    else if IsRewriteRow(row) then d.(arguments := ApplyRow(d.arguments, Stripped(row), promptEnabled))
    else if IsNoteRow(row) then d.(notes := d.notes + [row.content])
    else d
  }

  // ---- The guard ----

  class Outcome {
    var blocked: bool
    var blockReason: Option<string>
    var arguments: HostDict
    var notes: seq<string>

    constructor (arguments: HostDict)
      requires arguments.Valid()
      ensures this.arguments == arguments && State() == Decision(false, None, [], arguments.View())
    {
      this.arguments := arguments;
      blocked, blockReason, notes := false, None, [];
    }

    ghost function State(): Decision
      requires arguments.Valid()
      reads this, arguments, arguments.Repr
    {
      Decision(blocked, blockReason, notes, arguments.View())
    }
  }

  /** `_dispatch` with `_mutate_arguments`. */
  method Dispatch(injector: OpenClawInjector, row: Row, o: Outcome)
    requires IsGuardRow(row) && o.arguments.Valid()
    modifies o
    ensures o.arguments.Valid() && (o.arguments == old(o.arguments) || fresh(o.arguments.Repr))
    ensures o.State() == Decide(row, old(o.State()), injector.injectIntoRuntimePrompt)
  {
    var mode := row.mode;
    if mode in BLOCK_MODES {
      o.blocked := true;
      if o.blockReason.Some? && o.blockReason.value != "" {
        o.blockReason := Some(o.blockReason.value + "\n" + row.content);
      } else {
        o.blockReason := Some(row.content);
      }
      return;
    }
    if mode in OVERWRITE_MODES {
      if !TargetsArguments(row.target) {
        return;
      }
      var rewritten := MutateArguments(injector, row, o.arguments);
      o.arguments := rewritten;
      return;
    }
    o.notes := o.notes + [row.content];
  }

  method MutateArguments(injector: OpenClawInjector, row: Row, arguments: HostDict) returns (r: HostDict)
    requires arguments.Valid() && TargetsArguments(row.target)
    ensures r.Valid() && fresh(r.Repr)
    ensures r.View() == ApplyRow(arguments.View(), Stripped(row), injector.injectIntoRuntimePrompt)
  {
    var rows := [Stripped(row)];
    assert rows[..0] == [];
    r := injector.Apply(rows, arguments);
  }

  /** The loop of `guard` over the rows. */
  method DecodeRows(injector: OpenClawInjector, rows: seq<Row>, o: Outcome)
    requires o.arguments.Valid() && o.State() == Decision(false, None, [], o.arguments.View())
    modifies o
    ensures o.arguments.Valid() && (o.arguments == old(o.arguments) || fresh(o.arguments.Repr))
    ensures o.State() == Meaning(old(o.arguments.View()), rows, injector.injectIntoRuntimePrompt)
  {
    ghost var start := o.arguments.View();
    for i := 0 to |rows|
      invariant o.arguments.Valid() && (o.arguments == old(o.arguments) || fresh(o.arguments.Repr))
      invariant o.State() == Meaning(start, rows[..i], injector.injectIntoRuntimePrompt)
    {
      MeaningStep(start, rows, i, injector.injectIntoRuntimePrompt);
      if !(PREFIX <= rows[i].target) {
        continue;
      }
      Dispatch(injector, rows[i], o);
    }
    assert rows[..|rows|] == rows;
  }

  /** The copy of the arguments that the outcome starts from. */
  method StartArguments(injector: OpenClawInjector, call: HostDict) returns (args: Option<HostDict>)
    requires call.Valid()
    ensures args.Some? <==> ArgumentsOf(call.View()).Some?
    ensures args.Some? ==> args.value.Valid() && fresh(args.value.Repr)
    ensures args.Some? ==> args.value.View() == ArgumentsOf(call.View()).value
  {
    if "arguments" !in call.entries {
      var empty := new HostDict();
      return Some(empty);
    }
    var slot := call.entries["arguments"];
    assert call.View().entries["arguments"] ==
      match slot
      case TextSlot(s) => Text(s)
      case OtherSlot(truthy, tag) => Other(truthy, tag)
      case DictSlot(d) => d.View();
    if slot.DictSlot? {
      var copy := injector.DeepCopy(slot.d);
      return Some(copy);
    }
    if IsTruthySlot(slot) {
      return None;
    }
    var empty := new HostDict();
    args := Some(empty);
  }

  /** The outcome of the rows for a call that starts from `args`. */
  method Decode(injector: OpenClawInjector, rows: seq<Row>, args: HostDict) returns (o: Outcome)
    requires args.Valid()
    ensures fresh(o) && o.arguments.Valid() && (o.arguments == args || fresh(o.arguments.Repr))
    ensures o.State() == Meaning(args.View(), rows, injector.injectIntoRuntimePrompt)
  {
    o := new Outcome(args);
    DecodeRows(injector, rows, o);
  }

  /** `guard`: nothing of the caller's call is in the frame. */
  method Guard(injector: OpenClawInjector, call: HostDict, rows: seq<Row>) returns (outcome: Option<Outcome>)
    requires call.Valid()
    ensures outcome.Some? <==> ArgumentsOf(call.View()).Some?
    ensures outcome.Some? ==> fresh(outcome.value) && fresh(outcome.value.arguments.Repr)
    ensures outcome.Some? ==>
              && outcome.value.arguments.Valid()
              && outcome.value.State() ==
                 Meaning(ArgumentsOf(call.View()).value, rows, injector.injectIntoRuntimePrompt)
    ensures call.Valid() && call.View() == old(call.View())
  {
    var args := StartArguments(injector, call);
    if args.None? {
      return None;
    }
    var o := Decode(injector, rows, args.value);
    outcome := Some(o);
  }

  predicate IsTruthySlot(s: Slot) {
    (s.TextSlot? && s.s != "") || (s.OtherSlot? && s.truthy)
  }

  /** One more row: the decision grows by what that row adds. */
  lemma MeaningStep(start: Tree, rows: seq<Row>, i: nat, promptEnabled: bool)
    requires i < |rows|
    ensures Meaning(start, rows[..i + 1], promptEnabled) ==
            Decide(rows[i], Meaning(start, rows[..i], promptEnabled), promptEnabled)
  {
    var init, row := rows[..i], rows[i];
    assert rows[..i + 1] == init + [row];
    BlockedStep(init, row);
    BlockReasonStep(init, row);
    SelectStep(init, row, IsNoteRow);
    RewriteStep(start, init, row, promptEnabled);
  }

  lemma BlockedStep(rows: seq<Row>, row: Row)
    ensures var all := rows + [row];
            (exists i | 0 <= i < |all| :: IsBlockRow(all[i])) <==>
            (exists i | 0 <= i < |rows| :: IsBlockRow(rows[i])) || IsBlockRow(row)
  {
    var all := rows + [row];
    if i :| 0 <= i < |rows| && IsBlockRow(rows[i]) {
      assert IsBlockRow(all[i]);
    }
    if IsBlockRow(row) {
      assert IsBlockRow(all[|rows|]);
    }
  }

  lemma BlockReasonStep(rows: seq<Row>, row: Row)
    ensures BlockReason(rows + [row]) ==
            if !IsBlockRow(row) then BlockReason(rows)
            else if BlockReason(rows).Some? && BlockReason(rows).value != "" then
              Some(BlockReason(rows).value + "\n" + row.content)
            else Some(row.content)
  {
    SelectStep(rows, row, IsBlockRow);
    ReasonStep(Contents(Select(rows, IsBlockRow)), row.content);
    ContentsLength(Select(rows, IsBlockRow));
  }

  lemma RewriteStep(start: Tree, rows: seq<Row>, row: Row, promptEnabled: bool)
    ensures RewrittenArguments(start, rows + [row], promptEnabled) ==
            var before := RewrittenArguments(start, rows, promptEnabled);
            if IsRewriteRow(row) then ApplyRow(before, Stripped(row), promptEnabled) else before
  {
    var all := rows + [row];
    assert all[..|all| - 1] == rows;
  }

  lemma SelectStep(rows: seq<Row>, row: Row, keep: Row -> bool)
    ensures Select(rows + [row], keep) == Select(rows, keep) + if keep(row) then [row] else []
    ensures Contents(Select(rows + [row], keep)) ==
            Contents(Select(rows, keep)) + if keep(row) then [row.content] else []
  {
    var all := rows + [row];
    assert all[..|all| - 1] == rows;
    var picked := Select(rows, keep) + [row];
    assert picked[..|picked| - 1] == Select(rows, keep);
  }

  lemma {:induction false} ContentsLength(rows: seq<Row>)
    ensures |Contents(rows)| == |rows|
  {
    if |rows| > 0 {
      ContentsLength(rows[..|rows| - 1]);
    }
  }

  lemma {:induction false} AfterBlanksStep(texts: seq<string>, last: string)
    ensures AfterBlanks(texts + [last]) ==
            if |AfterBlanks(texts)| > 0 then AfterBlanks(texts) + [last] else if last == "" then [] else [last]
  {
    if |texts| == 0 {
      assert texts + [last] == [last];
    } else if texts[0] == "" {
      AfterBlanksStep(texts[1..], last);
      assert (texts + [last])[1..] == texts[1..] + [last];
    }
  }

  lemma ReasonStep(texts: seq<string>, last: string)
    ensures Join(AfterBlanks(texts + [last]), "\n") ==
            if Join(AfterBlanks(texts), "\n") != "" then Join(AfterBlanks(texts), "\n") + "\n" + last else last
  {
    AfterBlanksStep(texts, last);
    JoinSnoc(AfterBlanks(texts), last, "\n");
    JoinOfVisibleStart(AfterBlanks(texts));
    AfterBlanksStartsVisible(texts);
  }

  lemma {:induction false} AfterBlanksStartsVisible(texts: seq<string>)
    ensures |AfterBlanks(texts)| > 0 ==> AfterBlanks(texts)[0] != ""
  {
    if |texts| > 0 && texts[0] == "" {
      AfterBlanksStartsVisible(texts[1..]);
    }
  }

  lemma {:induction false} JoinOfVisibleStart(texts: seq<string>)
    ensures |texts| > 0 && texts[0] != "" ==> Join(texts, "\n") != ""
  {
    if |texts| > 1 {
      JoinOfVisibleStart(texts[..|texts| - 1]);
    }
  }

  // ---- One more row, with targets and modes spelled out ----

  ghost predicate BelowCall(target: string) { exists below: string :: target == "tool_call." + below }

  /** What is left of a target behind a name: nothing, or a dot and a path. */
  ghost predicate Behind(name: string, target: string, rest: string) {
    target == name + rest && (rest == "" || exists below: string :: rest == "." + below)
  }

  ghost predicate BehindArguments(target: string, rest: string) { Behind("tool_call.arguments", target, rest) }

  lemma PrefixIsBelow(prefix: string, target: string)
    ensures prefix <= target <==> exists below: string :: target == prefix + below
  {
    if prefix <= target {
      assert target == prefix + target[|prefix|..];
    }
  }

  lemma BehindName(name: string, target: string, rest: string)
    ensures Behind(name, target, rest) <==>
            (target == name || name + "." <= target) && rest == target[|name|..]
  {
    if target == name || name + "." <= target {
      var left := target[|name|..];
      assert target == name + left;
      assert left != "" ==> left == "." + left[1..];
    }
    if Behind(name, target, rest) {
      assert target[|name|..] == rest;
      if below: string :| rest == "." + below {
        assert target == (name + ".") + below;
      }
    }
  }

  lemma TargetsSpelled(target: string)
    ensures PREFIX <= target <==> BelowCall(target)
    ensures forall rest: string ::
              BehindArguments(target, rest) <==> TargetsArguments(target) && rest == target[|ARGUMENTS|..]
  {
    PrefixIsBelow("tool_call.", target);
    assert ARGUMENTS == "tool_call.arguments";
    forall rest: string
      ensures BehindArguments(target, rest) <==> TargetsArguments(target) && rest == target[|ARGUMENTS|..]
    {
      BehindName(ARGUMENTS, target, rest);
    }
  }

  /** A row above or beside the call's slots is passed over; a row that blocks adds its text to the reason, whatever
      slot of the call it targets, and leaves the arguments; a row that does not overwrite leaves a note. */
  lemma OneMoreRow(start: Tree, rows: seq<Row>, row: Row, promptEnabled: bool)
    ensures Meaning(start, [], promptEnabled) == Decision(false, None, [], start)
    ensures var d, after := Meaning(start, rows, promptEnabled), Meaning(start, rows + [row], promptEnabled);
            && (!BelowCall(row.target) ==> after == d)
            && (BelowCall(row.target) && row.mode in {"suppress", "block", "escalate"} ==>
                  && after.blocked && after.notes == d.notes && after.arguments == d.arguments
                  && after.blockReason == (if d.blockReason.Some? && d.blockReason.value != ""
                                           then Some(d.blockReason.value + "\n" + row.content) else Some(row.content)))
            && (BelowCall(row.target) &&
                row.mode !in {"suppress", "block", "escalate", "replace", "rewrite", "compress"} ==>
                  after == d.(notes := d.notes + [row.content]))
  {
    LastRowDecides(start, rows, row, promptEnabled);
    TargetsSpelled(row.target);
    assert Select([], IsBlockRow) == [] && Contents(Select([], IsNoteRow)) == [];
  }

  lemma LastRowDecides(start: Tree, rows: seq<Row>, row: Row, promptEnabled: bool)
    ensures Meaning(start, rows + [row], promptEnabled) ==
            Decide(row, Meaning(start, rows, promptEnabled), promptEnabled)
  {
    var all := rows + [row];
    assert all[..|rows| + 1] == all && all[..|rows|] == rows;
    MeaningStep(start, all, |rows|, promptEnabled);
  }

  lemma ArgumentsAreOfCall(target: string)
    requires TargetsArguments(target)
    ensures PREFIX <= target
  {
    assert PREFIX <= ARGUMENTS;
  }

  lemma RewriteDecides(row: Row, d: Decision, promptEnabled: bool)
    requires row.mode in OVERWRITE_MODES
    ensures Decide(row, d, promptEnabled) ==
            if TargetsArguments(row.target) then d.(arguments := ApplyRow(d.arguments, Stripped(row), promptEnabled))
            else d
  {
    if TargetsArguments(row.target) {
      ArgumentsAreOfCall(row.target);
    }
  }

  /** A row that overwrites changes nothing when its target is neither the arguments nor below them. */
  lemma RewriteElsewhere(start: Tree, rows: seq<Row>, row: Row, promptEnabled: bool)
    requires row.mode in {"replace", "rewrite", "compress"}
    ensures (exists rest: string :: BehindArguments(row.target, rest)) ||
            Meaning(start, rows + [row], promptEnabled) == Meaning(start, rows, promptEnabled)
  {
    LastRowDecides(start, rows, row, promptEnabled);
    RewriteDecides(row, Meaning(start, rows, promptEnabled), promptEnabled);
    TargetsSpelled(row.target);
    if TargetsArguments(row.target) {
      assert BehindArguments(row.target, row.target[|ARGUMENTS|..]);
    }
  }

  /** Otherwise it changes the arguments and nothing else: it writes the path that is left behind them, or every
      argument when no name is left. */
  lemma RewriteOfArguments(start: Tree, rows: seq<Row>, row: Row, rest: string)
    requires row.mode in {"replace", "rewrite", "compress"} && BehindArguments(row.target, rest)
    ensures var d, path := Meaning(start, rows, true), if Segments(rest) == [] then ["*"] else Segments(rest);
            Meaning(start, rows + [row], true) == d.(arguments := Write(d.arguments, path, row))
  {
    var d := Meaning(start, rows, true);
    LastRowDecides(start, rows, row, true);
    RewriteDecides(row, d, true);
    TargetsSpelled(row.target);
    StrippedPath(row, rest);
    SameTextSameWrite(d.arguments, Segments(Stripped(row).target), Stripped(row), row);
  }

  lemma StrippedPath(row: Row, rest: string)
    requires TargetsArguments(row.target) && row.target[|ARGUMENTS|..] == rest
    ensures Segments(Stripped(row).target) == if Segments(rest) == [] then ["*"] else Segments(rest)
  {
    DotsSplitNothing(rest);
    PlainSegment("*");
    if Segments(rest) == [] {
      NoSegmentsNoText(rest);
    }
  }

  // ---- The guard's arguments are a sub-tree of what the injector would produce ----

  lemma {:induction false} DotsSplitNothing(s: string)
    ensures Segments(StripLeft(s, c => c == '.')) == Segments(s)
  {
    if |s| > 0 && s[0] == '.' {
      DotsSplitNothing(s[1..]);
      assert s == "" + "." + s[1..];
      SegmentsOfDotted("", s[1..]);
    }
  }

  lemma PlainSegment(s: string)
    requires |s| > 0 && forall i | 0 <= i < |s| :: s[i] != '.'
    ensures Segments(s) == [s]
  {
    assert FirstDot(s) == |s|;
    assert s[..|s|] == s;
  }

  /** The target goes strictly below `tool_call.arguments`. */
  predicate StrictlyBelow(row: Row) {
    ARGUMENTS + "." <= row.target && |Segments(row.target[|ARGUMENTS|..])| > 0
  }

  lemma SegmentsBelow(prefix: string, target: string)
    requires prefix + "." <= target
    ensures Segments(target) == Segments(prefix) + Segments(target[|prefix|..])
  {
    var rest := target[|prefix| + 1..];
    assert target[|prefix|..] == "" + "." + rest && target == prefix + "." + rest;
    SegmentsOfDotted("", rest);
    SegmentsOfDotted(prefix, rest);
  }

  lemma TwoPlainSegments(a: string, b: string)
    requires |a| > 0 && forall i | 0 <= i < |a| :: a[i] != '.'
    requires |b| > 0 && forall i | 0 <= i < |b| :: b[i] != '.'
    ensures Segments(a + "." + b) == [a, b]
  {
    SegmentsOfDotted(a, b);
    PlainSegment(a);
    PlainSegment(b);
  }

  lemma ArgumentsSegments()
    ensures Segments(ARGUMENTS) == ["tool_call", "arguments"]
  {
    TwoPlainSegments(TOOL_CALL, "arguments");
  }

  lemma BelowSegments(row: Row)
    requires StrictlyBelow(row)
    ensures Segments(row.target) == ["tool_call", "arguments"] + Segments(Stripped(row).target)
    ensures |Segments(Stripped(row).target)| > 0
  {
    ArgumentsSegments();
    SegmentsBelow(ARGUMENTS, row.target);
    DotsSplitNothing(row.target[|ARGUMENTS|..]);
  }

  /** The row is one the guard hands to the injector without its prompt filter seeing a prompt target. */
  predicate Projects(row: Row, promptEnabled: bool) {
    StrictlyBelow(row) && (promptEnabled || !("runtime_prompt." <= Stripped(row).target))
  }

  lemma WriteTwoDeep(call: Tree, a: string, b: string, rest: seq<string>, row: Row)
    requires call.Dict? && a != "*" && b != "*" && |rest| > 0
    ensures Write(Dict(map[a := call]), [a, b] + rest, row) ==
            Dict(map[a := Dict(call.entries[b := Write(DictAt(call, b), rest, row)])])
  {
    var segs := [a, b] + rest;
    assert segs[1..] == [b] + rest && segs[1..][1..] == rest;
    var below := Write(call, segs[1..], row);
    assert below == Dict(call.entries[b := Write(DictAt(call, b), rest, row)]);
    assert map[a := call][a := below] == map[a := below];
  }

  lemma WriteBelow(call: Tree, row: Row, promptEnabled: bool)
    requires call.Dict? && Projects(row, promptEnabled) && ArgumentsOf(call).Some?
    ensures ApplyRow(Dict(map["tool_call" := call]), row, promptEnabled) ==
            Dict(map["tool_call" :=
              Dict(call.entries["arguments" := ApplyRow(ArgumentsOf(call).value, Stripped(row), promptEnabled)])])
  {
    BelowSegments(row);
    var rest := Segments(Stripped(row).target);
    WriteTwoDeep(call, "tool_call", "arguments", rest, row);
    assert row.target[0] == 't';
    SameTextSameWrite(ArgumentsOf(call).value, rest, row, Stripped(row));
  }

  /** Only a row's mode and content matter to the write. */
  lemma {:induction false} SameTextSameWrite(t: Tree, segs: seq<string>, a: Row, b: Row)
    requires a.mode == b.mode && a.content == b.content
    ensures Write(t, segs, a) == Write(t, segs, b)
    decreases |segs|
  {
    if t.Dict? && |segs| > 1 {
      forall child: Tree {
        SameTextSameWrite(child, segs[1..], a, b);
      }
    }
  }

  lemma ProjectionStep(call: Tree, picked: seq<Row>, row: Row, after: Tree, promptEnabled: bool) returns (next: Tree)
    requires after.Dict? && ArgumentsOf(after).Some? && Projects(row, promptEnabled)
    requires ApplyRows(Dict(map["tool_call" := call]), picked, promptEnabled) == Dict(map["tool_call" := after])
    ensures ApplyRows(Dict(map["tool_call" := call]), picked + [row], promptEnabled) == Dict(map["tool_call" := next])
    ensures next.Dict?
    ensures ArgumentsOf(next) == Some(ApplyRow(ArgumentsOf(after).value, Stripped(row), promptEnabled))
  {
    var all := picked + [row];
    assert all[..|all| - 1] == picked;
    WriteBelow(after, row, promptEnabled);
    next := Dict(after.entries["arguments" := ApplyRow(ArgumentsOf(after).value, Stripped(row), promptEnabled)]);
    WriteKeepsDict(ArgumentsOf(after).value, Segments(Stripped(row).target), Stripped(row));
  }

  lemma WriteKeepsDict(t: Tree, segs: seq<string>, row: Row)
    ensures t.Dict? ==> Write(t, segs, row).Dict?
  {
  }

  /** Sub-tree projection: when every argument rewrite goes strictly below the arguments, the guard's arguments are
      the arguments of the tool call that the full injector produces from just those rows. */
  lemma {:induction false} GuardIsProjection(call: Tree, rows: seq<Row>, promptEnabled: bool) returns (after: Tree)
    requires call.Dict? && ArgumentsOf(call).Some?
    requires forall i | 0 <= i < |rows| && IsRewriteRow(rows[i]) :: Projects(rows[i], promptEnabled)
    ensures ApplyRows(Dict(map["tool_call" := call]), Select(rows, IsRewriteRow), promptEnabled)
         == Dict(map["tool_call" := after])
    ensures after.Dict?
    ensures ArgumentsOf(after) == Some(Meaning(ArgumentsOf(call).value, rows, promptEnabled).arguments)
  {
    after := call;
    if |rows| > 0 {
      var init, row := rows[..|rows| - 1], rows[|rows| - 1];
      after := GuardIsProjection(call, init, promptEnabled);
      if IsRewriteRow(row) {
        after := ProjectionStep(call, Select(init, IsRewriteRow), row, after, promptEnabled);
      }
    }
  }

  // ---- Where the two differ ----

  /** The target names the arguments themselves: nothing but dots follows. */
  predicate Bare(row: Row) { TargetsArguments(row.target) && !StrictlyBelow(row) }

  lemma {:induction false} NoSegmentsNoText(s: string)
    requires |Segments(s)| == 0
    ensures StripLeft(s, c => c == '.') == ""
  {
    if |s| > 0 && s[0] == '.' {
      assert s == "" + "." + s[1..];
      SegmentsOfDotted("", s[1..]);
      NoSegmentsNoText(s[1..]);
    }
  }

  lemma BareSegments(row: Row)
    requires Bare(row)
    ensures Segments(row.target) == ["tool_call", "arguments"] && Stripped(row).target == "*"
  {
    ArgumentsSegments();
    if row.target != ARGUMENTS {
      SegmentsBelow(ARGUMENTS, row.target);
      NoSegmentsNoText(row.target[|ARGUMENTS|..]);
    } else {
      assert row.target[|ARGUMENTS|..] == "";
    }
  }

  /** On a bare target the injector replaces the arguments by the text. */
  lemma BareTargetInInjector(call: Tree, row: Row, promptEnabled: bool)
    requires call.Dict? && Bare(row) && row.mode in OVERWRITE_MODES
    ensures ApplyRow(Dict(map["tool_call" := call]), row, promptEnabled)
         == Dict(map["tool_call" := Dict(call.entries["arguments" := Text(row.content)])])
  {
    BareSegments(row);
    assert row.target[0] == 't';
    WriteLeafBelow(call, "tool_call", "arguments", row);
  }

  /** On a bare target the guard replaces every argument and keeps a dict. */
  lemma BareTargetInGuard(args: Tree, row: Row, promptEnabled: bool)
    requires args.Dict? && Bare(row) && row.mode in OVERWRITE_MODES
    ensures ApplyRow(args, Stripped(row), promptEnabled) == Dict(map k | k in args.entries :: Text(row.content))
  {
    BareSegments(row);
    PlainSegment("*");
    WriteEvery(args, Stripped(row));
    assert "*"[0] != 'r';
  }

  lemma WriteEvery(args: Tree, row: Row)
    requires args.Dict? && Overwrites(row.mode)
    ensures Write(args, ["*"], row) == Dict(map k | k in args.entries :: Text(row.content))
  {
  }

  lemma WriteLeafBelow(call: Tree, a: string, b: string, row: Row)
    requires call.Dict? && a != "*" && b != "*" && Overwrites(row.mode)
    ensures Write(Dict(map[a := call]), [a, b], row) == Dict(map[a := Dict(call.entries[b := Text(row.content)])])
  {
    var segs := [a, b];
    assert segs[1..] == [b];
    var below := Write(call, segs[1..], row);
    assert map[a := call][a := below] == map[a := below];
  }

  /** The prompt filter, applied after stripping, is the other place: with prompt injection off, an argument called
      `runtime_prompt` is rewritten by the injector and left alone by the guard. */
  lemma PromptNamedArgumentIsDropped(call: Tree, row: Row)
    requires call.Dict? && ArgumentsOf(call).Some? && StrictlyBelow(row) && "runtime_prompt." <= Stripped(row).target
    ensures ApplyRow(ArgumentsOf(call).value, Stripped(row), false) == ArgumentsOf(call).value
    ensures ApplyRow(Dict(map["tool_call" := call]), row, false)
         == ApplyRow(Dict(map["tool_call" := call]), row, true)
  {
    assert row.target[0] == 't';
  }

  /** The guard's arguments are those of the call that the injector produces. */
  predicate Agree(call: Tree, row: Row, promptEnabled: bool)
    requires TargetsArguments(row.target) && ArgumentsOf(call).Some?
  {
    var after := EntryOf(ApplyRow(Dict(map["tool_call" := call]), row, promptEnabled), "tool_call");
    after.Some? && ArgumentsOf(after.value) == Some(ApplyRow(ArgumentsOf(call).value, Stripped(row), promptEnabled))
  }

  lemma ProjectingRowsAgree(call: Tree, row: Row, promptEnabled: bool)
    requires call.Dict? && ArgumentsOf(call).Some? && TargetsArguments(row.target) && Projects(row, promptEnabled)
    ensures Agree(call, row, promptEnabled)
  {
    WriteBelow(call, row, promptEnabled);
    WriteKeepsDict(ArgumentsOf(call).value, Segments(Stripped(row).target), Stripped(row));
  }

  lemma BareRowsDisagree(row: Row, promptEnabled: bool) returns (call: Tree)
    requires Bare(row) && row.mode in OVERWRITE_MODES
    ensures call.Dict? && ArgumentsOf(call).Some? && !Agree(call, row, promptEnabled)
  {
    var args := Dict(map["x" := Text("")]);
    call := Dict(map["arguments" := args]);
    BareTargetInInjector(call, row, promptEnabled);
    BareTargetInGuard(args, row, promptEnabled);
    var guarded := map k | k in args.entries :: Text(row.content);
    assert "x" in args.entries && "x" in guarded;
  }

  lemma FirstSegment(name: string, target: string)
    requires |name| > 0 && (forall i | 0 <= i < |name| :: name[i] != '.') && name + "." <= target
    ensures |Segments(target)| > 0 && Segments(target)[0] == name
  {
    assert target == name + "." + target[|name| + 1..];
    SegmentsOfDotted(name, target[|name| + 1..]);
    PlainSegment(name);
  }

  lemma NamedKeyAppears(segs: seq<string>, row: Row)
    requires |segs| > 0 && segs[0] != "*"
    ensures Write(Dict(map[]), segs, row).Dict? && segs[0] in Write(Dict(map[]), segs, row).entries
  {
  }

  /** The injector gives the call arguments other than its own. */
  predicate Rearms(call: Tree, row: Row, promptEnabled: bool)
    requires ArgumentsOf(call).Some?
  {
    var after := EntryOf(ApplyRow(Dict(map["tool_call" := call]), row, promptEnabled), "tool_call");
    after.Some? && ArgumentsOf(after.value).Some? && ArgumentsOf(after.value) != ArgumentsOf(call)
  }

  lemma WrittenBelow(row: Row)
    requires StrictlyBelow(row) && |Segments(Stripped(row).target)| > 0
    requires Segments(Stripped(row).target)[0] == "runtime_prompt"
    ensures Rearms(Dict(map[]), row, true)
  {
    var segs := Segments(Stripped(row).target);
    WriteBelow(Dict(map[]), row, true);
    NamedKeyAppears(segs, Stripped(row));
  }

  /** The injector writes a prompt-named argument into the empty call, with the filter as without it. */
  lemma WrittenThoughPromptNamed(row: Row)
    requires StrictlyBelow(row) && "runtime_prompt." <= Stripped(row).target
    ensures Rearms(Dict(map[]), row, false)
  {
    PromptNamedArgumentIsDropped(Dict(map[]), row);
    PromptIsFirstSegment(Stripped(row).target);
    BelowSegments(row);
    WrittenBelow(row);
    assert Rearms(Dict(map[]), row, true);
  }

  lemma PromptIsFirstSegment(target: string)
    requires "runtime_prompt." <= target
    ensures |Segments(target)| > 0 && Segments(target)[0] == "runtime_prompt"
  {
    var name := "runtime_prompt";
    assert name + "." == "runtime_prompt.";
    FirstSegment(name, target);
  }

  /** When the guard leaves the arguments and the injector does not, they disagree. */
  lemma OneSidedDisagrees(call: Tree, row: Row)
    requires TargetsArguments(row.target) && call.Dict? && ArgumentsOf(call).Some?
    requires ApplyRow(ArgumentsOf(call).value, Stripped(row), false) == ArgumentsOf(call).value
    requires Rearms(call, row, false)
    ensures !Agree(call, row, false)
  {
  }

  lemma PromptNamedRowsDisagree(row: Row) returns (call: Tree)
    requires StrictlyBelow(row) && TargetsArguments(row.target) && "runtime_prompt." <= Stripped(row).target
    ensures call.Dict? && ArgumentsOf(call).Some? && !Agree(call, row, false)
  {
    call := Dict(map[]);
    PromptNamedArgumentIsDropped(call, row);
    WrittenThoughPromptNamed(row);
    OneSidedDisagrees(call, row);
  }

  /** For a row that rewrites arguments, guard and injector agree on every call if and only if its target goes strictly
      below the arguments and the prompt filter does not see a prompt target in what is left of it. */
  lemma RowProjectsExactlyWhen(row: Row, promptEnabled: bool)
    requires IsRewriteRow(row)
    ensures (forall call: Tree | call.Dict? && ArgumentsOf(call).Some? :: Agree(call, row, promptEnabled)) <==>
            Projects(row, promptEnabled)
  {
    if Projects(row, promptEnabled) {
      forall call: Tree | call.Dict? && ArgumentsOf(call).Some? {
        ProjectingRowsAgree(call, row, promptEnabled);
      }
    } else if Bare(row) {
      var call := BareRowsDisagree(row, promptEnabled);
    } else {
      var call := PromptNamedRowsDisagree(row);
    }
  }

  /** The guard's arguments for the rows are those of the call that the injector produces from their rewrite rows. */
  predicate AgreeOnAll(call: Tree, rows: seq<Row>, promptEnabled: bool)
    requires ArgumentsOf(call).Some?
  {
    var injected := ApplyRows(Dict(map["tool_call" := call]), Select(rows, IsRewriteRow), promptEnabled);
    var after := EntryOf(injected, "tool_call");
    && after.Some?
    && ArgumentsOf(after.value) == Some(Meaning(ArgumentsOf(call).value, rows, promptEnabled).arguments)
  }

  lemma OneRow(t: Tree, row: Row, promptEnabled: bool)
    ensures ApplyRows(t, [row], promptEnabled) == ApplyRow(t, row, promptEnabled)
    ensures IsRewriteRow(row) ==>
              Select([row], IsRewriteRow) == [row] &&
              Meaning(t, [row], promptEnabled).arguments == ApplyRow(t, Stripped(row), promptEnabled)
  {
    assert [row][..0] == [];
    assert ApplyRows(t, [], promptEnabled) == t && RewrittenArguments(t, [], promptEnabled) == t;
    assert Select([], IsRewriteRow) == [];
  }

  lemma OneRowList(call: Tree, row: Row, promptEnabled: bool)
    requires IsRewriteRow(row) && ArgumentsOf(call).Some?
    ensures AgreeOnAll(call, [row], promptEnabled) <==> Agree(call, row, promptEnabled)
  {
    OneRow(Dict(map["tool_call" := call]), row, promptEnabled);
    OneRow(ArgumentsOf(call).value, row, promptEnabled);
  }

  /** For a set of rows, guard and injector agree on every list of them and every call if and only if every rewrite row
      of the set projects. */
  lemma RowsProjectExactlyWhen(rows: set<Row>, promptEnabled: bool)
    ensures (forall list: seq<Row>, call: Tree |
               (forall r | r in list :: r in rows) && call.Dict? && ArgumentsOf(call).Some? ::
               AgreeOnAll(call, list, promptEnabled)) <==>
            (forall r | r in rows && IsRewriteRow(r) :: Projects(r, promptEnabled))
  {
    if forall r | r in rows && IsRewriteRow(r) :: Projects(r, promptEnabled) {
      forall list: seq<Row>, call: Tree |
        (forall r | r in list :: r in rows) && call.Dict? && ArgumentsOf(call).Some?
        ensures AgreeOnAll(call, list, promptEnabled)
      {
        var after := GuardIsProjection(call, list, promptEnabled);
      }
    } else {
      var r :| r in rows && IsRewriteRow(r) && !Projects(r, promptEnabled);
      RowProjectsExactlyWhen(r, promptEnabled);
      var call: Tree :| call.Dict? && ArgumentsOf(call).Some? && !Agree(call, r, promptEnabled);
      OneRowList(call, r, promptEnabled);
      assert forall q | q in [r] :: q in rows;
    }
  }
}
