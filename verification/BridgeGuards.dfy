/** What the bridge makes of blocking advice: tool calls, outgoing messages, spawns and the queue (injector.ts). */
module BridgeGuards {
  import opened Filtering
  import opened JsonValues
  import opened Options
  import opened Strings
  import Tree = InjectionTree
  import opened PromptFold
  import Host = ToolGuard

  predicate Blocks(r: Row) { r.mode in Tree.BLOCK_MODES }

  predicate ToolTarget(target: string) { target == Host.TOOL_CALL || Host.PREFIX <= target }

  const QUEUE := "queue"
  const QUEUE_PROMPT := QUEUE + ".prompt"
  const QUEUE_SUMMARY := QUEUE + ".summary_line"
  const QUEUE_SUMMARY_CAMEL := QUEUE + ".summaryLine"

  predicate QueueTarget(target: string) { target == QUEUE || QUEUE + "." <= target }

  function RowsOf(injection: Option<Injection>): seq<Row> { if injection.Some? then injection.value.rows else [] }

  /** The trimmed text of a row that blocks, if there is any text. */
  function ReasonIf(counts: Row -> bool): Row -> Option<string> {
    (r: Row) => if counts(r) && JsTrim(r.content) != "" then Some(JsTrim(r.content)) else None
  }

  function BlocksTool(r: Row): bool { ToolTarget(r.target) && Blocks(r) }

  function Reason(rows: seq<Row>, counts: Row -> bool): Option<string> {
    var reasons := FilterMap(rows, ReasonIf(counts));
    if |reasons| > 0 then Some(Join(reasons, "\n")) else None
  }

  predicate Any(rows: seq<Row>, counts: Row -> bool) { exists i | 0 <= i < |rows| :: counts(rows[i]) }

  lemma AnyStep(rows: seq<Row>, i: nat, counts: Row -> bool)
    requires i < |rows|
    ensures Any(rows[..i + 1], counts) <==> Any(rows[..i], counts) || counts(rows[i])
  {
    var init, all := rows[..i], rows[..i + 1];
    if k :| 0 <= k < |init| && counts(init[k]) {
      assert counts(all[k]);
    }
    assert all[i] == rows[i];
  }

  // ---- Tool calls ----

  datatype ToolDecision = ToolDecision(block: bool, reason: Option<string>, params: map<string, Json>)

  method GuardToolCall(injection: Option<Injection>, params: map<string, Json>) returns (d: ToolDecision)
    ensures d == ToolDecision(Any(RowsOf(injection), BlocksTool), Reason(RowsOf(injection), BlocksTool), params)
  {
    if injection.None? || |injection.value.rows| == 0 {
      return ToolDecision(false, None, params);
    }
    var rows := injection.value.rows;
    var reasons: seq<string>, blocked := [], false;
    for i := 0 to |rows|
      invariant reasons == FilterMap(rows[..i], ReasonIf(BlocksTool))
      invariant blocked == Any(rows[..i], BlocksTool)
    {
      FilterMapStep(rows, i, ReasonIf(BlocksTool));
      AnyStep(rows, i, BlocksTool);
      var row := rows[i];
      if !ToolTarget(row.target) {
        continue;
      }
      if row.mode in Tree.BLOCK_MODES || row.adviceType == "tool_guard" {
        if row.mode in Tree.BLOCK_MODES || row.mode == "block" {
          blocked := true;
          if JsTrim(row.content) != "" {
            reasons := reasons + [JsTrim(row.content)];
          }
        }
      }
    }
    assert rows[..|rows|] == rows;
    d := ToolDecision(blocked, if |reasons| > 0 then Some(Join(reasons, "\n")) else None, params);
  }

  // ---- Messages, spawns and the queue ----

  method HasBlockingAdvice(injection: Option<Injection>) returns (b: bool)
    ensures b == Any(RowsOf(injection), Blocks)
  {
    if injection.None? || |injection.value.rows| == 0 {
      return false;
    }
    var rows := injection.value.rows;
    for i := 0 to |rows|
      invariant !Any(rows[..i], Blocks)
    {
      AnyStep(rows, i, Blocks);
      if rows[i].mode in Tree.BLOCK_MODES || (rows[i].adviceType == "tool_guard" && rows[i].mode == "block") {
        return true;
      }
    }
    assert rows[..|rows|] == rows;
    b := false;
  }

  method BlockReasonFromInjection(injection: Option<Injection>) returns (reason: Option<string>)
    ensures reason == Reason(RowsOf(injection), Blocks)
  {
    if injection.None? || |injection.value.rows| == 0 {
      return None;
    }
    var rows := injection.value.rows;
    var reasons: seq<string> := [];
    for i := 0 to |rows|
      invariant reasons == FilterMap(rows[..i], ReasonIf(Blocks))
    {
      FilterMapStep(rows, i, ReasonIf(Blocks));
      if rows[i].mode !in Tree.BLOCK_MODES && rows[i].mode != "block" {
        continue;
      }
      if JsTrim(rows[i].content) != "" {
        reasons := reasons + [JsTrim(rows[i].content)];
      }
    }
    assert rows[..|rows|] == rows;
    reason := if |reasons| > 0 then Some(Join(reasons, "\n")) else None;
  }

  /** `messageSendingDecision` and `subagentSpawnDecision` differ only in the text that stands in for no reason. */
  method Veto(injection: Option<Injection>, fallback: string) returns (veto: Option<string>)
    ensures veto.Some? <==> Any(RowsOf(injection), Blocks)
    ensures veto.Some? ==> veto.value == Reason(RowsOf(injection), Blocks).GetOr(fallback)
  {
    var blocking := HasBlockingAdvice(injection);
    if !blocking {
      return None;
    }
    var reason := BlockReasonFromInjection(injection);
    veto := Some(reason.GetOr(fallback));
  }

  datatype QueueDecision = QueueDecision(block: bool, prompt: Option<string>, summaryLine: Option<string>)

  function QueueStep(d: QueueDecision, r: Row): QueueDecision {
    if Blocks(r) then d.(block := true)
    else if !QueueTarget(r.target) || JsTrim(r.content) == "" || r.mode != "rewrite" then d
    else if r.target == QUEUE_PROMPT then d.(prompt := Some(JsTrim(r.content)))
    else if r.target == QUEUE_SUMMARY || r.target == QUEUE_SUMMARY_CAMEL then d.(summaryLine := Some(JsTrim(r.content)))
    else d
  }

  function QueueFold(rows: seq<Row>): QueueDecision {
    if |rows| == 0 then QueueDecision(false, None, None)
    else QueueStep(QueueFold(rows[..|rows| - 1]), rows[|rows| - 1])
  }

  method QueueBeforeEnqueue(injection: Option<Injection>) returns (d: QueueDecision, reason: Option<string>)
    ensures d == QueueFold(RowsOf(injection)) && reason == Reason(RowsOf(injection), Blocks)
  {
    d, reason := QueueDecision(false, None, None), None;
    if injection.None? || |injection.value.rows| == 0 {
      return;
    }
    var rows := injection.value.rows;
    var reasons: seq<string> := [];
    for i := 0 to |rows|
      invariant d == QueueFold(rows[..i]) && reasons == FilterMap(rows[..i], ReasonIf(Blocks))
    {
      assert rows[..i + 1][..i] == rows[..i];
      FilterMapStep(rows, i, ReasonIf(Blocks));
      var row := rows[i];
      if !QueueTarget(row.target) && row.mode !in Tree.BLOCK_MODES {
        continue;
      }
      if row.mode in Tree.BLOCK_MODES {
        d := d.(block := true);
        if JsTrim(row.content) != "" {
          reasons := reasons + [JsTrim(row.content)];
        }
        continue;
      }
      if JsTrim(row.content) == "" {
        continue;
      }
      if row.target == QUEUE_PROMPT && row.mode == "rewrite" {
        d := d.(prompt := Some(JsTrim(row.content)));
      } else if (row.target == QUEUE_SUMMARY || row.target == QUEUE_SUMMARY_CAMEL) && row.mode == "rewrite" {
        d := d.(summaryLine := Some(JsTrim(row.content)));
      }
    }
    assert rows[..|rows|] == rows;
    reason := if |reasons| > 0 then Some(Join(reasons, "\n")) else None;
  }

  // ---- How the decisions relate ----

  /** Messages, spawns and the queue are vetoed together, by a blocking row on any target; a blocked tool call implies
      the veto. */
  lemma {:induction false} VetoesAgree(rows: seq<Row>)
    ensures QueueFold(rows).block <==> Any(rows, Blocks)
    ensures Any(rows, BlocksTool) ==> Any(rows, Blocks)
  {
    if |rows| > 0 {
      VetoesAgree(rows[..|rows| - 1]);
      AnyStep(rows, |rows| - 1, Blocks);
      AnyStep(rows, |rows| - 1, BlocksTool);
      assert rows[..|rows|] == rows;
    }
  }

  function PromptOf(r: Row): Option<string> {
    if !Blocks(r) && r.target == QUEUE_PROMPT && r.mode == "rewrite" && JsTrim(r.content) != "" then
      Some(JsTrim(r.content))
    else None
  }

  /** `v` is what the last row that has one yields, or nothing if no row does. */
  ghost predicate IsLast(rows: seq<Row>, f: Row -> Option<string>, v: Option<string>) {
    if v.None? then forall i | 0 <= i < |rows| :: f(rows[i]).None?
    else exists i | 0 <= i < |rows| :: f(rows[i]) == v && forall j | i < j < |rows| :: f(rows[j]).None?
  }

  lemma LastOfSnoc(rows: seq<Row>, r: Row, f: Row -> Option<string>, v: Option<string>)
    requires IsLast(rows, f, v)
    ensures IsLast(rows + [r], f, if f(r).Some? then f(r) else v)
  {
    var all := rows + [r];
    assert forall i | 0 <= i < |rows| :: all[i] == rows[i];
    assert all[|rows|] == r;
    if v.Some? && f(r).None? {
      var i :| 0 <= i < |rows| && f(rows[i]) == v && forall j | i < j < |rows| :: f(rows[j]).None?;
      assert f(all[i]) == v;
    }
  }

  lemma PromptStep(d: QueueDecision, r: Row)
    ensures QueueStep(d, r).prompt == if PromptOf(r).Some? then PromptOf(r) else d.prompt
  {
    assert QUEUE_PROMPT != QUEUE_SUMMARY by {
      assert |QUEUE_PROMPT| != |QUEUE_SUMMARY|;
    }
  }

  /** The last row that rewrites the queued prompt decides it. */
  lemma {:induction false} QueuePromptIsTheLast(rows: seq<Row>)
    ensures IsLast(rows, PromptOf, QueueFold(rows).prompt)
  {
    if |rows| > 0 {
      var init, last := rows[..|rows| - 1], rows[|rows| - 1];
      QueuePromptIsTheLast(init);
      LastOfSnoc(init, last, PromptOf, QueueFold(init).prompt);
      PromptStep(QueueFold(init), last);
      assert rows == init + [last];
    }
  }

  /** A reason is there exactly when some counted row has visible text, and then it is not empty. */
  lemma ReasonExactlyWhen(rows: seq<Row>, counts: Row -> bool)
    ensures Reason(rows, counts).Some? <==>
            exists i | 0 <= i < |rows| :: counts(rows[i]) && JsTrim(rows[i].content) != ""
    ensures Reason(rows, counts).Some? ==> Reason(rows, counts).value != "" && Any(rows, counts)
  {
    var reasons := FilterMap(rows, ReasonIf(counts));
    forall t | t in reasons
      ensures t != "" && exists i | 0 <= i < |rows| :: counts(rows[i]) && JsTrim(rows[i].content) != ""
    {
      FilterMapMembers(rows, ReasonIf(counts), t);
      var r :| r in rows && ReasonIf(counts)(r) == Some(t);
      var i :| 0 <= i < |rows| && rows[i] == r;
    }
    if i :| 0 <= i < |rows| && counts(rows[i]) && JsTrim(rows[i].content) != "" {
      FilterMapMembers(rows, ReasonIf(counts), JsTrim(rows[i].content));
      assert rows[i] in rows && ReasonIf(counts)(rows[i]) == Some(JsTrim(rows[i].content));
    }
    if |reasons| > 0 {
      assert reasons[0] in reasons;
      Host.JoinOfVisibleStart(reasons);
    }
  }

  // ---- One more row, with modes and targets spelled out ----

  /** What counts as blocking: three modes, and for tool calls a target that is the call or a part of it. */
  lemma BlockingSpelled(r: Row)
    ensures Blocks(r) <==> r.mode in {"block", "suppress", "escalate"}
    ensures BlocksTool(r) <==>
            && r.mode in {"block", "suppress", "escalate"}
            && (r.target == "tool_call" || exists below: string :: r.target == "tool_call." + below)
  {
    Host.PrefixIsBelow("tool_call.", r.target);
  }

  /** The trimmed text of a counted row goes on a line of its own below the reason so far; a row without visible text
      leaves no line. */
  lemma ReasonGrows(rows: seq<Row>, r: Row, counts: Row -> bool)
    ensures Reason([], counts) == None
    ensures Reason(rows + [r], counts) ==
            var text := JsTrim(r.content);
            if !counts(r) || text == "" then Reason(rows, counts)
            else if Reason(rows, counts).Some? then Some(Reason(rows, counts).value + "\n" + text)
            else Some(text)
  {
    FilterMapStep(rows + [r], |rows|, ReasonIf(counts));
    assert (rows + [r])[..|rows| + 1] == rows + [r] && (rows + [r])[..|rows|] == rows;
    JoinSnoc(FilterMap(rows, ReasonIf(counts)), JsTrim(r.content), "\n");
  }

  /** The queue: a blocking row on any target blocks; a rewrite with visible text of the prompt, or of the summary line
      under either of its names, puts that text in; every other row changes nothing. */
  lemma QueueGrows(rows: seq<Row>, r: Row)
    ensures QueueFold([]) == QueueDecision(false, None, None)
    ensures var d, after, text := QueueFold(rows), QueueFold(rows + [r]), JsTrim(r.content);
            if r.mode in {"block", "suppress", "escalate"} then after == d.(block := true)
            else if r.mode == "rewrite" && text != "" && r.target == "queue.prompt"
              then after == d.(prompt := Some(text))
            else if r.mode == "rewrite" && text != "" && r.target in {"queue.summary_line", "queue.summaryLine"}
              then after == d.(summaryLine := Some(text))
            else after == d
  {
    assert (rows + [r])[..|rows|] == rows;
    QueueNames();
  }

  lemma QueueNames()
    ensures QUEUE_PROMPT == "queue.prompt" && QUEUE_SUMMARY == "queue.summary_line"
    ensures QUEUE_SUMMARY_CAMEL == "queue.summaryLine"
    ensures QueueTarget(QUEUE_PROMPT) && QueueTarget(QUEUE_SUMMARY) && QueueTarget(QUEUE_SUMMARY_CAMEL)
    ensures QUEUE_PROMPT != QUEUE_SUMMARY && QUEUE_PROMPT != QUEUE_SUMMARY_CAMEL
  {
    assert |QUEUE_PROMPT| != |QUEUE_SUMMARY| && |QUEUE_PROMPT| != |QUEUE_SUMMARY_CAMEL|;
  }

  /** The same row as the Python host sees it. */
  function HostRow(r: Row): Tree.Row { Tree.Row(r.target, r.mode, r.content) }

  /** The bridge and the Python host guard block the same calls, but for the bare target `tool_call`: the bridge heeds
      it and the host does not. */
  lemma BridgeAndHostAgree(rows: seq<Row>, start: Tree.Tree, promptEnabled: bool)
    ensures Any(rows, BlocksTool) <==>
            || Host.Meaning(start, Map(rows, HostRow), promptEnabled).blocked
            || exists i | 0 <= i < |rows| :: rows[i].target == Host.TOOL_CALL && Blocks(rows[i])
  {
    var hosted := Map(rows, HostRow);
    MapAt(rows, HostRow);
    forall i | 0 <= i < |rows|
      ensures Host.IsBlockRow(hosted[i]) <==> Host.PREFIX <= rows[i].target && Blocks(rows[i])
      ensures BlocksTool(rows[i]) <==>
              Host.IsBlockRow(hosted[i]) || (rows[i].target == Host.TOOL_CALL && Blocks(rows[i]))
    {
    }
    if i :| 0 <= i < |rows| && BlocksTool(rows[i]) {
      assert Host.IsBlockRow(hosted[i]) || rows[i].target == Host.TOOL_CALL;
    }
    if i :| 0 <= i < |hosted| && Host.IsBlockRow(hosted[i]) {
      assert BlocksTool(rows[i]);
    }
  }
}
