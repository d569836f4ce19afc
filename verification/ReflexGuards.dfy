/** From a monitor decision to what the host hook returns (reflex-tool-guard.ts, sync-reflex-guards.ts). */
module ReflexGuards {
  import opened Options
  import opened JsonValues
  import opened Strings
  import opened Concerns
  import opened ReflexMonitors
  import opened ReflexPolicies
  import opened ReflexExport
  import opened ReflexPipeline
  import opened ReflexWording
  import opened ReflexMeanings
  import opened MessageText

  // ---- Actions and state ----

  function BuildMemoryWriteAction(message: Json): Action {
    var text := ExtractText(message);
    var role := if message.Get("role").Str? then message.Get("role").s else "message";
    Action(MemoryWrite, role, map["text" := Str(text), "content" := Str(text), "role" := Str(role)], message)
  }

  function BuildToolCallAction(toolName: Json, params: Json): Action {
    Action(ToolCall, if toolName.Str? then toolName.s else "tool", if params.IsObject() then Spread(params) else map[],
           Null)
  }

  function BuildPayloadAction(kind: ActionKind, payload: map<string, Json>, host: Host): Action {
    Action(kind, KindName(kind), payload["text" := Str(host.stringify(Obj(payload)))], Obj(payload))
  }

  const DEFAULT_STATE := State("default", "default", map["agent_id" := Undefined, "session_key" := Undefined])

  // ---- Decisions for the hooks ----

  datatype HookResult = NoChange | Blocked | Replaced(message: Json)

  function Decide(m: ReflexMonitor, a: Action, s: State): Decision {
    Ruling(m.policies, a, s, m.order)
  }

  /** `{ message }`, which the handlers treat as no change when the message is `undefined`. */
  function Replacing(message: Json): HookResult {
    if message.Undefined? then NoChange else Replaced(message)
  }

  function ReflexMemoryWriteDecision(m: ReflexMonitor, a: Action, s: State, raw: Json): HookResult {
    var d := Decide(m, a, s);
    if d.Deny? then Blocked
    else if d.Rewrite? && "content" in d.action.args && d.action.args["content"].Str? then
      Replacing(ApplyContent(raw, d.action.args["content"].s))
    else NoChange
  }

  function ReflexToolResultPersistDecision(m: ReflexMonitor, a: Action, s: State, raw: Json): HookResult {
    var d := Decide(m, a, s);
    if d.Deny? then Replacing(ApplyContent(raw, BlockedNotice(d.reason)))
    else if d.Rewrite? && "content" in d.action.args && d.action.args["content"].Str? then
      Replacing(ApplyContent(raw, d.action.args["content"].s))
    else NoChange
  }

  function BlockedNotice(reason: string): string { "[OpenCOAT blocked] " + reason }

  const FAIL_CLOSED_NOTICE := "[OpenCOAT ReflexMonitor fail-closed] ReflexMonitor not initialized"

  datatype ToolDecision = ToolDecision(block: bool, blockReason: Option<string>, params: map<string, Json>)

  function ReflexToolGuardDecision(m: ReflexMonitor, a: Action, s: State, params: map<string, Json>): ToolDecision {
    match Decide(m, a, s)
    case Deny(reason, _) => ToolDecision(true, Some(reason), params)
    case Rewrite(action, _, _) => ToolDecision(false, None, action.args)
    case Allow => ToolDecision(false, None, params)
  }

  // ---- The synchronous handlers ----

  datatype GuardConfig = GuardConfig(toolGuard: bool, guards: bool)

  function PersistAction(message: Json, event: Json, ctx: Json, host: Host): Action {
    var toolName :=
      if event.Get("toolName").Str? then event.Get("toolName")
      else if ctx.Get("agentId").Str? then ctx.Get("agentId")
      else Str("tool");
    var text := Str(ExtractText(message));
    BuildPayloadAction(ToolResultPersist, map["text" := text, "content" := text, "toolName" := toolName], host)
  }

  function HandleToolResultPersistSync(
    cfg: GuardConfig, runtime: Option<ReflexMonitor>, event: Json, ctx: Json, host: Host): HookResult
  {
    if !cfg.toolGuard && !cfg.guards then NoChange
    else
      var message := event.Get("message");
      match runtime
      case None => Replacing(ApplyContent(message, FAIL_CLOSED_NOTICE))
      case Some(m) =>
        ReflexToolResultPersistDecision(m, PersistAction(message, event, ctx, host), DEFAULT_STATE, message)
  }

  function HandleBeforeMessageWriteSync(cfg: GuardConfig, runtime: Option<ReflexMonitor>, event: Json): HookResult {
    if !cfg.toolGuard && !cfg.guards then NoChange
    else
      var message := event.Get("message");
      match runtime
      case None => Blocked
      case Some(m) => ReflexMemoryWriteDecision(m, BuildMemoryWriteAction(message), DEFAULT_STATE, message)
  }

  // ---- Nothing denied is persisted ----

  /** After a denial, and after a missing monitor, the text of the persisted message is the notice and nothing else. */
  lemma DeniedResultIsNotPersisted(
    cfg: GuardConfig, runtime: Option<ReflexMonitor>, event: Json, ctx: Json, host: Host)
    requires cfg.toolGuard || cfg.guards
    requires event.Get("message").IsObject()
    ensures var message := event.Get("message");
            var r := HandleToolResultPersistSync(cfg, runtime, event, ctx, host);
            match runtime
            case None => r.Replaced? && ExtractText(r.message) == FAIL_CLOSED_NOTICE
            case Some(m) =>
              var d := Decide(m, PersistAction(message, event, ctx, host), DEFAULT_STATE);
              d.Deny? ==> r.Replaced? && ExtractText(r.message) == BlockedNotice(d.reason)
  {
    var message := event.Get("message");
    match runtime
    case None => ExtractAfterApply(message, FAIL_CLOSED_NOTICE);
    case Some(m) =>
      var d := Decide(m, PersistAction(message, event, ctx, host), DEFAULT_STATE);
      if d.Deny? {
        ExtractAfterApply(message, BlockedNotice(d.reason));
      }
  }

  /** The notice reaches the persisted message exactly when the message is an object: a denied message of any other
      type is handed on unchanged. */
  lemma DenialShowsExactlyOnObjects(
    cfg: GuardConfig, m: ReflexMonitor, event: Json, ctx: Json, host: Host)
    requires cfg.toolGuard || cfg.guards
    requires Decide(m, PersistAction(event.Get("message"), event, ctx, host), DEFAULT_STATE).Deny?
    ensures var message := event.Get("message");
            var d := Decide(m, PersistAction(message, event, ctx, host), DEFAULT_STATE);
            var r := HandleToolResultPersistSync(cfg, Some(m), event, ctx, host);
            && (r.Replaced? && ExtractText(r.message) == BlockedNotice(d.reason) <==> message.IsObject())
            && (!message.IsObject() ==> r == Replacing(message))
  {
    if event.Get("message").IsObject() {
      DeniedResultIsNotPersisted(cfg, Some(m), event, ctx, host);
    }
  }

  /** A policy that denies every tool result. */
  const PERSIST_GUARD := PolicySpec(
    "no-results", SafetyCritical, ToolResultPersist, ToolName(["tool_result_persist"]), "no results",
    Some(DenyEffect), None)

  /** So a denied message that is a plain text is persisted as it was. */
  lemma DeniedTextIsPersisted(cfg: GuardConfig, text: string, ctx: Json, host: Host)
    requires cfg.toolGuard || cfg.guards
    ensures var event := Obj(map["message" := Str(text)]);
            var m := MonitorOf([PERSIST_GUARD], host);
            && Decide(m, PersistAction(event.Get("message"), event, ctx, host), DEFAULT_STATE).Deny?
            && HandleToolResultPersistSync(cfg, Some(m), event, ctx, host) == Replaced(Str(text))
  {
    var event := Obj(map["message" := Str(text)]);
    var a := PersistAction(event.Get("message"), event, ctx, host);
    var m := MonitorOf([PERSIST_GUARD], host);
    assert LastOfItsId([PERSIST_GUARD], PERSIST_GUARD, 0);
    UniqueMembers([PERSIST_GUARD], PERSIST_GUARD);
    assert ["tool_result_persist"][0] == a.name;
    AssembledRank([PERSIST_GUARD], host, a, DEFAULT_STATE);
    DenialShowsExactlyOnObjects(cfg, m, event, ctx, host);
  }

  /** From concerns to disk: a tool result that some stored concern means to deny is persisted as a notice. */
  lemma DeniedByConcernIsNotPersisted(
    cs: seq<Concern>, cfg: GuardConfig, event: Json, ctx: Json, host: Host)
    requires DistinctIds(cs) && forall c | c in cs :: JsTrim(c.id) != ""
    requires cfg.toolGuard || cfg.guards
    requires event.Get("message").IsObject()
    requires MeansDeny(cs, ToolResultPersist,
                       host.serializeArgs(PersistAction(event.Get("message"), event, ctx, host).args))
    ensures var specs := AllSpecs(RuntimeConfig([], false), Some(BridgeSpecs(cs, AllKinds)));
            var r := HandleToolResultPersistSync(cfg, Some(MonitorOf(specs, host)), event, ctx, host);
            && r.Replaced?
            && exists reason: string :: ExtractText(r.message) == BlockedNotice(reason)
  {
    var a := PersistAction(event.Get("message"), event, ctx, host);
    LastKind(a.kind);
    MeantDenialHappens(cs, AllKinds, host, a, DEFAULT_STATE);
    var m := MonitorOf(AllSpecs(RuntimeConfig([], false), Some(BridgeSpecs(cs, AllKinds))), host);
    assert Decide(m, a, DEFAULT_STATE).Deny?;
    DeniedResultIsNotPersisted(cfg, Some(m), event, ctx, host);
  }

  /** The notice gives the deny texts of the concerns that block the tool result, each once, in the order of their
      ids. */
  lemma PersistedNoticeSpeaksForConcerns(
    cs: seq<Concern>, cfg: GuardConfig, event: Json, ctx: Json, host: Host)
    returns (blockers: seq<Concern>)
    requires DistinctIds(cs) && host.order.Valid() && forall c | c in cs :: JsTrim(c.id) != ""
    requires cfg.toolGuard || cfg.guards
    requires event.Get("message").IsObject()
    requires MeansDeny(cs, ToolResultPersist,
                       host.serializeArgs(PersistAction(event.Get("message"), event, ctx, host).args))
    ensures var a := PersistAction(event.Get("message"), event, ctx, host);
            forall c :: c in blockers <==> c in cs && Voices(c, AllKinds, host, a, 3)
    ensures forall i, j | 0 <= i < j < |blockers| ::
              host.order.locale(blockers[i].id, blockers[j].id) && blockers[i].id != blockers[j].id
    ensures var specs := AllSpecs(RuntimeConfig([], false), Some(BridgeSpecs(cs, AllKinds)));
            var r := HandleToolResultPersistSync(cfg, Some(MonitorOf(specs, host)), event, ctx, host);
            && r.Replaced?
            && ExtractText(r.message) ==
               BlockedNotice(Join(NonEmpty(DenyTexts(blockers, ToolResultPersist)), "\n"))
  {
    var a := PersistAction(event.Get("message"), event, ctx, host);
    LastKind(a.kind);
    MeantDenialHappens(cs, AllKinds, host, a, DEFAULT_STATE);
    blockers := DenialSpeaksForConcerns(cs, AllKinds, host, a, DEFAULT_STATE);
    var m := MonitorOf(AllSpecs(RuntimeConfig([], false), Some(BridgeSpecs(cs, AllKinds))), host);
    assert Decide(m, a, DEFAULT_STATE) == PipelineDecision(cs, AllKinds, host, a, DEFAULT_STATE);
    DeniedResultIsNotPersisted(cfg, Some(m), event, ctx, host);
  }

  /** A message is kept out of memory exactly when the guard is on and the monitor is missing or denies. */
  lemma MemoryWriteBlockedExactlyWhen(cfg: GuardConfig, runtime: Option<ReflexMonitor>, event: Json)
    ensures HandleBeforeMessageWriteSync(cfg, runtime, event) == Blocked <==>
            && (cfg.toolGuard || cfg.guards)
            && (runtime.None? ||
                Decide(runtime.value, BuildMemoryWriteAction(event.Get("message")), DEFAULT_STATE).Deny?)
  {
  }

  // ---- From the words of the message to what is persisted ----

  /** The host's serialisation shows the word wherever an argument holds it in a text. */
  ghost predicate Shows(host: Host, w: string) {
    forall args: map<string, Json>, name: string | name in args && args[name].Str? && OccursIn(w, args[name].s) ::
      OccursIn(w, host.serializeArgs(args))
  }

  /** A non-empty keyword of the concern, which the host shows, stands in the text of the message. */
  ghost predicate HeardInMessage(c: Concern, k: ActionKind, message: Json, host: Host) {
    exists w: string | w != "" :: Watches(c, k, w) && OccursIn(w, ExtractText(message)) && Shows(host, w)
  }

  lemma ArgumentsShowMessage(message: Json, event: Json, ctx: Json, host: Host)
    ensures var args := PersistAction(message, event, ctx, host).args;
            "content" in args && args["content"] == Str(ExtractText(message))
    ensures var args := BuildMemoryWriteAction(message).args;
            "content" in args && args["content"] == Str(ExtractText(message))
  {
  }

  lemma MessageIsHeard(c: Concern, k: ActionKind, message: Json, host: Host, args: map<string, Json>)
    requires HeardInMessage(c, k, message, host)
    requires "content" in args && args["content"] == Str(ExtractText(message))
    ensures Hears(c, k, host.serializeArgs(args))
  {
    var w: string :| w != "" && Watches(c, k, w) && OccursIn(w, ExtractText(message)) && Shows(host, w);
    assert OccursIn(w, host.serializeArgs(args));
  }

  /** The monitor that the bridge assembles from the exported concerns. */
  function MonitorFor(cs: seq<Concern>, sel: Selection, host: Host): ReflexMonitor {
    MonitorOf(AllSpecs(RuntimeConfig([], false), Some(BridgeSpecs(cs, sel))), host)
  }

  lemma DecidesAsPipeline(cs: seq<Concern>, sel: Selection, host: Host, a: Action, s: State)
    ensures Decide(MonitorFor(cs, sel, host), a, s) == PipelineDecision(cs, sel, host, a, s)
  {
  }

  /** The concern blocks actions of this kind, and its policy is in force. */
  ghost predicate BlocksInForce(c: Concern, k: ActionKind, sel: Selection) {
    InForce(c, k, sel) && !c.lifecycle.Archived? && !c.lifecycle.Merged? && Blocking(c, k)
  }

  lemma HeardBlockDenies(cs: seq<Concern>, c: Concern, sel: Selection, host: Host, a: Action, s: State)
    requires DistinctIds(cs) && c in cs && BlocksInForce(c, a.kind, sel)
    requires Hears(c, a.kind, host.serializeArgs(a.args))
    ensures Decide(MonitorFor(cs, sel, host), a, s).Deny?
  {
    assert DenialInForce(c, a.kind, sel, host.serializeArgs(a.args));
    MonitorDecidesByRecords(cs, sel, host, a, s);
    DecidesAsPipeline(cs, sel, host, a, s);
  }

  /** A tool result whose text holds a keyword of a concern that blocks persisted results is persisted as a notice, and
      nothing of it is left in the text. */
  lemma GuardedResultIsNotPersisted(
    cs: seq<Concern>, c: Concern, sel: Selection, cfg: GuardConfig, event: Json, ctx: Json, host: Host)
    requires DistinctIds(cs) && c in cs && BlocksInForce(c, ToolResultPersist, sel)
    requires cfg.toolGuard || cfg.guards
    requires event.Get("message").IsObject()
    requires HeardInMessage(c, ToolResultPersist, event.Get("message"), host)
    ensures var r := HandleToolResultPersistSync(cfg, Some(MonitorFor(cs, sel, host)), event, ctx, host);
            r.Replaced? && exists reason: string :: ExtractText(r.message) == "[OpenCOAT blocked] " + reason
  {
    var message := event.Get("message");
    var a := PersistAction(message, event, ctx, host);
    ArgumentsShowMessage(message, event, ctx, host);
    MessageIsHeard(c, ToolResultPersist, message, host, a.args);
    HeardBlockDenies(cs, c, sel, host, a, DEFAULT_STATE);
    DeniedResultIsNotPersisted(cfg, Some(MonitorFor(cs, sel, host)), event, ctx, host);
  }

  /** A message whose text holds a keyword of a concern that blocks memory writes is kept out of memory. */
  lemma GuardedMessageIsNotWritten(
    cs: seq<Concern>, c: Concern, sel: Selection, cfg: GuardConfig, event: Json, host: Host)
    requires DistinctIds(cs) && c in cs && BlocksInForce(c, MemoryWrite, sel)
    requires cfg.toolGuard || cfg.guards
    requires HeardInMessage(c, MemoryWrite, event.Get("message"), host)
    ensures HandleBeforeMessageWriteSync(cfg, Some(MonitorFor(cs, sel, host)), event) == Blocked
  {
    var message := event.Get("message");
    var a := BuildMemoryWriteAction(message);
    ArgumentsShowMessage(message, event, Null, host);
    MessageIsHeard(c, MemoryWrite, message, host, a.args);
    HeardBlockDenies(cs, c, sel, host, a, DEFAULT_STATE);
  }

  /** The concern rewrites actions of this kind, and its policy is in force. */
  ghost predicate RewritesInForce(c: Concern, k: ActionKind, sel: Selection) {
    InForce(c, k, sel) && !c.lifecycle.Archived? && !c.lifecycle.Merged? && RewritesVisibly(c, k)
  }

  lemma RewriteByWriter(cs: seq<Concern>, sel: Selection, host: Host, a: Action) returns (d: Concern)
    requires DistinctIds(cs) && host.order.Valid()
    requires PipelineRank(cs, sel, host, a, DEFAULT_STATE) == 2
    ensures d in cs && Rewriting(d, a.kind)
    ensures RewritesFor(PipelineDecision(cs, sel, host, a, DEFAULT_STATE), d, a)
  {
    d := RewriteSpeaksForLeastConcern(cs, sel, host, a, DEFAULT_STATE);
    DeliveredText(d, a.kind);
    KeptIsInForce(d, a.kind, sel, host.serializeArgs(a.args));
    ConcernMeansExactly(d, a.kind, host.serializeArgs(a.args));
  }

  predicate PutsIn(d: Decision, text: string) {
    d.Rewrite? && "content" in d.action.args && d.action.args["content"] == Str(text)
  }

  lemma RewrittenTextShows(
    cfg: GuardConfig, m: ReflexMonitor, event: Json, ctx: Json, host: Host, text: string)
    requires cfg.toolGuard || cfg.guards
    requires event.Get("message").IsObject()
    ensures PutsIn(Decide(m, PersistAction(event.Get("message"), event, ctx, host), DEFAULT_STATE), text) ==>
              var r := HandleToolResultPersistSync(cfg, Some(m), event, ctx, host);
              r.Replaced? && ExtractText(r.message) == text
    ensures PutsIn(Decide(m, BuildMemoryWriteAction(event.Get("message")), DEFAULT_STATE), text) ==>
              var r := HandleBeforeMessageWriteSync(cfg, Some(m), event);
              r.Replaced? && ExtractText(r.message) == text
  {
    ExtractAfterApply(event.Get("message"), text);
  }

  /** Nobody blocks and somebody who hears the message rewrites: the decision puts in the text of a rewriting concern,
      which is this one when no other rewrites. */
  lemma HeardRewriteSpeaks(
    cs: seq<Concern>, c: Concern, sel: Selection, message: Json, host: Host, a: Action)
    returns (d: Concern)
    requires DistinctIds(cs) && host.order.Valid() && c in cs && RewritesInForce(c, a.kind, sel)
    requires forall b | b in cs :: !Blocking(b, a.kind)
    requires HeardInMessage(c, a.kind, message, host)
    requires "content" in a.args && a.args["content"] == Str(ExtractText(message))
    ensures d in cs && Rewriting(d, a.kind)
    ensures PutsIn(Decide(MonitorFor(cs, sel, host), a, DEFAULT_STATE), RewriteText(d, a.kind))
  {
    var text := host.serializeArgs(a.args);
    MessageIsHeard(c, a.kind, message, host, a.args);
    VisibleIsRewriting(c, a.kind);
    assert ReplacementInForce(c, a.kind, sel, text);
    assert forall b | b in cs :: !DenialInForce(b, a.kind, sel, text);
    MonitorDecidesByRecords(cs, sel, host, a, DEFAULT_STATE);
    d := RewriteByWriter(cs, sel, host, a);
    DecidesAsPipeline(cs, sel, host, a, DEFAULT_STATE);
  }

  /** A tool result whose text holds a keyword of a rewriting concern is persisted with the replacement of a rewriting
      concern as its text. */
  lemma RewrittenResultIsPersisted(
    cs: seq<Concern>, c: Concern, sel: Selection, cfg: GuardConfig, event: Json, ctx: Json, host: Host)
    returns (d: Concern)
    requires DistinctIds(cs) && host.order.Valid() && c in cs && RewritesInForce(c, ToolResultPersist, sel)
    requires forall b | b in cs :: !Blocking(b, ToolResultPersist)
    requires cfg.toolGuard || cfg.guards
    requires event.Get("message").IsObject()
    requires HeardInMessage(c, ToolResultPersist, event.Get("message"), host)
    ensures d in cs && Rewriting(d, ToolResultPersist)
    ensures var r := HandleToolResultPersistSync(cfg, Some(MonitorFor(cs, sel, host)), event, ctx, host);
            r.Replaced? && ExtractText(r.message) == RewriteText(d, ToolResultPersist)
  {
    var message := event.Get("message");
    ArgumentsShowMessage(message, event, ctx, host);
    d := HeardRewriteSpeaks(cs, c, sel, message, host, PersistAction(message, event, ctx, host));
    RewrittenTextShows(cfg, MonitorFor(cs, sel, host), event, ctx, host, RewriteText(d, ToolResultPersist));
  }

  lemma RewrittenMessageIsWritten(
    cs: seq<Concern>, c: Concern, sel: Selection, cfg: GuardConfig, event: Json, host: Host)
    returns (d: Concern)
    requires DistinctIds(cs) && host.order.Valid() && c in cs && RewritesInForce(c, MemoryWrite, sel)
    requires forall b | b in cs :: !Blocking(b, MemoryWrite)
    requires cfg.toolGuard || cfg.guards
    requires event.Get("message").IsObject()
    requires HeardInMessage(c, MemoryWrite, event.Get("message"), host)
    ensures d in cs && Rewriting(d, MemoryWrite)
    ensures var r := HandleBeforeMessageWriteSync(cfg, Some(MonitorFor(cs, sel, host)), event);
            r.Replaced? && ExtractText(r.message) == RewriteText(d, MemoryWrite)
  {
    var message := event.Get("message");
    ArgumentsShowMessage(message, event, Null, host);
    d := HeardRewriteSpeaks(cs, c, sel, message, host, BuildMemoryWriteAction(message));
    RewrittenTextShows(cfg, MonitorFor(cs, sel, host), event, Null, host, RewriteText(d, MemoryWrite));
  }

  /** Without a monitor nothing gets through: the message stays out of memory, and of a tool result only a fixed notice
      is persisted. With both guards off nothing is touched. */
  lemma MissingMonitorFailsClosed(cfg: GuardConfig, event: Json, ctx: Json, host: Host)
    requires event.Get("message").IsObject()
    ensures var r := HandleToolResultPersistSync(cfg, None, event, ctx, host);
            if cfg.toolGuard || cfg.guards
            then && r.Replaced?
                 && ExtractText(r.message) == "[OpenCOAT ReflexMonitor fail-closed] ReflexMonitor not initialized"
            else r == NoChange
    ensures HandleBeforeMessageWriteSync(cfg, None, event) == if cfg.toolGuard || cfg.guards then Blocked else NoChange
  {
    if cfg.toolGuard || cfg.guards {
      DeniedResultIsNotPersisted(cfg, None, event, ctx, host);
    }
  }

  // ---- Tool calls ----

  /** A tool call with a keyword of a concern that blocks tool calls in one of its text parameters is blocked. */
  lemma GuardedCallIsBlocked(
    cs: seq<Concern>, c: Concern, sel: Selection, host: Host, toolName: Json, params: map<string, Json>, s: State,
    name: string, w: string)
    requires DistinctIds(cs) && c in cs && BlocksInForce(c, ToolCall, sel)
    requires w != "" && Watches(c, ToolCall, w) && Shows(host, w)
    requires name in params && params[name].Str? && OccursIn(w, params[name].s)
    ensures var a := BuildToolCallAction(toolName, Obj(params));
            var r := ReflexToolGuardDecision(MonitorFor(cs, sel, host), a, s, params);
            r.block && r.blockReason.Some? && r.params == params
  {
    var a := BuildToolCallAction(toolName, Obj(params));
    assert OccursIn(w, host.serializeArgs(params));
    HeardBlockDenies(cs, c, sel, host, a, s);
  }

  lemma {:induction false} VoicedOrigin(ps: seq<ReflexPolicy>, rank: nat, a: Action, s: State, d: Decision)
    requires d in Voiced(ps, rank, a, s)
    ensures exists p | p in ps :: VoiceOf(p, a, s) == Speaks(d)
  {
    var init, last := ps[..|ps| - 1], ps[|ps| - 1];
    if d in Voiced(init, rank, a, s) {
      VoicedOrigin(init, rank, a, s, d);
      var p :| p in init && VoiceOf(p, a, s) == Speaks(d);
      assert p in ps;
    }
  }

  /** With an assembled monitor a tool call is blocked with its parameters as they were, let through as it was, or let
      through with nothing changed but the `content` parameter, and then to the text of a surviving policy. */
  lemma ToolParametersChangeOnlyInContent(
    specs: seq<PolicySpec>, host: Host, toolName: Json, params: map<string, Json>, s: State)
    ensures var a := BuildToolCallAction(toolName, Obj(params));
            var r := ReflexToolGuardDecision(MonitorOf(specs, host), a, s, params);
            || r.params == params
            || (!r.block && exists p | p in Unique(specs) ::
                  Rewrites(p) && Applies(p, host, a) && r.params == params["content" := Str(p.rewriteContent.value)])
  {
    var a := BuildToolCallAction(toolName, Obj(params));
    var m := MonitorOf(specs, host);
    var d := Decide(m, a, s);
    if d.Rewrite? {
      VoicedOrigin(m.policies, 2, a, s, d);
      var q :| q in m.policies && VoiceOf(q, a, s) == Speaks(d);
      var p := AssembledOrigin(specs, host, q);
      CompiledVoice(p, host, a, s);
    }
  }
}
