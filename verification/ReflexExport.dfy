/** From stored concerns to portable policy rows (reflex_policy_export.py). */
module ReflexExport {
  import opened Strings
  import opened Sorting
  import opened JsonValues
  import opened Options
  import opened Filtering
  import opened Concerns
  import opened ReflexMonitors
  import opened ReflexPolicies

  datatype Profile = Profile(joinpoints: set<string>, prefixes: seq<string>, requireToolGuard: bool)

  function ProfileOf(k: ActionKind): Profile {
    match k
    case ToolCall => Profile({"before_tool_call", "tool.before_call"}, ["tool_call"], true)
    case Spawn =>
      Profile({"task.before_create", "subagent_spawning", "subagent.before_spawn"}, ["task", "subagent"], false)
    case MessageOut =>
      Profile({"before_response", "response.before_final", "message_sending"}, ["runtime_prompt", "response"], false)
    case QueueEnqueue => Profile({"queue.before_enqueue"}, ["queue"], false)
    case MemoryWrite =>
      Profile({"memory.before_write", "before_memory_write", "before_message_write"}, ["memory_write", "memory"], false)
    case ToolResultPersist =>
      Profile({"after_tool_call", "tool.result.before_emit", "tool_result_persist"}, ["tool_result", "memory_write"],
              false)
  }

  predicate IsBlockMode(m: Option<WeavingMode>) {
    m == Some(Block) || m == Some(Suppress) || m == Some(Escalate)
  }

  predicate IsRewriteMode(m: Option<WeavingMode>) { m == Some(RewriteMode) }

  function OrElse(s: Option<string>, default: string): string {
    if s.Some? && s.value != "" then s.value else default
  }

  function JoinpointPath(j: JoinpointRef): string {
    match j
    case Named(name) => name
    case Selector(path, name) => OrElse(path, OrElse(name, ""))
  }

  predicate NamesJoinpoint(jps: seq<JoinpointRef>, joinpoints: set<string>) {
    exists i | 0 <= i < |jps| :: JoinpointPath(jps[i]) in joinpoints
  }

  predicate PointcutDefMatches(pc: PointcutDef, joinpoints: set<string>) {
    || |pc.joinpoints| == 0
    || NamesJoinpoint(pc.joinpoints, joinpoints)
    || exists jp | jp in joinpoints :: Contains(OrElse(pc.expression, ""), jp)
  }

  predicate TargetMatches(target: string, prefixes: seq<string>) {
    exists i | 0 <= i < |prefixes| :: target == prefixes[i] || prefixes[i] + "." <= target
  }

  // ---- _pointcut_keywords ----

  function AnyKeywords(m: Option<PointcutMatch>): seq<string> {
    if m.Some? && m.value.anyKeywords.Some? then m.value.anyKeywords.value else []
  }

  /** Keywords of the matching pointcut definitions, with repetitions. */
  function DefKeywords(pcs: seq<PointcutDef>, joinpoints: set<string>): seq<string> {
    if |pcs| == 0 then []
    else
      var last := pcs[|pcs| - 1];
      DefKeywords(pcs[..|pcs| - 1], joinpoints)
      + if PointcutDefMatches(last, joinpoints) then AnyKeywords(last.matching) else []
  }

  function LegacyKeywords(pc: Option<Pointcut>, joinpoints: set<string>): seq<string> {
    if pc.Some? && NamesJoinpoint(pc.value.joinpoints, joinpoints) then AnyKeywords(pc.value.matching) else []
  }

  /** The first occurrence of every word, in order. */
  function Dedup(words: seq<string>): (out: seq<string>)
    ensures forall w :: w in out <==> w in words
    ensures forall i, j | 0 <= i < j < |out| :: out[i] != out[j]
  {
    if |words| == 0 then []
    else
      var init := Dedup(words[..|words| - 1]);
      var last := words[|words| - 1];
      assert words == words[..|words| - 1] + [last];
      if last in init then init else init + [last]
  }

  function Keywords(c: Concern, joinpoints: set<string>): seq<string> {
    Dedup(DefKeywords(c.pointcuts, joinpoints) + LegacyKeywords(c.pointcut, joinpoints))
  }

  method PointcutKeywords(c: Concern, joinpoints: set<string>) returns (out: seq<string>)
    ensures out == Keywords(c, joinpoints)
  {
    var keys: seq<string> := [];
    for i := 0 to |c.pointcuts|
      invariant keys == DefKeywords(c.pointcuts[..i], joinpoints)
    {
      assert c.pointcuts[..i + 1][..i] == c.pointcuts[..i];
      if !PointcutDefMatches(c.pointcuts[i], joinpoints) {
        continue;
      }
      keys := keys + AnyKeywords(c.pointcuts[i].matching);
    }
    assert c.pointcuts[..|c.pointcuts|] == c.pointcuts;
    keys := keys + LegacyKeywords(c.pointcut, joinpoints);
    out := DropRepeats(keys);
  }

  /** The loop with the seen set. */
  method DropRepeats(keys: seq<string>) returns (out: seq<string>)
    ensures out == Dedup(keys)
  {
    var seen: set<string> := {};
    out := [];
    for i := 0 to |keys|
      invariant out == Dedup(keys[..i])
      invariant seen == set w | w in out
    {
      assert keys[..i + 1][..i] == keys[..i];
      if keys[i] in seen {
        continue;
      }
      seen := seen + {keys[i]};
      out := out + [keys[i]];
    }
    assert keys[..|keys|] == keys;
  }

  // ---- _is_hard_block / _is_hard_rewrite ----

  function EffectOf(adv: AopAdvice, c: Concern): Option<WeavingPolicy> {
    if adv.effect.Some? then adv.effect else c.weavingPolicy
  }

  predicate Guards(adv: AopAdvice, c: Concern, p: Profile, mode: Option<WeavingMode> -> bool) {
    && (p.requireToolGuard ==> adv.template == Some(ToolGuard))
    && EffectOf(adv, c).Some?
    && mode(EffectOf(adv, c).value.mode)
    && TargetMatches(OrElse(EffectOf(adv, c).value.target, ""), p.prefixes)
  }

  function BlockedBy(content: string, c: Concern): string {
    PyStrip(OrElse(Some(content), OrElse(Some(c.description), "Blocked by " + c.id)))
  }

  /** The deny reason of the first advice that blocks. */
  function FirstBlock(advs: seq<AopAdvice>, c: Concern, p: Profile): Option<string> {
    if |advs| == 0 then None
    else if Guards(advs[0], c, p, IsBlockMode) then Some(BlockedBy(advs[0].content, c))
    else FirstBlock(advs[1..], c, p)
  }

  predicate LegacyBlocks(c: Concern, p: Profile) {
    p.requireToolGuard && c.advice.Some? && c.advice.value.kind == ToolGuard &&
    c.weavingPolicy.Some? && IsBlockMode(c.weavingPolicy.value.mode)
  }

  function HardBlock(c: Concern, p: Profile): Option<string> {
    if |Keywords(c, p.joinpoints)| == 0 then None
    else
      var hit := FirstBlock(c.advices, c, p);
      if hit.Some? then hit
      else if LegacyBlocks(c, p) then Some(BlockedBy(c.advice.value.content, c))
      else None
  }

  /** The content of the first advice that rewrites with something to say. */
  function FirstRewrite(advs: seq<AopAdvice>, c: Concern, p: Profile): Option<string> {
    if |advs| == 0 then None
    else if Guards(advs[0], c, p, IsRewriteMode) && PyStrip(advs[0].content) != "" then Some(PyStrip(advs[0].content))
    else FirstRewrite(advs[1..], c, p)
  }

  function HardRewrite(c: Concern, p: Profile): Option<string> {
    if |Keywords(c, p.joinpoints)| == 0 then None else FirstRewrite(c.advices, c, p)
  }

  // ---- _export_one_kind ----

  /** The exporter passes over archived and merged concerns, and over no others: a deleted concern is exported. */
  predicate Exportable(c: Concern) { !c.lifecycle.Archived? && !c.lifecycle.Merged? }

  function Row(c: Concern, k: ActionKind, needles: seq<string>, reason: string): map<string, Json> {
    map["id" := Str(c.id),
        "criticality" := Str("safety_critical"),
        "action_kind" := Str(KindName(k)),
        "predicate" := Obj(map["kind" := Str(if k.ToolCall? then "args_contains" else "text_contains"),
                               "needles" := Arr(StrItems(needles))]),
        "deny_reason" := Str(reason)]
  }

  function DenyRow(c: Concern, k: ActionKind, needles: seq<string>, reason: string): Json {
    Obj(Row(c, k, needles, reason)["effect" := Str("deny")])
  }

  function RewriteRow(c: Concern, k: ActionKind, needles: seq<string>, reason: string, content: string): Json {
    Obj(Row(c, k, needles, reason)["effect" := Str("rewrite")]["rewrite_content" := Str(content)])
  }

  /** The policy row a concern is exported as for one action kind. */
  function ExportRow(c: Concern, k: ActionKind): Option<Json> {
    var p := ProfileOf(k);
    var needles := Keywords(c, p.joinpoints);
    if !Exportable(c) then None
    else if HardBlock(c, p).Some? then Some(DenyRow(c, k, needles, HardBlock(c, p).value))
    else if HardRewrite(c, p).Some? then
      Some(RewriteRow(c, k, needles, PyStrip(OrElse(Some(c.description), "Rewritten by " + c.id)),
                      HardRewrite(c, p).value))
    else None
  }

  function RowOf(k: ActionKind): Concern -> Option<Json> {
    (c: Concern) => ExportRow(c, k)
  }

  function Rows(cs: seq<Concern>, k: ActionKind): seq<Json> {
    FilterMap(cs, RowOf(k))
  }

  function TextOf(v: Json): string { if v.Str? then v.s else "" }

  function RowId(row: Json): string { TextOf(row.Get("id")) }

  function RowKey(row: Json): (string, string) { (TextOf(row.Get("action_kind")), RowId(row)) }

  function ExportedOneKind(cs: seq<Concern>, k: ActionKind): seq<Json> {
    Sort(Rows(cs, k), RowId, LexLe)
  }

  method ExportOneKind(cs: seq<Concern>, k: ActionKind) returns (policies: seq<Json>)
    ensures policies == ExportedOneKind(cs, k)
  {
    policies := [];
    var p := ProfileOf(k);
    for i := 0 to |cs|
      invariant policies == Rows(cs[..i], k)
    {
      FilterMapStep(cs, i, RowOf(k));
      var c := cs[i];
      if c.lifecycle.Archived? || c.lifecycle.Merged? {
        continue;
      }
      var needles := PointcutKeywords(c, p.joinpoints);
      var hit := HardBlock(c, p);
      if hit.None? {
        var rewrite := HardRewrite(c, p);
        if rewrite.None? {
          continue;
        }
        var reason := PyStrip(OrElse(Some(c.description), "Rewritten by " + c.id));
        policies := policies + [RewriteRow(c, k, needles, reason, rewrite.value)];
        continue;
      }
      policies := policies + [DenyRow(c, k, needles, hit.value)];
    }
    assert cs[..|cs|] == cs;
    policies := Sort(policies, RowId, LexLe);
  }

  // ---- export_reflex_policies ----

  datatype Selection = Only(kind: ActionKind) | AllKinds

  const KINDS: seq<ActionKind> := [ToolCall, Spawn, MessageOut, QueueEnqueue, MemoryWrite, ToolResultPersist]

  function RowsOfKinds(cs: seq<Concern>, kinds: seq<ActionKind>): seq<Json> {
    if |kinds| == 0 then []
    else RowsOfKinds(cs, kinds[..|kinds| - 1]) + ExportedOneKind(cs, kinds[|kinds| - 1])
  }

  function Exported(cs: seq<Concern>, sel: Selection): seq<Json> {
    match sel
    case Only(k) => ExportedOneKind(cs, k)
    case AllKinds => Sort(RowsOfKinds(cs, KINDS), RowKey, PairLe)
  }

  method ExportReflexPolicies(cs: seq<Concern>, sel: Selection) returns (portable: Json)
    ensures IsExport(portable) && portable.Get("policies").items == Exported(cs, sel)
  {
    var rows: seq<Json> := [];
    match sel {
      case Only(k) => rows := ExportOneKind(cs, k);
      case AllKinds =>
        for i := 0 to |KINDS|
          invariant rows == RowsOfKinds(cs, KINDS[..i])
        {
          assert KINDS[..i + 1][..i] == KINDS[..i];
          var some := ExportOneKind(cs, KINDS[i]);
          rows := rows + some;
        }
        assert KINDS[..|KINDS|] == KINDS;
        rows := Sort(rows, RowKey, PairLe);
    }
    portable := Obj(map["version" := Str("0.1"), "policies" := Arr(rows)]);
  }
}
