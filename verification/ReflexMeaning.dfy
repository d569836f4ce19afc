/** What the stored concerns mean, read off their records with every joinpoint name, target and mode spelled out, and
    that this is what the exporter selects and the assembled monitor decides. */
module ReflexMeanings {
  import opened Strings
  import opened JsonValues
  import opened Options
  import opened Concerns
  import opened ReflexMonitors
  import opened ReflexPolicies
  import opened ReflexExport
  import opened ReflexPipeline
  import opened ReflexWording

  // ---- The meaning, kind by kind ----

  ghost predicate OccursIn(w: string, text: string) {
    exists before: string, after: string :: text == before + w + after
  }

  ghost predicate AtOrBelow(target: string, name: string) {
    target == name || exists below: string :: target == name + "." + below
  }

  /** A selector goes by its path, and by its name when it has no path. */
  predicate Called(j: JoinpointRef, name: string) {
    match j
    case Named(n) => n == name
    case Selector(path, n) => path == Some(name) || (n == Some(name) && (path == None || path == Some("")))
  }

  predicate CallsOneOf(jps: seq<JoinpointRef>, names: set<string>) {
    exists j, name | j in jps && name in names :: Called(j, name)
  }

  /** A definition is about these joinpoints when it lists none at all, lists one of them, or its expression holds the
      name of one. */
  ghost predicate About(pc: PointcutDef, names: set<string>) {
    || pc.joinpoints == []
    || CallsOneOf(pc.joinpoints, names)
    || (pc.expression.Some? && exists name | name in names :: OccursIn(name, pc.expression.value))
  }

  predicate HasKeyword(m: Option<PointcutMatch>, w: string) {
    m.Some? && m.value.anyKeywords.Some? && w in m.value.anyKeywords.value
  }

  /** `w` is a keyword of a definition about these joinpoints, or of a legacy pointcut that lists one of them. */
  ghost predicate WatchesAt(c: Concern, names: set<string>, w: string) {
    || (exists pc | pc in c.pointcuts :: About(pc, names) && HasKeyword(pc.matching, w))
    || (c.pointcut.Some? && CallsOneOf(c.pointcut.value.joinpoints, names) && HasKeyword(c.pointcut.value.matching, w))
  }

  ghost predicate Watches(c: Concern, k: ActionKind, w: string) {
    match k
    case ToolCall => WatchesAt(c, {"before_tool_call", "tool.before_call"}, w)
    case Spawn => WatchesAt(c, {"task.before_create", "subagent_spawning", "subagent.before_spawn"}, w)
    case MessageOut => WatchesAt(c, {"before_response", "response.before_final", "message_sending"}, w)
    case QueueEnqueue => WatchesAt(c, {"queue.before_enqueue"}, w)
    case MemoryWrite => WatchesAt(c, {"memory.before_write", "before_memory_write", "before_message_write"}, w)
    case ToolResultPersist => WatchesAt(c, {"after_tool_call", "tool.result.before_emit", "tool_result_persist"}, w)
  }

  /** A non-empty keyword of the concern occurs in the text. */
  ghost predicate Hears(c: Concern, k: ActionKind, text: string) {
    exists w: string | w != "" :: Watches(c, k, w) && OccursIn(w, text)
  }

  ghost predicate Aims(effect: WeavingPolicy, modes: set<WeavingMode>, name: string) {
    && effect.mode.Some? && effect.mode.value in modes
    && effect.target.Some? && AtOrBelow(effect.target.value, name)
  }

  /** The advice acts with its own effect, and with that of the concern when it has none. */
  ghost predicate Acts(adv: AopAdvice, c: Concern, modes: set<WeavingMode>, name: string) {
    if adv.effect.Some? then Aims(adv.effect.value, modes, name)
    else c.weavingPolicy.Some? && Aims(c.weavingPolicy.value, modes, name)
  }

  /** The advice acts on what the action is about; on a tool call only a tool guard does. */
  ghost predicate ActsOn(adv: AopAdvice, c: Concern, modes: set<WeavingMode>, k: ActionKind) {
    match k
    case ToolCall => adv.template == Some(ToolGuard) && Acts(adv, c, modes, "tool_call")
    case Spawn => Acts(adv, c, modes, "task") || Acts(adv, c, modes, "subagent")
    case MessageOut => Acts(adv, c, modes, "runtime_prompt") || Acts(adv, c, modes, "response")
    case QueueEnqueue => Acts(adv, c, modes, "queue")
    case MemoryWrite => Acts(adv, c, modes, "memory_write") || Acts(adv, c, modes, "memory")
    case ToolResultPersist => Acts(adv, c, modes, "tool_result") || Acts(adv, c, modes, "memory_write")
  }

  ghost predicate BlocksBy(adv: AopAdvice, c: Concern, k: ActionKind) {
    ActsOn(adv, c, {Block, Suppress, Escalate}, k)
  }

  ghost predicate RewritesWith(adv: AopAdvice, c: Concern, k: ActionKind) {
    ActsOn(adv, c, {RewriteMode}, k) && PyStrip(adv.content) != ""
  }

  /** The legacy tool guard blocks tool calls by the mode of the concern, whatever the target. */
  ghost predicate LegacyToolGuard(c: Concern, k: ActionKind) {
    && k == ToolCall
    && (exists adv: Advice :: c.advice == Some(adv) && adv.kind == ToolGuard)
    && c.weavingPolicy.Some?
    && c.weavingPolicy.value.mode in {Some(Block), Some(Suppress), Some(Escalate)}
  }

  ghost predicate Denies(c: Concern, k: ActionKind, text: string) {
    && !c.lifecycle.Archived? && !c.lifecycle.Merged?
    && Hears(c, k, text)
    && (LegacyToolGuard(c, k) || exists adv | adv in c.advices :: BlocksBy(adv, c, k))
  }

  ghost predicate Replaces(c: Concern, k: ActionKind, text: string) {
    && !c.lifecycle.Archived? && !c.lifecycle.Merged?
    && Hears(c, k, text)
    && exists adv | adv in c.advices :: RewritesWith(adv, c, k)
  }

  // ---- The exporter's searches are these ----

  lemma ContainsIsOccursIn(text: string, w: string)
    ensures Contains(text, w) <==> OccursIn(w, text)
  {
    if i :| 0 <= i <= |text| && OccursAt(text, w, i) {
      assert text == text[..i] + w + text[i + |w|..];
    }
    if before: string, after: string :| text == before + w + after {
      assert text[|before|..] == w + after;
      assert OccursAt(text, w, |before|);
    }
  }

  lemma DottedIsBelow(target: string, name: string)
    ensures target == name || name + "." <= target <==> AtOrBelow(target, name)
  {
    if name + "." <= target {
      assert target == name + "." + target[|name| + 1..];
    }
  }

  lemma NamedIsCalled(j: JoinpointRef, name: string)
    requires name != ""
    ensures JoinpointPath(j) == name <==> Called(j, name)
  {
  }

  lemma NamesAreCalled(jps: seq<JoinpointRef>, names: set<string>)
    requires "" !in names
    ensures NamesJoinpoint(jps, names) <==> CallsOneOf(jps, names)
  {
    forall j, name | j in jps && name in names {
      NamedIsCalled(j, name);
    }
    if i :| 0 <= i < |jps| && JoinpointPath(jps[i]) in names {
      assert jps[i] in jps && Called(jps[i], JoinpointPath(jps[i]));
    }
    if j, name :| j in jps && name in names && Called(j, name) {
      var i :| 0 <= i < |jps| && jps[i] == j;
      assert JoinpointPath(jps[i]) in names;
    }
  }

  lemma ExpressionHolds(expression: Option<string>, name: string)
    requires name != ""
    ensures Contains(OrElse(expression, ""), name) <==> expression.Some? && OccursIn(name, expression.value)
  {
    if expression.Some? {
      ContainsIsOccursIn(expression.value, name);
    }
  }

  lemma MatchingIsAbout(pc: PointcutDef, names: set<string>)
    requires "" !in names
    ensures PointcutDefMatches(pc, names) <==> About(pc, names)
  {
    NamesAreCalled(pc.joinpoints, names);
    forall name | name in names
      ensures Contains(OrElse(pc.expression, ""), name) <==>
              pc.expression.Some? && OccursIn(name, pc.expression.value)
    {
      ExpressionHolds(pc.expression, name);
    }
  }

  lemma {:induction false} DefKeywordsAre(pcs: seq<PointcutDef>, names: set<string>, w: string)
    ensures w in DefKeywords(pcs, names) <==>
            exists pc | pc in pcs :: PointcutDefMatches(pc, names) && w in AnyKeywords(pc.matching)
  {
    if |pcs| > 0 {
      var init, last := pcs[..|pcs| - 1], pcs[|pcs| - 1];
      DefKeywordsAre(init, names, w);
      assert pcs == init + [last];
    }
  }

  lemma KeywordsAt(c: Concern, names: set<string>, w: string)
    requires "" !in names
    ensures w in Keywords(c, names) <==> WatchesAt(c, names, w)
  {
    DefKeywordsAre(c.pointcuts, names, w);
    forall pc | pc in c.pointcuts {
      MatchingIsAbout(pc, names);
    }
    if c.pointcut.Some? {
      NamesAreCalled(c.pointcut.value.joinpoints, names);
    }
  }

  lemma KeywordsAreWatched(c: Concern, k: ActionKind, w: string)
    ensures w in Keywords(c, ProfileOf(k).joinpoints) <==> Watches(c, k, w)
  {
    KeywordsAt(c, ProfileOf(k).joinpoints, w);
  }

  lemma MentioningIsHearing(c: Concern, k: ActionKind, text: string)
    ensures Mentions(c, k, text) <==> Hears(c, k, text)
  {
    forall w: string
      ensures w in Keywords(c, ProfileOf(k).joinpoints) <==> Watches(c, k, w)
      ensures Contains(text, w) <==> OccursIn(w, text)
    {
      KeywordsAreWatched(c, k, w);
      ContainsIsOccursIn(text, w);
    }
    if Hears(c, k, text) {
      var w: string :| w != "" && Watches(c, k, w) && OccursIn(w, text);
      assert w in Keywords(c, ProfileOf(k).joinpoints) && Contains(text, w);
    }
  }

  lemma TargetsAreAtOrBelow(target: string, prefixes: seq<string>)
    ensures TargetMatches(target, prefixes) <==> exists name | name in prefixes :: AtOrBelow(target, name)
  {
    if TargetMatches(target, prefixes) {
      var i :| 0 <= i < |prefixes| && (target == prefixes[i] || prefixes[i] + "." <= target);
      DottedIsBelow(target, prefixes[i]);
      assert prefixes[i] in prefixes;
    }
    if name :| name in prefixes && AtOrBelow(target, name) {
      DottedIsBelow(target, name);
      var i :| 0 <= i < |prefixes| && prefixes[i] == name;
      assert target == prefixes[i] || prefixes[i] + "." <= target;
    }
  }

  ghost predicate HasModes(test: Option<WeavingMode> -> bool, modes: set<WeavingMode>) {
    forall m :: test(m) <==> m.Some? && m.value in modes
  }

  lemma EffectAims(
    effect: WeavingPolicy, prefixes: seq<string>, test: Option<WeavingMode> -> bool, modes: set<WeavingMode>)
    requires HasModes(test, modes) && "" !in prefixes
    ensures test(effect.mode) && TargetMatches(OrElse(effect.target, ""), prefixes) <==>
            exists name | name in prefixes :: Aims(effect, modes, name)
  {
    TargetsAreAtOrBelow(OrElse(effect.target, ""), prefixes);
    if name :| name in prefixes && AtOrBelow(OrElse(effect.target, ""), name) {
      assert effect.target.Some?;
      assert test(effect.mode) ==> Aims(effect, modes, name);
    }
  }

  lemma GuardsAct(
    adv: AopAdvice, c: Concern, p: Profile, test: Option<WeavingMode> -> bool, modes: set<WeavingMode>)
    requires HasModes(test, modes) && "" !in p.prefixes
    ensures Guards(adv, c, p, test) <==>
            && (p.requireToolGuard ==> adv.template == Some(ToolGuard))
            && exists name | name in p.prefixes :: Acts(adv, c, modes, name)
  {
    if EffectOf(adv, c).Some? {
      EffectAims(EffectOf(adv, c).value, p.prefixes, test, modes);
    }
  }

  lemma GuardsActOn(
    adv: AopAdvice, c: Concern, k: ActionKind, test: Option<WeavingMode> -> bool, modes: set<WeavingMode>)
    requires HasModes(test, modes)
    ensures Guards(adv, c, ProfileOf(k), test) <==> ActsOn(adv, c, modes, k)
  {
    GuardsAct(adv, c, ProfileOf(k), test, modes);
  }

  lemma GuardsBlock(adv: AopAdvice, c: Concern, k: ActionKind)
    ensures Guards(adv, c, ProfileOf(k), IsBlockMode) <==> BlocksBy(adv, c, k)
    ensures Guards(adv, c, ProfileOf(k), IsRewriteMode) && PyStrip(adv.content) != "" <==> RewritesWith(adv, c, k)
  {
    GuardsActOn(adv, c, k, IsBlockMode, {Block, Suppress, Escalate});
    GuardsActOn(adv, c, k, IsRewriteMode, {RewriteMode});
  }

  lemma LegacyIsLegacy(c: Concern, k: ActionKind)
    ensures LegacyBlocks(c, ProfileOf(k)) <==> LegacyToolGuard(c, k)
  {
    if LegacyBlocks(c, ProfileOf(k)) {
      assert c.advice == Some(c.advice.value);
    }
  }

  ghost predicate Blocking(c: Concern, k: ActionKind) {
    LegacyToolGuard(c, k) || exists adv | adv in c.advices :: BlocksBy(adv, c, k)
  }

  ghost predicate Rewriting(c: Concern, k: ActionKind) { exists adv | adv in c.advices :: RewritesWith(adv, c, k) }

  lemma ActingConcerns(c: Concern, k: ActionKind)
    requires |Keywords(c, ProfileOf(k).joinpoints)| > 0
    ensures IsHardBlock(c, k) <==> Blocking(c, k)
    ensures IsHardRewrite(c, k) <==> Rewriting(c, k)
  {
    LegacyIsLegacy(c, k);
    forall adv | adv in c.advices
      ensures Guards(adv, c, ProfileOf(k), IsBlockMode) <==> BlocksBy(adv, c, k)
      ensures Guards(adv, c, ProfileOf(k), IsRewriteMode) && PyStrip(adv.content) != "" <==> RewritesWith(adv, c, k)
    {
      GuardsBlock(adv, c, k);
    }
  }

  /** A concern denies, or replaces, by its record exactly when the exporter takes it for a hard block, or a hard
      rewrite, that mentions the text. */
  lemma ConcernMeansExactly(c: Concern, k: ActionKind, text: string)
    ensures Denies(c, k, text) <==> Exportable(c) && IsHardBlock(c, k) && Mentions(c, k, text)
    ensures Replaces(c, k, text) <==> Exportable(c) && IsHardRewrite(c, k) && Mentions(c, k, text)
  {
    MentioningIsHearing(c, k, text);
    if Mentions(c, k, text) {
      ActingConcerns(c, k);
    }
  }

  lemma ConcernsMeanExactly(cs: seq<Concern>, k: ActionKind, text: string)
    ensures MeansDeny(cs, k, text) <==> exists c | c in cs :: Denies(c, k, text)
    ensures MeansRewrite(cs, k, text) <==> exists c | c in cs :: Replaces(c, k, text) && !Denies(c, k, text)
  {
    forall c | c in cs
      ensures Denies(c, k, text) <==> Exportable(c) && IsHardBlock(c, k) && Mentions(c, k, text)
      ensures Replaces(c, k, text) <==> Exportable(c) && IsHardRewrite(c, k) && Mentions(c, k, text)
    {
      ConcernMeansExactly(c, k, text);
    }
  }

  // ---- What the monitor decides ----

  /** The first advice that rewrites has a text that the bridge does not regard as blank. */
  ghost predicate RewritesVisibly(c: Concern, k: ActionKind) {
    exists i | 0 <= i < |c.advices| ::
      && RewritesWith(c.advices[i], c, k) && JsTrim(PyStrip(c.advices[i].content)) != ""
      && forall j | 0 <= j < i :: !RewritesWith(c.advices[j], c, k)
  }

  /** The concern has a policy of this kind for the bridge. */
  ghost predicate Stands(c: Concern, k: ActionKind) {
    && !c.lifecycle.Archived? && !c.lifecycle.Merged? && JsTrim(c.id) != ""
    && (exists w: string | w != "" :: Watches(c, k, w))
    && (Blocking(c, k) || RewritesVisibly(c, k))
  }

  lemma {:induction false} FirstRewriteIsFirst(c: Concern, k: ActionKind)
    requires |Keywords(c, ProfileOf(k).joinpoints)| > 0
    ensures VisibleRewrite(c, k) <==> RewritesVisibly(c, k)
  {
    var p := ProfileOf(k);
    var i := FirstRewriteIs(c.advices, c, p);
    forall j | 0 <= j < |c.advices|
      ensures RewritesBy(c.advices[j], c, p) <==> RewritesWith(c.advices[j], c, k)
    {
      GuardsBlock(c.advices[j], c, k);
    }
  }

  lemma UsableKeywords(c: Concern, k: ActionKind)
    ensures |NonEmpty(Keywords(c, ProfileOf(k).joinpoints))| > 0 <==> exists w: string | w != "" :: Watches(c, k, w)
  {
    var words := Keywords(c, ProfileOf(k).joinpoints);
    if |NonEmpty(words)| > 0 {
      var w := NonEmpty(words)[0];
      NonEmptyMembers(words, w);
      KeywordsAreWatched(c, k, w);
    }
    if w: string :| w != "" && Watches(c, k, w) {
      KeywordsAreWatched(c, k, w);
      NonEmptyMembers(words, w);
    }
  }

  lemma {:induction false} NoWordsNoNonEmpty(words: seq<string>)
    requires |NonEmpty(words)| > 0
    ensures |words| > 0
  {
  }

  lemma DeliveredIsStanding(c: Concern, k: ActionKind)
    ensures Delivered(c, k).Some? <==> Stands(c, k)
  {
    DeliveredMeaning(c, k);
    UsableKeywords(c, k);
    var words := Keywords(c, ProfileOf(k).joinpoints);
    if |NonEmpty(words)| > 0 {
      NoWordsNoNonEmpty(words);
      ActingConcerns(c, k);
      FirstRewriteIsFirst(c, k);
    }
  }

  /** No policy of the concern under a later kind name takes the place of this one in the merge by id. */
  ghost predicate Unshadowed(c: Concern, k: ActionKind, sel: Selection) {
    forall later: ActionKind | KindPlace(later) > KindPlace(k) && (sel == AllKinds || sel == Only(later)) ::
      !Stands(c, later)
  }

  lemma KeptIsUnshadowed(c: Concern, k: ActionKind, sel: Selection)
    ensures Kept(c, k, sel) <==> (sel == AllKinds || sel == Only(k)) && Stands(c, k) && Unshadowed(c, k, sel)
  {
    forall j: ActionKind
      ensures Delivered(c, j).Some? <==> Stands(c, j)
    {
      DeliveredIsStanding(c, j);
    }
  }

  lemma VisibleIsRewriting(c: Concern, k: ActionKind)
    requires RewritesVisibly(c, k)
    ensures Rewriting(c, k)
  {
    var i :| 0 <= i < |c.advices| && RewritesWith(c.advices[i], c, k);
    assert c.advices[i] in c.advices;
  }

  /** What a concern must be for its policy to be in force: its kind is exported, its id is not blank, and no later kind
      of its own takes the place. */
  ghost predicate InForce(c: Concern, k: ActionKind, sel: Selection) {
    (sel == AllKinds || sel == Only(k)) && JsTrim(c.id) != "" && Unshadowed(c, k, sel)
  }

  /** Of the concerns that hear the text, those are kept whose policies are in force. */
  lemma HeardIsKept(c: Concern, k: ActionKind, sel: Selection, text: string)
    requires Hears(c, k, text)
    ensures Kept(c, k, sel) <==>
            && InForce(c, k, sel) && !c.lifecycle.Archived? && !c.lifecycle.Merged?
            && (Blocking(c, k) || RewritesVisibly(c, k))
  {
    KeptIsUnshadowed(c, k, sel);
    var w: string :| w != "" && Watches(c, k, w) && OccursIn(w, text);
  }

  ghost predicate DenialInForce(c: Concern, k: ActionKind, sel: Selection, text: string) {
    InForce(c, k, sel) && Denies(c, k, text)
  }

  ghost predicate ReplacementInForce(c: Concern, k: ActionKind, sel: Selection, text: string) {
    InForce(c, k, sel) && Replaces(c, k, text) && RewritesVisibly(c, k)
  }

  lemma KeptIsInForce(c: Concern, k: ActionKind, sel: Selection, text: string)
    ensures Kept(c, k, sel) && Mentions(c, k, text) && IsHardBlock(c, k) <==> DenialInForce(c, k, sel, text)
    ensures Kept(c, k, sel) && Mentions(c, k, text) <==>
            DenialInForce(c, k, sel, text) || ReplacementInForce(c, k, sel, text)
  {
    MentioningIsHearing(c, k, text);
    if Hears(c, k, text) {
      HeardIsKept(c, k, sel, text);
      ActingConcerns(c, k);
      if RewritesVisibly(c, k) {
        VisibleIsRewriting(c, k);
      }
    }
  }

  /** From the records to the decision, for every kind and every list of concerns with distinct ids: the monitor denies
      exactly when some concern's denial is in force, and rewrites exactly when none is but some replacement is. */
  lemma MonitorDecidesByRecords(cs: seq<Concern>, sel: Selection, host: Host, a: Action, s: State)
    requires DistinctIds(cs)
    ensures var text := host.serializeArgs(a.args);
            var r := PipelineRank(cs, sel, host, a, s);
            && (r == 3 <==> exists c | c in cs :: DenialInForce(c, a.kind, sel, text))
            && (r == 2 <==> && (exists c | c in cs :: ReplacementInForce(c, a.kind, sel, text))
                            && !exists c | c in cs :: DenialInForce(c, a.kind, sel, text))
  {
    var text := host.serializeArgs(a.args);
    PipelineDecides(cs, sel, host, a, s);
    PipelineRankBounds(cs, sel, host, a, s);
    forall c | c in cs
      ensures Kept(c, a.kind, sel) && IsHardBlock(c, a.kind) && Mentions(c, a.kind, text) <==>
              DenialInForce(c, a.kind, sel, text)
      ensures Kept(c, a.kind, sel) && Mentions(c, a.kind, text) <==>
              DenialInForce(c, a.kind, sel, text) || ReplacementInForce(c, a.kind, sel, text)
    {
      KeptIsInForce(c, a.kind, sel, text);
    }
  }

  lemma DeniedByOne(c: Concern, sel: Selection, host: Host, a: Action, s: State)
    requires DenialInForce(c, a.kind, sel, host.serializeArgs(a.args))
    ensures PipelineRank([c], sel, host, a, s) == 3
  {
    MonitorDecidesByRecords([c], sel, host, a, s);
    assert c in [c];
  }

  /** The kinds follow the order of their names. */
  lemma LaterNames(j: ActionKind, k: ActionKind)
    ensures KindPlace(j) <= KindPlace(k) <==> LexLe(KindName(j), KindName(k))
  {
    LexLeTotal(KindName(j), KindName(k));
    if LexLe(KindName(j), KindName(k)) {
      KindNamesInOrder(j, k);
    } else {
      KindNamesInOrder(k, j);
    }
  }

  // ---- The words of one concern ----

  /** The first of the texts that is not empty, stripped. */
  predicate Says(text: string, content: string, description: string, id: string) {
    && (content != "" ==> text == PyStrip(content))
    && (content == "" && description != "" ==> text == PyStrip(description))
    && (content == "" && description == "" ==> text == PyStrip("Blocked by " + id))
  }

  /** A denial says the content of the first advice that blocks, or of the legacy tool guard when no advice does; a
      content that is empty gives way to the description, and an empty description to the id. */
  lemma DenialSays(c: Concern, k: ActionKind) returns (i: nat)
    requires IsHardBlock(c, k)
    ensures i <= |c.advices| && forall j | 0 <= j < i :: !BlocksBy(c.advices[j], c, k)
    ensures i < |c.advices| ==>
              BlocksBy(c.advices[i], c, k) && Says(DenyText(c, k), c.advices[i].content, c.description, c.id)
    ensures i == |c.advices| ==>
              LegacyToolGuard(c, k) && Says(DenyText(c, k), c.advice.value.content, c.description, c.id)
  {
    i := DenyTextIsOfFirstBlock(c, k);
    forall j | 0 <= j < |c.advices|
      ensures Guards(c.advices[j], c, ProfileOf(k), IsBlockMode) <==> BlocksBy(c.advices[j], c, k)
    {
      GuardsBlock(c.advices[j], c, k);
    }
    LegacyIsLegacy(c, k);
  }

  /** A replacement is the stripped content of the first advice that rewrites. */
  lemma ReplacementSays(c: Concern, k: ActionKind) returns (i: nat)
    requires IsHardRewrite(c, k)
    ensures i < |c.advices| && RewritesWith(c.advices[i], c, k)
    ensures forall j | 0 <= j < i :: !RewritesWith(c.advices[j], c, k)
    ensures RewriteText(c, k) == PyStrip(c.advices[i].content)
  {
    i := RewriteTextIsOfFirstRewrite(c, k);
    forall j | 0 <= j < |c.advices|
      ensures RewritesBy(c.advices[j], c, ProfileOf(k)) <==> RewritesWith(c.advices[j], c, k)
    {
      GuardsBlock(c.advices[j], c, k);
    }
  }

  // ---- The row on the wire ----

  predicate WireName(k: ActionKind, name: string) {
    match k
    case ToolCall => name == "tool_call"
    case Spawn => name == "spawn"
    case MessageOut => name == "message_out"
    case QueueEnqueue => name == "queue_enqueue"
    case MemoryWrite => name == "memory_write"
    case ToolResultPersist => name == "tool_result_persist"
  }

  /** The fields that every exported row has, but for the needles. */
  predicate Describes(row: Json, c: Concern, k: ActionKind, reason: string) {
    && row.Get("id") == Str(c.id) && row.Get("criticality") == Str("safety_critical")
    && row.Get("action_kind").Str? && WireName(k, row.Get("action_kind").s)
    && row.Get("deny_reason") == Str(reason)
    && row.Get("predicate").Get("kind") == Str(if k == ToolCall then "args_contains" else "text_contains")
    && row.Get("predicate").Get("case_insensitive") == Undefined
  }

  /** The needles are the watched keywords, each once. */
  ghost predicate NeedlesWatch(needles: seq<Json>, c: Concern, k: ActionKind) {
    && (forall v | v in needles :: v.Str? && Watches(c, k, v.s))
    && (forall w: string | Watches(c, k, w) :: Str(w) in needles)
    && forall i, j | 0 <= i < j < |needles| :: needles[i] != needles[j]
  }

  lemma NeedlesAreWatched(c: Concern, k: ActionKind)
    ensures NeedlesWatch(StrItems(Keywords(c, ProfileOf(k).joinpoints)), c, k)
  {
    var words := Keywords(c, ProfileOf(k).joinpoints);
    var needles := StrItems(words);
    forall v | v in needles
      ensures v.Str? && Watches(c, k, v.s)
    {
      var i :| 0 <= i < |needles| && needles[i] == v;
      KeywordsAreWatched(c, k, words[i]);
    }
    forall w: string | Watches(c, k, w)
      ensures Str(w) in needles
    {
      KeywordsAreWatched(c, k, w);
      var i :| 0 <= i < |words| && words[i] == w;
      assert needles[i] == Str(w);
    }
  }

  ghost predicate HoldsNeedles(row: Json, c: Concern, k: ActionKind) {
    var needles := row.Get("predicate").Get("needles");
    needles.Arr? && NeedlesWatch(needles.items, c, k)
  }

  ghost predicate DenialRow(row: Json, c: Concern, k: ActionKind, reason: string) {
    && Describes(row, c, k, reason) && HoldsNeedles(row, c, k)
    && row.Get("effect") == Str("deny") && row.Get("rewrite_content") == Undefined
  }

  ghost predicate ReplacementRow(row: Json, c: Concern, k: ActionKind, reason: string, content: string) {
    && Describes(row, c, k, reason) && HoldsNeedles(row, c, k)
    && row.Get("effect") == Str("rewrite") && row.Get("rewrite_content") == Str(content)
  }

  lemma PredicateReads(c: Concern, k: ActionKind, needles: seq<string>, reason: string)
    ensures var pred := Obj(Row(c, k, needles, reason)).Get("predicate");
            && pred.Get("kind") == Str(if k == ToolCall then "args_contains" else "text_contains")
            && pred.Get("needles") == Arr(StrItems(needles)) && pred.Get("case_insensitive") == Undefined
  {
    var pred := Obj(Row(c, k, needles, reason)).Get("predicate");
    assert "case_insensitive" !in pred.fields;
  }

  lemma RowDescribes(c: Concern, k: ActionKind, needles: seq<string>, reason: string, row: Json)
    requires row == DenyRow(c, k, needles, reason) ||
             exists content: string :: row == RewriteRow(c, k, needles, reason, content)
    ensures Describes(row, c, k, reason)
    ensures row.Get("predicate").Get("needles") == Arr(StrItems(needles))
  {
    RowFields(c, k, needles, reason, row);
    PredicateReads(c, k, needles, reason);
  }

  lemma DenyRowIsDenial(c: Concern, k: ActionKind, needles: seq<string>, reason: string)
    requires NeedlesWatch(StrItems(needles), c, k)
    ensures DenialRow(DenyRow(c, k, needles, reason), c, k, reason)
  {
    RowDescribes(c, k, needles, reason, DenyRow(c, k, needles, reason));
    EffectFields(c, k, needles, reason, "");
  }

  lemma RewriteRowIsReplacement(c: Concern, k: ActionKind, needles: seq<string>, reason: string, content: string)
    requires NeedlesWatch(StrItems(needles), c, k)
    ensures ReplacementRow(RewriteRow(c, k, needles, reason, content), c, k, reason, content)
  {
    RowDescribes(c, k, needles, reason, RewriteRow(c, k, needles, reason, content));
    EffectFields(c, k, needles, reason, content);
  }

  lemma ExportedWhen(c: Concern, k: ActionKind)
    ensures ExportRow(c, k).Some? <==>
            && !c.lifecycle.Archived? && !c.lifecycle.Merged?
            && (exists w: string :: Watches(c, k, w))
            && (Blocking(c, k) || Rewriting(c, k))
  {
    var words := Keywords(c, ProfileOf(k).joinpoints);
    HardBlockIsMeant(c, k);
    if w: string :| Watches(c, k, w) {
      KeywordsAreWatched(c, k, w);
    }
    if |words| > 0 {
      KeywordsAreWatched(c, k, words[0]);
      ActingConcerns(c, k);
    }
  }

  lemma ExportedForm(c: Concern, k: ActionKind)
    requires ExportRow(c, k).Some?
    ensures var words := Keywords(c, ProfileOf(k).joinpoints);
            ExportRow(c, k).value ==
            if IsHardBlock(c, k) then DenyRow(c, k, words, DenyText(c, k))
            else RewriteRow(c, k, words, PyStrip(OrElse(Some(c.description), "Rewritten by " + c.id)),
                            RewriteText(c, k))
  {
    HardBlockIsMeant(c, k);
    FirstRewriteNotBlank(c.advices, c, ProfileOf(k));
  }

  /** What the exporter puts out for a concern, read off its record. */
  lemma ExportedRow(c: Concern, k: ActionKind)
    ensures ExportRow(c, k).Some? <==>
            && !c.lifecycle.Archived? && !c.lifecycle.Merged?
            && (exists w: string :: Watches(c, k, w))
            && (Blocking(c, k) || Rewriting(c, k))
    ensures ExportRow(c, k).Some? && Blocking(c, k) ==> DenialRow(ExportRow(c, k).value, c, k, DenyText(c, k))
    ensures ExportRow(c, k).Some? && !Blocking(c, k) ==>
              ReplacementRow(ExportRow(c, k).value, c, k,
                             PyStrip(if c.description == "" then "Rewritten by " + c.id else c.description),
                             RewriteText(c, k))
  {
    ExportedWhen(c, k);
    if ExportRow(c, k).Some? {
      var words := Keywords(c, ProfileOf(k).joinpoints);
      var w: string :| Watches(c, k, w);
      KeywordsAreWatched(c, k, w);
      NeedlesAreWatched(c, k);
      ActingConcerns(c, k);
      ExportedForm(c, k);
      DenyRowIsDenial(c, k, words, DenyText(c, k));
      RewriteRowIsReplacement(c, k, words, PyStrip(OrElse(Some(c.description), "Rewritten by " + c.id)),
                              RewriteText(c, k));
    }
  }

  // ---- The shipped demo guard ----

  /** It targets the arguments of a tool call, below the `tool_call` of the profile. */
  const DEMO_TOOL_BLOCK := Concern(
    "demo-tool-block", "Demo — block destructive shell commands",
    "Refuses any tool call whose arguments mention ``rm -rf``. Demonstrates BLOCK weaving on ``tool_call.arguments``.",
    None, [], None, None, None, None,
    [PointcutDef("pc-tool", Some("before_tool_call()"), [Named("before_tool_call")],
                 Some(PointcutMatch(Some(["rm -rf", "rm  -rf"]), Null)), [])],
    [AopAdvice("adv-block", Before, "pc-tool",
               "Refusing destructive shell command — `rm -rf` is blocked by demo-tool-block.", Some(ToolGuard),
               None, None, None,
               Some(WeavingPolicy(Some(Block), Some("tool_level"), Some("tool_call.arguments"), 200, 0.9)))],
    [], None, [], None, Created, Null, None, None)

  lemma DemoGuardWatches(w: string)
    requires w == "rm -rf" || w == "rm  -rf"
    ensures Watches(DEMO_TOOL_BLOCK, ToolCall, w)
  {
    var c := DEMO_TOOL_BLOCK;
    var pc := c.pointcuts[0];
    assert pc in c.pointcuts && Called(pc.joinpoints[0], "before_tool_call") && pc.joinpoints[0] in pc.joinpoints;
    var words := ["rm -rf", "rm  -rf"];
    assert words[0] == "rm -rf" && words[1] == "rm  -rf";
    assert w in words && HasKeyword(pc.matching, w);
    assert CallsOneOf(pc.joinpoints, {"before_tool_call", "tool.before_call"});
  }

  lemma DemoGuardBlocks()
    ensures Blocking(DEMO_TOOL_BLOCK, ToolCall)
  {
    var c := DEMO_TOOL_BLOCK;
    var adv := c.advices[0];
    assert "tool_call.arguments" == "tool_call" + "." + "arguments";
    assert AtOrBelow("tool_call.arguments", "tool_call");
    assert BlocksBy(adv, c, ToolCall) && adv in c.advices;
  }

  lemma DemoGuardInForce(text: string)
    requires Hears(DEMO_TOOL_BLOCK, ToolCall, text)
    ensures DenialInForce(DEMO_TOOL_BLOCK, ToolCall, Only(ToolCall), text)
  {
    DemoGuardBlocks();
    NonBlankSurvives("demo-tool-block", 0, JsBlank);
  }

  /** Exported for tool calls, it denies every call whose serialised arguments hold `rm -rf`. */
  lemma DemoGuardDenies(host: Host, a: Action, s: State)
    requires a.kind == ToolCall && OccursIn("rm -rf", host.serializeArgs(a.args))
    ensures PipelineRank([DEMO_TOOL_BLOCK], Only(ToolCall), host, a, s) == 3
  {
    DemoGuardWatches("rm -rf");
    assert Hears(DEMO_TOOL_BLOCK, ToolCall, host.serializeArgs(a.args));
    DemoGuardInForce(host.serializeArgs(a.args));
    DeniedByOne(DEMO_TOOL_BLOCK, Only(ToolCall), host, a, s);
  }

  // ---- The policies of the bridge's own ----

  /** A spec applies to actions of its kind: by the name of the tool, or by a needle in the serialised arguments, both
      in lower case when case does not count. */
  lemma AppliesExactly(sp: PolicySpec, host: Host, a: Action)
    ensures Applies(sp, host, a) <==>
            && a.kind == sp.kind
            && match sp.test
               case ToolName(names) => a.name in names
               case Needles(_, needles, caseInsensitive) =>
                 var text := host.serializeArgs(a.args);
                 exists w | w in needles ::
                   if caseInsensitive then OccursIn(host.lower(w), host.lower(text)) else OccursIn(w, text)
  {
    if sp.test.Needles? {
      var needles, text := sp.test.needles, host.serializeArgs(a.args);
      forall w: string
        ensures Contains(text, w) <==> OccursIn(w, text)
        ensures Contains(host.lower(text), host.lower(w)) <==> OccursIn(host.lower(w), host.lower(text))
      {
        ContainsIsOccursIn(text, w);
        ContainsIsOccursIn(host.lower(text), host.lower(w));
      }
      NeedleFound(sp, host, a);
    }
  }

  lemma NeedleFound(sp: PolicySpec, host: Host, a: Action)
    requires sp.test.Needles?
    ensures var text := host.serializeArgs(a.args);
            ArgsContain(host, a, sp.test.needles, sp.test.caseInsensitive) <==>
            exists w | w in sp.test.needles ::
              if sp.test.caseInsensitive then Contains(host.lower(text), host.lower(w)) else Contains(text, w)
  {
    var needles, ci, text := sp.test.needles, sp.test.caseInsensitive, host.serializeArgs(a.args);
    if w :| w in needles && (if ci then Contains(host.lower(text), host.lower(w)) else Contains(text, w)) {
      var i :| 0 <= i < |needles| && needles[i] == w;
    }
  }

  /** The bridge's own demo policies are in force only when nothing was exported. */
  lemma FallbackPolicies(cfg: RuntimeConfig, exported: Option<seq<PolicySpec>>, sp: PolicySpec)
    ensures sp in AllSpecs(cfg, exported) <==>
            || sp in cfg.inlinePolicies
            || (exported.Some? && sp in exported.value)
            || (cfg.includeDemoPolicy && (exported == None || exported == Some([])) &&
                (sp == DEMO_TOOL_BLOCK_SPEC || sp == DEMO_QUEUE_BLOCK_SPEC))
  {
  }

  lemma OneDefinition(pc: PointcutDef, names: set<string>)
    requires PointcutDefMatches(pc, names)
    ensures DefKeywords([pc], names) == AnyKeywords(pc.matching)
  {
    assert [pc][..0] == [] && DefKeywords([], names) == [];
  }

  lemma DedupOfTwo(v: string, w: string)
    requires v != w
    ensures Dedup([v, w]) == [v, w]
  {
    assert [v, w][..1] == [v] && [v][..0] == [];
    assert Dedup([v]) == [v];
  }

  lemma DemoKeywords()
    ensures Keywords(DEMO_TOOL_BLOCK, ProfileOf(ToolCall).joinpoints) == ["rm -rf", "rm  -rf"]
  {
    var c, names := DEMO_TOOL_BLOCK, ProfileOf(ToolCall).joinpoints;
    assert JoinpointPath(c.pointcuts[0].joinpoints[0]) in names;
    OneDefinition(c.pointcuts[0], names);
    assert |"rm -rf"| != |"rm  -rf"|;
    DedupOfTwo("rm -rf", "rm  -rf");
    assert DefKeywords(c.pointcuts, names) + LegacyKeywords(c.pointcut, names) == DefKeywords(c.pointcuts, names);
  }

  lemma UnmentionedIsAllowed(c: Concern, sel: Selection, host: Host, a: Action, s: State)
    requires !Mentions(c, a.kind, host.serializeArgs(a.args))
    ensures PipelineRank([c], sel, host, a, s) == 1
  {
    PipelineDecides([c], sel, host, a, s);
    PipelineRankBounds([c], sel, host, a, s);
  }

  /** The fallback for tool calls stands in for the demo guard: it denies exactly when the exported guard does. */
  lemma FallbackStandsInForGuard(host: Host, a: Action, s: State)
    requires a.kind == ToolCall
    ensures Ruling(MonitorOf([DEMO_TOOL_BLOCK_SPEC], host).policies, a, s, host.order).Rank() ==
            PipelineRank([DEMO_TOOL_BLOCK], Only(ToolCall), host, a, s)
  {
    var c, text := DEMO_TOOL_BLOCK, host.serializeArgs(a.args);
    DemoKeywords();
    FallbackRank(host, a, s);
    MentioningIsHearing(c, ToolCall, text);
    if Mentions(c, ToolCall, text) {
      DemoGuardInForce(text);
      DeniedByOne(c, Only(ToolCall), host, a, s);
    } else {
      UnmentionedIsAllowed(c, Only(ToolCall), host, a, s);
    }
  }

  lemma FallbackRank(host: Host, a: Action, s: State)
    requires a.kind == ToolCall
    requires Keywords(DEMO_TOOL_BLOCK, ProfileOf(ToolCall).joinpoints) == DEMO_TOOL_BLOCK_SPEC.test.needles
    ensures Ruling(MonitorOf([DEMO_TOOL_BLOCK_SPEC], host).policies, a, s, host.order).Rank() ==
            if Mentions(DEMO_TOOL_BLOCK, ToolCall, host.serializeArgs(a.args)) then 3 else 1
  {
    var spec := DEMO_TOOL_BLOCK_SPEC;
    assert LastOfItsId([spec], spec, 0);
    UniqueMembers([spec], spec);
    AssembledRank([spec], host, a, s);
  }
}
