/** What a concern's pointcut expression comes to when the record is constructed: the pointcut of the synchronised
    record, and with it the keywords that its guards listen for (aop.py, envelopes.py, reflex_policy_export.py). */
module ConcernPointcuts {
  import opened Aop
  import opened Concerns
  import opened JsonValues
  import opened Options
  import opened PointcutCalls
  import opened PointcutForms
  import opened Pointcuts
  import opened ReflexMeanings
  import opened ReflexExport
  import opened ReflexMonitors
  import opened ReflexPipeline
  import opened ReflexPolicies
  import opened Strings

  // ---- The pointcut of a concern that has none of its own ----

  /** A call of this name, which is none of the reserved ones, begins somewhere in the expression. */
  ghost predicate CalledIn(e: string, name: string) {
    name !in {"args", "execution", "call", "within", "adviceexecution"} && exists i: nat :: CallBegins(e, i, name)
  }

  lemma {:induction false} NamesMember(names: seq<string>, j: JoinpointRef)
    ensures j in Names(names) <==> j.Named? && j.name in names
  {
    if |names| > 0 {
      NamesMember(names[..|names| - 1], j);
      assert names == names[..|names| - 1] + [names[|names| - 1]];
    }
  }

  lemma ExpressionCalls(e: string, name: string)
    ensures name in Parse(e).joinpoints <==> CalledIn(e, name)
  {
    JoinpointsExactly(e, name);
  }

  lemma ParseOfNothing()
    ensures Parse("") == Parsed([], [])
  {
    ParseOfOne("");
    assert Calls("") == [] && ArgTexts("") == [];
  }

  lemma OwnPointcut(d: PointcutDef)
    ensures var p := DefToPointcut(d);
            && p.joinpoints == (if d.joinpoints != [] then d.joinpoints
                                else if d.expression == None then [] else Names(Parse(d.expression.value).joinpoints))
            && p.matching == (if d.matching.Some? then d.matching
                              else if d.expression == None || Parse(d.expression.value).keywords == [] then None
                              else Some(PointcutMatch(Some(Parse(d.expression.value).keywords), Undefined)))
            && p.contextPredicates == d.contextPredicates
  {
    ParseOfNothing();
    assert Names([]) == [];
  }

  /** What the matcher takes for the concern, and what construction stores when there is no legacy field. */
  lemma PrimaryIsStored(c: Concern)
    requires c.pointcut.None? && |c.pointcuts| > 0
    ensures PrimaryPointcut(c).Some?
    ensures c.advice.None? ==> Sync(c).pointcut == PrimaryPointcut(c)
  {
  }

  /** The joinpoints of the first definition win over its expression; without them they are the calls that begin in the
      expression, but for the reserved names, and nothing else. */
  lemma PrimaryJoinpoints(c: Concern, j: JoinpointRef)
    requires c.pointcut.None? && |c.pointcuts| > 0
    ensures var d, p := c.pointcuts[0], PrimaryPointcut(c).value;
            && (d.joinpoints != [] ==> p.joinpoints == d.joinpoints)
            && (d.joinpoints == [] ==>
                  (j in p.joinpoints <==> d.expression.Some? && j.Named? && CalledIn(d.expression.value, j.name)))
            && p.contextPredicates == d.contextPredicates
  {
    var d := c.pointcuts[0];
    OwnPointcut(d);
    if d.expression.Some? && j.Named? {
      ExpressionCalls(d.expression.value, j.name);
    }
    if d.expression.Some? {
      NamesMember(Parse(d.expression.value).joinpoints, j);
    }
  }

  /** A match of the definition's own wins; without one there is a match exactly when the expression has keywords. */
  lemma PrimaryMatch(c: Concern)
    requires c.pointcut.None? && |c.pointcuts| > 0
    ensures var d, p := c.pointcuts[0], PrimaryPointcut(c).value;
            && (d.matching.Some? ==> p.matching == d.matching)
            && (d.matching.None? && (d.expression == None || Parse(d.expression.value).keywords == []) ==>
                  p.matching == None)
            && (d.matching.None? && d.expression.Some? && Parse(d.expression.value).keywords != [] ==>
                  p.matching == Some(PointcutMatch(Some(Parse(d.expression.value).keywords), Undefined)))
  {
    OwnPointcut(c.pointcuts[0]);
  }

  /** The documented form: a call of the joinpoint and the keywords in quotes. */
  function Documented(name: string, keywords: seq<string>): string {
    name + "()" + " && " + ("args(\"" + Join(keywords, ",") + "\")")
  }

  lemma DocumentedIsPrinted(name: string, keywords: seq<string>)
    ensures Documented(name, keywords) == Printed(name, Join(keywords, ","))
  {
  }

  /** The first definition says nothing but this expression, and there is no legacy pointcut. */
  predicate SaysOnly(c: Concern, e: string) {
    && c.pointcut.None? && |c.pointcuts| > 0
    && c.pointcuts[0].joinpoints == [] && c.pointcuts[0].matching.None? && c.pointcuts[0].expression == Some(e)
  }

  lemma DocumentedReads(name: string, keywords: seq<string>)
    requires IsName(name) && name !in {"args", "execution", "call", "within", "adviceexecution"} && |keywords| > 0
    ensures var read := Parse(Documented(name, keywords));
            && (read.keywords == keywords <==>
                  (forall k | k in keywords :: Plain(k)) && Quotable(Join(keywords, ",")))
            && |read.joinpoints| > 0 && read.joinpoints[0] == name
  {
    DocumentedIsPrinted(name, keywords);
    KeywordsReadBackExactlyWhen(name, keywords);
    JoinpointsOfPrinted(name, Join(keywords, ","));
  }

  /** For the documented form the pointcut carries exactly the given keywords if and only if each of them is plain and
      the joined text can be quoted; its joinpoints begin with the given name. */
  lemma DocumentedPointcut(c: Concern, name: string, keywords: seq<string>)
    requires IsName(name) && name !in {"args", "execution", "call", "within", "adviceexecution"} && |keywords| > 0
    requires SaysOnly(c, Documented(name, keywords))
    ensures var p := PrimaryPointcut(c).value;
            && (p.matching == Some(PointcutMatch(Some(keywords), Undefined)) <==>
                  (forall k | k in keywords :: Plain(k)) && Quotable(Join(keywords, ",")))
            && |p.joinpoints| > 0 && p.joinpoints[0] == Named(name)
  {
    DocumentedReads(name, keywords);
    PointcutOfRead(c, Documented(name, keywords), keywords);
  }

  lemma PointcutOfRead(c: Concern, e: string, keywords: seq<string>)
    requires SaysOnly(c, e) && |keywords| > 0 && |Parse(e).joinpoints| > 0
    ensures var p := PrimaryPointcut(c).value;
            && (p.matching == Some(PointcutMatch(Some(keywords), Undefined)) <==> Parse(e).keywords == keywords)
            && |p.joinpoints| > 0 && p.joinpoints[0] == Named(Parse(e).joinpoints[0])
  {
    OwnPointcut(c.pointcuts[0]);
    NamesFirst(Parse(e).joinpoints);
  }

  lemma {:induction false} NamesFirst(names: seq<string>)
    requires |names| > 0
    ensures |Names(names)| > 0 && Names(names)[0] == Named(names[0])
  {
    if |names| == 1 {
      assert Names(names[..0]) == [];
    } else {
      NamesFirst(names[..|names| - 1]);
    }
  }

  // ---- From the expression to the guard ----

  /** The keywords of a documented expression are watched for, once the record is constructed, on every kind of action
      that the joinpoint belongs to. */
  lemma ExpressionIsWatched(c: Concern, names: set<string>, name: string, keywords: seq<string>, w: string)
    requires IsName(name) && name !in {"args", "execution", "call", "within", "adviceexecution"} && name in names
    requires SaysOnly(c, Documented(name, keywords)) && c.advice.None?
    requires (forall k | k in keywords :: Plain(k)) && Quotable(Join(keywords, ",")) && w in keywords
    ensures WatchesAt(Sync(c), names, w)
  {
    PrimaryIsStored(c);
    DocumentedPointcut(c, name, keywords);
    var p := Sync(c).pointcut.value;
    assert p.joinpoints[0] in p.joinpoints && Called(p.joinpoints[0], name);
    assert CallsOneOf(p.joinpoints, names) && HasKeyword(p.matching, w);
  }

  /** Construction turns the first tool guard of a record without legacy fields into a legacy one, which blocks every
      tool call its keywords match, whatever the target of the advice. */
  lemma ConstructedToolGuardBlocks(c: Concern)
    requires c.pointcut.None? && c.advice.None? && |c.advices| > 0
    ensures LegacyToolGuard(Sync(c), ToolCall) <==>
            && c.advices[0].template == Some(AdviceType.ToolGuard)
            && (if c.advices[0].effect.Some?
                then c.advices[0].effect.value.mode in {Some(Block), Some(Suppress), Some(Escalate)}
                else c.weavingPolicy.Some? &&
                     c.weavingPolicy.value.mode in {Some(Block), Some(Suppress), Some(Escalate)})
  {
    var adv := AdviceOf(c.advices[0]);
    assert Sync(c).advice == Some(adv);
  }

  /** The effect that an advice acts with. */
  function Effective(adv: AopAdvice, c: Concern): Option<WeavingPolicy> {
    if adv.effect.Some? then adv.effect else c.weavingPolicy
  }

  predicate BlockingToolGuard(adv: AopAdvice, c: Concern) {
    && adv.template == Some(AdviceType.ToolGuard) && Effective(adv, c).Some?
    && Effective(adv, c).value.mode in {Some(Block), Some(Suppress), Some(Escalate)}
  }

  ghost predicate AimsAtCalls(adv: AopAdvice, c: Concern) {
    exists target: string :: Effective(adv, c).Some? && Effective(adv, c).value.target == Some(target) &&
      AtOrBelow(target, "tool_call")
  }

  /** For a record with one advice and no legacy fields: as it was written it blocks tool calls when its tool guard aims
      at them; as it was constructed it blocks them whatever its tool guard aims at. */
  lemma ConstructionWidensToolGuards(c: Concern)
    requires c.pointcut.None? && c.advice.None? && |c.advices| == 1
    ensures Blocking(c, ToolCall) <==> BlockingToolGuard(c.advices[0], c) && AimsAtCalls(c.advices[0], c)
    ensures Blocking(Sync(c), ToolCall) <==> BlockingToolGuard(c.advices[0], c)
  {
    var adv := c.advices[0];
    ConstructedToolGuardBlocks(c);
    assert adv in c.advices;
    BlocksWhenAimed(adv, c);
    BlocksWhenAimed(adv, Sync(c));
  }

  lemma BlocksWhenAimed(adv: AopAdvice, c: Concern)
    ensures BlocksBy(adv, c, ToolCall) <==> BlockingToolGuard(adv, c) && AimsAtCalls(adv, c)
  {
    if BlocksBy(adv, c, ToolCall) {
      assert Effective(adv, c).value.target == Some(Effective(adv, c).value.target.value);
    }
  }

  /** End to end: a tool guard written with a documented expression, once constructed, exported and assembled, denies
      every tool call whose serialised arguments hold one of its keywords. */
  lemma ExpressionGuardDenies(
    c: Concern, keywords: seq<string>, w: string, host: Host, a: Action, s: State)
    requires SaysOnly(c, Documented("before_tool_call", keywords)) && c.advice.None?
    requires (forall k | k in keywords :: Plain(k)) && Quotable(Join(keywords, ",")) && w in keywords
    requires |c.advices| > 0 && BlockingToolGuard(c.advices[0], c)
    requires JsTrim(c.id) != "" && !c.lifecycle.Archived? && !c.lifecycle.Merged?
    requires a.kind == ToolCall && OccursIn(w, host.serializeArgs(a.args))
    ensures PipelineRank([Sync(c)], Only(ToolCall), host, a, s) == 3
  {
    var text := host.serializeArgs(a.args);
    ExpressionIsWatched(c, {"before_tool_call", "tool.before_call"}, "before_tool_call", keywords, w);
    assert Watches(Sync(c), ToolCall, w) && w != "";
    assert Hears(Sync(c), ToolCall, text);
    ConstructedToolGuardBlocks(c);
    assert DenialInForce(Sync(c), ToolCall, Only(ToolCall), text);
    DeniedByOne(Sync(c), Only(ToolCall), host, a, s);
  }
}
