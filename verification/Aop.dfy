/** The executable view of a concern: its legacy and its list shape, which are kept in step
    (aop.py). */
module Aop {
  import opened Concerns
  import opened Filtering
  import opened JsonValues
  import opened Options
  import opened Pointcuts

  // ---- The two shapes of a concern ----

  const NO_MORE := Undefined

  function DefToPointcut(d: PointcutDef): Pointcut {
    var parsed := if d.expression.Some? && d.expression.value != "" then Parse(d.expression.value) else Parsed([], []);
    Pointcut(
      if |d.joinpoints| == 0 then Names(parsed.joinpoints) else d.joinpoints,
      if d.matching.None? && |parsed.keywords| > 0 then Some(PointcutMatch(Some(parsed.keywords), NO_MORE))
      else d.matching,
      d.contextPredicates)
  }

  function DefaultAdviceKind(template: AdviceType): AdviceKind {
    match template
    case VerificationRule | ReflectionPrompt | EscalationNotice => After
    case SuppressInstruction | RewriteGuidance => Around
    case _ => Before
  }

  function Precedence(id: string): Relation -> Option<Declaration> {
    (r: Relation) => if r.declaresPrecedence then Some(DeclarePrecedence([id, r.target])) else None
  }

  datatype Lists = Lists(pointcuts: seq<PointcutDef>, advices: seq<AopAdvice>, declarations: seq<Declaration>)

  function DefOf(p: Pointcut): PointcutDef {
    PointcutDef("pc-default", None, p.joinpoints, p.matching, p.contextPredicates)
  }

  function AopOf(a: Advice, effect: Option<WeavingPolicy>): AopAdvice {
    AopAdvice("adv-default", DefaultAdviceKind(a.kind), "pc-default", a.content, Some(a.kind), a.rationale, a.maxTokens,
              a.params, effect)
  }

  function ListsOf(c: Concern): Lists {
    Lists(
      if c.pointcut.Some? then [DefOf(c.pointcut.value)] else [],
      if c.advice.Some? then [AopOf(c.advice.value, c.weavingPolicy)] else [],
      c.declarations + FilterMap(c.relations, Precedence(c.id)))
  }

  method LegacyToAopLists(c: Concern) returns (lists: Lists)
    ensures lists == ListsOf(c)
  {
    var pointcuts, advices, declarations := [], [], c.declarations;
    if c.pointcut.Some? {
      pointcuts := pointcuts + [DefOf(c.pointcut.value)];
    }
    if c.advice.Some? {
      advices := advices + [AopOf(c.advice.value, c.weavingPolicy)];
    }
    for i := 0 to |c.relations|
      invariant declarations == c.declarations + FilterMap(c.relations[..i], Precedence(c.id))
    {
      FilterMapStep(c.relations, i, Precedence(c.id));
      if c.relations[i].declaresPrecedence {
        declarations := declarations + [DeclarePrecedence([c.id, c.relations[i].target])];
      }
    }
    assert c.relations[..|c.relations|] == c.relations;
    lists := Lists(pointcuts, advices, declarations);
  }

  function AdviceOf(a: AopAdvice): Advice {
    Advice(if a.template.Some? then a.template.value else ResponseRequirement, a.content, a.rationale, a.maxTokens,
           a.params)
  }

  datatype Legacy = Legacy(pointcut: Option<Pointcut>, advice: Option<Advice>, weaving: Option<WeavingPolicy>)

  function LegacyFromPrimary(pointcuts: seq<PointcutDef>, advices: seq<AopAdvice>): Legacy {
    Legacy(
      if |pointcuts| > 0 then Some(DefToPointcut(pointcuts[0])) else None,
      if |advices| > 0 then Some(AdviceOf(advices[0])) else None,
      if |advices| > 0 then advices[0].effect else None)
  }

  predicate HasLists(c: Concern) { |c.pointcuts| > 0 || |c.advices| > 0 }

  predicate HasLegacy(c: Concern) { c.pointcut.Some? || c.advice.Some? }

  function Sync(c: Concern): Concern {
    if HasLists(c) == HasLegacy(c) then c
    else if HasLegacy(c) then
      var l := ListsOf(c);
      c.(pointcuts := if |l.pointcuts| > 0 then l.pointcuts else c.pointcuts,
         advices := if |l.advices| > 0 then l.advices else c.advices,
         declarations := if |c.declarations| == 0 then l.declarations else c.declarations)
    else
      var l := LegacyFromPrimary(c.pointcuts, c.advices);
      c.(pointcut := if l.pointcut.Some? then l.pointcut else c.pointcut,
         advice := if l.advice.Some? then l.advice else c.advice,
         weavingPolicy := if l.weaving.Some? then l.weaving else c.weavingPolicy)
  }

  function PrimaryPointcut(c: Concern): Option<Pointcut> {
    if c.pointcut.Some? then c.pointcut
    else if |c.pointcuts| > 0 then Some(DefToPointcut(c.pointcuts[0]))
    else None
  }

  function PrimaryAdvice(c: Concern): Option<Advice> {
    if c.advice.Some? then c.advice else if |c.advices| > 0 then Some(AdviceOf(c.advices[0])) else None
  }

  function PrimaryWeaving(c: Concern): Option<WeavingPolicy> {
    if c.weavingPolicy.Some? then c.weavingPolicy
    else if |c.advices| > 0 && c.advices[0].effect.Some? then c.advices[0].effect
    else None
  }

  /** From the legacy fields to the lists and back: pointcut and advice always survive, the weaving policy exactly
      when there is an advice to carry it. */
  lemma LegacyRoundTrip(c: Concern)
    ensures var back := LegacyFromPrimary(ListsOf(c).pointcuts, ListsOf(c).advices);
            && back.pointcut == c.pointcut && back.advice == c.advice
            && (back.weaving == c.weavingPolicy <==> c.advice.Some? || c.weavingPolicy.None?)
  {
    assert Names([]) == [];
  }

  /** Legacy fields become one definition and one advice that refers to it; the kind of the advice follows its type. */
  lemma SyncFillsLists(c: Concern)
    requires |c.pointcuts| == 0 && |c.advices| == 0 && (c.pointcut.Some? || c.advice.Some?)
    ensures c.pointcut.None? ==> Sync(c).pointcuts == []
    ensures c.pointcut.Some? ==>
              |Sync(c).pointcuts| == 1 && var d, p := Sync(c).pointcuts[0], c.pointcut.value;
              && d.id == "pc-default" && d.expression == None && d.joinpoints == p.joinpoints
              && d.matching == p.matching && d.contextPredicates == p.contextPredicates
    ensures c.advice.None? ==> Sync(c).advices == []
    ensures c.advice.Some? ==>
              |Sync(c).advices| == 1 && var adv, a := Sync(c).advices[0], c.advice.value;
              && adv.pointcutRef == "pc-default" && adv.template == Some(a.kind) && adv.content == a.content
              && adv.rationale == a.rationale && adv.maxTokens == a.maxTokens && adv.params == a.params
              && adv.effect == c.weavingPolicy
              && (adv.kind == After <==> a.kind in {VerificationRule, ReflectionPrompt, EscalationNotice})
              && (adv.kind == Around <==> a.kind in {SuppressInstruction, RewriteGuidance})
              && (adv.kind == Before || adv.kind == After || adv.kind == Around)
  {
  }

  /** Declarations of the record's own stay; without any, each relation that declares precedence becomes one. */
  lemma SyncDeclaresPrecedence(c: Concern, d: Declaration)
    requires |c.pointcuts| == 0 && |c.advices| == 0 && (c.pointcut.Some? || c.advice.Some?)
    ensures |c.declarations| > 0 ==> Sync(c).declarations == c.declarations
    ensures |c.declarations| == 0 ==>
              (d in Sync(c).declarations <==>
                 exists r | r in c.relations :: r.declaresPrecedence && d == DeclarePrecedence([c.id, r.target]))
  {
    if |c.declarations| == 0 {
      FilterMapMembers(c.relations, Precedence(c.id), d);
      assert c.declarations + FilterMap(c.relations, Precedence(c.id)) == FilterMap(c.relations, Precedence(c.id));
    }
  }

  /** The first advice becomes the legacy one, of its own type or else a response requirement. */
  lemma SyncFillsAdvice(c: Concern)
    requires c.pointcut.None? && c.advice.None? && |c.advices| > 0
    ensures Sync(c).advice.Some? && var a, adv := Sync(c).advice.value, c.advices[0];
            && (adv.template == Some(a.kind) || (adv.template == None && a.kind == ResponseRequirement))
            && a.content == adv.content && a.rationale == adv.rationale && a.maxTokens == adv.maxTokens
            && a.params == adv.params
    ensures Sync(c).weavingPolicy == if c.advices[0].effect.Some? then c.advices[0].effect else c.weavingPolicy
  {
  }

  lemma SyncIsIdempotent(c: Concern)
    ensures Sync(Sync(c)) == Sync(c)
  {
  }

  /** Filling in the missing shape changes nothing about what the matcher and the generators see. */
  lemma SyncKeepsPrimaries(c: Concern)
    ensures PrimaryPointcut(Sync(c)) == PrimaryPointcut(c)
    ensures PrimaryAdvice(Sync(c)) == PrimaryAdvice(c)
  {
  }

  /** The effective weaving policy changes exactly for a lists-only concern whose own policy disagrees with the effect
      of its first advice: `Sync` does not count that policy as a legacy field and overwrites it. */
  lemma SyncKeepsWeavingExactlyWhen(c: Concern)
    ensures PrimaryWeaving(Sync(c)) == PrimaryWeaving(c) <==>
            !(c.weavingPolicy.Some? && c.pointcut.None? && c.advice.None? &&
              |c.advices| > 0 && c.advices[0].effect.Some? && c.advices[0].effect != c.weavingPolicy)
  {
  }
}
