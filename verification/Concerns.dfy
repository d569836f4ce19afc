/** The concern record and its parts (envelopes.py). Fields the models never look into are JSON values. */
module Concerns {
  import opened Filtering
  import opened JsonValues
  import opened Options

  datatype WeavingMode =
    | Insert | Replace | Suppress | Annotate | Warn | Verify | RewriteMode | Defer | Escalate | Block | Compress

  datatype AdviceType =
    | ReasoningGuidance | PlanningGuidance | DecisionGuidance | ToolGuard | ResponseRequirement
    | VerificationRule | MemoryWriteGuard | ReflectionPrompt | RewriteGuidance | SuppressInstruction
    | EscalationNotice

  datatype AdviceKind = Before | After | Around | AfterReturning | AfterThrowing

  datatype Lifecycle =
    | Created | Active | Reinforced | Weakened | Merged | Frozen | Archived | Deleted | Revived

  datatype JoinpointRef = Named(name: string) | Selector(path: Option<string>, selectorName: Option<string>)

  function Names(names: seq<string>): seq<JoinpointRef> { Map(names, (n: string) => Named(n)) }

  datatype PointcutMatch = PointcutMatch(anyKeywords: Option<seq<string>>, others: Json)

  datatype Pointcut = Pointcut(
    joinpoints: seq<JoinpointRef>, matching: Option<PointcutMatch>, contextPredicates: seq<Json>)

  datatype PointcutDef = PointcutDef(
    id: string, expression: Option<string>,
    joinpoints: seq<JoinpointRef>, matching: Option<PointcutMatch>, contextPredicates: seq<Json>)

  datatype Advice = Advice(
    kind: AdviceType, content: string, rationale: Option<string>, maxTokens: Option<int>, params: Option<Json>)

  datatype WeavingPolicy = WeavingPolicy(
    mode: Option<WeavingMode>, level: Option<string>, target: Option<string>, maxTokens: int, priority: real)

  datatype AopAdvice = AopAdvice(
    id: string, kind: AdviceKind, pointcutRef: string, content: string, template: Option<AdviceType>,
    rationale: Option<string>, maxTokens: Option<int>, params: Option<Json>, effect: Option<WeavingPolicy>)

  datatype Declaration = DeclarePrecedence(order: seq<string>) | InterType(target: string, introduces: Json)

  datatype Relation = Relation(target: string, declaresPrecedence: bool, others: Json)

  datatype Concern = Concern(
    id: string,
    name: string,
    description: string,
    generatedType: Option<string>,
    generatedTags: seq<string>,
    source: Option<string>,
    pointcut: Option<Pointcut>,
    advice: Option<Advice>,
    weavingPolicy: Option<WeavingPolicy>,
    pointcuts: seq<PointcutDef>,
    advices: seq<AopAdvice>,
    declarations: seq<Declaration>,
    scope: Option<Json>,
    relations: seq<Relation>,
    activationState: Option<Json>,
    lifecycle: Lifecycle,
    metrics: Json,
    createdAt: Option<int>,
    updatedAt: Option<int>
  )
}
