/** Completing extracted concerns and upserting them without losing edits (builder.py). */
module ConcernBuilder {
  import opened Concerns
  import opened Filtering
  import opened JsonValues
  import opened Options
  import opened Strings

  datatype Resolved = Resolved(advice: AdviceType, joinpoints: seq<string>, priority: real)

  datatype Weaving = Weaving(mode: WeavingMode, level: string, target: string)

  /** What the builder takes from its template tables: the activation for a concern, its keywords (up to 12 and up to
      4), the weaving defaults of an advice type, whether the concern outlives a turn, and the scope record. */
  datatype Templates = Templates(
    resolve: Concern -> Resolved,
    keywords: Concern -> seq<string>,
    shortKeywords: Concern -> seq<string>,
    weaving: AdviceType -> Weaving,
    longLived: Concern -> bool,
    scope: (bool, seq<string>) -> Json)

  const DEFAULT_MAX_TOKENS := 200

  // ---- enrich ----

  function KeywordMatch(keywords: seq<string>): Option<PointcutMatch> {
    if |keywords| == 0 then None else Some(PointcutMatch(Some(keywords), Undefined))
  }

  function NameOf(j: JoinpointRef): Option<string> { if j.Named? then Some(j.name) else None }

  function DefaultAdvice(c: Concern, kind: AdviceType, t: Templates): Advice {
    var content := if PyStrip(c.description) != "" then PyStrip(c.description) else c.name;
    var required :=
      if |t.shortKeywords(c)| > 0 then t.shortKeywords(c)[0]
      else if |c.name| > 80 then c.name[..80] else c.name;
    Advice(kind, content, None, None,
           if kind.VerificationRule? then Some(Obj(map["must_contain" := Str(required)])) else None)
  }

  function EnrichedPointcut(c: Concern, t: Templates): Pointcut {
    var joinpoints := Names(t.resolve(c).joinpoints);
    if c.pointcut.None? then Pointcut(joinpoints, KeywordMatch(t.keywords(c)), [])
    else
      var p := c.pointcut.value;
      if p.matching.None? && |p.contextPredicates| == 0 && |p.joinpoints| == 0 then
        p.(joinpoints := joinpoints, matching := KeywordMatch(t.keywords(c)))
      else if |p.joinpoints| == 0 then p.(joinpoints := joinpoints)
      else p
  }

  function EnrichedAdvice(c: Concern, t: Templates): Advice {
    if c.advice.Some? then c.advice.value else DefaultAdvice(c, t.resolve(c).advice, t)
  }

  function EnrichedWeaving(c: Concern, t: Templates): WeavingPolicy {
    if c.weavingPolicy.Some? then c.weavingPolicy.value
    else
      var w := t.weaving(EnrichedAdvice(c, t).kind);
      WeavingPolicy(Some(w.mode), Some(w.level), Some(w.target), DEFAULT_MAX_TOKENS, t.resolve(c).priority)
  }

  predicate Complete(c: Concern) { c.pointcut.Some? && c.advice.Some? && c.weavingPolicy.Some? }

  function Enriched(c: Concern, t: Templates): Concern {
    if Complete(c) then c
    else
      c.(pointcut := Some(EnrichedPointcut(c, t)),
         advice := Some(EnrichedAdvice(c, t)),
         weavingPolicy := Some(EnrichedWeaving(c, t)),
         scope := if c.scope.Some? then c.scope
                  else Some(t.scope(t.longLived(c), FilterMap(EnrichedPointcut(c, t).joinpoints, NameOf))),
         lifecycle := if c.lifecycle.Created? then Active else c.lifecycle)
  }

  /** `enrich` fills gaps only, and what it returns can be activated. */
  lemma EnrichFillsGapsOnly(c: Concern, t: Templates)
    ensures var e := Enriched(c, t);
            && Complete(e) && e.id == c.id && (Complete(c) ==> e == c)
            && (c.advice.Some? ==> e.advice == c.advice)
            && (c.weavingPolicy.Some? ==> e.weavingPolicy == c.weavingPolicy)
            && (c.scope.Some? ==> e.scope == c.scope) && (c.lifecycle != Created ==> e.lifecycle == c.lifecycle)
            && (c.pointcut.Some? && |c.pointcut.value.joinpoints| > 0 ==> e.pointcut == c.pointcut)
            && (c.pointcut.Some? ==> e.pointcut.value.contextPredicates == c.pointcut.value.contextPredicates)
            && (c.pointcut.Some? && c.pointcut.value.matching.Some? ==>
                  e.pointcut.value.matching == c.pointcut.value.matching)
    ensures Enriched(Enriched(c, t), t) == Enriched(c, t)
  {
  }

  /** A record with all three gaps is filled from what its activation and its keywords resolve to: the joinpoints by
      name and the keywords, if there are any; an advice of the resolved type that says the description, or the name
      when the description is blank, and that only as a verification rule asks for a text; and the weaving defaults of
      that type. */
  lemma GapsAreFilledFrom(c: Concern, t: Templates)
    requires c.pointcut.None? && c.advice.None? && c.weavingPolicy.None?
    ensures var e, r, w := Enriched(c, t), t.resolve(c), t.weaving(t.resolve(c).advice);
            && |e.pointcut.value.joinpoints| == |r.joinpoints|
            && (forall i | 0 <= i < |r.joinpoints| :: e.pointcut.value.joinpoints[i] == Named(r.joinpoints[i]))
            && (t.keywords(c) == [] <==> e.pointcut.value.matching == None)
            && (t.keywords(c) != [] ==> e.pointcut.value.matching.value.anyKeywords == Some(t.keywords(c)))
            && e.advice.value.kind == r.advice
            && (PyStrip(c.description) != "" ==> e.advice.value.content == PyStrip(c.description))
            && (PyStrip(c.description) == "" ==> e.advice.value.content == c.name)
            && (r.advice != VerificationRule <==> e.advice.value.params == None)
            && (r.advice == VerificationRule && |t.shortKeywords(c)| > 0 ==>
                  e.advice.value.params == Some(Obj(map["must_contain" := Str(t.shortKeywords(c)[0])])))
            && (r.advice == VerificationRule && t.shortKeywords(c) == [] && |c.name| <= 80 ==>
                  e.advice.value.params == Some(Obj(map["must_contain" := Str(c.name)])))
            && e.weavingPolicy == Some(WeavingPolicy(Some(w.mode), Some(w.level), Some(w.target), 200, r.priority))
    ensures Enriched(c, t).lifecycle == if c.lifecycle == Created then Active else c.lifecycle
  {
    MapAt(t.resolve(c).joinpoints, (n: string) => Named(n));
  }

  // ---- build_or_update ----

  type Store = map<string, Concern>

  function Or<T>(first: Option<T>, second: Option<T>): Option<T> { if first.Some? then first else second }

  predicate Settled(l: Lifecycle) { l != Created && l != Deleted }

  /** `_merge_preserve_customizations`. */
  function Preserved(existing: Concern, enriched: Concern): Concern {
    enriched.(
      metrics := existing.metrics, activationState := existing.activationState, relations := existing.relations,
      createdAt := Or(existing.createdAt, enriched.createdAt),
      pointcut := Or(existing.pointcut, enriched.pointcut),
      advice := Or(existing.advice, enriched.advice),
      weavingPolicy := Or(existing.weavingPolicy, enriched.weavingPolicy),
      scope := Or(existing.scope, enriched.scope),
      lifecycle := if Settled(existing.lifecycle) then existing.lifecycle else enriched.lifecycle)
  }

  function Built(store: Store, c: Concern, now: int, t: Templates): Concern {
    var e := Enriched(c, t);
    var merged := if e.id in store then Preserved(store[e.id], e) else e;
    merged.(createdAt := Or(merged.createdAt, Some(now)), updatedAt := Some(now))
  }

  function Step(store: Store, c: Concern, now: int, t: Templates): Store { store[c.id := Built(store, c, now, t)] }

  class Builder {
    const templates: Templates
    var store: Store

    constructor (templates: Templates, store: Store)
      ensures this.templates == templates && this.store == store
    {
      this.templates, this.store := templates, store;
    }

    method Enrich(candidate: Concern) returns (r: Concern)
      ensures r == Enriched(candidate, templates)
    {
      if candidate.pointcut.Some? && candidate.advice.Some? && candidate.weavingPolicy.Some? {
        return candidate;
      }
      var resolved := templates.resolve(candidate);
      r := candidate;
      if candidate.pointcut.None? {
        var pointcut := Pointcut(Names(resolved.joinpoints), KeywordMatch(templates.keywords(candidate)), []);
        r := r.(pointcut := Some(pointcut));
      } else {
        var p := candidate.pointcut.value;
        if p.matching.None? && |p.contextPredicates| == 0 && |p.joinpoints| == 0 {
          var keywords := templates.keywords(candidate);
          p := p.(joinpoints := Names(resolved.joinpoints), matching := KeywordMatch(keywords));
        } else if |p.joinpoints| == 0 && |resolved.joinpoints| > 0 {
          p := p.(joinpoints := Names(resolved.joinpoints));
        }
        r := r.(pointcut := Some(p));
      }
      var adviceType := resolved.advice;
      if candidate.advice.None? {
        r := r.(advice := Some(DefaultAdvice(candidate, adviceType, templates)));
      } else {
        adviceType := candidate.advice.value.kind;
      }
      if candidate.weavingPolicy.None? {
        var w := templates.weaving(adviceType);
        r := r.(weavingPolicy :=
                Some(WeavingPolicy(Some(w.mode), Some(w.level), Some(w.target), DEFAULT_MAX_TOKENS,
                                   resolved.priority)));
      }
      if candidate.scope.None? {
        var coverage := FilterMap(r.pointcut.value.joinpoints, NameOf);
        r := r.(scope := Some(templates.scope(templates.longLived(candidate), coverage)));
      }
      if candidate.lifecycle.Created? {
        r := r.(lifecycle := Active);
      }
    }

    method BuildOrUpdate(candidate: Concern, now: int) returns (r: Concern)
      modifies this`store
      ensures r == Built(old(store), candidate, now, templates)
      ensures store == Step(old(store), candidate, now, templates)
    {
      r := Enrich(candidate);
      if r.id in store {
        r := Preserved(store[r.id], r);
      }
      if r.createdAt.None? {
        r := r.(createdAt := Some(now));
      }
      r := r.(updatedAt := Some(now));
      store := store[r.id := r];
    }
  }

  // ---- Over any run ----

  datatype Call = Call(candidate: Concern, now: int)

  function Run(store: Store, calls: seq<Call>, t: Templates): Store {
    if |calls| == 0 then store
    else
      var last := calls[|calls| - 1];
      Step(Run(store, calls[..|calls| - 1], t), last.candidate, last.now, t)
  }

  /** What one record keeps of an earlier one, whatever is re-extracted in between. */
  ghost predicate KeepsEdits(was: Concern, later: Concern) {
    && (was.pointcut.Some? ==> later.pointcut == was.pointcut)
    && (was.advice.Some? ==> later.advice == was.advice)
    && (was.weavingPolicy.Some? ==> later.weavingPolicy == was.weavingPolicy)
    && (was.createdAt.Some? ==> later.createdAt == was.createdAt)
    && (was.scope.Some? ==> later.scope == was.scope)
    && (was.lifecycle != Created && was.lifecycle != Deleted ==> later.lifecycle == was.lifecycle)
    && later.metrics == was.metrics && later.activationState == was.activationState && later.relations == was.relations
  }

  /** Nothing that is stored is lost by any number of later calls. */
  lemma {:induction false} NothingStoredIsLost(store: Store, calls: seq<Call>, t: Templates, id: string)
    requires id in store
    ensures id in Run(store, calls, t) && KeepsEdits(store[id], Run(store, calls, t)[id])
  {
    if |calls| > 0 {
      NothingStoredIsLost(store, calls[..|calls| - 1], t, id);
    }
  }

  /** A stored concern that is deleted, or was only created, takes the lifecycle of the next candidate: it is active
      again when that candidate is freshly created and incomplete. */
  lemma DeletedIsRevived(store: Store, c: Concern, now: int, t: Templates)
    requires c.id in store && (store[c.id].lifecycle == Deleted || store[c.id].lifecycle == Created)
    ensures Step(store, c, now, t)[c.id].lifecycle ==
            if c.lifecycle == Created && (c.pointcut == None || c.advice == None || c.weavingPolicy == None) then Active
            else c.lifecycle
  {
  }

  lemma {:induction false} RunConcat(store: Store, xs: seq<Call>, ys: seq<Call>, t: Templates)
    ensures Run(store, xs + ys, t) == Run(Run(store, xs, t), ys, t)
  {
    if |ys| == 0 {
      assert xs + ys == xs;
    } else {
      RunConcat(store, xs, ys[..|ys| - 1], t);
      assert (xs + ys)[..|xs + ys| - 1] == xs + ys[..|ys| - 1];
    }
  }

  lemma {:induction false} UntouchedIds(store: Store, calls: seq<Call>, t: Templates, id: string)
    requires forall i | 0 <= i < |calls| :: calls[i].candidate.id != id
    ensures id in Run(store, calls, t) <==> id in store
    ensures id in store ==> Run(store, calls, t)[id] == store[id]
  {
    if |calls| > 0 {
      UntouchedIds(store, calls[..|calls| - 1], t, id);
    }
  }

  /** `r` carries what completing the candidate `c` gave. */
  ghost predicate DecidedBy(r: Concern, c: Concern, now: int, t: Templates) {
    var e := Enriched(c, t);
    && r.pointcut == e.pointcut && r.advice == e.advice && r.weavingPolicy == e.weavingPolicy
    && r.createdAt == Or(c.createdAt, Some(now))
    && (e.scope.Some? ==> r.scope == e.scope)
    && (Settled(e.lifecycle) ==> r.lifecycle == e.lifecycle)
  }

  lemma DecidedAtFirst(store: Store, c: Concern, now: int, t: Templates)
    requires c.id !in store
    ensures DecidedBy(Step(store, c, now, t)[c.id], c, now, t)
  {
  }

  lemma DecisionStays(was: Concern, later: Concern, c: Concern, now: int, t: Templates)
    requires DecidedBy(was, c, now, t) && KeepsEdits(was, later)
    ensures DecidedBy(later, c, now, t)
  {
    EnrichFillsGapsOnly(c, t);
  }

  lemma RunStep(store: Store, calls: seq<Call>, i: nat, t: Templates)
    requires i < |calls|
    ensures Run(store, calls[..i + 1], t) == Step(Run(store, calls[..i], t), calls[i].candidate, calls[i].now, t)
  {
    assert calls[..i + 1][..i] == calls[..i];
  }

  lemma RunSplits(store: Store, calls: seq<Call>, i: nat, t: Templates)
    requires i <= |calls|
    ensures Run(store, calls, t) == Run(Run(store, calls[..i], t), calls[i..], t)
  {
    RunConcat(store, calls[..i], calls[i..], t);
    assert calls[..i] + calls[i..] == calls;
  }

  /** The first call for an id decides: its completed pointcut, advice, weaving policy and scope, its creation time,
      and its lifecycle if that is settled, are what is stored after every later call. */
  lemma FirstCallDecides(store: Store, calls: seq<Call>, t: Templates, first: nat)
    requires first < |calls|
    requires calls[first].candidate.id !in store
    requires forall i | 0 <= i < first :: calls[i].candidate.id != calls[first].candidate.id
    ensures var c, final := calls[first], Run(store, calls, t);
            c.candidate.id in final && DecidedBy(final[c.candidate.id], c.candidate, c.now, t)
  {
    var c, now, id := calls[first].candidate, calls[first].now, calls[first].candidate.id;
    UntouchedIds(store, calls[..first], t, id);
    DecidedAtFirst(Run(store, calls[..first], t), c, now, t);
    var after := Run(store, calls[..first + 1], t);
    RunStep(store, calls, first, t);
    RunSplits(store, calls, first + 1, t);
    NothingStoredIsLost(after, calls[first + 1..], t, id);
    DecisionStays(after[id], Run(store, calls, t)[id], c, now, t);
  }

  /** What every call sets anew. */
  predicate DescribedBy(r: Concern, c: Concern, now: int) {
    && r.pointcuts == c.pointcuts && r.advices == c.advices && r.declarations == c.declarations
    && r.name == c.name && r.description == c.description && r.generatedTags == c.generatedTags
    && r.updatedAt == Some(now)
  }

  lemma DescribedByStep(store: Store, c: Concern, now: int, t: Templates)
    ensures c.id in Step(store, c, now, t) && DescribedBy(Step(store, c, now, t)[c.id], c, now)
  {
  }

  /** The other shape of the same data is not preserved: over every run, the stored pointcut and advice lists, like
      name, description and tags, are those of the last candidate with the id, whatever was stored before. */
  lemma ListsComeFromTheLastCandidate(store: Store, calls: seq<Call>, t: Templates, last: nat)
    requires last < |calls|
    requires forall i | last < i < |calls| :: calls[i].candidate.id != calls[last].candidate.id
    ensures var c, final := calls[last], Run(store, calls, t);
            c.candidate.id in final && DescribedBy(final[c.candidate.id], c.candidate, c.now)
  {
    var c := calls[last];
    RunStep(store, calls, last, t);
    RunSplits(store, calls, last + 1, t);
    DescribedByStep(Run(store, calls[..last], t), c.candidate, c.now, t);
    UntouchedIds(Run(store, calls[..last + 1], t), calls[last + 1..], t, c.candidate.id);
  }
}
