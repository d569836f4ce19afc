/** The extraction loop: one model call per span, provenance stamping, deduplication and the cap (extractor.py). */
module Extraction {
  import opened Filtering
  import opened JsonValues
  import opened Options
  import opened Strings
  import Extractor

  type Fields = map<string, Json>

  type Key = (string, string)

  /** What the model call for a span came to. */
  datatype Reply = Raised(error: string) | NotADict(typeName: string) | Dict(fields: Fields)

  datatype Candidate = Candidate(name: string, generatedType: Option<string>, fields: Fields)

  datatype Validated = Valid(candidate: Candidate) | Invalid(error: string)

  datatype Rejection = Rejection(span: string, reason: string)

  /** What the loop leaves to the host: stamping, record validation, shortening and lower-casing. */
  datatype Pipeline = Pipeline(
    stamp: Fields -> Fields, validate: Fields -> Validated, short: string -> string, lower: string -> string)

  // ---- Provenance ----

  const SOURCE := "source"
  const NAME := "name"
  const ID := "id"

  /** A string that is not blank. */
  predicate IsText(fields: Fields, key: string) {
    key in fields && fields[key].Str? && PyStrip(fields[key].s) != ""
  }

  function SetDefault(fields: Fields, key: string, v: string): Fields {
    if key in fields then fields else fields[key := Str(v)]
  }

  /** `_stamp`: `source` is what the host knows, never what the model claims. */
  function Stamp(emitted: Fields, source: Json, mint: string -> string): Fields {
    var out := SetDefault(SetDefault(emitted - {SOURCE}, "kind", "concern"), "schema_version", "0.1.0");
    if !IsText(out, NAME) then out
    else (if IsText(out, ID) then out else out[ID := Str(mint(out[NAME].s))])[SOURCE := source]
  }

  /** Whatever the model emits, the stamped record carries the host's provenance or, without a usable name, none. */
  lemma StampedProvenance(emitted: Fields, source: Json, mint: string -> string)
    ensures var out := Stamp(emitted, source, mint);
            && (SOURCE in out <==> IsText(emitted, NAME)) && (SOURCE in out ==> out[SOURCE] == source)
            && (IsText(emitted, ID) ==> out[ID] == emitted[ID])
            && (IsText(emitted, NAME) && !IsText(emitted, ID) ==> out[ID] == Str(mint(emitted[NAME].s)))
            && (forall k | k in emitted && k != SOURCE && k != ID :: k in out && out[k] == emitted[k])
  {
    assert SOURCE != ID && SOURCE != NAME && ID != NAME;
    assert |"schema_version"| != |ID| && |"kind"| != |ID| && |"schema_version"| != |SOURCE| && |"kind"| != |SOURCE|;
    assert |"schema_version"| != |NAME| && "kind"[0] != NAME[0];
  }

  /** A missing kind or schema version is filled in, also for a record without a usable name. */
  lemma StampedDefaults(emitted: Fields, source: Json, mint: string -> string)
    ensures var out := Stamp(emitted, source, mint);
            && ("kind" !in emitted ==> "kind" in out && out["kind"] == Str("concern"))
            && ("schema_version" !in emitted ==> "schema_version" in out && out["schema_version"] == Str("0.1.0"))
            && ("source" in out <==> "name" in emitted && emitted["name"].Str? && PyStrip(emitted["name"].s) != "")
  {
    StampedProvenance(emitted, source, mint);
    assert "kind" != ID && "kind" != SOURCE && |"schema_version"| > |SOURCE| && |"schema_version"| > |ID|;
    assert "kind" != "schema_version" by {
      assert |"kind"| != |"schema_version"|;
    }
  }

  // ---- The loop ----

  datatype Outcome = Accepted(candidate: Candidate) | Refused(rejection: Rejection) | Silent

  function KeyOf(p: Pipeline, c: Candidate): Key {
    (p.lower(PyStrip(c.name)), p.lower(if c.generatedType.Some? then c.generatedType.value else ""))
  }

  function Judge(p: Pipeline, span: string, reply: Reply, seen: set<Key>): Outcome {
    match reply
    case Raised(error) => Refused(Rejection(p.short(span), "llm error: " + error))
    case NotADict(typeName) => Refused(Rejection(p.short(span), "llm returned " + typeName + ", expected dict"))
    case Dict(fields) =>
      if fields == map[] then Silent
      else
        match p.validate(p.stamp(fields))
        case Invalid(error) => Refused(Rejection(p.short(span), "validation: " + error))
        case Valid(c) => if KeyOf(p, c) in seen then Refused(Rejection(p.short(span), "duplicate")) else Accepted(c)
  }

  function CandidateOf(o: Outcome): Option<Candidate> { if o.Accepted? then Some(o.candidate) else None }

  function RejectionOf(o: Outcome): Option<Rejection> { if o.Refused? then Some(o.rejection) else None }

  function Candidates(outs: seq<Outcome>): seq<Candidate> { FilterMap(outs, CandidateOf) }

  function Rejections(outs: seq<Outcome>): seq<Rejection> { FilterMap(outs, RejectionOf) }

  function Silents(outs: seq<Outcome>): nat {
    if |outs| == 0 then 0 else Silents(outs[..|outs| - 1]) + if outs[|outs| - 1].Silent? then 1 else 0
  }

  /** The keys of the accepted ones. */
  function Seen(p: Pipeline, outs: seq<Outcome>): set<Key> {
    if |outs| == 0 then {}
    else
      var last := outs[|outs| - 1];
      Seen(p, outs[..|outs| - 1]) + if last.Accepted? then {KeyOf(p, last.candidate)} else {}
  }

  /** The outcomes of the spans that are processed before the cap stops the loop. */
  function Outcomes(p: Pipeline, cap: nat, spans: seq<string>, replies: nat -> Reply): seq<Outcome> {
    if |spans| == 0 then []
    else
      var n := |spans| - 1;
      var outs := Outcomes(p, cap, spans[..n], replies);
      if |Candidates(outs)| >= cap then outs else outs + [Judge(p, spans[n], replies(n), Seen(p, outs))]
  }

  method JudgeReply(p: Pipeline, span: string, reply: Reply, seen: set<Key>)
    returns (accepted: Option<Candidate>, refused: Option<Rejection>)
    ensures accepted == CandidateOf(Judge(p, span, reply, seen))
    ensures refused == RejectionOf(Judge(p, span, reply, seen))
  {
    accepted, refused := None, None;
    if reply.Raised? {
      refused := Some(Rejection(p.short(span), "llm error: " + reply.error));
      return;
    }
    if reply.NotADict? || reply.fields == map[] {
      if reply.NotADict? {
        refused := Some(Rejection(p.short(span), "llm returned " + reply.typeName + ", expected dict"));
      }
      return;
    }
    var concern := p.validate(p.stamp(reply.fields));
    if concern.Invalid? {
      refused := Some(Rejection(p.short(span), "validation: " + concern.error));
      return;
    }
    if KeyOf(p, concern.candidate) in seen {
      refused := Some(Rejection(p.short(span), "duplicate"));
      return;
    }
    accepted := Some(concern.candidate);
  }

  /** `replies(i)` is what the model returns for the `i`-th span, if it is asked. */
  method Extract(p: Pipeline, cap: nat, spans: seq<string>, replies: nat -> Reply)
    returns (candidates: seq<Candidate>, rejected: seq<Rejection>)
    ensures candidates == Candidates(Outcomes(p, cap, spans, replies))
    ensures rejected == Rejections(Outcomes(p, cap, spans, replies))
  {
    candidates, rejected := [], [];
    var seenKeys: set<Key> := {};
    ghost var outs: seq<Outcome> := [];
    var i := 0;
    while i < |spans|
      invariant i <= |spans|
      invariant outs == Outcomes(p, cap, spans[..i], replies)
      invariant candidates == Candidates(outs)
      invariant rejected == Rejections(outs)
      invariant seenKeys == Seen(p, outs)
    {
      if |candidates| >= cap {
        FullStaysFull(p, cap, spans, replies, i);
        return;
      }
      NextOutcome(p, cap, spans, replies, i);
      OneMore(p, outs, Judge(p, spans[i], replies(i), seenKeys));
      outs := outs + [Judge(p, spans[i], replies(i), seenKeys)];
      var accepted, refused := JudgeReply(p, spans[i], replies(i), seenKeys);
      if refused.Some? {
        rejected := rejected + [refused.value];
      }
      if accepted.Some? {
        seenKeys := seenKeys + {KeyOf(p, accepted.value)};
        candidates := candidates + [accepted.value];
      }
      i := i + 1;
    }
    assert spans[..|spans|] == spans;
  }

  /** `_extract`: the spans of the text, then the loop over them. */
  method ExtractText(p: Pipeline, cap: nat, text: string, markers: string -> seq<nat>, minimum: nat,
        replies: nat -> Reply)
    returns (candidates: seq<Candidate>, rejected: seq<Rejection>)
    requires Extractor.FindsMarkers(markers)
    ensures candidates == Candidates(Outcomes(p, cap, Extractor.Spans(text, markers, minimum), replies))
    ensures rejected == Rejections(Outcomes(p, cap, Extractor.Spans(text, markers, minimum), replies))
  {
    var spans := Extractor.SegmentSpans(text, markers, minimum);
    candidates, rejected := Extract(p, cap, spans, replies);
  }

  lemma NextOutcome(p: Pipeline, cap: nat, spans: seq<string>, replies: nat -> Reply, i: nat)
    requires i < |spans| && |Candidates(Outcomes(p, cap, spans[..i], replies))| < cap
    ensures var outs := Outcomes(p, cap, spans[..i], replies);
            Outcomes(p, cap, spans[..i + 1], replies) == outs + [Judge(p, spans[i], replies(i), Seen(p, outs))]
  {
    assert spans[..i + 1][..i] == spans[..i];
  }

  lemma OneMore(p: Pipeline, outs: seq<Outcome>, o: Outcome)
    ensures var all := outs + [o];
            && Candidates(all) == Candidates(outs) + (if o.Accepted? then [o.candidate] else [])
            && Rejections(all) == Rejections(outs) + (if o.Refused? then [o.rejection] else [])
            && Silents(all) == Silents(outs) + (if o.Silent? then 1 else 0)
            && Seen(p, all) == Seen(p, outs) + if o.Accepted? then {KeyOf(p, o.candidate)} else {}
  {
    assert (outs + [o])[..|outs|] == outs;
  }

  lemma {:induction false} FullStaysFull(p: Pipeline, cap: nat, spans: seq<string>, replies: nat -> Reply, i: nat)
    requires i <= |spans| && |Candidates(Outcomes(p, cap, spans[..i], replies))| >= cap
    ensures Outcomes(p, cap, spans, replies) == Outcomes(p, cap, spans[..i], replies)
    decreases |spans| - i
  {
    if i < |spans| {
      assert spans[..i + 1][..i] == spans[..i];
      FullStaysFull(p, cap, spans, replies, i + 1);
    } else {
      assert spans[..i] == spans;
    }
  }

  // ---- Accounting ----

  /** Every processed span is a candidate, a rejection or silently skipped; the cap holds; and the loop stops early
      only when the cap is reached. */
  lemma {:induction false} EverySpanIsAccountedFor(p: Pipeline, cap: nat, spans: seq<string>, replies: nat -> Reply)
    ensures var outs := Outcomes(p, cap, spans, replies);
            && |Candidates(outs)| + |Rejections(outs)| + Silents(outs) == |outs| <= |spans|
            && |Candidates(outs)| <= cap
            && (|outs| < |spans| ==> |Candidates(outs)| == cap)
  {
    if |spans| > 0 {
      var n := |spans| - 1;
      var outs := Outcomes(p, cap, spans[..n], replies);
      EverySpanIsAccountedFor(p, cap, spans[..n], replies);
      OneMore(p, outs, Judge(p, spans[n], replies(n), Seen(p, outs)));
    }
  }

  /** The `i`-th outcome is the judgement of the `i`-th span against the keys accepted before it. */
  lemma {:induction false} OutcomesFollowSpans(p: Pipeline, cap: nat, spans: seq<string>, replies: nat -> Reply, i: nat)
    requires i < |Outcomes(p, cap, spans, replies)|
    ensures var outs := Outcomes(p, cap, spans, replies);
            i < |spans| && outs[i] == Judge(p, spans[i], replies(i), Seen(p, outs[..i]))
  {
    var n := |spans| - 1;
    var init := Outcomes(p, cap, spans[..n], replies);
    EverySpanIsAccountedFor(p, cap, spans[..n], replies);
    if i < |init| {
      OutcomesFollowSpans(p, cap, spans[..n], replies, i);
      assert Outcomes(p, cap, spans, replies)[..i] == init[..i];
    } else {
      assert Outcomes(p, cap, spans, replies)[..i] == init;
      assert |init| == n;
    }
  }

  lemma {:induction false} SeenMeans(p: Pipeline, outs: seq<Outcome>, key: Key)
    ensures key in Seen(p, outs) <==> exists c | c in Candidates(outs) :: KeyOf(p, c) == key
  {
    if |outs| > 0 {
      var init, last := outs[..|outs| - 1], outs[|outs| - 1];
      SeenMeans(p, init, key);
      assert outs == init + [last];
      OneMore(p, init, last);
    }
  }

  /** Two candidates count as the same when their stripped names and their types, both in lower case, agree; a missing
      type counts as an empty one. */
  predicate SameConcern(p: Pipeline, c: Candidate, d: Candidate) {
    && p.lower(PyStrip(c.name)) == p.lower(PyStrip(d.name))
    && p.lower(if c.generatedType == None then "" else c.generatedType.value) ==
       p.lower(if d.generatedType == None then "" else d.generatedType.value)
  }

  lemma AcceptedBefore(p: Pipeline, outs: seq<Outcome>, c: Candidate)
    ensures KeyOf(p, c) in Seen(p, outs) <==> exists d | d in Candidates(outs) :: SameConcern(p, c, d)
  {
    SeenMeans(p, outs, KeyOf(p, c));
    forall d: Candidate
      ensures SameConcern(p, c, d) <==> KeyOf(p, d) == KeyOf(p, c)
    {
    }
  }

  /** What becomes of the `i`-th span, reply by reply: an empty record is passed over without a word; a failed call, a
      reply that is no record, an invalid record and a repetition are each refused with a reason of their own; and the
      rest are accepted. */
  lemma OutcomesExactly(p: Pipeline, cap: nat, spans: seq<string>, replies: nat -> Reply, i: nat)
    requires i < |Outcomes(p, cap, spans, replies)|
    ensures var outs := Outcomes(p, cap, spans, replies);
            i < |spans| && var span := p.short(spans[i]);
            match replies(i)
            case Raised(error) => outs[i] == Refused(Rejection(span, "llm error: " + error))
            case NotADict(name) => outs[i] == Refused(Rejection(span, "llm returned " + name + ", expected dict"))
            case Dict(fields) =>
              if fields == map[] then outs[i] == Silent
              else
                match p.validate(p.stamp(fields))
                case Invalid(error) => outs[i] == Refused(Rejection(span, "validation: " + error))
                case Valid(c) =>
                  outs[i] == if exists d | d in Candidates(outs[..i]) :: SameConcern(p, c, d)
                             then Refused(Rejection(span, "duplicate")) else Accepted(c)
  {
    OutcomesFollowSpans(p, cap, spans, replies, i);
    var reply := replies(i);
    if reply.Dict? && p.validate(p.stamp(reply.fields)).Valid? {
      AcceptedBefore(p, Outcomes(p, cap, spans, replies)[..i], p.validate(p.stamp(reply.fields)).candidate);
    }
  }

  predicate DistinctKeys(p: Pipeline, cs: seq<Candidate>) {
    forall i, j | 0 <= i < j < |cs| :: KeyOf(p, cs[i]) != KeyOf(p, cs[j])
  }

  lemma DistinctStays(p: Pipeline, outs: seq<Outcome>, o: Outcome)
    requires DistinctKeys(p, Candidates(outs))
    requires o.Accepted? ==> KeyOf(p, o.candidate) !in Seen(p, outs)
    ensures DistinctKeys(p, Candidates(outs + [o]))
  {
    OneMore(p, outs, o);
    if o.Accepted? {
      SeenMeans(p, outs, KeyOf(p, o.candidate));
      assert forall i | 0 <= i < |Candidates(outs)| :: Candidates(outs)[i] in Candidates(outs);
    }
  }

  /** No two candidates share a normalised key. */
  lemma {:induction false} CandidatesAreDistinct(p: Pipeline, cap: nat, spans: seq<string>, replies: nat -> Reply)
    ensures DistinctKeys(p, Candidates(Outcomes(p, cap, spans, replies)))
  {
    if |spans| > 0 {
      var n := |spans| - 1;
      var outs := Outcomes(p, cap, spans[..n], replies);
      CandidatesAreDistinct(p, cap, spans[..n], replies);
      DistinctStays(p, outs, Judge(p, spans[n], replies(n), Seen(p, outs)));
    }
  }

  lemma {:induction false} SeenGrows(p: Pipeline, outs: seq<Outcome>, i: nat)
    requires i <= |outs|
    ensures Seen(p, outs[..i]) <= Seen(p, outs)
    decreases |outs| - i
  {
    if i < |outs| {
      SeenGrows(p, outs, i + 1);
      assert outs[..i + 1][..i] == outs[..i];
    } else {
      assert outs[..i] == outs;
    }
  }

  /** No rule is lost but by the cap: every valid concern of a processed span is a candidate, or has the key of one. */
  lemma ValidConcernsAreRepresented(p: Pipeline, cap: nat, spans: seq<string>, replies: nat -> Reply, i: nat)
    requires i < |Outcomes(p, cap, spans, replies)|
    requires replies(i).Dict? && replies(i).fields != map[] && p.validate(p.stamp(replies(i).fields)).Valid?
    ensures exists c | c in Candidates(Outcomes(p, cap, spans, replies)) ::
              KeyOf(p, c) == KeyOf(p, p.validate(p.stamp(replies(i).fields)).candidate)
  {
    OutcomesFollowSpans(p, cap, spans, replies, i);
    Represented(p, Outcomes(p, cap, spans, replies), i, spans[i], replies(i));
  }

  lemma Represented(p: Pipeline, outs: seq<Outcome>, i: nat, span: string, reply: Reply)
    requires i < |outs| && outs[i] == Judge(p, span, reply, Seen(p, outs[..i]))
    requires reply.Dict? && reply.fields != map[] && p.validate(p.stamp(reply.fields)).Valid?
    ensures exists c | c in Candidates(outs) :: KeyOf(p, c) == KeyOf(p, p.validate(p.stamp(reply.fields)).candidate)
  {
    assert outs[..i + 1] == outs[..i] + [outs[i]];
    ValidIsSeen(p, outs[..i], span, reply);
    SeenGrows(p, outs, i + 1);
    SeenMeans(p, outs, KeyOf(p, p.validate(p.stamp(reply.fields)).candidate));
  }

  lemma ValidIsSeen(p: Pipeline, before: seq<Outcome>, span: string, reply: Reply)
    requires reply.Dict? && reply.fields != map[] && p.validate(p.stamp(reply.fields)).Valid?
    ensures KeyOf(p, p.validate(p.stamp(reply.fields)).candidate) in
            Seen(p, before + [Judge(p, span, reply, Seen(p, before))])
  {
    OneMore(p, before, Judge(p, span, reply, Seen(p, before)));
  }
}
