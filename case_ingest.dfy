/**
 * Case ingestion (`database_utils/case_handler.py`, class `Case`): the request
 * id, the latest status, the tier of a variant from its report events, the
 * "interesting variant" filter with the consecutive numbering of case
 * variants, and the version gate and tier copying of structural variants and
 * short tandem repeats.
 *
 * The interpretation JSON is modelled as datatypes. A string attribute that is
 * `None` in the JSON is modelled as the empty string: both are falsy, and the
 * source only ever tests these attributes for truthiness.
 */
module CaseIngest {
  import opened Wrappers
  import opened Text
  import opened Seqs

  // ---------------------------------------------------------------------------
  // Request id and status

  /** `str(interpretation_request_id) + "-" + str(version)`. */
  function RequestId(irId: nat, version: nat): string
  {
    NatToString(irId) + "-" + NatToString(version)
  }

  /** The request id splits back, on its one dash, into the id and the version. */
  lemma RequestIdSplits(irId: nat, version: nat)
    ensures Split(RequestId(irId, version), '-') == [NatToString(irId), NatToString(version)]
    ensures DigitsValue(Split(RequestId(irId, version), '-')[0]) == irId
    ensures DigitsValue(Split(RequestId(irId, version), '-')[1]) == version
  {
    var a := NatToString(irId);
    var b := NatToString(version);
    assert '-' !in a by { assert IsDigits(a); }
    assert '-' !in b by { assert IsDigits(b); }
    assert RequestId(irId, version) == a + ['-'] + b;
    SplitTwo(a, b, '-');
    NatToStringValue(irId);
    NatToStringValue(version);
  }

  /** `status_jsons[-1]`: the last status, an IndexError when there is none. */
  function LatestStatus<T>(statuses: seq<T>): (r: Result<T>)
    ensures r.Ok? <==> |statuses| > 0
  {
    if |statuses| == 0 then Err(IndexError) else Ok(statuses[|statuses| - 1])
  }

  /** Appending a status makes it the latest one. */
  lemma LatestStatusAppend<T>(statuses: seq<T>, s: T)
    ensures LatestStatus(statuses + [s]) == Ok(s)
  {
  }

  // ---------------------------------------------------------------------------
  // Tiers of small variants

  datatype SampleType = RareDisease | Cancer | OtherSampleType

  /** A report event: its `tier` (rare disease) and `domain` (cancer) strings. */
  datatype ReportEvent = ReportEvent(tier: string, domain: string)

  /** The field that carries the tier for the sample type, or "" when neither is read. */
  function TierField(e: ReportEvent, st: SampleType): string
  {
    match st
    case RareDisease => e.tier
    case Cancer => e.domain
    case OtherSampleType => ""
  }

  predicate HasTier(e: ReportEvent, st: SampleType)
  {
    TierField(e, st) != ""
  }

  /** A tier field whose last character `int()` rejects. */
  predicate BadTier(e: ReportEvent, st: SampleType)
  {
    HasTier(e, st) && !IsAsciiDigit(TierField(e, st)[|TierField(e, st)| - 1])
  }

  function TierValue(e: ReportEvent, st: SampleType): (t: nat)
    requires HasTier(e, st) && !BadTier(e, st)
    ensures t < 10
  {
    DigitOf(TierField(e, st)[|TierField(e, st)| - 1])
  }

  /** `int(field[-1])` when the field is truthy; `None` when it is not read. */
  function EventTier(e: ReportEvent, st: SampleType): Result<Option<nat>>
  {
    if !HasTier(e, st) then Ok(None)
    else if BadTier(e, st) then
      var f := TierField(e, st);
      Err(ValueError("invalid literal for int() with base 10: '" + [f[|f| - 1]] + "'"))
    else Ok(Some(TierValue(e, st)))
  }

  function Min(a: nat, b: nat): nat
  {
    if a <= b then a else b
  }

  /** The least tier among the events that carry one; the first bad tier raises. */
  function MinTier(events: seq<ReportEvent>, st: SampleType): Result<Option<nat>>
    decreases |events|
  {
    if |events| == 0 then Ok(None)
    else
      match MinTier(events[..|events| - 1], st)
      case Err(e) => Err(e)
      case Ok(m) =>
        match EventTier(events[|events| - 1], st)
        case Err(e) => Err(e)
        case Ok(None) => Ok(m)
        case Ok(Some(t)) => Ok(Some(if m.None? then t else Min(m.value, t)))
  }

  /** The tier of a variant fails exactly when some event carries a tier whose last character is not a digit. */
  lemma {:induction false} MinTierFails(events: seq<ReportEvent>, st: SampleType)
    ensures MinTier(events, st).Err? <==> exists i :: 0 <= i < |events| && BadTier(events[i], st)
    decreases |events|
  {
    if |events| > 0 {
      var p := events[..|events| - 1];
      var last := events[|events| - 1];
      MinTierFails(p, st);
      if MinTier(p, st).Err? {
        var j :| 0 <= j < |p| && BadTier(p[j], st);
        assert p[j] == events[j];
      } else if !BadTier(last, st) {
        assert MinTier(events, st).Ok?;
        forall i | 0 <= i < |events|
          ensures !BadTier(events[i], st)
        {
          if i < |p| {
            assert p[i] == events[i];
          }
        }
      }
    }
  }

  /** A tier that does not fail is `None` exactly when no event carries a tier. */
  lemma {:induction false} MinTierNone(events: seq<ReportEvent>, st: SampleType)
    ensures MinTier(events, st) == Ok(None) <==>
      forall i :: 0 <= i < |events| ==> !HasTier(events[i], st)
    decreases |events|
  {
    if |events| > 0 {
      var p := events[..|events| - 1];
      var last := events[|events| - 1];
      MinTierNone(p, st);
      if forall i :: 0 <= i < |events| ==> !HasTier(events[i], st) {
        assert forall i :: 0 <= i < |p| ==> p[i] == events[i];
        assert !HasTier(events[|events| - 1], st);
      } else {
        var j :| 0 <= j < |events| && HasTier(events[j], st);
        if j < |p| {
          assert p[j] == events[j];
        }
      }
    }
  }

  /** A tier that is found is that of some event carrying one, and at most every such event's. */
  lemma {:induction false} MinTierLeast(events: seq<ReportEvent>, st: SampleType)
    requires MinTier(events, st).Ok? && MinTier(events, st).value.Some?
    ensures forall i :: 0 <= i < |events| ==> !BadTier(events[i], st)
    ensures var t := MinTier(events, st).value.value;
      && (exists i :: 0 <= i < |events| && HasTier(events[i], st) && TierValue(events[i], st) == t)
      && (forall i :: 0 <= i < |events| && HasTier(events[i], st) ==> t <= TierValue(events[i], st))
    decreases |events|
  {
    var p := events[..|events| - 1];
    var last := events[|events| - 1];
    var t := MinTier(events, st).value.value;
    var mp := MinTier(p, st);
    assert mp.Ok?;
    MinTierFails(events, st);
    if mp.value.Some? {
      MinTierLeast(p, st);
    } else {
      MinTierNone(p, st);
    }
    if mp.value.None? || (HasTier(last, st) && TierValue(last, st) == t) {
      assert HasTier(events[|events| - 1], st) && TierValue(events[|events| - 1], st) == t;
    } else {
      var j :| 0 <= j < |p| && HasTier(p[j], st) && TierValue(p[j], st) == mp.value.value;
      assert p[j] == events[j];
    }
    forall i | 0 <= i < |events| && HasTier(events[i], st)
      ensures t <= TierValue(events[i], st)
    {
      if i < |p| {
        assert p[i] == events[i];
      }
    }
  }

  /**
   * The event loop as the source writes it: `tier` is not reset between events,
   * so an event without a tier re-compares the previous event's tier, which
   * leaves the minimum where it was.
   */
  method VariantMinTier(events: seq<ReportEvent>, st: SampleType) returns (r: Result<Option<nat>>)
    ensures r == MinTier(events, st)
  {
    var minTier: Option<nat> := None;
    var tier: Option<nat> := None;
    var i := 0;
    while i < |events|
      invariant 0 <= i <= |events|
      invariant MinTier(events[..i], st) == Ok(minTier)
      invariant minTier.None? <==> tier.None?
      invariant tier.Some? ==> minTier.value <= tier.value
    {
      var e := events[i];
      assert events[..i + 1][..i] == events[..i];
      var et := EventTier(e, st);
      if et.Err? {
        assert MinTier(events[..i + 1], st) == Err(et.error);
        MinTierErrorExtends(events, st, i + 1);
        return Err(et.error);
      }
      if et.value.Some? {
        tier := et.value;
      }
      if minTier.None? {
        minTier := tier;
      } else if tier.value < minTier.value {
        minTier := tier;
      }
      i := i + 1;
    }
    assert events[..i] == events;
    return Ok(minTier);
  }

  /** Once a prefix of the events fails, the whole sequence fails with the same error. */
  lemma {:induction false} MinTierErrorExtends(events: seq<ReportEvent>, st: SampleType, n: nat)
    requires n <= |events| && MinTier(events[..n], st).Err?
    ensures MinTier(events, st) == MinTier(events[..n], st)
    decreases |events| - n
  {
    if n < |events| {
      assert events[..n + 1][..n] == events[..n];
      MinTierErrorExtends(events, st, n + 1);
    } else {
      assert events[..n] == events;
    }
  }

  // ---------------------------------------------------------------------------
  // Interesting variants and their numbering

  datatype Coordinates = Coordinates(chromosome: string, position: int, reference: string, alternate: string)

  datatype SmallVariant = SmallVariant(coordinates: Coordinates, reportEvents: seq<ReportEvent>)

  /** The `CaseVariant` record built for an interesting variant. */
  datatype CaseVariant = CaseVariant(
    chromosome: string, position: int, ref: string, alt: string,
    caseId: string, variantCount: string, genomeBuild: string)

  /**
   * Where a variant comes from: an interpreted genome of some interpretation
   * service (with the case's `pullt3` setting), or a clinical report.
   */
  datatype VariantSource = InterpretedGenome(service: string, pullt3: bool) | ClinicalReport

  /** What parsing records on one variant: `max_tier`, and its case variant (`False` as `None`). */
  datatype ParsedVariant = ParsedVariant(maxTier: Option<nat>, caseVariant: Option<CaseVariant>)

  /** The parsed variants, the case-variant list and the running `variant_object_count`. */
  datatype Parse = Parse(variants: seq<ParsedVariant>, caseVariants: seq<CaseVariant>, count: nat)

  /**
   * The filter: Exomiser variants are never pulled; tiering variants are pulled
   * when `pullt3` is set, or else when their tier is below 3 (comparing a
   * `None` tier raises TypeError); every other service, and every clinical
   * report variant, is pulled.
   */
  function Interesting(source: VariantSource, maxTier: Option<nat>): Result<bool>
  {
    match source
    case ClinicalReport => Ok(true)
    case InterpretedGenome(service, pullt3) =>
      if service == "Exomiser" then Ok(false)
      else if service == "genomics_england_tiering" && !pullt3 then
        if maxTier.None? then Err(TypeError) else Ok(maxTier.value < 3)
      else Ok(true)
  }

  function ParseStep(p: Parse, v: SmallVariant, st: SampleType, source: VariantSource,
                     requestId: string, genomeBuild: string): Result<Parse>
  {
    match MinTier(v.reportEvents, st)
    case Err(e) => Err(e)
    case Ok(t) =>
      match Interesting(source, t)
      case Err(e) => Err(e)
      case Ok(pulled) =>
        if pulled then
          var c := v.coordinates;
          var cv := CaseVariant(c.chromosome, c.position, c.reference, c.alternate,
                                requestId, NatToString(p.count + 1), genomeBuild);
          Ok(Parse(p.variants + [ParsedVariant(t, Some(cv))], p.caseVariants + [cv], p.count + 1))
        else
          Ok(Parse(p.variants + [ParsedVariant(t, None)], p.caseVariants, p.count))
  }

  /** Parsing the variants in order, starting from the parse `p0`; the first error stops it. */
  function ParseSpec(vs: seq<SmallVariant>, st: SampleType, source: VariantSource,
                     requestId: string, genomeBuild: string, p0: Parse): Result<Parse>
    decreases |vs|
  {
    if |vs| == 0 then Ok(p0)
    else
      match ParseSpec(vs[..|vs| - 1], st, source, requestId, genomeBuild, p0)
      case Err(e) => Err(e)
      case Ok(p) => ParseStep(p, vs[|vs| - 1], st, source, requestId, genomeBuild)
  }

  /** The case variants recorded on parsed variants, in order. */
  function Numbered(ps: seq<ParsedVariant>): (r: seq<CaseVariant>)
    ensures |r| <= |ps|
  {
    if |ps| == 0 then []
    else Numbered(ps[..|ps| - 1]) + (if ps[|ps| - 1].caseVariant.Some? then [ps[|ps| - 1].caseVariant.value] else [])
  }

  /**
   * `parse_ig_variants` (and the clinical-report loop, which numbers every
   * variant): each variant gets its tier, and a case variant exactly when it is
   * interesting; the case variants are appended to the list and numbered
   * consecutively from the running count.
   */
  method ParseIgVariants(vs: seq<SmallVariant>, st: SampleType, source: VariantSource,
                         requestId: string, genomeBuild: string,
                         count0: nat, list0: seq<CaseVariant>) returns (r: Result<Parse>)
    ensures r == ParseSpec(vs, st, source, requestId, genomeBuild, Parse([], list0, count0))
  {
    var parsed: seq<ParsedVariant> := [];
    var caseVariants := list0;
    var count := count0;
    var i := 0;
    while i < |vs|
      invariant 0 <= i <= |vs|
      invariant ParseSpec(vs[..i], st, source, requestId, genomeBuild, Parse([], list0, count0))
        == Ok(Parse(parsed, caseVariants, count))
    {
      assert vs[..i + 1][..i] == vs[..i] && vs[..i + 1][i] == vs[i];
      var next := ParseVariant(Parse(parsed, caseVariants, count), vs[i], st, source, requestId, genomeBuild);
      assert ParseSpec(vs[..i + 1], st, source, requestId, genomeBuild, Parse([], list0, count0)) == next;
      if next.Err? {
        ParseErrorExtends(vs, st, source, requestId, genomeBuild, Parse([], list0, count0), i + 1);
        return Err(next.error);
      }
      parsed, caseVariants, count := next.value.variants, next.value.caseVariants, next.value.count;
      i := i + 1;
    }
    assert vs[..i] == vs;
    return Ok(Parse(parsed, caseVariants, count));
  }

  /** The body of the variant loop: the tier, the filter, and the numbering of a pulled variant. */
  method ParseVariant(p: Parse, v: SmallVariant, st: SampleType, source: VariantSource,
                      requestId: string, genomeBuild: string) returns (r: Result<Parse>)
    ensures r == ParseStep(p, v, st, source, requestId, genomeBuild)
  {
    var t := VariantMinTier(v.reportEvents, st);
    if t.Err? {
      return Err(t.error);
    }
    var interesting := Interesting(source, t.value);
    if interesting.Err? {
      return Err(interesting.error);
    }
    if interesting.value {
      var count := p.count + 1;
      var c := v.coordinates;
      var cv := CaseVariant(c.chromosome, c.position, c.reference, c.alternate,
                            requestId, NatToString(count), genomeBuild);
      return Ok(Parse(p.variants + [ParsedVariant(t.value, Some(cv))], p.caseVariants + [cv], count));
    }
    return Ok(Parse(p.variants + [ParsedVariant(t.value, None)], p.caseVariants, p.count));
  }

  lemma {:induction false} ParseErrorExtends(vs: seq<SmallVariant>, st: SampleType, source: VariantSource,
                                             requestId: string, genomeBuild: string, p0: Parse, n: nat)
    requires n <= |vs| && ParseSpec(vs[..n], st, source, requestId, genomeBuild, p0).Err?
    ensures ParseSpec(vs, st, source, requestId, genomeBuild, p0) == ParseSpec(vs[..n], st, source, requestId, genomeBuild, p0)
    decreases |vs| - n
  {
    if n < |vs| {
      assert vs[..n + 1][..n] == vs[..n];
      ParseErrorExtends(vs, st, source, requestId, genomeBuild, p0, n + 1);
    } else {
      assert vs[..n] == vs;
    }
  }

  /** What a successful parse says about variant `v` and its parsed record `pv`. */
  predicate ParsedAs(v: SmallVariant, pv: ParsedVariant, st: SampleType, source: VariantSource,
                     requestId: string, genomeBuild: string)
  {
    && MinTier(v.reportEvents, st) == Ok(pv.maxTier)
    && Interesting(source, pv.maxTier) == Ok(pv.caseVariant.Some?)
    && (pv.caseVariant.Some? ==>
          var c := pv.caseVariant.value;
          && c.chromosome == v.coordinates.chromosome && c.position == v.coordinates.position
          && c.ref == v.coordinates.reference && c.alt == v.coordinates.alternate
          && c.caseId == requestId && c.genomeBuild == genomeBuild)
  }

  /**
   * The parse `p` of `vs` from the empty parse with list `list0` and count
   * `count0`: one entry per variant, in order, each with the variant's tier and
   * a case variant exactly when the filter pulls it; the case variants are
   * appended to the list, numbered `count0 + 1`, `count0 + 2`, ..., and the
   * count advances by their number.
   */
  predicate NumberingHolds(vs: seq<SmallVariant>, p: Parse, st: SampleType, source: VariantSource,
                           requestId: string, genomeBuild: string, count0: nat, list0: seq<CaseVariant>)
  {
    && |p.variants| == |vs|
    && (forall i :: 0 <= i < |vs| ==> ParsedAs(vs[i], p.variants[i], st, source, requestId, genomeBuild))
    && p.caseVariants == list0 + Numbered(p.variants)
    && p.count == count0 + |Numbered(p.variants)|
    && (forall k :: 0 <= k < |Numbered(p.variants)| ==>
          Numbered(p.variants)[k].variantCount == NatToString(count0 + k + 1))
  }

  /**
   * One successful step appends one parsed variant, recorded as `ParsedAs`
   * says; when it is pulled its case variant is appended too, numbered one
   * past the running count, which advances by one.
   */
  lemma ParseStepShape(pq: Parse, v: SmallVariant, st: SampleType, source: VariantSource,
                       requestId: string, genomeBuild: string, p: Parse)
    requires ParseStep(pq, v, st, source, requestId, genomeBuild) == Ok(p)
    ensures |p.variants| == |pq.variants| + 1 && p.variants[..|pq.variants|] == pq.variants
    ensures ParsedAs(v, p.variants[|pq.variants|], st, source, requestId, genomeBuild)
    ensures var last := p.variants[|pq.variants|];
      && p.caseVariants == pq.caseVariants + (if last.caseVariant.Some? then [last.caseVariant.value] else [])
      && p.count == pq.count + (if last.caseVariant.Some? then 1 else 0)
      && (last.caseVariant.Some? ==> last.caseVariant.value.variantCount == NatToString(pq.count + 1))
  {
    var last := p.variants[|pq.variants|];
    assert p.variants == pq.variants + [last];
  }

  lemma NumberedSnoc(ps: seq<ParsedVariant>, x: ParsedVariant)
    ensures Numbered(ps + [x]) == Numbered(ps) + (if x.caseVariant.Some? then [x.caseVariant.value] else [])
  {
    assert (ps + [x])[..|ps|] == ps;
  }

  lemma NumberingStep(q: seq<SmallVariant>, v: SmallVariant, pq: Parse, p: Parse, st: SampleType,
                      source: VariantSource, requestId: string, genomeBuild: string,
                      count0: nat, list0: seq<CaseVariant>)
    requires NumberingHolds(q, pq, st, source, requestId, genomeBuild, count0, list0)
    requires ParseStep(pq, v, st, source, requestId, genomeBuild) == Ok(p)
    ensures NumberingHolds(q + [v], p, st, source, requestId, genomeBuild, count0, list0)
  {
    var vs := q + [v];
    ParseStepShape(pq, v, st, source, requestId, genomeBuild, p);
    var last := p.variants[|q|];
    assert p.variants == pq.variants + [last];
    NumberedSnoc(pq.variants, last);
    var before := Numbered(pq.variants);
    var after := Numbered(p.variants);
    forall i | 0 <= i < |vs| ensures ParsedAs(vs[i], p.variants[i], st, source, requestId, genomeBuild) {
      if i < |q| {
        assert vs[i] == q[i] && p.variants[i] == pq.variants[i];
      }
    }
    forall k | 0 <= k < |after| ensures after[k].variantCount == NatToString(count0 + k + 1) {
      if k < |before| {
        assert after[k] == before[k];
      }
    }
  }

  /** Every successful parse from the empty parse satisfies `NumberingHolds`. */
  lemma {:induction false} ParseNumbering(vs: seq<SmallVariant>, st: SampleType, source: VariantSource,
                                          requestId: string, genomeBuild: string,
                                          count0: nat, list0: seq<CaseVariant>)
    requires ParseSpec(vs, st, source, requestId, genomeBuild, Parse([], list0, count0)).Ok?
    ensures NumberingHolds(vs, ParseSpec(vs, st, source, requestId, genomeBuild, Parse([], list0, count0)).value,
                           st, source, requestId, genomeBuild, count0, list0)
    decreases |vs|
  {
    var p0 := Parse([], list0, count0);
    if |vs| > 0 {
      var q := vs[..|vs| - 1];
      var v := vs[|vs| - 1];
      assert q + [v] == vs;
      ParseNumbering(q, st, source, requestId, genomeBuild, count0, list0);
      var pq := ParseSpec(q, st, source, requestId, genomeBuild, p0).value;
      var p := ParseSpec(vs, st, source, requestId, genomeBuild, p0);
      assert p == ParseStep(pq, v, st, source, requestId, genomeBuild);
      NumberingStep(q, v, pq, p.value, st, source, requestId, genomeBuild, count0, list0);
    }
  }

  /** Exomiser variants never become case variants: the list and the count are unchanged. */
  lemma ExomiserNeverNumbered(vs: seq<SmallVariant>, st: SampleType, pullt3: bool,
                              requestId: string, genomeBuild: string, count0: nat, list0: seq<CaseVariant>)
    requires ParseSpec(vs, st, InterpretedGenome("Exomiser", pullt3), requestId, genomeBuild, Parse([], list0, count0)).Ok?
    ensures var p := ParseSpec(vs, st, InterpretedGenome("Exomiser", pullt3), requestId, genomeBuild, Parse([], list0, count0)).value;
      p.caseVariants == list0 && p.count == count0
  {
    var source := InterpretedGenome("Exomiser", pullt3);
    ParseNumbering(vs, st, source, requestId, genomeBuild, count0, list0);
    var p := ParseSpec(vs, st, source, requestId, genomeBuild, Parse([], list0, count0)).value;
    NumberedNone(p.variants);
  }

  lemma {:induction false} NumberedNone(ps: seq<ParsedVariant>)
    requires forall i :: 0 <= i < |ps| ==> ps[i].caseVariant.None?
    ensures Numbered(ps) == []
    decreases |ps|
  {
    if |ps| > 0 {
      NumberedNone(ps[..|ps| - 1]);
    }
  }

  /**
   * With the tiering service and `pullt3` unset, a successful parse has given
   * every variant a tier, and pulled exactly the variants whose tier is below 3.
   */
  lemma TieringPullsBelowThree(vs: seq<SmallVariant>, st: SampleType,
                               requestId: string, genomeBuild: string, count0: nat, list0: seq<CaseVariant>)
    requires ParseSpec(vs, st, InterpretedGenome("genomics_england_tiering", false), requestId, genomeBuild, Parse([], list0, count0)).Ok?
    ensures var p := ParseSpec(vs, st, InterpretedGenome("genomics_england_tiering", false), requestId, genomeBuild, Parse([], list0, count0)).value;
      forall i :: 0 <= i < |p.variants| ==>
        p.variants[i].maxTier.Some? && (p.variants[i].caseVariant.Some? <==> p.variants[i].maxTier.value < 3)
  {
    var source := InterpretedGenome("genomics_england_tiering", false);
    ParseNumbering(vs, st, source, requestId, genomeBuild, count0, list0);
    var p := ParseSpec(vs, st, source, requestId, genomeBuild, Parse([], list0, count0)).value;
    forall i | 0 <= i < |p.variants|
      ensures p.variants[i].maxTier.Some? && (p.variants[i].caseVariant.Some? <==> p.variants[i].maxTier.value < 3)
    {
      assert ParsedAs(vs[i], p.variants[i], st, source, requestId, genomeBuild);
    }
  }

  /** Clinical-report variants, and those of services other than Exomiser and tiering, are all numbered. */
  lemma OtherSourcesPullAll(vs: seq<SmallVariant>, st: SampleType, source: VariantSource,
                            requestId: string, genomeBuild: string, count0: nat, list0: seq<CaseVariant>)
    requires source.ClinicalReport? || (source.service != "Exomiser" && source.service != "genomics_england_tiering")
    requires ParseSpec(vs, st, source, requestId, genomeBuild, Parse([], list0, count0)).Ok?
    ensures var p := ParseSpec(vs, st, source, requestId, genomeBuild, Parse([], list0, count0)).value;
      (forall i :: 0 <= i < |p.variants| ==> p.variants[i].caseVariant.Some?)
      && p.count == count0 + |vs|
  {
    ParseNumbering(vs, st, source, requestId, genomeBuild, count0, list0);
    var p := ParseSpec(vs, st, source, requestId, genomeBuild, Parse([], list0, count0)).value;
    NumberedAll(p.variants);
  }

  lemma {:induction false} NumberedAll(ps: seq<ParsedVariant>)
    requires forall i :: 0 <= i < |ps| ==> ps[i].caseVariant.Some?
    ensures |Numbered(ps)| == |ps|
    decreases |ps|
  {
    if |ps| > 0 {
      NumberedAll(ps[..|ps| - 1]);
    }
  }

  // ---------------------------------------------------------------------------
  // Structural variants and short tandem repeats

  /**
   * The version gate: `int(softwareVersions['gel-tiering'].replace('.', '')) <= 1000`.
   * `Ok(true)` means the variants are skipped. A missing key raises KeyError;
   * anything but digits once the dots are gone raises ValueError.
   */
  function TieringVersionSkips(versions: map<string, string>): (r: Result<bool>)
    ensures "gel-tiering" !in versions ==> r == Err(KeyError("gel-tiering"))
    ensures "gel-tiering" in versions ==>
      var digits := Replace(versions["gel-tiering"], ".", "");
      && (r.Err? <==> !IsDigits(digits))
      && (r.Err? ==> r.error.ValueError?)
      && (r.Ok? ==> r.value == (DigitsValue(digits) <= 1000))
  {
    if "gel-tiering" !in versions then Err(KeyError("gel-tiering"))
    else
      var digits := Replace(versions["gel-tiering"], ".", "");
      if IsDigits(digits) then Ok(DigitsValue(digits) <= 1000)
      else Err(ValueError("invalid literal for int() with base 10"))
  }

  /** Version 1.0.0 of the tiering pipeline is gated out. */
  lemma TieringVersionGated()
    ensures TieringVersionSkips(map["gel-tiering" := "1.0.0"]) == Ok(true)
  {
    DotsDropped('1', '0', '0');
    assert "1.0.0" == ['1', '.', '0', '.', '0'];
    assert DigitsValue("100") == 100 by {
      assert "100"[..2] == "10";
      assert "10"[..1] == "1";
    }
  }

  /** Version 1.0.1.0 of the tiering pipeline is parsed. */
  lemma TieringVersionParsed()
    ensures TieringVersionSkips(map["gel-tiering" := "1.0.1.0"]) == Ok(false)
  {
    var tail := ['0', '.', '1', '.', '0'];
    DotsDropped('0', '1', '0');
    ReplaceDotStep('.', tail);
    assert ['.'] + tail == ['.', '0', '.', '1', '.', '0'];
    ReplaceDotStep('1', ['.'] + tail);
    assert "1.0.1.0" == ['1'] + (['.'] + tail);
    assert Replace("1.0.1.0", ".", "") == ['1'] + ['0', '1', '0'] == ['1', '0', '1', '0'];
    DigitsValueOfFour('1', '0', '1', '0');
  }

  /** `replace('.', '')` works one character at a time. */
  lemma ReplaceDotStep(c: char, s: string)
    ensures Replace([c] + s, ".", "") == (if c == '.' then "" else [c]) + Replace(s, ".", "")
  {
    var t := [c] + s;
    assert t[..1] == [c] && t[1..] == s;
  }

  /** Three characters other than dots, joined by dots, lose the dots. */
  lemma DotsDropped(a: char, b: char, c: char)
    requires a != '.' && b != '.' && c != '.'
    ensures Replace([a, '.', b, '.', c], ".", "") == [a, b, c]
  {
    ReplaceDotStep(c, []);
    assert Replace([], ".", "") == [];
    ReplaceDotStep('.', [c]);
    ReplaceDotStep(b, ['.', c]);
    ReplaceDotStep('.', [b, '.', c]);
    ReplaceDotStep(a, ['.', b, '.', c]);
    assert [c] + [] == [c] && ['.'] + [c] == ['.', c] && [b] + ['.', c] == [b, '.', c];
    assert ['.'] + [b, '.', c] == ['.', b, '.', c] && [a] + ['.', b, '.', c] == [a, '.', b, '.', c];
  }

  lemma DigitsValueOfFour(a: char, b: char, c: char, d: char)
    requires IsAsciiDigit(a) && IsAsciiDigit(b) && IsAsciiDigit(c) && IsAsciiDigit(d)
    ensures DigitsValue([a, b, c, d]) == ((DigitOf(a) * 10 + DigitOf(b)) * 10 + DigitOf(c)) * 10 + DigitOf(d)
  {
    assert [a][..0] == [];
    assert DigitsValue([a]) == DigitOf(a);
    assert [a, b][..1] == [a];
    assert DigitsValue([a, b]) == DigitOf(a) * 10 + DigitOf(b);
    assert [a, b, c][..2] == [a, b];
    assert DigitsValue([a, b, c]) == (DigitOf(a) * 10 + DigitOf(b)) * 10 + DigitOf(c);
    assert [a, b, c, d][..3] == [a, b, c];
  }

  /** A version that is not digits once the dots are gone raises ValueError. */
  lemma TieringVersionInvalid()
    ensures TieringVersionSkips(map["gel-tiering" := "beta"]).Err?
  {
    assert Replace("beta", ".", "") == "beta";
    assert !IsAsciiDigit("beta"[0]);
  }

  /** Index of the last event with a truthy tier. */
  function LastTiered(events: seq<ReportEvent>): (r: Option<nat>)
    ensures r.Some? ==> (r.value < |events| && events[r.value].tier != ""
      && forall j :: r.value < j < |events| ==> events[j].tier == "")
    ensures r.None? ==> forall j :: 0 <= j < |events| ==> events[j].tier == ""
  {
    LastWhere(events, (e: ReportEvent) => e.tier != "")
  }

  /** The event loop of `parse_ig_svs`: every truthy tier overwrites `max_tier` and marks the variant interesting. */
  method LastTieredEvent(events: seq<ReportEvent>) returns (r: Option<nat>)
    ensures r == LastTiered(events)
  {
    r := None;
    var i := 0;
    while i < |events|
      invariant 0 <= i <= |events|
      invariant r == LastTiered(events[..i])
    {
      assert events[..i + 1][..i] == events[..i];
      if events[i].tier != "" {
        r := Some(i);
      }
      i := i + 1;
    }
    assert events[..i] == events;
  }

  datatype StructuralVariant = StructuralVariant(
    chromosome: string, start: int, end: int, variantType: string, reportEvents: seq<ReportEvent>)

  datatype CaseCnv = CaseCnv(chromosome: string, svStart: int, svEnd: int, svType: string,
                             caseId: string, genomeBuild: string)

  /** What parsing records on a structural variant: `max_tier` (`None` when never set) and its case record. */
  datatype ParsedSv = ParsedSv(maxTier: Option<string>, caseVariant: Option<CaseCnv>)

  function SvOutcome(v: StructuralVariant, requestId: string, genomeBuild: string): ParsedSv
  {
    match LastTiered(v.reportEvents)
    case None => ParsedSv(None, None)
    case Some(i) =>
      ParsedSv(Some(v.reportEvents[i].tier),
               Some(CaseCnv(v.chromosome, v.start, v.end, v.variantType, requestId, genomeBuild)))
  }

  datatype SvParse = SvParse(variants: seq<ParsedSv>, caseSvs: seq<CaseCnv>)

  /**
   * `parse_ig_svs`: below the version gate every variant is marked
   * uninteresting; otherwise a variant is interesting exactly when some report
   * event has a tier, and its `max_tier` is the last such tier.
   */
  method ParseIgSvs(versions: map<string, string>, vs: seq<StructuralVariant>, requestId: string,
                    genomeBuild: string, list0: seq<CaseCnv>) returns (r: Result<SvParse>)
    ensures TieringVersionSkips(versions).Err? <==> r.Err?
    ensures TieringVersionSkips(versions) == Ok(true) ==>
      r == Ok(SvParse(seq(|vs|, i => ParsedSv(None, None)), list0))
    ensures TieringVersionSkips(versions) == Ok(false) ==>
      && r.Ok? && |r.value.variants| == |vs|
      && (forall i :: 0 <= i < |vs| ==> r.value.variants[i] == SvOutcome(vs[i], requestId, genomeBuild))
      && r.value.caseSvs == list0 + SvCases(r.value.variants)
  {
    var gate := TieringVersionSkips(versions);
    if gate.Err? {
      return Err(gate.error);
    }
    if gate.value {
      var parsed: seq<ParsedSv> := [];
      var i := 0;
      while i < |vs|
        invariant 0 <= i <= |vs| && parsed == seq(i, j => ParsedSv(None, None))
      {
        parsed := parsed + [ParsedSv(None, None)];
        i := i + 1;
      }
      return Ok(SvParse(parsed, list0));
    }
    var parsed, list := ParseSvs(vs, requestId, genomeBuild, list0);
    return Ok(SvParse(parsed, list));
  }

  /** The variant loop of `parse_ig_svs` above the version gate. */
  method ParseSvs(vs: seq<StructuralVariant>, requestId: string, genomeBuild: string, list0: seq<CaseCnv>)
    returns (parsed: seq<ParsedSv>, list: seq<CaseCnv>)
    ensures |parsed| == |vs|
    ensures forall i :: 0 <= i < |vs| ==> parsed[i] == SvOutcome(vs[i], requestId, genomeBuild)
    ensures list == list0 + SvCases(parsed)
  {
    ghost var outcomes := seq(|vs|, j requires 0 <= j < |vs| => SvOutcome(vs[j], requestId, genomeBuild));
    parsed, list := [], list0;
    var i := 0;
    while i < |vs|
      invariant 0 <= i <= |vs| && parsed == outcomes[..i]
      invariant list == list0 + SvCases(parsed)
    {
      var outcome := ParseSv(vs[i], requestId, genomeBuild);
      assert outcome == outcomes[i];
      assert outcomes[..i + 1] == outcomes[..i] + [outcomes[i]];
      if outcome.caseVariant.Some? {
        list := list + [outcome.caseVariant.value];
      }
      SvCasesSnoc(parsed, outcome);
      parsed := parsed + [outcome];
      i := i + 1;
    }
    assert parsed == outcomes;
  }

  /** One structural variant: its last tiered event gives `max_tier` and makes it interesting. */
  method ParseSv(v: StructuralVariant, requestId: string, genomeBuild: string) returns (outcome: ParsedSv)
    ensures outcome == SvOutcome(v, requestId, genomeBuild)
  {
    var last := LastTieredEvent(v.reportEvents);
    if last.Some? {
      var cv := CaseCnv(v.chromosome, v.start, v.end, v.variantType, requestId, genomeBuild);
      outcome := ParsedSv(Some(v.reportEvents[last.value].tier), Some(cv));
    } else {
      outcome := ParsedSv(None, None);
    }
  }

  lemma SvCasesSnoc(ps: seq<ParsedSv>, x: ParsedSv)
    ensures SvCases(ps + [x]) == SvCases(ps) + (if x.caseVariant.Some? then [x.caseVariant.value] else [])
  {
    assert (ps + [x])[..|ps|] == ps;
  }

  /** The case records of parsed structural variants, in order. */
  function SvCases(ps: seq<ParsedSv>): (r: seq<CaseCnv>)
    ensures |r| <= |ps|
  {
    if |ps| == 0 then []
    else SvCases(ps[..|ps| - 1]) + (if ps[|ps| - 1].caseVariant.Some? then [ps[|ps| - 1].caseVariant.value] else [])
  }

  /** A structural variant gets a case record exactly when one of its events has a tier. */
  lemma SvInterestingIffTiered(v: StructuralVariant, requestId: string, genomeBuild: string)
    ensures SvOutcome(v, requestId, genomeBuild).caseVariant.Some? <==>
      exists j :: 0 <= j < |v.reportEvents| && v.reportEvents[j].tier != ""
    ensures SvOutcome(v, requestId, genomeBuild).maxTier.Some? ==>
      exists j :: 0 <= j < |v.reportEvents| && v.reportEvents[j].tier == SvOutcome(v, requestId, genomeBuild).maxTier.value
        && forall k :: j < k < |v.reportEvents| ==> v.reportEvents[k].tier == ""
  {
    var l := LastTiered(v.reportEvents);
    if l.Some? {
      assert v.reportEvents[l.value].tier != "";
    }
  }

  /** A number-of-copies reading of one participant in a short tandem repeat. */
  datatype StrCall = StrCall(participantId: string, numberOfCopies: seq<int>)

  datatype ShortTandemRepeat = ShortTandemRepeat(
    chromosome: string, start: int, end: int, repeatedSequence: string,
    normalThreshold: int, pathogenicThreshold: int,
    reportEvents: seq<StrEvent>, calls: seq<StrCall>)

  /** A short-tandem-repeat report event: tier, mode of inheritance and segregation pattern. */
  datatype StrEvent = StrEvent(tier: string, modeOfInheritance: string, segregationPattern: string)

  datatype CaseStr = CaseStr(chromosome: string, strStart: int, strEnd: int, repeatedSequence: string,
                             normalThreshold: int, pathogenicThreshold: int, caseId: string, genomeBuild: string)

  /** The two copy numbers of the last call for `id` (the first two readings of that call). */
  datatype Copies = Copies(a: int, b: int)

  /** What parsing records on a short tandem repeat. */
  datatype ParsedStr = ParsedStr(
    maxTier: Option<string>, modeOfInheritance: Option<string>, segregationPattern: Option<string>,
    proband: Option<Copies>, maternal: Option<Copies>, paternal: Option<Copies>,
    caseVariant: Option<CaseStr>)

  function LastStrTiered(events: seq<StrEvent>): (r: Option<nat>)
    ensures r.Some? ==> (r.value < |events| && events[r.value].tier != ""
      && forall j :: r.value < j < |events| ==> events[j].tier == "")
    ensures r.None? ==> forall j :: 0 <= j < |events| ==> events[j].tier == ""
  {
    LastWhere(events, (e: StrEvent) => e.tier != "")
  }

  /** Whether a call belongs to the participant with id `id` (`None` matches no call). */
  predicate CallOf(c: StrCall, id: Option<string>)
  {
    id.Some? && c.participantId == id.value
  }

  /** A call of one of the three participants that has fewer than two readings: indexing it raises. */
  predicate ShortCall(c: StrCall, proband: string, mother: Option<string>, father: Option<string>)
  {
    (CallOf(c, Some(proband)) || CallOf(c, mother) || CallOf(c, father)) && |c.numberOfCopies| < 2
  }

  /** Some call of a participant is short, so the loop over the calls raises at it. */
  predicate HasShortCall(calls: seq<StrCall>, proband: string, mother: Option<string>, father: Option<string>)
    decreases |calls|
  {
    |calls| > 0 && (HasShortCall(calls[..|calls| - 1], proband, mother, father)
                    || ShortCall(calls[|calls| - 1], proband, mother, father))
  }

  /** The loop over the calls raises exactly when one of them is a short call of a participant. */
  lemma {:induction false} HasShortCallMeaning(calls: seq<StrCall>, proband: string, mother: Option<string>,
                                               father: Option<string>)
    ensures HasShortCall(calls, proband, mother, father) <==>
      exists j :: 0 <= j < |calls| && ShortCall(calls[j], proband, mother, father)
    decreases |calls|
  {
    if |calls| > 0 {
      var p := calls[..|calls| - 1];
      HasShortCallMeaning(p, proband, mother, father);
      if HasShortCall(p, proband, mother, father) {
        var j :| 0 <= j < |p| && ShortCall(p[j], proband, mother, father);
        assert p[j] == calls[j];
      } else if exists j :: 0 <= j < |calls| && ShortCall(calls[j], proband, mother, father) {
        var j :| 0 <= j < |calls| && ShortCall(calls[j], proband, mother, father);
        if j < |p| {
          assert p[j] == calls[j];
        }
      }
    }
  }

  lemma ShortCallSnoc(calls: seq<StrCall>, i: nat, proband: string, mother: Option<string>, father: Option<string>)
    requires i < |calls|
    ensures HasShortCall(calls[..i + 1], proband, mother, father) <==>
      HasShortCall(calls[..i], proband, mother, father) || ShortCall(calls[i], proband, mother, father)
  {
    assert calls[..i + 1][..i] == calls[..i];
  }

  /** A short call anywhere in a prefix is one of the whole sequence. */
  lemma {:induction false} HasShortCallExtends(calls: seq<StrCall>, n: nat, proband: string, mother: Option<string>,
                                               father: Option<string>)
    requires n <= |calls| && HasShortCall(calls[..n], proband, mother, father)
    ensures HasShortCall(calls, proband, mother, father)
    decreases |calls| - n
  {
    if n < |calls| {
      ShortCallSnoc(calls, n, proband, mother, father);
      HasShortCallExtends(calls, n + 1, proband, mother, father);
    } else {
      assert calls[..n] == calls;
    }
  }

  /** Index of the last call of the participant `id`. */
  function LastCallOf(calls: seq<StrCall>, id: Option<string>): (r: Option<nat>)
    ensures r.Some? ==> (r.value < |calls| && CallOf(calls[r.value], id)
      && forall j :: r.value < j < |calls| ==> !CallOf(calls[j], id))
    ensures r.None? ==> forall j :: 0 <= j < |calls| ==> !CallOf(calls[j], id)
    decreases |calls|
  {
    if |calls| == 0 then None
    else if CallOf(calls[|calls| - 1], id) then Some(|calls| - 1)
    else LastCallOf(calls[..|calls| - 1], id)
  }

  /** The first two readings of the call at `at`, if any. */
  function CopiesAt(calls: seq<StrCall>, at: Option<nat>): Option<Copies>
  {
    if at.Some? && at.value < |calls| && |calls[at.value].numberOfCopies| >= 2 then
      Some(Copies(calls[at.value].numberOfCopies[0], calls[at.value].numberOfCopies[1]))
    else None
  }

  /** The copies of the last call of `id`; `None` when there is none. */
  function CopiesOf(calls: seq<StrCall>, id: Option<string>): Option<Copies>
  {
    CopiesAt(calls, LastCallOf(calls, id))
  }

  function StrOutcome(v: ShortTandemRepeat, proband: string, mother: Option<string>, father: Option<string>,
                      requestId: string, genomeBuild: string): Result<ParsedStr>
  {
    if HasShortCall(v.calls, proband, mother, father) then Err(IndexError)
    else
      var cv := CaseStr(v.chromosome, v.start, v.end, v.repeatedSequence, v.normalThreshold,
                        v.pathogenicThreshold, requestId, genomeBuild);
      var pc := CopiesOf(v.calls, Some(proband));
      var mc := CopiesOf(v.calls, mother);
      var fc := CopiesOf(v.calls, father);
      match LastStrTiered(v.reportEvents)
      case None => Ok(ParsedStr(None, None, None, pc, mc, fc, None))
      case Some(i) =>
        var e := v.reportEvents[i];
        Ok(ParsedStr(Some(e.tier), Some(e.modeOfInheritance), Some(e.segregationPattern), pc, mc, fc, Some(cv)))
  }

  /** A family member as the JSON gives it: relation to the proband and GEL participant id. */
  datatype FamilyMember = FamilyMember(relation: string, gelId: string, sequenced: bool)

  /** The last member with the relation (`None` when the family has none). */
  function LastMember(members: seq<FamilyMember>, relation: string): (r: Option<FamilyMember>)
    ensures r.Some? ==> r.value in members && r.value.relation == relation
    ensures r.None? ==> forall j :: 0 <= j < |members| ==> members[j].relation != relation
    decreases |members|
  {
    if |members| == 0 then None
    else if members[|members| - 1].relation == relation then Some(members[|members| - 1])
    else LastMember(members[..|members| - 1], relation)
  }

  /** The GEL id of the last family member with the relation. */
  function ParentId(members: seq<FamilyMember>, relation: string): Option<string>
  {
    match LastMember(members, relation)
    case None => None
    case Some(m) => Some(m.gelId)
  }

  /** The loop over the family for the parents' ids: the last Father and the last Mother win. */
  method ParentIds(members: seq<FamilyMember>) returns (motherId: Option<string>, fatherId: Option<string>)
    ensures motherId == ParentId(members, "Mother") && fatherId == ParentId(members, "Father")
  {
    motherId, fatherId := None, None;
    var i := 0;
    while i < |members|
      invariant 0 <= i <= |members|
      invariant motherId == ParentId(members[..i], "Mother") && fatherId == ParentId(members[..i], "Father")
    {
      assert members[..i + 1][..i] == members[..i];
      if members[i].relation == "Father" {
        fatherId := Some(members[i].gelId);
      } else if members[i].relation == "Mother" {
        motherId := Some(members[i].gelId);
      }
      i := i + 1;
    }
    assert members[..i] == members;
  }

  /** The copy readings of one STR from its calls, in call order, as the source loop does it. */
  method StrCopies(calls: seq<StrCall>, proband: string, mother: Option<string>, father: Option<string>)
    returns (r: Result<(Option<Copies>, Option<Copies>, Option<Copies>)>)
    ensures r.Err? <==> HasShortCall(calls, proband, mother, father)
    ensures r.Err? ==> r.error == IndexError
    ensures r.Ok? ==> r.value == (CopiesOf(calls, Some(proband)), CopiesOf(calls, mother), CopiesOf(calls, father))
  {
    var pc: Option<Copies> := None;
    var mc: Option<Copies> := None;
    var fc: Option<Copies> := None;
    var i := 0;
    while i < |calls|
      invariant 0 <= i <= |calls|
      invariant !HasShortCall(calls[..i], proband, mother, father)
      invariant pc == CopiesAt(calls, LastCallOf(calls[..i], Some(proband)))
      invariant mc == CopiesAt(calls, LastCallOf(calls[..i], mother))
      invariant fc == CopiesAt(calls, LastCallOf(calls[..i], father))
    {
      var c := calls[i];
      ShortCallSnoc(calls, i, proband, mother, father);
      if ShortCall(c, proband, mother, father) {
        HasShortCallExtends(calls, i + 1, proband, mother, father);
        return Err(IndexError);
      }
      CopiesStep(calls, i, Some(proband), pc);
      CopiesStep(calls, i, mother, mc);
      CopiesStep(calls, i, father, fc);
      if CallOf(c, Some(proband)) {
        pc := Some(Copies(c.numberOfCopies[0], c.numberOfCopies[1]));
      }
      if CallOf(c, mother) {
        mc := Some(Copies(c.numberOfCopies[0], c.numberOfCopies[1]));
      }
      if CallOf(c, father) {
        fc := Some(Copies(c.numberOfCopies[0], c.numberOfCopies[1]));
      }
      i := i + 1;
    }
    assert calls[..i] == calls;
    return Ok((pc, mc, fc));
  }

  /** One call of the loop: a call of `id` replaces the copies recorded so far, any other leaves them. */
  lemma CopiesStep(calls: seq<StrCall>, i: nat, id: Option<string>, copies: Option<Copies>)
    requires i < |calls| && copies == CopiesAt(calls, LastCallOf(calls[..i], id))
    requires CallOf(calls[i], id) ==> |calls[i].numberOfCopies| >= 2
    ensures CopiesAt(calls, LastCallOf(calls[..i + 1], id)) ==
      if CallOf(calls[i], id) then Some(Copies(calls[i].numberOfCopies[0], calls[i].numberOfCopies[1])) else copies
  {
    assert calls[..i + 1][..i] == calls[..i];
    assert LastCallOf(calls[..i + 1], id) == if CallOf(calls[i], id) then Some(i) else LastCallOf(calls[..i], id);
  }

  datatype StrParse = StrParse(variants: seq<ParsedStr>, caseStrs: seq<CaseStr>)

  /** The case records of parsed STRs, in order. */
  function StrCases(ps: seq<ParsedStr>): (r: seq<CaseStr>)
    ensures |r| <= |ps|
  {
    if |ps| == 0 then []
    else StrCases(ps[..|ps| - 1]) + (if ps[|ps| - 1].caseVariant.Some? then [ps[|ps| - 1].caseVariant.value] else [])
  }

  /** The repeats parsed in order; the first that raises stops the loop. */
  function StrsSpec(vs: seq<ShortTandemRepeat>, proband: string, mother: Option<string>, father: Option<string>,
                    requestId: string, genomeBuild: string): Result<seq<ParsedStr>>
    decreases |vs|
  {
    if |vs| == 0 then Ok([])
    else
      match StrsSpec(vs[..|vs| - 1], proband, mother, father, requestId, genomeBuild)
      case Err(e) => Err(e)
      case Ok(ps) =>
        match StrOutcome(vs[|vs| - 1], proband, mother, father, requestId, genomeBuild)
        case Err(e) => Err(e)
        case Ok(o) => Ok(ps + [o])
  }

  /** Parsing the repeats fails exactly when one of them does. */
  lemma {:induction false} StrsSpecFails(vs: seq<ShortTandemRepeat>, proband: string, mother: Option<string>,
                                         father: Option<string>, requestId: string, genomeBuild: string)
    ensures StrsSpec(vs, proband, mother, father, requestId, genomeBuild).Err? <==>
      exists i :: 0 <= i < |vs| && StrOutcome(vs[i], proband, mother, father, requestId, genomeBuild).Err?
    decreases |vs|
  {
    if |vs| > 0 {
      var q := vs[..|vs| - 1];
      var last := vs[|vs| - 1];
      StrsSpecFails(q, proband, mother, father, requestId, genomeBuild);
      var sq := StrsSpec(q, proband, mother, father, requestId, genomeBuild);
      var o := StrOutcome(last, proband, mother, father, requestId, genomeBuild);
      assert StrsSpec(vs, proband, mother, father, requestId, genomeBuild).Err? <==> sq.Err? || o.Err?;
      if sq.Err? {
        var i :| 0 <= i < |q| && StrOutcome(q[i], proband, mother, father, requestId, genomeBuild).Err?;
        assert q[i] == vs[i];
      } else if !o.Err? {
        forall i | 0 <= i < |vs|
          ensures !StrOutcome(vs[i], proband, mother, father, requestId, genomeBuild).Err?
        {
          if i < |q| {
            assert q[i] == vs[i];
            assert !StrOutcome(q[i], proband, mother, father, requestId, genomeBuild).Err?;
          } else {
            assert vs[i] == last;
          }
        }
      }
    }
  }

  /** A successful parse gives each repeat its own outcome. */
  lemma {:induction false} StrsSpecValues(vs: seq<ShortTandemRepeat>, proband: string, mother: Option<string>,
                                          father: Option<string>, requestId: string, genomeBuild: string)
    requires StrsSpec(vs, proband, mother, father, requestId, genomeBuild).Ok?
    ensures var ps := StrsSpec(vs, proband, mother, father, requestId, genomeBuild).value;
      |ps| == |vs| && forall i :: 0 <= i < |vs| ==> StrOutcome(vs[i], proband, mother, father, requestId, genomeBuild) == Ok(ps[i])
    decreases |vs|
  {
    if |vs| > 0 {
      var q := vs[..|vs| - 1];
      var sq := StrsSpec(q, proband, mother, father, requestId, genomeBuild);
      var o := StrOutcome(vs[|vs| - 1], proband, mother, father, requestId, genomeBuild);
      assert sq.Ok? && o.Ok?;
      StrsSpecValues(q, proband, mother, father, requestId, genomeBuild);
      var ps := StrsSpec(vs, proband, mother, father, requestId, genomeBuild).value;
      assert ps == sq.value + [o.value];
      forall i | 0 <= i < |vs|
        ensures StrOutcome(vs[i], proband, mother, father, requestId, genomeBuild) == Ok(ps[i])
      {
        if i < |q| {
          assert q[i] == vs[i] && ps[i] == sq.value[i];
        }
      }
    }
  }

  /** The loops over one repeat's events and calls. */
  method ParseStr(v: ShortTandemRepeat, proband: string, mother: Option<string>, father: Option<string>,
                  requestId: string, genomeBuild: string) returns (r: Result<ParsedStr>)
    ensures r == StrOutcome(v, proband, mother, father, requestId, genomeBuild)
  {
    var last: Option<nat> := None;
    var k := 0;
    while k < |v.reportEvents|
      invariant 0 <= k <= |v.reportEvents| && last == LastStrTiered(v.reportEvents[..k])
    {
      assert v.reportEvents[..k + 1][..k] == v.reportEvents[..k];
      if v.reportEvents[k].tier != "" {
        last := Some(k);
      }
      k := k + 1;
    }
    assert v.reportEvents[..k] == v.reportEvents;
    var copies := StrCopies(v.calls, proband, mother, father);
    if copies.Err? {
      return Err(copies.error);
    }
    var (pc, mc, fc) := copies.value;
    if last.Some? {
      var e := v.reportEvents[last.value];
      var cv := CaseStr(v.chromosome, v.start, v.end, v.repeatedSequence, v.normalThreshold,
                        v.pathogenicThreshold, requestId, genomeBuild);
      return Ok(ParsedStr(Some(e.tier), Some(e.modeOfInheritance), Some(e.segregationPattern), pc, mc, fc, Some(cv)));
    }
    return Ok(ParsedStr(None, None, None, pc, mc, fc, None));
  }

  /**
   * `parse_ig_strs`: the same version gate; the parents' ids come from the
   * family; each repeat takes `max_tier`, mode of inheritance and segregation
   * pattern from its last tiered event and the copy numbers from the last call
   * of each participant, and is interesting exactly when some event has a tier.
   */
  method ParseIgStrs(versions: map<string, string>, vs: seq<ShortTandemRepeat>, proband: string,
                     members: seq<FamilyMember>, requestId: string, genomeBuild: string,
                     list0: seq<CaseStr>) returns (r: Result<StrParse>)
    ensures TieringVersionSkips(versions).Err? ==> r == Err(TieringVersionSkips(versions).error)
    ensures TieringVersionSkips(versions) == Ok(true) ==>
      r == Ok(StrParse(seq(|vs|, i => ParsedStr(None, None, None, None, None, None, None)), list0))
    ensures TieringVersionSkips(versions) == Ok(false) ==>
      var spec := StrsSpec(vs, proband, ParentId(members, "Mother"), ParentId(members, "Father"), requestId, genomeBuild);
      && (spec.Err? ==> r == Err(spec.error))
      && (spec.Ok? ==> r == Ok(StrParse(spec.value, list0 + StrCases(spec.value))))
  {
    var gate := TieringVersionSkips(versions);
    if gate.Err? {
      return Err(gate.error);
    }
    if gate.value {
      var skipped: seq<ParsedStr> := [];
      var i := 0;
      while i < |vs|
        invariant 0 <= i <= |vs| && skipped == seq(i, j => ParsedStr(None, None, None, None, None, None, None))
      {
        skipped := skipped + [ParsedStr(None, None, None, None, None, None, None)];
        i := i + 1;
      }
      return Ok(StrParse(skipped, list0));
    }
    var motherId, fatherId := ParentIds(members);
    var parsed := ParseStrs(vs, proband, motherId, fatherId, requestId, genomeBuild);
    if parsed.Err? {
      return Err(parsed.error);
    }
    return Ok(StrParse(parsed.value, list0 + StrCases(parsed.value)));
  }

  /** The loop over the repeats of `parse_ig_strs`, once the parents' ids are known. */
  method ParseStrs(vs: seq<ShortTandemRepeat>, proband: string, mother: Option<string>, father: Option<string>,
                   requestId: string, genomeBuild: string) returns (r: Result<seq<ParsedStr>>)
    ensures r == StrsSpec(vs, proband, mother, father, requestId, genomeBuild)
  {
    var parsed: seq<ParsedStr> := [];
    var i := 0;
    while i < |vs|
      invariant 0 <= i <= |vs|
      invariant StrsSpec(vs[..i], proband, mother, father, requestId, genomeBuild) == Ok(parsed)
    {
      var outcome := ParseStr(vs[i], proband, mother, father, requestId, genomeBuild);
      StrsSpecStep(vs, i, proband, mother, father, requestId, genomeBuild, parsed, outcome);
      if outcome.Err? {
        StrsErrorExtends(vs, proband, mother, father, requestId, genomeBuild, i + 1);
        return Err(outcome.error);
      }
      parsed := parsed + [outcome.value];
      i := i + 1;
    }
    assert vs[..i] == vs;
    return Ok(parsed);
  }

  lemma StrsSpecStep(vs: seq<ShortTandemRepeat>, i: nat, proband: string, mother: Option<string>,
                     father: Option<string>, requestId: string, genomeBuild: string,
                     parsed: seq<ParsedStr>, outcome: Result<ParsedStr>)
    requires i < |vs| && StrsSpec(vs[..i], proband, mother, father, requestId, genomeBuild) == Ok(parsed)
    requires outcome == StrOutcome(vs[i], proband, mother, father, requestId, genomeBuild)
    ensures StrsSpec(vs[..i + 1], proband, mother, father, requestId, genomeBuild) ==
      if outcome.Err? then Err(outcome.error) else Ok(parsed + [outcome.value])
  {
    assert vs[..i + 1][..i] == vs[..i] && vs[..i + 1][i] == vs[i];
  }

  lemma {:induction false} StrsErrorExtends(vs: seq<ShortTandemRepeat>, proband: string, mother: Option<string>,
                                            father: Option<string>, requestId: string, genomeBuild: string, n: nat)
    requires n <= |vs| && StrsSpec(vs[..n], proband, mother, father, requestId, genomeBuild).Err?
    ensures StrsSpec(vs, proband, mother, father, requestId, genomeBuild) == StrsSpec(vs[..n], proband, mother, father, requestId, genomeBuild)
    decreases |vs| - n
  {
    if n < |vs| {
      assert vs[..n + 1][..n] == vs[..n];
      StrsErrorExtends(vs, proband, mother, father, requestId, genomeBuild, n + 1);
    } else {
      assert vs[..n] == vs;
    }
  }
}
