/**
 * Case attributes (`database_utils/case_handler.py`, class
 * `CaseAttributeManager`): inheritance from the parents' zygosities, the
 * family's trio and de-novo flags, the de-duplication of proband variants, the
 * case-level max tier, and the "genes failing coverage" string of a panel.
 */
module CaseAttributes {
  import opened Wrappers
  import opened Text
  import opened Seqs
  import opened CaseIngest

  // ---------------------------------------------------------------------------
  // Inheritance

  /**
   * `determine_variant_inheritance`: both parents reference-homozygous gives
   * de novo; a parent zygosity containing "heterozygous" or "alternate" gives
   * inherited; anything else is unknown.
   */
  function DetermineInheritance(maternal: string, paternal: string): (r: string)
    ensures r == "de_novo" || r == "inherited" || r == "unknown"
  {
    if maternal == "reference_homozygous" && paternal == "reference_homozygous" then "de_novo"
    else if Contains(maternal, "heterozygous") || Contains(paternal, "heterozygous") then "inherited"
    else if Contains(maternal, "alternate") || Contains(paternal, "alternate") then "inherited"
    else "unknown"
  }

  /** The zygosity values of a variant call, and the `'unknown'` the source starts from. */
  datatype Zygosity =
    | ReferenceHomozygous | Heterozygous | AlternateHomozygous | Missing
    | HalfMissingReference | HalfMissingAlternate | AlternateHemizigous | ReferenceHemizigous
    | Unk | Na | NotCalled

  function ZygosityName(z: Zygosity): string
  {
    match z
    case ReferenceHomozygous => "reference_homozygous"
    case Heterozygous => "heterozygous"
    case AlternateHomozygous => "alternate_homozygous"
    case Missing => "missing"
    case HalfMissingReference => "half_missing_reference"
    case HalfMissingAlternate => "half_missing_alternate"
    case AlternateHemizigous => "alternate_hemizigous"
    case ReferenceHemizigous => "reference_hemizigous"
    case Unk => "unk"
    case Na => "na"
    case NotCalled => "unknown"
  }

  /** Whether a parent with this zygosity carries at least one alternate allele. */
  predicate Carries(z: Zygosity)
  {
    z == Heterozygous || z == AlternateHomozygous || z == HalfMissingAlternate || z == AlternateHemizigous
  }

  /** When a character of `sub` is missing from `s`, `sub` does not occur in `s`. */
  lemma NotContainsMissingChar(s: string, sub: string, c: char)
    requires c in sub && c !in s
    ensures !Contains(s, sub)
  {
    var k :| 0 <= k < |sub| && sub[k] == c;
    forall i ensures !OccursAt(s, sub, i) {
      if 0 <= i <= |s| - |sub| {
        assert s[i + k] != c;
        assert s[i..i + |sub|][k] != sub[k];
      }
    }
    ContainsAt(s, sub);
  }

  lemma ContainsWitness(s: string, sub: string, i: nat)
    requires OccursAt(s, sub, i)
    ensures Contains(s, sub)
  {
    ContainsAt(s, sub);
  }

  /** The zygosity names of carriers pass one of the two substring tests. */
  lemma CarrierNamesPass(z: Zygosity)
    requires Carries(z)
    ensures Contains(ZygosityName(z), "heterozygous") || Contains(ZygosityName(z), "alternate")
  {
    var n := ZygosityName(z);
    if z == Heterozygous {
      assert OccursAt(n, "heterozygous", 0);
      ContainsWitness(n, "heterozygous", 0);
    } else if z == HalfMissingAlternate {
      assert OccursAt(n, "alternate", 13);
      ContainsWitness(n, "alternate", 13);
    } else {
      assert OccursAt(n, "alternate", 0);
      ContainsWitness(n, "alternate", 0);
    }
  }

  /** The other zygosity names hold no 't', so they pass neither test. */
  lemma OtherNamesFail(z: Zygosity)
    requires !Carries(z)
    ensures !Contains(ZygosityName(z), "heterozygous") && !Contains(ZygosityName(z), "alternate")
  {
    var n := ZygosityName(z);
    OtherNamesLackT(z);
    assert "heterozygous"[2] == 't';
    assert "alternate"[2] == 't';
    NotContainsMissingChar(n, "heterozygous", 't');
    NotContainsMissingChar(n, "alternate", 't');
  }

  lemma OtherNamesLackT(z: Zygosity)
    requires !Carries(z)
    ensures 't' !in ZygosityName(z)
  {
    match z
    case ReferenceHomozygous => assert 't' !in "reference_homozygous";
    case Missing => assert 't' !in "missing";
    case HalfMissingReference => assert 't' !in "half_missing_reference";
    case ReferenceHemizigous => assert 't' !in "reference_hemizigous";
    case Unk => assert 't' !in "unk";
    case Na => assert 't' !in "na";
    case NotCalled => assert 't' !in "unknown";
  }

  /** Which of the two substring tests each zygosity name passes. */
  lemma ZygosityNameTests(z: Zygosity)
    ensures Carries(z) <==> (Contains(ZygosityName(z), "heterozygous") || Contains(ZygosityName(z), "alternate"))
  {
    if Carries(z) {
      CarrierNamesPass(z);
    } else {
      OtherNamesFail(z);
    }
  }

  /**
   * On the zygosity values the substring rule agrees with the reference
   * reading: de novo iff both parents are reference-homozygous, inherited iff
   * not that and some parent carries an alternate allele, unknown otherwise.
   */
  lemma InheritanceMatchesCarriers(m: Zygosity, p: Zygosity)
    ensures DetermineInheritance(ZygosityName(m), ZygosityName(p)) ==
      if m == ReferenceHomozygous && p == ReferenceHomozygous then "de_novo"
      else if Carries(m) || Carries(p) then "inherited"
      else "unknown"
  {
    ZygosityNameTests(m);
    ZygosityNameTests(p);
    ReferenceHomozygousName(m);
    ReferenceHomozygousName(p);
    InheritanceByTests(ZygosityName(m), ZygosityName(p), m == ReferenceHomozygous, p == ReferenceHomozygous,
                       Carries(m), Carries(p));
  }

  /** The rule read on any two strings, given the outcome of each of its tests. */
  lemma InheritanceByTests(mn: string, pn: string, mRef: bool, pRef: bool, mCarries: bool, pCarries: bool)
    requires (mn == "reference_homozygous") == mRef && (pn == "reference_homozygous") == pRef
    requires (Contains(mn, "heterozygous") || Contains(mn, "alternate")) == mCarries
    requires (Contains(pn, "heterozygous") || Contains(pn, "alternate")) == pCarries
    ensures DetermineInheritance(mn, pn) ==
      if mRef && pRef then "de_novo" else if mCarries || pCarries then "inherited" else "unknown"
  {
  }

  lemma ReferenceHomozygousName(z: Zygosity)
    ensures ZygosityName(z) == "reference_homozygous" <==> z == ReferenceHomozygous
  {
    if z != ReferenceHomozygous {
      var n := ZygosityName(z);
      assert |n| != 20 || n[0] != 'r' || n[11] != 'o' by {
        match z
        case AlternateHomozygous => assert n[0] == 'a';
        case HalfMissingReference => assert |n| == 22;
        case HalfMissingAlternate => assert |n| == 22;
        case AlternateHemizigous => assert n[0] == 'a';
        case ReferenceHemizigous => assert n[11] == 'e';
        case _ =>
      }
    }
  }

  // ---------------------------------------------------------------------------
  // Parents' zygosities and the family flags

  /** A variant call: the participant it belongs to and the zygosity called. */
  datatype Call = Call(participantId: string, zygosity: string)

  /**
   * Which calls set a zygosity: those of participant `id` (no call when `id`
   * is `None`), except calls of the `excluded` participants that an earlier
   * branch of the elif chain takes, and, when `skipNa` is set, except 'na' calls.
   */
  datatype Selector = Selector(id: Option<string>, excluded: seq<string>, skipNa: bool)

  predicate Selects(sel: Selector, c: Call)
  {
    && sel.id.Some? && c.participantId == sel.id.value
    && c.participantId !in sel.excluded
    && (!sel.skipNa || c.zygosity != "na")
  }

  /** The index of the last call the selector takes. */
  function LastCall(calls: seq<Call>, sel: Selector): (r: Option<nat>)
    ensures r.Some? ==> (r.value < |calls| && Selects(sel, calls[r.value])
      && forall j :: r.value < j < |calls| ==> !Selects(sel, calls[j]))
    ensures r.None? ==> forall j :: 0 <= j < |calls| ==> !Selects(sel, calls[j])
    decreases |calls|
  {
    if |calls| == 0 then None
    else if Selects(sel, calls[|calls| - 1]) then Some(|calls| - 1)
    else LastCall(calls[..|calls| - 1], sel)
  }

  /** The zygosity of the last call the selector takes, or `'unknown'`. */
  function ZygosityFrom(calls: seq<Call>, sel: Selector): string
  {
    match LastCall(calls, sel)
    case None => "unknown"
    case Some(i) => calls[i].zygosity
  }

  /** In `get_family` the mother is matched first, then the father; 'na' calls count. */
  function MotherSelector(motherId: string): Selector
  {
    Selector(Some(motherId), [], false)
  }

  function FatherSelector(motherId: string, fatherId: string): Selector
  {
    Selector(Some(fatherId), [motherId], false)
  }

  /**
   * The call loop of `get_family`: a call of the mother sets the maternal
   * zygosity, otherwise a call of the father sets the paternal one.
   */
  method ParentZygosities(calls: seq<Call>, motherId: string, fatherId: string)
    returns (maternal: string, paternal: string)
    ensures maternal == ZygosityFrom(calls, MotherSelector(motherId))
    ensures paternal == ZygosityFrom(calls, FatherSelector(motherId, fatherId))
  {
    maternal, paternal := "unknown", "unknown";
    var i := 0;
    while i < |calls|
      invariant 0 <= i <= |calls|
      invariant maternal == ZygosityFrom(calls[..i], MotherSelector(motherId))
      invariant paternal == ZygosityFrom(calls[..i], FatherSelector(motherId, fatherId))
    {
      assert calls[..i + 1][..i] == calls[..i];
      if calls[i].participantId == motherId {
        maternal := calls[i].zygosity;
      } else if calls[i].participantId == fatherId {
        paternal := calls[i].zygosity;
      }
      i := i + 1;
    }
    assert calls[..i] == calls;
  }

  predicate Sequenced(m: Option<FamilyMember>)
  {
    m.Some? && m.value.sequenced
  }

  /** Whether the calls of a variant make it de novo for the given parents. */
  predicate DeNovoFor(calls: seq<Call>, mother: FamilyMember, father: FamilyMember)
  {
    DetermineInheritance(
      ZygosityFrom(calls, MotherSelector(mother.gelId)),
      ZygosityFrom(calls, FatherSelector(mother.gelId, father.gelId))) == "de_novo"
  }

  /** The family record built at the end of `get_family`. */
  datatype FamilyRecord = FamilyRecord(gelFamilyId: string, trioSequenced: bool, hasDeNovo: bool)

  /** The attributes `get_family` sets on the case. */
  class CaseFamilyState {
    var mother: Option<FamilyMember>
    var father: Option<FamilyMember>
    var trioSequenced: bool
    var hasDeNovo: bool

    constructor ()
      ensures mother == None && father == None && !trioSequenced && !hasDeNovo
    {
      mother := None;
      father := None;
      trioSequenced := false;
      hasDeNovo := false;
    }

    /**
     * `get_family`: the last Father and the last Mother of the family are the
     * parents; the case is a trio when both are sequenced; it has a de-novo
     * variant when it is a trio and some variant (interpreted-genome variants,
     * then clinical-report variants, each given by its calls) is de novo. The
     * family id is the family's for rare disease and the proband's for cancer;
     * any other sample type leaves it unbound.
     */
    method GetFamily(members: seq<FamilyMember>, variantCalls: seq<seq<Call>>, st: SampleType,
                     familyId: string, probandId: string) returns (r: Result<FamilyRecord>)
      modifies this
      ensures mother == LastMember(members, "Mother") && father == LastMember(members, "Father")
      ensures trioSequenced <==> Sequenced(mother) && Sequenced(father)
      ensures hasDeNovo <==> (trioSequenced &&
        exists i :: 0 <= i < |variantCalls| && DeNovoFor(variantCalls[i], mother.value, father.value))
      ensures st == OtherSampleType <==> r == Err(UnboundLocalError)
      ensures r.Ok? ==> r.value == FamilyRecord(if st == RareDisease then familyId else probandId, trioSequenced, hasDeNovo)
    {
      mother, father := FindParents(members);
      trioSequenced := Sequenced(mother) && Sequenced(father);
      hasDeNovo := false;
      if trioSequenced {
        hasDeNovo := AnyDeNovo(variantCalls, mother.value, father.value);
      }
      match st {
        case RareDisease => r := Ok(FamilyRecord(familyId, trioSequenced, hasDeNovo));
        case Cancer => r := Ok(FamilyRecord(probandId, trioSequenced, hasDeNovo));
        case OtherSampleType => r := Err(UnboundLocalError);
      }
    }
  }

  /** The loop over the family members in `get_family`: the last Father and the last Mother win. */
  method FindParents(members: seq<FamilyMember>) returns (mother: Option<FamilyMember>, father: Option<FamilyMember>)
    ensures mother == LastMember(members, "Mother") && father == LastMember(members, "Father")
  {
    mother, father := None, None;
    var i := 0;
    while i < |members|
      invariant 0 <= i <= |members|
      invariant mother == LastMember(members[..i], "Mother") && father == LastMember(members[..i], "Father")
    {
      assert members[..i + 1][..i] == members[..i];
      if members[i].relation == "Father" {
        father := Some(members[i]);
      } else if members[i].relation == "Mother" {
        mother := Some(members[i]);
      }
      i := i + 1;
    }
    assert members[..i] == members;
  }

  /** The search for a de-novo variant, which stops at the first one found. */
  method AnyDeNovo(variantCalls: seq<seq<Call>>, mother: FamilyMember, father: FamilyMember) returns (found: bool)
    ensures found <==> exists i :: 0 <= i < |variantCalls| && DeNovoFor(variantCalls[i], mother, father)
  {
    found := false;
    var k := 0;
    while k < |variantCalls|
      invariant 0 <= k <= |variantCalls|
      invariant forall j :: 0 <= j < k ==> !DeNovoFor(variantCalls[j], mother, father)
    {
      var maternal, paternal := ParentZygosities(variantCalls[k], mother.gelId, father.gelId);
      if DetermineInheritance(maternal, paternal) == "de_novo" {
        found := true;
        return;
      }
      k := k + 1;
    }
  }

  /** The trio flag of a family, as a function of its members. */
  function TrioSequenced(members: seq<FamilyMember>): bool
  {
    Sequenced(LastMember(members, "Mother")) && Sequenced(LastMember(members, "Father"))
  }

  /** A de-novo call needs both parents' calls to read reference-homozygous. */
  lemma DeNovoNeedsBothParents(calls: seq<Call>, mother: FamilyMember, father: FamilyMember)
    requires DeNovoFor(calls, mother, father)
    ensures exists j :: 0 <= j < |calls| && calls[j].participantId == mother.gelId && calls[j].zygosity == "reference_homozygous"
    ensures exists j :: 0 <= j < |calls| && calls[j].participantId == father.gelId && calls[j].participantId != mother.gelId && calls[j].zygosity == "reference_homozygous"
  {
    var lm := LastCall(calls, MotherSelector(mother.gelId));
    var lf := LastCall(calls, FatherSelector(mother.gelId, father.gelId));
    assert lm.Some?;
    assert lf.Some?;
  }

  /** A family without a sequenced Mother (or Father) is no trio. */
  lemma NoTrioWithoutBothParents(members: seq<FamilyMember>)
    requires forall j :: 0 <= j < |members| ==> members[j].relation != "Mother" || !members[j].sequenced
    ensures !TrioSequenced(members)
  {
    var m := LastMember(members, "Mother");
    if m.Some? {
      var j :| 0 <= j < |members| && members[j] == m.value;
    }
  }

  // ---------------------------------------------------------------------------
  // Proband variants

  /** A variant entry of the database: its id and coordinates. */
  datatype VariantEntry = VariantEntry(id: nat, chromosome: string, position: int, reference: string, alternate: string)

  /** A variant of the JSON as the proband-variant pass reads it. */
  datatype RawVariant = RawVariant(
    coordinates: Coordinates, maxTier: Option<nat>, calls: seq<Call>, alleleOrigins: seq<string>)

  /** The processed dictionary built for each raw variant (without the JSON object itself). */
  datatype ProcessedVariant = ProcessedVariant(
    maxTier: Option<nat>, variant: Option<nat>, zygosity: string,
    maternalZygosity: string, paternalZygosity: string, somatic: bool)

  predicate Matches(c: Coordinates, e: VariantEntry)
  {
    c.chromosome == e.chromosome && c.position == e.position
    && c.reference == e.reference && c.alternate == e.alternate
  }

  /** The id of the last entry with the variant's coordinates. */
  function EntryFor(c: Coordinates, entries: seq<VariantEntry>): (r: Option<nat>)
    ensures r.Some? ==> exists j :: 0 <= j < |entries| && Matches(c, entries[j]) && entries[j].id == r.value
    ensures r.None? ==> forall j :: 0 <= j < |entries| ==> !Matches(c, entries[j])
    decreases |entries|
  {
    if |entries| == 0 then None
    else if Matches(c, entries[|entries| - 1]) then Some(entries[|entries| - 1].id)
    else EntryFor(c, entries[..|entries| - 1])
  }

  /**
   * One raw variant processed: the last matching entry; the proband's, then
   * the mother's, then the father's call (an elif chain) that is not 'na'
   * sets each zygosity; somatic when there is a call and the first allele
   * origin is 'somatic_variant'. With no entries at all the zygosity
   * attributes are never set and building the dictionary raises
   * AttributeError; with calls and no allele origin, indexing raises IndexError.
   */
  function ProcessVariant(v: RawVariant, entries: seq<VariantEntry>, proband: string,
                          mother: Option<string>, father: Option<string>): Result<ProcessedVariant>
  {
    if |entries| == 0 then Err(AttributeError)
    else if |v.calls| > 0 && |v.alleleOrigins| == 0 then Err(IndexError)
    else
      Ok(ProcessedVariant(
        v.maxTier, EntryFor(v.coordinates, entries),
        ZygosityFrom(v.calls, Selector(Some(proband), [], true)),
        ZygosityFrom(v.calls, Selector(mother, [proband], true)),
        ZygosityFrom(v.calls, Selector(father, [proband] + (if mother.Some? then [mother.value] else []), true)),
        |v.calls| > 0 && v.alleleOrigins[0] == "somatic_variant"))
  }

  /** The key `process_proband_variants` de-duplicates on: the variant entry. */
  function VariantKey(p: ProcessedVariant): Option<nat>
  {
    p.variant
  }

  /**
   * The de-duplication loop of `process_proband_variants`: a processed
   * variant is kept when its variant entry is not among those seen so far.
   */
  method DedupProbandVariants(processed: seq<ProcessedVariant>) returns (uniq: seq<ProcessedVariant>)
    ensures uniq == DedupBy(processed, VariantKey)
  {
    uniq := [];
    var seen: seq<Option<nat>> := [];
    var i := 0;
    while i < |processed|
      invariant 0 <= i <= |processed|
      invariant uniq == DedupBy(processed[..i], VariantKey)
      invariant seen == Keys(uniq, VariantKey)
    {
      assert processed[..i + 1][..i] == processed[..i];
      var v := processed[i];
      if v.variant !in seen {
        uniq := uniq + [v];
        seen := seen + [v.variant];
      }
      i := i + 1;
    }
    assert processed[..i] == processed;
  }

  /**
   * `process_proband_variants`: every raw variant is processed (the first
   * failure raises), then later duplicates of the same variant entry are
   * dropped.
   */
  method ProcessProbandVariants(raw: seq<RawVariant>, entries: seq<VariantEntry>, proband: string,
                                mother: Option<string>, father: Option<string>)
    returns (r: Result<seq<ProcessedVariant>>)
    ensures r.Err? <==> exists i :: 0 <= i < |raw| && ProcessVariant(raw[i], entries, proband, mother, father).Err?
    ensures r.Ok? ==> exists processed: seq<ProcessedVariant> ::
      && |processed| == |raw|
      && (forall i :: 0 <= i < |raw| ==> ProcessVariant(raw[i], entries, proband, mother, father) == Ok(processed[i]))
      && r.value == DedupBy(processed, VariantKey)
  {
    var processed: seq<ProcessedVariant> := [];
    var i := 0;
    while i < |raw|
      invariant 0 <= i <= |raw| && |processed| == i
      invariant forall j :: 0 <= j < i ==> ProcessVariant(raw[j], entries, proband, mother, father) == Ok(processed[j])
    {
      var p := ProcessVariant(raw[i], entries, proband, mother, father);
      if p.Err? {
        return Err(p.error);
      }
      processed := processed + [p.value];
      i := i + 1;
    }
    var uniq := DedupProbandVariants(processed);
    return Ok(uniq);
  }

  /**
   * What the de-duplicated list holds: exactly the variant entries of the
   * input, each once, in first-occurrence order, and only variants of the input.
   */
  lemma DedupProbandVariantsProperties(processed: seq<ProcessedVariant>)
    ensures var u := DedupBy(processed, VariantKey);
      && (forall k :: k in Keys(u, VariantKey) <==> k in Keys(processed, VariantKey))
      && (forall i, j :: 0 <= i < j < |u| ==> u[i].variant != u[j].variant)
      && (forall x :: x in u ==> x in processed)
      && u == FirstOccurrences(processed, VariantKey)
  {
    DedupByKeys(processed, VariantKey);
    DedupByIsFirstOccurrences(processed, VariantKey);
  }

  // ---------------------------------------------------------------------------
  // Case max tier

  /** The least tier that is truthy (neither `None` nor 0). */
  function LeastTruthyTier(tiers: seq<Option<nat>>): (r: Option<nat>)
    decreases |tiers|
  {
    if |tiers| == 0 then None
    else
      var rest := LeastTruthyTier(tiers[..|tiers| - 1]);
      var t := tiers[|tiers| - 1];
      if t.None? || t.value == 0 then rest
      else if rest.None? || t.value < rest.value then t
      else rest
  }

  /** The least truthy tier is one of the truthy tiers and no truthy tier is below it. */
  lemma {:induction false} LeastTruthyTierIsLeast(tiers: seq<Option<nat>>)
    ensures var r := LeastTruthyTier(tiers);
      && (r.None? <==> forall i :: 0 <= i < |tiers| ==> tiers[i].None? || tiers[i].value == 0)
      && (r.Some? ==> r.value > 0 && Some(r.value) in tiers)
      && (r.Some? ==> forall i :: 0 <= i < |tiers| && tiers[i].Some? && tiers[i].value > 0 ==> r.value <= tiers[i].value)
    decreases |tiers|
  {
    if |tiers| > 0 {
      var p := tiers[..|tiers| - 1];
      LeastTruthyTierIsLeast(p);
      assert forall i :: 0 <= i < |p| ==> p[i] == tiers[i];
      var rest := LeastTruthyTier(p);
      if rest.Some? {
        var j :| 0 <= j < |p| && p[j] == Some(rest.value);
        assert tiers[j] == Some(rest.value);
      }
    }
  }

  /** The case `max_tier`: 3, lowered by any truthy variant tier below it. */
  function CaseMaxTier(tiers: seq<Option<nat>>): nat
  {
    match LeastTruthyTier(tiers)
    case None => 3
    case Some(t) => Min(3, t)
  }

  /** The fold of `get_ir` over the processed variants. */
  method GetIrMaxTier(tiers: seq<Option<nat>>) returns (maxTier: nat)
    ensures maxTier == CaseMaxTier(tiers)
  {
    maxTier := 3;
    var i := 0;
    while i < |tiers|
      invariant 0 <= i <= |tiers|
      invariant maxTier == CaseMaxTier(tiers[..i])
    {
      assert tiers[..i + 1][..i] == tiers[..i];
      var t := tiers[i];
      if t.Some? && t.value != 0 {
        if t.value < maxTier {
          maxTier := t.value;
        }
      }
      i := i + 1;
    }
    assert tiers[..i] == tiers;
  }

  /**
   * The case max tier is at most 3, is either 3 or one of the truthy variant
   * tiers, and is no more than any truthy variant tier.
   */
  lemma CaseMaxTierBounds(tiers: seq<Option<nat>>)
    ensures CaseMaxTier(tiers) <= 3
    ensures CaseMaxTier(tiers) == 3 || Some(CaseMaxTier(tiers)) in tiers
    ensures CaseMaxTier(tiers) > 0
    ensures forall i :: 0 <= i < |tiers| && tiers[i].Some? && tiers[i].value > 0 ==> CaseMaxTier(tiers) <= tiers[i].value
  {
    LeastTruthyTierIsLeast(tiers);
  }

  /** A tier of 0 (or a missing tier) never lowers the case max tier. */
  lemma FalsyTierIgnored(tiers: seq<Option<nat>>, t: Option<nat>)
    requires t.None? || t.value == 0
    ensures CaseMaxTier(tiers + [t]) == CaseMaxTier(tiers)
  {
    assert (tiers + [t])[..|tiers|] == tiers;
  }

  // ---------------------------------------------------------------------------
  // Genes failing coverage

  /** Each part followed by the separator: what the source's `+=` loop builds. */
  function TrailingJoin(parts: seq<string>, sep: string): string
  {
    if |parts| == 0 then "" else parts[0] + sep + TrailingJoin(parts[1..], sep)
  }

  lemma {:induction false} TrailingJoinAppend(parts: seq<string>, g: string, sep: string)
    ensures TrailingJoin(parts + [g], sep) == TrailingJoin(parts, sep) + g + sep
    decreases |parts|
  {
    if |parts| > 0 {
      assert (parts + [g])[1..] == parts[1..] + [g];
      TrailingJoinAppend(parts[1..], g, sep);
    } else {
      assert [g][1..] == [];
    }
  }

  lemma {:induction false} TrailingJoinIsJoin(parts: seq<string>, sep: string)
    requires |parts| > 0
    ensures TrailingJoin(parts, sep) == Join(parts, sep) + sep
    decreases |parts|
  {
    if |parts| > 1 {
      TrailingJoinIsJoin(parts[1..], sep);
    }
  }

  /** Python's `s[:-2]`. */
  function DropLastTwo(s: string): string
  {
    if |s| < 2 then "" else s[..|s| - 2]
  }

  /**
   * The `genes_failing_coverage` string of `get_ir_family_panel`, from the genes
   * that fell below the coverage threshold: `sorted(set(...))`, `'SUMMARY'`
   * removed, each gene followed by ", ", the last two characters dropped, and a
   * full stop added.
   */
  method GenesFailingCoverage(failing: seq<string>) returns (s: string)
    ensures s == Join(RemoveValue(SortedSet(failing), "SUMMARY"), ", ") + "."
  {
    var genes := SortedSet(failing);
    if "SUMMARY" in genes {
      genes := RemoveValue(genes, "SUMMARY");
    } else {
      RemoveValueAbsent(genes, "SUMMARY");
    }
    s := CommaList(genes);
  }

  /** The string loop: each gene and ", ", the last two characters dropped, then ".". */
  method CommaList(genes: seq<string>) returns (s: string)
    ensures s == Join(genes, ", ") + "."
  {
    var acc := "";
    var i := 0;
    while i < |genes|
      invariant 0 <= i <= |genes|
      invariant acc == TrailingJoin(genes[..i], ", ")
    {
      TrailingJoinAppend(genes[..i], genes[i], ", ");
      assert genes[..i + 1] == genes[..i] + [genes[i]];
      acc := acc + genes[i] + ", ";
      i := i + 1;
    }
    assert genes[..i] == genes;
    if |genes| > 0 {
      TrailingJoinIsJoin(genes, ", ");
      assert acc[..|acc| - 2] == Join(genes, ", ");
    }
    s := DropLastTwo(acc) + ".";
  }

  /**
   * The genes in the string are exactly the failing genes other than SUMMARY,
   * each once and in sorted order; with none, the string is just ".".
   */
  lemma GenesFailingCoverageContents(failing: seq<string>)
    ensures var genes := RemoveValue(SortedSet(failing), "SUMMARY");
      && StrictlySorted(genes)
      && (forall g :: g in genes <==> g in failing && g != "SUMMARY")
    ensures (forall g :: g in failing ==> g == "SUMMARY") ==>
      Join(RemoveValue(SortedSet(failing), "SUMMARY"), ", ") + "." == "."
  {
    var sorted := SortedSet(failing);
    var genes := RemoveValue(sorted, "SUMMARY");
    RemoveValueSorted(sorted, "SUMMARY");
    forall g ensures g in genes <==> g in failing && g != "SUMMARY" {
      if g in failing && g != "SUMMARY" {
        assert g in sorted;
        var i :| 0 <= i < |sorted| && sorted[i] == g;
        assert g in genes;
      }
      if g in genes {
        var i :| 0 <= i < |genes| && genes[i] == g;
        assert g in sorted && g != "SUMMARY";
      }
    }
    if forall g :: g in failing ==> g == "SUMMARY" {
      SameElementsNonEmpty(genes, []);
      assert genes == [];
      assert Join(genes, ", ") == "";
    }
  }
}
