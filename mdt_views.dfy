/**
 * The MDT (multi-disciplinary team meeting) views of `gel2mdt/views.py`:
 * the per-report variant tallies of `mdt_view`, the variants
 * `mdt_proband_view` lists, and adding reports to, removing them from and
 * deleting an MDT.
 */
module MdtViews {
  import opened Wrappers
  import opened Text
  import opened Tables
  import opened ProbandVariants

  // ------------------------------------------------------- classification

  /** `pv.pvflag_set.all()` is non-empty. */
  predicate Flagged(flags: seq<Flag>, pv: nat)
  {
    exists i :: 0 <= i < |flags| && flags[i].probandVariant == pv
  }

  /** Counted as important: flagged without a tier, or tiered and either flagged or below tier 3. */
  predicate Important(flagged: bool, tier: Option<int>)
  {
    (flagged && tier.None?) || (tier.Some? && (flagged || tier.value < 3))
  }

  /** Counted as tier 3: tiered, unflagged and at tier 3 or above. */
  predicate TierThree(flagged: bool, tier: Option<int>)
  {
    tier.Some? && !flagged && tier.value >= 3
  }

  /** Counted in neither tally. */
  predicate Unclassified(flagged: bool, tier: Option<int>)
  {
    tier.None? && !flagged
  }

  /** Each variant falls in exactly one of the three classes. */
  lemma ClassesExclusive(flagged: bool, tier: Option<int>)
    ensures Important(flagged, tier) || TierThree(flagged, tier) || Unclassified(flagged, tier)
    ensures !(Important(flagged, tier) && TierThree(flagged, tier))
    ensures !(Important(flagged, tier) && Unclassified(flagged, tier))
    ensures !(TierThree(flagged, tier) && Unclassified(flagged, tier))
    ensures tier.None? ==> (Important(flagged, tier) <==> flagged)
  {
  }

  /** The class of a row, as a selector: the counts below share one definition. */
  datatype Class = ImportantClass | TierThreeClass | UnclassifiedClass | UnflaggedClass

  predicate InClass(c: Class, flags: seq<Flag>, pv: Linked<VariantFields>)
  {
    var flagged := Flagged(flags, pv.id);
    match c
    case ImportantClass => Important(flagged, pv.row.maxTier)
    case TierThreeClass => TierThree(flagged, pv.row.maxTier)
    case UnclassifiedClass => Unclassified(flagged, pv.row.maxTier)
    case UnflaggedClass => !flagged
  }

  /** The number of the report's proband variants in class `c`. */
  function ClassCount(pvs: seq<Linked<VariantFields>>, flags: seq<Flag>, report: nat, c: Class): nat
  {
    if pvs == [] then 0
    else
      var last := pvs[|pvs| - 1];
      ClassCount(pvs[..|pvs| - 1], flags, report, c) + (if last.report == report && InClass(c, flags, last) then 1 else 0)
  }

  /** The important, tier-3 and unclassified counts of a report add up to its number of variants. */
  lemma {:induction false} CountsPartition(pvs: seq<Linked<VariantFields>>, flags: seq<Flag>, report: nat)
    ensures ClassCount(pvs, flags, report, ImportantClass) + ClassCount(pvs, flags, report, TierThreeClass)
      + ClassCount(pvs, flags, report, UnclassifiedClass) == RowsOf(pvs, report)
  {
    if pvs != [] {
      CountsPartition(pvs[..|pvs| - 1], flags, report);
      var last := pvs[|pvs| - 1];
      ClassesExclusive(Flagged(flags, last.id), last.row.maxTier);
    }
  }

  /** The inner loop of `mdt_view` over one report's variants. */
  method CountReportVariants(db: Database, report: nat) returns (important: nat, tierThree: nat)
    ensures important == ClassCount(db.probandVariants, db.flags, report, ImportantClass)
    ensures tierThree == ClassCount(db.probandVariants, db.flags, report, TierThreeClass)
  {
    var pvs := db.probandVariants;
    important, tierThree := 0, 0;
    var i := 0;
    while i < |pvs|
      invariant 0 <= i <= |pvs|
      invariant important == ClassCount(pvs[..i], db.flags, report, ImportantClass)
      invariant tierThree == ClassCount(pvs[..i], db.flags, report, TierThreeClass)
    {
      var pv := pvs[i];
      if pv.report == report {
        var flagged := exists j :: 0 <= j < |db.flags| && db.flags[j].probandVariant == pv.id;
        if flagged && pv.row.maxTier.None? {
          important := important + 1;
        }
        if pv.row.maxTier.Some? {
          if flagged || pv.row.maxTier.value < 3 {
            important := important + 1;
          } else {
            tierThree := tierThree + 1;
          }
        }
      }
      assert pvs[..i + 1][..i] == pvs[..i];
      i := i + 1;
    }
    assert pvs[..i] == pvs;
  }

  // -------------------------------------------------------------- mdt_view

  /** The reports linked to the MDT (`MDTReport.objects.filter(MDT=...)`). */
  function LinkedReports(mdtReports: seq<Linked<nat>>, mdt: nat): set<nat>
  {
    set i | 0 <= i < |mdtReports| && mdtReports[i].row == mdt :: mdtReports[i].report
  }

  /** `GELInterpretationReport.objects.filter(id__in=...)`: each report once, in table order. */
  function ReportsIn(reports: seq<Report>, ids: set<nat>): (r: seq<Report>)
    ensures forall x :: 0 <= x < |r| ==> r[x] in reports && r[x].id in ids
    ensures forall i :: 0 <= i < |reports| && reports[i].id in ids ==> reports[i] in r
  {
    if reports == [] then []
    else
      var last := reports[|reports| - 1];
      ReportsIn(reports[..|reports| - 1], ids) + (if last.id in ids then [last] else [])
  }

  function IdsOf(reports: seq<Report>): set<nat>
  {
    set i | 0 <= i < |reports| :: reports[i].id
  }

  /** Reports whose second check is done. */
  function SecondCheckCount(reports: seq<Report>): nat
  {
    if reports == [] then 0
    else SecondCheckCount(reports[..|reports| - 1]) + (if reports[|reports| - 1].workflow.secondCheck.Some? then 1 else 0)
  }

  /** Reports whose first check, but not their second, is done. */
  function FirstCheckCount(reports: seq<Report>): nat
  {
    if reports == [] then 0
    else
      var w := reports[|reports| - 1].workflow;
      FirstCheckCount(reports[..|reports| - 1]) + (if w.secondCheck.None? && w.firstCheck.Some? then 1 else 0)
  }

  /** `count / total * 100`, and 0 where the division raises ZeroDivisionError. */
  function Percent(count: nat, total: nat): real
  {
    if total == 0 then 0.0 else (count as real / total as real) * 100.0
  }

  /** What `mdt_view` shows: per-report counts keyed by report id, and the check percentages. */
  datatype Tallies = Tallies(
    variantCount: map<nat, nat>, tierThreeCount: map<nat, nat>, svCount: map<nat, nat>, strCount: map<nat, nat>,
    firstCheckPercent: real, secondCheckPercent: real)

  /** A report id's count in each class, for every id of `ids`. */
  function ClassCounts(ids: set<nat>, pvs: seq<Linked<VariantFields>>, flags: seq<Flag>, c: Class): map<nat, nat>
  {
    map id | id in ids :: ClassCount(pvs, flags, id, c)
  }

  function RowCounts<T>(ids: set<nat>, rows: seq<Linked<T>>): map<nat, nat>
  {
    map id | id in ids :: RowsOf(rows, id)
  }

  lemma CountsGrow<T>(ids: set<nat>, k: nat, pvs: seq<Linked<VariantFields>>, flags: seq<Flag>, rows: seq<Linked<T>>)
    ensures forall c :: ClassCounts(ids + {k}, pvs, flags, c) == ClassCounts(ids, pvs, flags, c)[k := ClassCount(pvs, flags, k, c)]
    ensures RowCounts(ids + {k}, rows) == RowCounts(ids, rows)[k := RowsOf(rows, k)]
  {
  }

  function MdtTallies(reports: seq<Report>, pvs: seq<Linked<VariantFields>>, svs: seq<Linked<Validation>>,
                      strs: seq<Linked<Validation>>, flags: seq<Flag>): Tallies
  {
    var ids := IdsOf(reports);
    Tallies(
      ClassCounts(ids, pvs, flags, ImportantClass), ClassCounts(ids, pvs, flags, TierThreeClass),
      RowCounts(ids, svs), RowCounts(ids, strs),
      Percent(FirstCheckCount(reports), |reports|),
      Percent(SecondCheckCount(reports), |reports|))
  }

  /** `mdt_view` on a GET: the tallies of the reports linked to the MDT, or DoesNotExist for an unknown MDT. */
  method MdtView(db: Database, mdt: nat) returns (r: Result<Tallies>)
    ensures FindMdt(db.mdts, mdt).None? ==> r == Err(DoesNotExist)
    ensures FindMdt(db.mdts, mdt).Some? ==>
      r == Ok(MdtTallies(ReportsIn(db.reports, LinkedReports(db.mdtReports, mdt)),
                         db.probandVariants, db.probandSvs, db.probandStrs, db.flags))
  {
    if FindMdt(db.mdts, mdt).None? {
      return Err(DoesNotExist);
    }
    var reports := ReportsIn(db.reports, LinkedReports(db.mdtReports, mdt));
    var counts, tierThrees, svCounts, strCounts, first, second := TallyReports(db, reports);
    var firstPercent, secondPercent := 0.0, 0.0;
    if |reports| != 0 {
      firstPercent := (first as real / |reports| as real) * 100.0;
      secondPercent := (second as real / |reports| as real) * 100.0;
    }
    r := Ok(Tallies(counts, tierThrees, svCounts, strCounts, firstPercent, secondPercent));
  }

  /** The loop of `mdt_view` over the MDT's reports. */
  method TallyReports(db: Database, reports: seq<Report>)
    returns (counts: map<nat, nat>, tierThrees: map<nat, nat>, svCounts: map<nat, nat>, strCounts: map<nat, nat>,
             first: nat, second: nat)
    ensures counts == ClassCounts(IdsOf(reports), db.probandVariants, db.flags, ImportantClass)
    ensures tierThrees == ClassCounts(IdsOf(reports), db.probandVariants, db.flags, TierThreeClass)
    ensures svCounts == RowCounts(IdsOf(reports), db.probandSvs)
    ensures strCounts == RowCounts(IdsOf(reports), db.probandStrs)
    ensures first == FirstCheckCount(reports) && second == SecondCheckCount(reports)
  {
    counts, tierThrees, svCounts, strCounts := map[], map[], map[], map[];
    first, second := 0, 0;
    for i := 0 to |reports|
      invariant counts == ClassCounts(IdsOf(reports[..i]), db.probandVariants, db.flags, ImportantClass)
      invariant tierThrees == ClassCounts(IdsOf(reports[..i]), db.probandVariants, db.flags, TierThreeClass)
      invariant svCounts == RowCounts(IdsOf(reports[..i]), db.probandSvs)
      invariant strCounts == RowCounts(IdsOf(reports[..i]), db.probandStrs)
      invariant first == FirstCheckCount(reports[..i]) && second == SecondCheckCount(reports[..i])
    {
      var report := reports[i];
      var important, tierThree := CountReportVariants(db, report.id);
      IdsOfSnoc(reports, i);
      CountsGrow(IdsOf(reports[..i]), report.id, db.probandVariants, db.flags, db.probandSvs);
      CountsGrow(IdsOf(reports[..i]), report.id, db.probandVariants, db.flags, db.probandStrs);
      counts := counts[report.id := important];
      tierThrees := tierThrees[report.id := tierThree];
      svCounts := svCounts[report.id := RowsOf(db.probandSvs, report.id)];
      strCounts := strCounts[report.id := RowsOf(db.probandStrs, report.id)];
      if report.workflow.secondCheck.Some? {
        second := second + 1;
      } else if report.workflow.firstCheck.Some? {
        first := first + 1;
      }
    }
    assert reports[..|reports|] == reports;
  }

  lemma IdsOfSnoc(reports: seq<Report>, i: nat)
    requires i < |reports|
    ensures IdsOf(reports[..i + 1]) == IdsOf(reports[..i]) + {reports[i].id}
    ensures reports[..i + 1][..i] == reports[..i]
  {
    assert forall j :: 0 <= j < i ==> reports[..i + 1][j] == reports[..i][j];
  }

  /** No report is in both check tallies: together they count at most every report. */
  lemma {:induction false} CheckTalliesDisjoint(reports: seq<Report>)
    ensures FirstCheckCount(reports) + SecondCheckCount(reports) <= |reports|
  {
    if reports != [] {
      CheckTalliesDisjoint(reports[..|reports| - 1]);
    }
  }

  /** The two percentages are 0 without reports, and each lies in [0, 100] and their sum too. */
  lemma CheckPercentages(reports: seq<Report>)
    ensures reports == [] ==> Percent(FirstCheckCount(reports), 0) == 0.0 && Percent(SecondCheckCount(reports), 0) == 0.0
    ensures 0.0 <= Percent(FirstCheckCount(reports), |reports|) && 0.0 <= Percent(SecondCheckCount(reports), |reports|)
    ensures Percent(FirstCheckCount(reports), |reports|) + Percent(SecondCheckCount(reports), |reports|) <= 100.0
  {
    CheckTalliesDisjoint(reports);
    if reports != [] {
      var n := |reports| as real;
      var f := FirstCheckCount(reports) as real;
      var s := SecondCheckCount(reports) as real;
      FractionBounds(f, n);
      FractionBounds(s, n);
      FractionBounds(f + s, n);
      FractionsAdd(f, s, n);
    }
  }

  lemma FractionBounds(x: real, n: real)
    requires 0.0 <= x <= n && n > 0.0
    ensures 0.0 <= x / n <= 1.0
  {
    assert (x / n) * n == x;
  }

  lemma FractionsAdd(x: real, y: real, n: real)
    requires n > 0.0
    ensures (x / n) * 100.0 + (y / n) * 100.0 == ((x + y) / n) * 100.0
  {
    assert (x / n) * n == x && (y / n) * n == y && ((x + y) / n) * n == x + y;
    assert (x / n + y / n) * n == x + y;
  }

  // ----------------------------------------------------- mdt_proband_view

  /** Whether `mdt_proband_view` lists the variant: important ones for `important == 1`, else unflagged ones. */
  predicate Listed(flags: seq<Flag>, pv: Linked<VariantFields>, important: int)
  {
    InClass(if important == 1 then ImportantClass else UnflaggedClass, flags, pv)
  }

  /** The indices of the listed variants of the report, in table order. */
  function ListedVariants(pvs: seq<Linked<VariantFields>>, flags: seq<Flag>, report: nat, important: int): (r: seq<nat>)
    ensures forall x :: 0 <= x < |r| ==> r[x] < |pvs| && pvs[r[x]].report == report && Listed(flags, pvs[r[x]], important)
    ensures forall x, y :: 0 <= x < y < |r| ==> r[x] < r[y]
  {
    if pvs == [] then []
    else
      var n := |pvs| - 1;
      var before := ListedVariants(pvs[..n], flags, report, important);
      assert forall i :: 0 <= i < n ==> pvs[..n][i] == pvs[i];
      before + (if pvs[n].report == report && Listed(flags, pvs[n], important) then [n] else [])
  }

  /** Every variant of the report that the view's rule selects is listed. */
  lemma {:induction false} ListedVariantsComplete(pvs: seq<Linked<VariantFields>>, flags: seq<Flag>, report: nat, important: int)
    ensures forall i :: 0 <= i < |pvs| && pvs[i].report == report && Listed(flags, pvs[i], important) ==>
      i in ListedVariants(pvs, flags, report, important)
  {
    if pvs != [] {
      var n := |pvs| - 1;
      ListedVariantsComplete(pvs[..n], flags, report, important);
      assert forall i :: 0 <= i < n ==> pvs[..n][i] == pvs[i];
    }
  }

  /** The list matches the counter: the tally of important variants, or the number of unflagged ones. */
  lemma {:induction false} ListedMatchesCount(pvs: seq<Linked<VariantFields>>, flags: seq<Flag>, report: nat, important: int)
    ensures |ListedVariants(pvs, flags, report, important)| ==
      ClassCount(pvs, flags, report, if important == 1 then ImportantClass else UnflaggedClass)
  {
    if pvs != [] {
      ListedMatchesCount(pvs[..|pvs| - 1], flags, report, important);
    }
  }

  /** The selection loop of `mdt_proband_view`. */
  method ListProbandVariants(db: Database, report: nat, important: int) returns (listed: seq<nat>)
    ensures listed == ListedVariants(db.probandVariants, db.flags, report, important)
  {
    var pvs := db.probandVariants;
    listed := [];
    var i := 0;
    while i < |pvs|
      invariant 0 <= i <= |pvs|
      invariant listed == ListedVariants(pvs[..i], db.flags, report, important)
    {
      var pv := pvs[i];
      assert pvs[..i + 1][..i] == pvs[..i];
      if pv.report == report {
        var flagged := exists j :: 0 <= j < |db.flags| && db.flags[j].probandVariant == pv.id;
        if important == 1 {
          if flagged && pv.row.maxTier.None? {
            listed := listed + [i];
          }
          if pv.row.maxTier.Some? {
            if flagged || pv.row.maxTier.value < 3 {
              listed := listed + [i];
            }
          }
        } else {
          if !flagged {
            listed := listed + [i];
          }
        }
      }
      i := i + 1;
    }
    assert pvs[..i] == pvs;
  }

  // --------------------------------------------------- per-variant reports

  /**
   * After creating the reports the MDT's sample type calls for: the variants
   * in `ids` have a report of that kind, no other variant gains one, the
   * existing rows are kept, and the other kind is untouched.
   */
  ghost predicate ReportsEnsured(rd0: seq<RareDiseaseReport>, ca0: seq<CancerReport>,
                           rd: seq<RareDiseaseReport>, ca: seq<CancerReport>, ids: seq<nat>, sampleType: string)
  {
    && rd0 <= rd && ca0 <= ca
    && (sampleType == "raredisease" ==> (
          && ca == ca0
          && forall q: nat :: HasRareDiseaseReport(rd, q) <==> HasRareDiseaseReport(rd0, q) || q in ids))
    && (sampleType == "cancer" ==> (
          && rd == rd0
          && forall q: nat :: HasCancerReport(ca, q) <==> HasCancerReport(ca0, q) || q in ids))
    && (sampleType != "raredisease" && sampleType != "cancer" ==> rd == rd0 && ca == ca0)
  }

  /** The loop `create_rare_disease_report` / `create_cancer_report` over the given variants. */
  method EnsureVariantReports(db: Database, ids: seq<nat>, sampleType: string)
    modifies db`rareDiseaseReports, db`cancerReports, db`nextId
    ensures ReportsEnsured(old(db.rareDiseaseReports), old(db.cancerReports), db.rareDiseaseReports, db.cancerReports, ids, sampleType)
    ensures db.nextId >= old(db.nextId)
  {
    var k := 0;
    while k < |ids|
      invariant 0 <= k <= |ids|
      invariant ReportsEnsured(old(db.rareDiseaseReports), old(db.cancerReports), db.rareDiseaseReports, db.cancerReports, ids[..k], sampleType)
      invariant db.nextId >= old(db.nextId)
    {
      if sampleType == "raredisease" {
        RareDiseaseReportsGrow(db.rareDiseaseReports, ids[k], db.nextId);
        var _ := CreateRareDiseaseReport(db, ids[k]);
      } else if sampleType == "cancer" {
        CancerReportsGrow(db.cancerReports, ids[k], db.nextId);
        var _ := CreateCancerReport(db, ids[k]);
      }
      assert ids[..k + 1] == ids[..k] + [ids[k]];
      k := k + 1;
    }
    assert ids[..k] == ids;
  }

  /** The ids of the report's proband variants, in table order. */
  function VariantIdsOf(pvs: seq<Linked<VariantFields>>, report: nat): (r: seq<nat>)
    ensures forall i :: 0 <= i < |pvs| && pvs[i].report == report ==> pvs[i].id in r
    ensures forall q :: q in r ==> exists i :: 0 <= i < |pvs| && pvs[i].report == report && pvs[i].id == q
  {
    if pvs == [] then []
    else
      var n := |pvs| - 1;
      assert forall i :: 0 <= i < n ==> pvs[..n][i] == pvs[i];
      VariantIdsOf(pvs[..n], report) + (if pvs[n].report == report then [pvs[n].id] else [])
  }

  function IdsAt(pvs: seq<Linked<VariantFields>>, indices: seq<nat>): (r: seq<nat>)
    requires forall x :: 0 <= x < |indices| ==> indices[x] < |pvs|
    ensures |r| == |indices| && forall x :: 0 <= x < |r| ==> r[x] == pvs[indices[x]].id
  {
    seq(|indices|, x requires 0 <= x < |indices| => pvs[indices[x]].id)
  }

  /** `mdt_proband_view` on a GET: the listed variants, each given the report its MDT's sample type calls for. */
  method MdtProbandView(db: Database, mdt: nat, report: nat, important: int) returns (r: Result<seq<nat>>)
    modifies db`rareDiseaseReports, db`cancerReports, db`nextId
    ensures FindMdt(db.mdts, mdt).None? || FindReport(db.reports, report).None? ==> (
      && r == Err(DoesNotExist)
      && db.rareDiseaseReports == old(db.rareDiseaseReports) && db.cancerReports == old(db.cancerReports))
    ensures FindMdt(db.mdts, mdt).Some? && FindReport(db.reports, report).Some? ==> (
      var listed := ListedVariants(db.probandVariants, db.flags, report, important);
      var sampleType := db.mdts[FindMdt(db.mdts, mdt).value].sampleType;
      && ReportsEnsured(old(db.rareDiseaseReports), old(db.cancerReports), db.rareDiseaseReports, db.cancerReports,
                        IdsAt(db.probandVariants, listed), sampleType)
      && (sampleType == "raredisease" || sampleType == "cancer" ==> r == Ok(listed))
      && (sampleType != "raredisease" && sampleType != "cancer" ==> r == Err(UnboundLocalError)))
  {
    var m := FindMdt(db.mdts, mdt);
    if m.None? {
      return Err(DoesNotExist);
    }
    if FindReport(db.reports, report).None? {
      return Err(DoesNotExist);
    }
    var sampleType := db.mdts[m.value].sampleType;
    var listed := ListProbandVariants(db, report, important);
    EnsureVariantReports(db, IdsAt(db.probandVariants, listed), sampleType);
    if sampleType == "raredisease" || sampleType == "cancer" {
      r := Ok(listed);
    } else {
      r := Err(UnboundLocalError);
    }
  }

  // ----------------------------------------------------- MDT membership

  /** What a view answers: a redirect, or nothing at all (a request method the view does not handle). */
  datatype Response = Redirect(path: string) | NoResponse

  function EditMdtPath(sampleType: string, mdt: nat): string
  {
    "/" + sampleType + "/edit_mdt/" + NatToString(mdt)
  }

  /** `add_ir_to_mdt`: a POST links the report to the MDT and gives each of its variants a report of the MDT's kind. */
  method AddIrToMdt(db: Database, isPost: bool, mdt: nat, report: nat) returns (r: Result<Response>)
    modifies db`mdtReports, db`rareDiseaseReports, db`cancerReports, db`nextId
    ensures !isPost || FindMdt(db.mdts, mdt).None? || FindReport(db.reports, report).None? ==> (
      && r == (if isPost then Err(DoesNotExist) else Ok(NoResponse))
      && db.mdtReports == old(db.mdtReports)
      && db.rareDiseaseReports == old(db.rareDiseaseReports) && db.cancerReports == old(db.cancerReports))
    ensures isPost && FindMdt(db.mdts, mdt).Some? && FindReport(db.reports, report).Some? ==> (
      var sampleType := db.mdts[FindMdt(db.mdts, mdt).value].sampleType;
      && db.mdtReports == old(db.mdtReports) + [Linked(old(db.nextId), report, mdt)]
      && ReportsEnsured(old(db.rareDiseaseReports), old(db.cancerReports), db.rareDiseaseReports, db.cancerReports,
                        VariantIdsOf(db.probandVariants, report), sampleType)
      && r == Ok(Redirect(EditMdtPath(sampleType, mdt))))
  {
    if !isPost {
      return Ok(NoResponse);
    }
    var m := FindMdt(db.mdts, mdt);
    if m.None? || FindReport(db.reports, report).None? {
      return Err(DoesNotExist);
    }
    db.mdtReports := db.mdtReports + [Linked(db.nextId, report, mdt)];
    db.nextId := db.nextId + 1;
    var sampleType := db.mdts[m.value].sampleType;
    EnsureVariantReports(db, VariantIdsOf(db.probandVariants, report), sampleType);
    r := Ok(Redirect(EditMdtPath(sampleType, mdt)));
  }

  /** Whether a linkage goes to the MDT, and (when given) from the report. */
  predicate Links(row: Linked<nat>, mdt: nat, report: Option<nat>)
  {
    row.row == mdt && (report.None? || row.report == report.value)
  }

  /** `MDTReport.objects.filter(...).delete()`: the linkages that do not match, in their order. */
  function Unlinked(rows: seq<Linked<nat>>, mdt: nat, report: Option<nat>): (r: seq<Linked<nat>>)
    ensures forall x :: x in r <==> x in rows && !Links(x, mdt, report)
    ensures |r| <= |rows|
  {
    if rows == [] then []
    else
      var n := |rows| - 1;
      assert rows == rows[..n] + [rows[n]];
      Unlinked(rows[..n], mdt, report) + (if Links(rows[n], mdt, report) then [] else [rows[n]])
  }

  /** Removing one report leaves the MDT's other reports linked; deleting the MDT leaves it none. */
  lemma UnlinkEffects(rows: seq<Linked<nat>>, mdt: nat, report: nat)
    ensures LinkedReports(Unlinked(rows, mdt, Some(report)), mdt) == LinkedReports(rows, mdt) - {report}
    ensures LinkedReports(Unlinked(rows, mdt, None), mdt) == {}
    ensures forall m :: m != mdt ==> LinkedReports(Unlinked(rows, mdt, None), m) == LinkedReports(rows, m)
  {
    var u := Unlinked(rows, mdt, Some(report));
    forall q | q in LinkedReports(rows, mdt) - {report}
      ensures q in LinkedReports(u, mdt)
    {
      var i :| 0 <= i < |rows| && rows[i].row == mdt && rows[i].report == q;
      assert rows[i] in u;
      var j :| 0 <= j < |u| && u[j] == rows[i];
    }
    forall q | q in LinkedReports(u, mdt)
      ensures q in LinkedReports(rows, mdt) - {report}
    {
      var j :| 0 <= j < |u| && u[j].row == mdt && u[j].report == q;
      assert u[j] in rows;
      var i :| 0 <= i < |rows| && rows[i] == u[j];
    }
    var d := Unlinked(rows, mdt, None);
    assert forall j :: 0 <= j < |d| ==> d[j] in d;
    forall m | m != mdt
      ensures LinkedReports(d, m) == LinkedReports(rows, m)
    {
      forall q | q in LinkedReports(rows, m)
        ensures q in LinkedReports(d, m)
      {
        var i :| 0 <= i < |rows| && rows[i].row == m && rows[i].report == q;
        assert rows[i] in d;
        var j :| 0 <= j < |d| && d[j] == rows[i];
      }
      forall q | q in LinkedReports(d, m)
        ensures q in LinkedReports(rows, m)
      {
        var j :| 0 <= j < |d| && d[j].row == m && d[j].report == q;
        assert d[j] in rows;
        var i :| 0 <= i < |rows| && rows[i] == d[j];
      }
    }
  }

  /** `remove_ir_from_mdt`: a POST removes exactly the linkages of that report to that MDT. */
  method RemoveIrFromMdt(db: Database, isPost: bool, mdt: nat, report: nat) returns (r: Result<Response>)
    modifies db`mdtReports
    ensures !isPost ==> r == Ok(NoResponse) && db.mdtReports == old(db.mdtReports)
    ensures isPost && (FindMdt(db.mdts, mdt).None? || FindReport(db.reports, report).None?) ==>
      r == Err(DoesNotExist) && db.mdtReports == old(db.mdtReports)
    ensures isPost && FindMdt(db.mdts, mdt).Some? && FindReport(db.reports, report).Some? ==> (
      && db.mdtReports == Unlinked(old(db.mdtReports), mdt, Some(report))
      && r == Ok(Redirect(EditMdtPath(db.mdts[FindMdt(db.mdts, mdt).value].sampleType, mdt))))
  {
    if !isPost {
      return Ok(NoResponse);
    }
    var m := FindMdt(db.mdts, mdt);
    if m.None? || FindReport(db.reports, report).None? {
      return Err(DoesNotExist);
    }
    db.mdtReports := Unlinked(db.mdtReports, mdt, Some(report));
    r := Ok(Redirect(EditMdtPath(db.mdts[m.value].sampleType, mdt)));
  }

  /** The MDT table without the deleted MDT. */
  function WithoutMdt(mdts: seq<Mdt>, mdt: nat): (r: seq<Mdt>)
    ensures forall x :: x in r <==> x in mdts && x.id != mdt
  {
    if mdts == [] then []
    else
      var n := |mdts| - 1;
      assert mdts == mdts[..n] + [mdts[n]];
      WithoutMdt(mdts[..n], mdt) + (if mdts[n].id == mdt then [] else [mdts[n]])
  }

  /**
   * `delete_mdt`: a POST removes the MDT's linkages and then the MDT. On any
   * other request the redirect reads a variable that was never bound.
   */
  method DeleteMdt(db: Database, isPost: bool, mdt: nat) returns (r: Result<Response>)
    modifies db`mdtReports, db`mdts
    ensures !isPost || FindMdt(old(db.mdts), mdt).None? ==> (
      && r == (if isPost then Err(DoesNotExist) else Err(UnboundLocalError))
      && db.mdtReports == old(db.mdtReports) && db.mdts == old(db.mdts))
    ensures isPost && FindMdt(old(db.mdts), mdt).Some? ==> (
      && db.mdtReports == Unlinked(old(db.mdtReports), mdt, None)
      && db.mdts == WithoutMdt(old(db.mdts), mdt)
      && r == Ok(Redirect("/" + old(db.mdts)[FindMdt(old(db.mdts), mdt).value].sampleType + "/recent_mdts")))
  {
    if !isPost {
      return Err(UnboundLocalError);
    }
    var m := FindMdt(db.mdts, mdt);
    if m.None? {
      return Err(DoesNotExist);
    }
    var sampleType := db.mdts[m.value].sampleType;
    db.mdtReports := Unlinked(db.mdtReports, mdt, None);
    db.mdts := WithoutMdt(db.mdts, mdt);
    r := Ok(Redirect("/" + sampleType + "/recent_mdts"));
  }
}
