/**
 * The methods of `ProbandVariant` (`gel2mdt/models.py`): selecting a
 * transcript, reading back the selected transcript and its transcript
 * variant, and creating the per-variant rare-disease and cancer reports.
 */
module ProbandVariants {
  import opened Wrappers
  import opened Tables

  // ---------------------------------------------------------------- selection

  /** One `ProbandTranscriptVariant` row after transcript `t` is selected for the variants in `targets`. */
  function SelectRow(p: Ptv, targets: set<nat>, t: nat): (q: Ptv)
    ensures q.id == p.id && q.transcript == p.transcript && q.probandVariant == p.probandVariant
    ensures p.probandVariant in targets ==> (q.selected <==> p.transcript == t)
    ensures p.probandVariant !in targets ==> q == p
  {
    if p.probandVariant in targets then p.(selected := p.transcript == t) else p
  }

  function SelectedAfter(ptvs: seq<Ptv>, targets: set<nat>, t: nat): (r: seq<Ptv>)
    ensures |r| == |ptvs|
    ensures forall i :: 0 <= i < |ptvs| ==> r[i] == SelectRow(ptvs[i], targets, t)
  {
    seq(|ptvs|, i requires 0 <= i < |ptvs| => SelectRow(ptvs[i], targets, t))
  }

  /** `filter(proband_variant=pv, selected=True).update(selected=False)` */
  function Deselect(ptvs: seq<Ptv>, pv: nat): (r: seq<Ptv>)
    ensures |r| == |ptvs|
  {
    seq(|ptvs|, i requires 0 <= i < |ptvs| =>
      if ptvs[i].probandVariant == pv && ptvs[i].selected then ptvs[i].(selected := false) else ptvs[i])
  }

  /** `filter(proband_variant=pv, transcript=t).update(selected=True)` */
  function SelectMatching(ptvs: seq<Ptv>, pv: nat, t: nat): (r: seq<Ptv>)
    ensures |r| == |ptvs|
  {
    seq(|ptvs|, i requires 0 <= i < |ptvs| =>
      if ptvs[i].probandVariant == pv && ptvs[i].transcript == t then ptvs[i].(selected := true) else ptvs[i])
  }

  /** The two updates together select exactly the rows of `t` among the variant's rows. */
  lemma DeselectThenSelect(ptvs: seq<Ptv>, pv: nat, t: nat)
    ensures SelectMatching(Deselect(ptvs, pv), pv, t) == SelectedAfter(ptvs, {pv}, t)
  {
    var a := SelectMatching(Deselect(ptvs, pv), pv, t);
    var b := SelectedAfter(ptvs, {pv}, t);
    forall i | 0 <= i < |ptvs|
      ensures a[i] == b[i]
    {
    }
  }

  lemma SelectedAfterCompose(ptvs: seq<Ptv>, a: set<nat>, b: set<nat>, t: nat)
    ensures SelectedAfter(SelectedAfter(ptvs, a, t), b, t) == SelectedAfter(ptvs, a + b, t)
  {
    var x := SelectedAfter(SelectedAfter(ptvs, a, t), b, t);
    var y := SelectedAfter(ptvs, a + b, t);
    forall i | 0 <= i < |ptvs|
      ensures x[i] == y[i]
    {
    }
  }

  /** `name in ProbandTranscriptVariant.objects.filter(proband_variant=pv).values_list('transcript__name')` */
  predicate HasTranscriptNamed(ptvs: seq<Ptv>, transcripts: seq<Transcript>, pv: nat, name: string)
  {
    exists i, k :: 0 <= i < |ptvs| && 0 <= k < |transcripts|
      && ptvs[i].probandVariant == pv && ptvs[i].transcript == transcripts[k].id && transcripts[k].name == name
  }

  /** Selecting never changes which transcripts a variant has. */
  lemma NamesIgnoreSelection(ptvs: seq<Ptv>, targets: set<nat>, t: nat, transcripts: seq<Transcript>, pv: nat, name: string)
    ensures HasTranscriptNamed(SelectedAfter(ptvs, targets, t), transcripts, pv, name)
      == HasTranscriptNamed(ptvs, transcripts, pv, name)
  {
    var s := SelectedAfter(ptvs, targets, t);
    if HasTranscriptNamed(ptvs, transcripts, pv, name) {
      var i, k :| 0 <= i < |ptvs| && 0 <= k < |transcripts|
        && ptvs[i].probandVariant == pv && ptvs[i].transcript == transcripts[k].id && transcripts[k].name == name;
      assert s[i].probandVariant == pv && s[i].transcript == transcripts[k].id;
    }
    if HasTranscriptNamed(s, transcripts, pv, name) {
      var i, k :| 0 <= i < |s| && 0 <= k < |transcripts|
        && s[i].probandVariant == pv && s[i].transcript == transcripts[k].id && transcripts[k].name == name;
      assert ptvs[i].probandVariant == pv && ptvs[i].transcript == transcripts[k].id;
    }
  }

  /** Among the first `k` rows of the variant table, the other variants of the report that have a transcript named like `t`. */
  function SameNameBelow(ptvs: seq<Ptv>, transcripts: seq<Transcript>, pvs: seq<Linked<VariantFields>>,
                         pv: Linked<VariantFields>, t: Transcript, k: nat): set<nat>
    requires k <= |pvs|
  {
    set j | 0 <= j < k && pvs[j].report == pv.report && HasTranscriptNamed(ptvs, transcripts, pvs[j].id, t.name) :: pvs[j].id
  }

  /** The proband variants whose selection `select_transcript` rewrites: this one, and those of its report with a transcript of that name. */
  function Targets(ptvs: seq<Ptv>, transcripts: seq<Transcript>, pvs: seq<Linked<VariantFields>>,
                   pv: Linked<VariantFields>, t: Transcript): set<nat>
  {
    {pv.id} + SameNameBelow(ptvs, transcripts, pvs, pv, t, |pvs|)
  }

  lemma SameNameStep(ptvs: seq<Ptv>, transcripts: seq<Transcript>, pvs: seq<Linked<VariantFields>>,
                     pv: Linked<VariantFields>, t: Transcript, k: nat)
    requires k < |pvs|
    ensures SameNameBelow(ptvs, transcripts, pvs, pv, t, k + 1) ==
      SameNameBelow(ptvs, transcripts, pvs, pv, t, k)
      + (if pvs[k].report == pv.report && HasTranscriptNamed(ptvs, transcripts, pvs[k].id, t.name) then {pvs[k].id} else {})
  {
  }

  /** The two updates for one proband variant: deselect all its rows, then select those of transcript `t`. */
  method SelectOnly(db: Database, pv: nat, t: nat)
    modifies db`ptvs
    ensures db.ptvs == SelectedAfter(old(db.ptvs), {pv}, t)
  {
    ghost var before := db.ptvs;
    db.ptvs := Deselect(db.ptvs, pv);
    db.ptvs := SelectMatching(db.ptvs, pv, t);
    DeselectThenSelect(before, pv, t);
  }

  /** `ProbandVariant.select_transcript(t)` on the row `pv`. */
  method SelectTranscript(db: Database, pv: Linked<VariantFields>, t: Transcript)
    modifies db`ptvs
    ensures db.ptvs == SelectedAfter(old(db.ptvs), Targets(old(db.ptvs), db.transcripts, db.probandVariants, pv, t), t.id)
  {
    ghost var ptvs0 := db.ptvs;
    SelectOnly(db, pv.id, t.id);
    var pvs := db.probandVariants;
    ghost var done: set<nat> := {pv.id};
    var k := 0;
    while k < |pvs|
      invariant 0 <= k <= |pvs|
      invariant done == {pv.id} + SameNameBelow(ptvs0, db.transcripts, pvs, pv, t, k)
      invariant db.ptvs == SelectedAfter(ptvs0, done, t.id)
    {
      var other := pvs[k];
      NamesIgnoreSelection(ptvs0, done, t.id, db.transcripts, other.id, t.name);
      SameNameStep(ptvs0, db.transcripts, pvs, pv, t, k);
      if other.report == pv.report && HasTranscriptNamed(db.ptvs, db.transcripts, other.id, t.name) {
        SelectOnly(db, other.id, t.id);
        SelectedAfterCompose(ptvs0, done, {other.id}, t.id);
        done := done + {other.id};
      }
      k := k + 1;
    }
  }

  /**
   * After `select_transcript(t)`: the selection of this variant and of every
   * variant of its report that has a transcript named `t.name` becomes
   * exactly the rows of `t`; every other row is unchanged.
   */
  lemma SelectTranscriptEffect(ptvs: seq<Ptv>, transcripts: seq<Transcript>, pvs: seq<Linked<VariantFields>>,
                               pv: Linked<VariantFields>, t: Transcript)
    ensures var s := SelectedAfter(ptvs, Targets(ptvs, transcripts, pvs, pv, t), t.id);
      && |s| == |ptvs|
      && (forall i :: 0 <= i < |ptvs| ==>
            s[i].id == ptvs[i].id && s[i].transcript == ptvs[i].transcript && s[i].probandVariant == ptvs[i].probandVariant)
      && (forall i :: 0 <= i < |ptvs| && ptvs[i].probandVariant == pv.id ==> (s[i].selected <==> ptvs[i].transcript == t.id))
      && (forall i, j ::
            (0 <= i < |ptvs| && 0 <= j < |pvs| && ptvs[i].probandVariant == pvs[j].id
             && pvs[j].report == pv.report && HasTranscriptNamed(ptvs, transcripts, pvs[j].id, t.name)) ==>
            (s[i].selected <==> ptvs[i].transcript == t.id))
      && (forall i ::
            (0 <= i < |ptvs| && ptvs[i].probandVariant != pv.id
             && (forall j :: 0 <= j < |pvs| && pvs[j].id == ptvs[i].probandVariant ==>
                   (pvs[j].report != pv.report || !HasTranscriptNamed(ptvs, transcripts, pvs[j].id, t.name)))) ==>
            s[i] == ptvs[i])
  {
    var targets := Targets(ptvs, transcripts, pvs, pv, t);
    forall i, j | 0 <= i < |ptvs| && 0 <= j < |pvs| && ptvs[i].probandVariant == pvs[j].id
      && pvs[j].report == pv.report && HasTranscriptNamed(ptvs, transcripts, pvs[j].id, t.name)
      ensures ptvs[i].probandVariant in targets
    {
      assert pvs[j].id in SameNameBelow(ptvs, transcripts, pvs, pv, t, |pvs|);
    }
  }

  // ------------------------------------------------------------ read-back

  /** `ProbandTranscriptVariant.objects.filter(selected=True, proband_variant=pv)` */
  function SelectedOf(ptvs: seq<Ptv>, pv: nat): (r: seq<Ptv>)
    ensures forall x :: 0 <= x < |r| ==> r[x].selected && r[x].probandVariant == pv
    ensures forall x :: x in r ==> x in ptvs
    ensures forall i :: 0 <= i < |ptvs| && ptvs[i].selected && ptvs[i].probandVariant == pv ==> ptvs[i] in r
    ensures r == [] <==> forall i :: 0 <= i < |ptvs| ==> !(ptvs[i].selected && ptvs[i].probandVariant == pv)
  {
    if ptvs == [] then []
    else
      var n := |ptvs| - 1;
      assert forall i :: 0 <= i < n ==> ptvs[..n][i] == ptvs[i];
      SelectedOf(ptvs[..n], pv) + (if ptvs[n].selected && ptvs[n].probandVariant == pv then [ptvs[n]] else [])
  }

  /** `get_transcript`: the transcript of the selected row when there is exactly one. */
  function GetTranscript(ptvs: seq<Ptv>, pv: nat): (r: Option<nat>)
    ensures r.Some? <==> |SelectedOf(ptvs, pv)| == 1
    ensures r.Some? ==> exists i :: 0 <= i < |ptvs| && ptvs[i].selected && ptvs[i].probandVariant == pv && ptvs[i].transcript == r.value
  {
    var sel := SelectedOf(ptvs, pv);
    if |sel| == 1 then Some(sel[0].transcript) else None
  }

  /** The transcript variants of one transcript and one variant. */
  function TranscriptVariantsOf(tvs: seq<TranscriptVariant>, transcript: nat, variant: nat): (r: seq<nat>)
    ensures forall x :: 0 <= x < |r| ==> r[x] < |tvs| && tvs[r[x]].transcript == transcript && tvs[r[x]].variant == variant
    ensures forall i :: 0 <= i < |tvs| && tvs[i].transcript == transcript && tvs[i].variant == variant ==> i in r
  {
    if tvs == [] then []
    else
      var n := |tvs| - 1;
      assert forall i :: 0 <= i < n ==> tvs[..n][i] == tvs[i];
      TranscriptVariantsOf(tvs[..n], transcript, variant)
      + (if tvs[n].transcript == transcript && tvs[n].variant == variant then [n] else [])
  }

  /**
   * `get_transcript_variant`: with exactly one selected row, the transcript
   * variant of its transcript and this variant (`objects.get`, which raises when
   * there is none or several); otherwise None. The result is an index into `tvs`.
   */
  function GetTranscriptVariant(ptvs: seq<Ptv>, tvs: seq<TranscriptVariant>, pv: Linked<VariantFields>): (r: Result<Option<nat>>)
    ensures r == Ok(None) <==> |SelectedOf(ptvs, pv.id)| != 1
    ensures r.Ok? && r.value.Some? ==> (
      && r.value.value < |tvs|
      && GetTranscript(ptvs, pv.id) == Some(tvs[r.value.value].transcript)
      && tvs[r.value.value].variant == pv.row.variant)
    ensures r.Err? ==> (
      && GetTranscript(ptvs, pv.id).Some?
      && var found := TranscriptVariantsOf(tvs, GetTranscript(ptvs, pv.id).value, pv.row.variant);
         (r.error == DoesNotExist <==> |found| == 0) && (r.error == MultipleObjectsReturned <==> |found| > 1))
  {
    var sel := SelectedOf(ptvs, pv.id);
    if |sel| == 1 then
      var found := TranscriptVariantsOf(tvs, sel[0].transcript, pv.row.variant);
      if |found| == 1 then Ok(Some(found[0]))
      else if |found| == 0 then Err(DoesNotExist)
      else Err(MultipleObjectsReturned)
    else Ok(None)
  }

  /** No two rows of one variant are for the same transcript. */
  predicate OneRowPerTranscript(ptvs: seq<Ptv>, pv: nat)
  {
    forall i, j ::
      (0 <= i < |ptvs| && 0 <= j < |ptvs| && ptvs[i].probandVariant == pv && ptvs[j].probandVariant == pv
       && ptvs[i].transcript == ptvs[j].transcript) ==> i == j
  }

  lemma {:induction false} SelectedOfAtMostOne(ptvs: seq<Ptv>, pv: nat)
    requires forall i, j ::
      (0 <= i < |ptvs| && 0 <= j < |ptvs| && ptvs[i].selected && ptvs[i].probandVariant == pv
       && ptvs[j].selected && ptvs[j].probandVariant == pv) ==> i == j
    ensures |SelectedOf(ptvs, pv)| <= 1
    decreases |ptvs|
  {
    if ptvs != [] {
      var n := |ptvs| - 1;
      var prefix := ptvs[..n];
      assert forall i :: 0 <= i < n ==> prefix[i] == ptvs[i];
      SelectedOfAtMostOne(prefix, pv);
    }
  }

  /**
   * When a variant has one row per transcript and a row for `t`, selecting
   * `t` leaves exactly one row of it selected, and `get_transcript` then
   * returns `t`.
   */
  lemma SelectThenGet(ptvs: seq<Ptv>, transcripts: seq<Transcript>, pvs: seq<Linked<VariantFields>>,
                      pv: Linked<VariantFields>, t: Transcript, target: nat)
    requires OneRowPerTranscript(ptvs, target)
    requires target in Targets(ptvs, transcripts, pvs, pv, t)
    requires exists i :: 0 <= i < |ptvs| && ptvs[i].probandVariant == target && ptvs[i].transcript == t.id
    ensures var s := SelectedAfter(ptvs, Targets(ptvs, transcripts, pvs, pv, t), t.id);
      |SelectedOf(s, target)| == 1 && GetTranscript(s, target) == Some(t.id)
  {
    var s := SelectedAfter(ptvs, Targets(ptvs, transcripts, pvs, pv, t), t.id);
    var i :| 0 <= i < |ptvs| && ptvs[i].probandVariant == target && ptvs[i].transcript == t.id;
    assert s[i].selected && s[i].probandVariant == target;
    SelectedOfAtMostOne(s, target);
    var sel := SelectedOf(s, target);
    assert sel[0] in s;
  }

  // ---------------------------------------------------- per-variant reports

  predicate HasRareDiseaseReport(rows: seq<RareDiseaseReport>, pv: nat)
  {
    exists i :: 0 <= i < |rows| && rows[i].probandVariant == Some(pv)
  }

  /** The variant's rare-disease report (`self.rarediseasereport`). */
  function RareDiseaseReportOf(rows: seq<RareDiseaseReport>, pv: nat): (i: nat)
    requires HasRareDiseaseReport(rows, pv)
    ensures i < |rows| && rows[i].probandVariant == Some(pv)
  {
    if rows[0].probandVariant == Some(pv) then 0
    else
      assert HasRareDiseaseReport(rows[1..], pv) by {
        var i :| 0 <= i < |rows| && rows[i].probandVariant == Some(pv);
        assert rows[1..][i - 1] == rows[i];
      }
      1 + RareDiseaseReportOf(rows[1..], pv)
  }

  function WithRareDiseaseReport(rows: seq<RareDiseaseReport>, pv: nat, id: nat): seq<RareDiseaseReport>
  {
    if HasRareDiseaseReport(rows, pv) then rows else rows + [RareDiseaseReport(id, Some(pv), None, None)]
  }

  /** `create_rare_disease_report`: the existing report, or a new one for this variant. */
  method CreateRareDiseaseReport(db: Database, pv: nat) returns (r: RareDiseaseReport)
    modifies db`rareDiseaseReports, db`nextId
    ensures db.rareDiseaseReports == WithRareDiseaseReport(old(db.rareDiseaseReports), pv, old(db.nextId))
    ensures r.probandVariant == Some(pv) && r in db.rareDiseaseReports
    ensures HasRareDiseaseReport(old(db.rareDiseaseReports), pv) ==>
      r == old(db.rareDiseaseReports)[RareDiseaseReportOf(old(db.rareDiseaseReports), pv)] && db.nextId == old(db.nextId)
    ensures !HasRareDiseaseReport(old(db.rareDiseaseReports), pv) ==> r.id == old(db.nextId) && db.nextId == old(db.nextId) + 1
  {
    if !HasRareDiseaseReport(db.rareDiseaseReports, pv) {
      r := RareDiseaseReport(db.nextId, Some(pv), None, None);
      db.rareDiseaseReports := db.rareDiseaseReports + [r];
      db.nextId := db.nextId + 1;
    } else {
      r := db.rareDiseaseReports[RareDiseaseReportOf(db.rareDiseaseReports, pv)];
    }
  }

  function RareDiseaseReportCount(rows: seq<RareDiseaseReport>, pv: nat): nat
  {
    if rows == [] then 0
    else RareDiseaseReportCount(rows[..|rows| - 1], pv) + (if rows[|rows| - 1].probandVariant == Some(pv) then 1 else 0)
  }

  lemma {:induction false} RareDiseaseReportCountZero(rows: seq<RareDiseaseReport>, pv: nat)
    ensures RareDiseaseReportCount(rows, pv) == 0 <==> !HasRareDiseaseReport(rows, pv)
    decreases |rows|
  {
    if rows != [] {
      var n := |rows| - 1;
      RareDiseaseReportCountZero(rows[..n], pv);
      assert forall i :: 0 <= i < n ==> rows[..n][i] == rows[i];
      if HasRareDiseaseReport(rows, pv) && rows[n].probandVariant != Some(pv) {
        var i :| 0 <= i < |rows| && rows[i].probandVariant == Some(pv);
        assert rows[..n][i] == rows[i];
      }
    }
  }

  /**
   * Creating the rare-disease report is idempotent: a second call changes
   * nothing, afterwards the variant has a report, and at most one is added.
   */
  lemma RareDiseaseReportIdempotent(rows: seq<RareDiseaseReport>, pv: nat, id: nat, id2: nat)
    ensures HasRareDiseaseReport(WithRareDiseaseReport(rows, pv, id), pv)
    ensures WithRareDiseaseReport(WithRareDiseaseReport(rows, pv, id), pv, id2) == WithRareDiseaseReport(rows, pv, id)
    ensures RareDiseaseReportCount(WithRareDiseaseReport(rows, pv, id), pv) ==
      if RareDiseaseReportCount(rows, pv) == 0 then 1 else RareDiseaseReportCount(rows, pv)
  {
    var w := WithRareDiseaseReport(rows, pv, id);
    RareDiseaseReportCountZero(rows, pv);
    if !HasRareDiseaseReport(rows, pv) {
      assert w[|rows|].probandVariant == Some(pv);
      assert w[..|w| - 1] == rows;
    }
  }

  predicate HasCancerReport(rows: seq<CancerReport>, pv: nat)
  {
    exists i :: 0 <= i < |rows| && rows[i].probandVariant == pv
  }

  function CancerReportOf(rows: seq<CancerReport>, pv: nat): (i: nat)
    requires HasCancerReport(rows, pv)
    ensures i < |rows| && rows[i].probandVariant == pv
  {
    if rows[0].probandVariant == pv then 0
    else
      assert HasCancerReport(rows[1..], pv) by {
        var i :| 0 <= i < |rows| && rows[i].probandVariant == pv;
        assert rows[1..][i - 1] == rows[i];
      }
      1 + CancerReportOf(rows[1..], pv)
  }

  function WithCancerReport(rows: seq<CancerReport>, pv: nat, id: nat): seq<CancerReport>
  {
    if HasCancerReport(rows, pv) then rows else rows + [CancerReport(id, pv)]
  }

  /** `create_cancer_report`: the existing report, or a new one for this variant. */
  method CreateCancerReport(db: Database, pv: nat) returns (r: CancerReport)
    modifies db`cancerReports, db`nextId
    ensures db.cancerReports == WithCancerReport(old(db.cancerReports), pv, old(db.nextId))
    ensures r.probandVariant == pv && r in db.cancerReports
    ensures HasCancerReport(old(db.cancerReports), pv) ==>
      r == old(db.cancerReports)[CancerReportOf(old(db.cancerReports), pv)] && db.nextId == old(db.nextId)
    ensures !HasCancerReport(old(db.cancerReports), pv) ==> r.id == old(db.nextId) && db.nextId == old(db.nextId) + 1
  {
    if !HasCancerReport(db.cancerReports, pv) {
      r := CancerReport(db.nextId, pv);
      db.cancerReports := db.cancerReports + [r];
      db.nextId := db.nextId + 1;
    } else {
      r := db.cancerReports[CancerReportOf(db.cancerReports, pv)];
    }
  }

  function CancerReportCount(rows: seq<CancerReport>, pv: nat): nat
  {
    if rows == [] then 0
    else CancerReportCount(rows[..|rows| - 1], pv) + (if rows[|rows| - 1].probandVariant == pv then 1 else 0)
  }

  lemma {:induction false} CancerReportCountZero(rows: seq<CancerReport>, pv: nat)
    ensures CancerReportCount(rows, pv) == 0 <==> !HasCancerReport(rows, pv)
    decreases |rows|
  {
    if rows != [] {
      var n := |rows| - 1;
      CancerReportCountZero(rows[..n], pv);
      assert forall i :: 0 <= i < n ==> rows[..n][i] == rows[i];
      if HasCancerReport(rows, pv) && rows[n].probandVariant != pv {
        var i :| 0 <= i < |rows| && rows[i].probandVariant == pv;
        assert rows[..n][i] == rows[i];
      }
    }
  }

  /** Creating the cancer report is idempotent, in the same sense as the rare-disease one. */
  lemma CancerReportIdempotent(rows: seq<CancerReport>, pv: nat, id: nat, id2: nat)
    ensures HasCancerReport(WithCancerReport(rows, pv, id), pv)
    ensures WithCancerReport(WithCancerReport(rows, pv, id), pv, id2) == WithCancerReport(rows, pv, id)
    ensures CancerReportCount(WithCancerReport(rows, pv, id), pv) ==
      if CancerReportCount(rows, pv) == 0 then 1 else CancerReportCount(rows, pv)
  {
    var w := WithCancerReport(rows, pv, id);
    CancerReportCountZero(rows, pv);
    if !HasCancerReport(rows, pv) {
      assert w[|rows|].probandVariant == pv;
      assert w[..|w| - 1] == rows;
    }
  }

  /** Creating a rare-disease report keeps every existing row and gives exactly this variant a report it may have lacked. */
  lemma RareDiseaseReportsGrow(rows: seq<RareDiseaseReport>, pv: nat, id: nat)
    ensures rows <= WithRareDiseaseReport(rows, pv, id)
    ensures forall q: nat :: HasRareDiseaseReport(WithRareDiseaseReport(rows, pv, id), q) <==> HasRareDiseaseReport(rows, q) || q == pv
  {
    var w := WithRareDiseaseReport(rows, pv, id);
    if !HasRareDiseaseReport(rows, pv) {
      assert w[|rows|].probandVariant == Some(pv);
      forall q: nat | HasRareDiseaseReport(rows, q)
        ensures HasRareDiseaseReport(w, q)
      {
        var i :| 0 <= i < |rows| && rows[i].probandVariant == Some(q);
        assert w[i] == rows[i];
      }
      forall q: nat | HasRareDiseaseReport(w, q) && q != pv
        ensures HasRareDiseaseReport(rows, q)
      {
        var i :| 0 <= i < |w| && w[i].probandVariant == Some(q);
        assert i < |rows| && w[i] == rows[i];
      }
    }
  }

  lemma CancerReportsGrow(rows: seq<CancerReport>, pv: nat, id: nat)
    ensures rows <= WithCancerReport(rows, pv, id)
    ensures forall q: nat :: HasCancerReport(WithCancerReport(rows, pv, id), q) <==> HasCancerReport(rows, q) || q == pv
  {
    var w := WithCancerReport(rows, pv, id);
    if !HasCancerReport(rows, pv) {
      assert w[|rows|].probandVariant == pv;
      forall q: nat | HasCancerReport(rows, q)
        ensures HasCancerReport(w, q)
      {
        var i :| 0 <= i < |rows| && rows[i].probandVariant == q;
        assert w[i] == rows[i];
      }
      forall q: nat | HasCancerReport(w, q) && q != pv
        ensures HasCancerReport(rows, q)
      {
        var i :| 0 <= i < |w| && w[i].probandVariant == q;
        assert i < |rows| && w[i] == rows[i];
      }
    }
  }
}
