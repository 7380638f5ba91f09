/**
 * The database tables of `gel2mdt/models.py` that the modelled rules read and
 * write. Each table is a sequence of rows in primary-key order; a foreign key
 * is the referenced row's `id`. Only the fields those rules use are kept.
 */
module Tables {
  import opened Wrappers

  /**
   * The workflow fields of a `GELInterpretationReport`: a new version inherits
   * all of these from the latest one.
   */
  datatype Workflow = Workflow(
    assignedUser: Option<nat>, firstCheck: Option<nat>, secondCheck: Option<nat>,
    mdtStatus: string, caseSent: bool, caseStatus: string, pilotCase: bool,
    user: string, noPrimaryFindings: bool, caseCode: Option<string>)

  /** The fields of a `GELInterpretationReport` that come from the interpretation request itself. */
  datatype Content = Content(
    status: string, updated: int, sampleType: string, sampleId: Option<string>,
    maxTier: Option<string>, assembly: nat, shaHash: string,
    tumourContent: Option<string>, hasGermlineVariant: bool)

  /** One version of the report of an interpretation-request family (`ir_family`). */
  datatype Report = Report(
    id: nat, irFamily: nat, archivedVersion: int, polledAt: int,
    content: Content, workflow: Workflow)

  /**
   * A row whose `interpretation_report` foreign key is `report`: MDT linkages
   * (`MDTReport`, `row` is the MDT), case comments, proband variants, SVs and STRs.
   */
  datatype Linked<T> = Linked(id: nat, report: nat, row: T)

  /** The validation fields shared by `ProbandVariant`, `ProbandSV` and `ProbandSTR`. */
  datatype Validation = Validation(status: char, responsibleUser: Option<nat>, datetimeSet: Option<int>)

  /**
   * A new validation status; the time it was first set is recorded only if
   * no time was recorded before.
   */
  function Revalidated(v: Validation, code: char, now: int): (w: Validation)
    ensures w.status == code && w.responsibleUser == v.responsibleUser
    ensures v.datetimeSet.Some? ==> w.datetimeSet == v.datetimeSet
    ensures v.datetimeSet.None? ==> w.datetimeSet == Some(now)
  {
    v.(status := code, datetimeSet := if v.datetimeSet.Some? then v.datetimeSet else Some(now))
  }

  datatype VariantFields = VariantFields(variant: nat, maxTier: Option<int>, somatic: bool, validation: Validation)

  /** A `PVFlag` row: a flag raised on a proband variant. */
  datatype Flag = Flag(id: nat, probandVariant: nat, name: string)

  datatype Mdt = Mdt(id: nat, sampleType: string, status: char)

  datatype Transcript = Transcript(id: nat, name: string, gene: Option<nat>, assembly: nat)

  datatype PreferredTranscript = PreferredTranscript(id: nat, transcript: nat, gene: nat, assembly: nat)

  /** A `ProbandTranscriptVariant`: one transcript of one proband variant, and whether it is the selected one. */
  datatype Ptv = Ptv(id: nat, transcript: nat, probandVariant: nat, selected: bool)

  datatype TranscriptVariant = TranscriptVariant(id: nat, transcript: nat, variant: nat, hgvsC: string, hgvsP: string)

  /** A `RareDiseaseReport` belongs to (at most) one proband variant, SV or STR. */
  datatype RareDiseaseReport = RareDiseaseReport(
    id: nat, probandVariant: Option<nat>, probandSv: Option<nat>, probandStr: Option<nat>)

  datatype CancerReport = CancerReport(id: nat, probandVariant: nat)

  datatype User = User(id: nat, username: string)

  /** The three tables whose rows carry a validation status: proband variants, SVs and STRs. */
  datatype Validations = Validations(
    variants: seq<Linked<VariantFields>>, svs: seq<Linked<Validation>>, strs: seq<Linked<Validation>>)

  /** The tables `GELInterpretationReport.save` reads and writes, as one value. */
  datatype Versioned = Versioned(
    reports: seq<Report>, mdtReports: seq<Linked<nat>>,
    probandVariants: seq<Linked<VariantFields>>, caseComments: seq<Linked<string>>,
    nextId: nat)

  /** `objects.get(id=...)`: the position of the row whose key is `id`, or none. Keys are searched from the end. */
  function FindById<T>(rows: seq<T>, key: T -> nat, id: nat): (r: Option<nat>)
    ensures r.Some? ==> r.value < |rows| && key(rows[r.value]) == id
    ensures r.None? <==> forall i :: 0 <= i < |rows| ==> key(rows[i]) != id
  {
    if rows == [] then None
    else if key(rows[|rows| - 1]) == id then Some(|rows| - 1)
    else
      assert forall i :: 0 <= i < |rows| - 1 ==> rows[..|rows| - 1][i] == rows[i];
      FindById(rows[..|rows| - 1], key, id)
  }

  /** `GELInterpretationReport.objects.get(id=...)`. */
  function FindReport(rows: seq<Report>, id: nat): (r: Option<nat>)
    ensures r.Some? ==> r.value < |rows| && rows[r.value].id == id
    ensures r.None? <==> forall i :: 0 <= i < |rows| ==> rows[i].id != id
  {
    FindById(rows, (row: Report) => row.id, id)
  }

  /** `MDT.objects.get(id=...)`. */
  function FindMdt(rows: seq<Mdt>, id: nat): (r: Option<nat>)
    ensures r.Some? ==> r.value < |rows| && rows[r.value].id == id
    ensures r.None? <==> forall i :: 0 <= i < |rows| ==> rows[i].id != id
  {
    FindById(rows, (row: Mdt) => row.id, id)
  }

  /** `objects.get(id=...)` on a table of rows that belong to a report. */
  function FindLinked<T>(rows: seq<Linked<T>>, id: nat): (r: Option<nat>)
    ensures r.Some? ==> r.value < |rows| && rows[r.value].id == id
    ensures r.None? <==> forall i :: 0 <= i < |rows| ==> rows[i].id != id
  {
    FindById(rows, (row: Linked<T>) => row.id, id)
  }

  /** The number of rows that belong to one report (`filter(interpretation_report=...).count()`). */
  function RowsOf<T>(rows: seq<Linked<T>>, report: nat): nat
  {
    if rows == [] then 0
    else RowsOf(rows[..|rows| - 1], report) + (if rows[|rows| - 1].report == report then 1 else 0)
  }

  /** Every report's primary key was handed out before `n`. */
  predicate IdsBelow(reports: seq<Report>, n: nat)
  {
    forall i :: 0 <= i < |reports| ==> reports[i].id < n
  }

  class Database {
    var users: seq<User>
    var reports: seq<Report>
    var mdts: seq<Mdt>
    var mdtReports: seq<Linked<nat>>
    var caseComments: seq<Linked<string>>
    var probandVariants: seq<Linked<VariantFields>>
    var probandSvs: seq<Linked<Validation>>
    var probandStrs: seq<Linked<Validation>>
    var flags: seq<Flag>
    var transcripts: seq<Transcript>
    var preferredTranscripts: seq<PreferredTranscript>
    var ptvs: seq<Ptv>
    var transcriptVariants: seq<TranscriptVariant>
    var rareDiseaseReports: seq<RareDiseaseReport>
    var cancerReports: seq<CancerReport>
    /** The primary key the next inserted row receives. */
    var nextId: nat

    predicate Valid()
      reads this
    {
      IdsBelow(reports, nextId)
    }

    function Versions(): Versioned
      reads this
    {
      Versioned(reports, mdtReports, probandVariants, caseComments, nextId)
    }

    function Statuses(): Validations
      reads this
    {
      Validations(probandVariants, probandSvs, probandStrs)
    }

    constructor ()
      ensures Valid()
      ensures reports == [] && mdtReports == [] && probandVariants == [] && caseComments == []
      ensures ptvs == [] && rareDiseaseReports == [] && cancerReports == [] && nextId == 1
    {
      users, reports, mdts, mdtReports, caseComments := [], [], [], [], [];
      probandVariants, probandSvs, probandStrs, flags := [], [], [], [];
      transcripts, preferredTranscripts, ptvs, transcriptVariants := [], [], [], [];
      rareDiseaseReports, cancerReports := [], [];
      nextId := 1;
    }
  }
}
