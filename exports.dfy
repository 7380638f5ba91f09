/**
 * The rules of `gel2mdt/exports.py` that decide what goes into the MDT
 * spreadsheet and the Word templates: the transcript pre-checks, the HGVS
 * fields, where each report's rows land, the monthly completed/not-completed
 * summary, the GTAB sections, and the clinician surname and pronoun of the
 * no-primary-findings letter. Layout and styling are not modelled.
 */
module Exports {
  import opened Wrappers
  import opened Text
  import opened Seqs
  import opened Tables
  import opened ProbandVariants

  // ---------------------------------------------------------------------------
  // write_mdt_export: the transcript pre-check
  // ---------------------------------------------------------------------------

  /** `ProbandVariant.objects.filter(interpretation_report=report)`, in table order. */
  function ReportVariants(pvs: seq<Linked<VariantFields>>, report: nat): (r: seq<Linked<VariantFields>>)
    ensures forall x :: x in r <==> x in pvs && x.report == report
  {
    if pvs == [] then []
    else
      var n := |pvs| - 1;
      assert pvs == pvs[..n] + [pvs[n]];
      ReportVariants(pvs[..n], report) + (if pvs[n].report == report then [pvs[n]] else [])
  }

  /**
   * A proband variant's `get_transcript_variant()`: an exception, no
   * transcript variant (None), or the index of its transcript variant.
   */
  type Lookup = Linked<VariantFields> -> Result<Option<nat>>

  /** `ProbandVariant.get_transcript_variant` over the current tables. */
  function TranscriptLookup(ptvs: seq<Ptv>, tvs: seq<TranscriptVariant>): Lookup
  {
    pv => GetTranscriptVariant(ptvs, tvs, pv)
  }

  /** `ProbandVariant.get_transcript` over the current tables. */
  function TranscriptOf(ptvs: seq<Ptv>): Linked<VariantFields> -> Option<nat>
  {
    (pv: Linked<VariantFields>) => GetTranscript(ptvs, pv.id)
  }

  /** Every proband variant has its transcript variant. */
  predicate AllSelected(lookup: Lookup, pvs: seq<Linked<VariantFields>>)
  {
    forall k :: 0 <= k < |pvs| ==> lookup(pvs[k]).Ok? && lookup(pvs[k]).value.Some?
  }

  /** No lookup of a transcript variant fails with an exception. */
  predicate LookupsSucceed(lookup: Lookup, pvs: seq<Linked<VariantFields>>)
  {
    forall k :: 0 <= k < |pvs| ==> lookup(pvs[k]).Ok?
  }

  /**
   * The inner loop of the pre-check: the report's family id once per proband
   * variant without a transcript variant, or the first failed lookup.
   */
  function MissingFor(lookup: Lookup, pvs: seq<Linked<VariantFields>>, family: string): (r: Result<seq<string>>)
    ensures r.Ok? <==> LookupsSucceed(lookup, pvs)
    ensures r.Ok? ==> forall x :: x in r.value ==> x == family
    ensures r.Ok? ==> (r.value == [] <==> AllSelected(lookup, pvs))
  {
    if pvs == [] then Ok([])
    else
      var n := |pvs| - 1;
      assert forall k :: 0 <= k < n ==> pvs[..n][k] == pvs[k];
      match MissingFor(lookup, pvs[..n], family)
      case Err(e) => Err(e)
      case Ok(f) =>
        match lookup(pvs[n])
        case Err(e) => Err(e)
        case Ok(None) => Ok(f + [family])
        case Ok(Some(_)) => Ok(f)
  }

  /** The outer loop of the pre-check, over the reports of the MDT in order. */
  function MissingAll(lookup: Lookup, pvs: seq<Linked<VariantFields>>,
                      reports: seq<nat>, familyOf: nat -> string): Result<seq<string>>
  {
    if reports == [] then Ok([])
    else
      var n := |reports| - 1;
      match MissingAll(lookup, pvs, reports[..n], familyOf)
      case Err(e) => Err(e)
      case Ok(f) =>
        match MissingFor(lookup, ReportVariants(pvs, reports[n]), familyOf(reports[n]))
        case Err(e) => Err(e)
        case Ok(g) => Ok(f + g)
  }

  /** The outer loop of the pre-check fails exactly when some lookup raises. */
  lemma {:induction false} MissingAllOk(lookup: Lookup, pvs: seq<Linked<VariantFields>>,
                                        reports: seq<nat>, familyOf: nat -> string)
    ensures MissingAll(lookup, pvs, reports, familyOf).Ok? <==>
      forall i :: 0 <= i < |reports| ==> LookupsSucceed(lookup, ReportVariants(pvs, reports[i]))
  {
    if reports != [] {
      var n := |reports| - 1;
      MissingAllOk(lookup, pvs, reports[..n], familyOf);
      assert forall i :: 0 <= i < n ==> reports[..n][i] == reports[i];
    }
  }

  /** The report `reports[i]` has a proband variant without its transcript variant. */
  predicate ReportFails(lookup: Lookup, pvs: seq<Linked<VariantFields>>, reports: seq<nat>, i: int)
  {
    0 <= i < |reports| && !AllSelected(lookup, ReportVariants(pvs, reports[i]))
  }

  /**
   * Without a raised lookup, the outer loop lists the family of each report
   * with a proband variant lacking its transcript variant, and no other.
   */
  lemma {:induction false} MissingAllFamilies(lookup: Lookup, pvs: seq<Linked<VariantFields>>,
                                              reports: seq<nat>, familyOf: nat -> string)
    requires MissingAll(lookup, pvs, reports, familyOf).Ok?
    ensures forall x :: x in MissingAll(lookup, pvs, reports, familyOf).value <==>
      exists i :: ReportFails(lookup, pvs, reports, i) && x == familyOf(reports[i])
  {
    if reports != [] {
      var n := |reports| - 1;
      var init := reports[..n];
      MissingAllFamilies(lookup, pvs, init, familyOf);
      var f := MissingAll(lookup, pvs, init, familyOf).value;
      var family := familyOf(reports[n]);
      var g := MissingFor(lookup, ReportVariants(pvs, reports[n]), family).value;
      assert MissingAll(lookup, pvs, reports, familyOf).value == f + g;
      forall x | x in f + g
        ensures exists i :: ReportFails(lookup, pvs, reports, i) && x == familyOf(reports[i])
      {
        if x in f {
          var i :| ReportFails(lookup, pvs, init, i) && x == familyOf(init[i]);
          assert init[i] == reports[i];
          assert ReportFails(lookup, pvs, reports, i);
        } else {
          assert ReportFails(lookup, pvs, reports, n);
        }
      }
      forall x | exists i :: ReportFails(lookup, pvs, reports, i) && x == familyOf(reports[i])
        ensures x in f + g
      {
        var i :| ReportFails(lookup, pvs, reports, i) && x == familyOf(reports[i]);
        if i < n {
          assert init[i] == reports[i];
          assert ReportFails(lookup, pvs, init, i);
          assert x in f;
        } else {
          assert i == n && g != [];
          assert g[0] in g && g[0] == family;
        }
      }
    }
  }

  const MissingTranscriptsMessage: string := "Transcripts have not been selected for the following reports: "

  /**
   * The pre-check of `write_mdt_export`: nothing is written when a proband
   * variant of a listed report has no selected transcript variant; the error
   * names each failing family once.
   */
  function ExportCheck(lookup: Lookup, pvs: seq<Linked<VariantFields>>,
                       reports: seq<nat>, familyOf: nat -> string): Result<()>
  {
    match MissingAll(lookup, pvs, reports, familyOf)
    case Err(e) => Err(e)
    case Ok(failed) =>
      if failed == [] then Ok(())
      else Err(ValueError(MissingTranscriptsMessage + Join(Dedup(failed), " ")))
  }

  /**
   * The export goes ahead exactly when every proband variant of every listed
   * report has its transcript variant.
   */
  lemma ExportCheckPasses(lookup: Lookup, pvs: seq<Linked<VariantFields>>,
                          reports: seq<nat>, familyOf: nat -> string)
    ensures ExportCheck(lookup, pvs, reports, familyOf) == Ok(()) <==>
      forall i :: 0 <= i < |reports| ==> AllSelected(lookup, ReportVariants(pvs, reports[i]))
  {
    MissingAllOk(lookup, pvs, reports, familyOf);
    var m := MissingAll(lookup, pvs, reports, familyOf);
    if m.Ok? {
      MissingAllFamilies(lookup, pvs, reports, familyOf);
    }
    if m.Ok? {
      if m.value != [] {
        assert m.value[0] in m.value;
        var i :| 0 <= i < |reports| && m.value[0] == familyOf(reports[i])
          && !AllSelected(lookup, ReportVariants(pvs, reports[i]));
      } else {
        forall i | 0 <= i < |reports| ensures AllSelected(lookup, ReportVariants(pvs, reports[i])) {
          assert familyOf(reports[i]) !in m.value;
        }
      }
    } else {
      var i :| 0 <= i < |reports| && !LookupsSucceed(lookup, ReportVariants(pvs, reports[i]));
      assert !AllSelected(lookup, ReportVariants(pvs, reports[i]));
    }
  }

  /**
   * The pre-check's error `r` names the families `ids`: each once, and exactly
   * those of the reports with a proband variant without a selected transcript.
   */
  ghost predicate NamesFailingFamilies(r: Result<()>, ids: seq<string>, lookup: Lookup, pvs: seq<Linked<VariantFields>>,
                                 reports: seq<nat>, familyOf: nat -> string)
  {
    && r == Err(ValueError(MissingTranscriptsMessage + Join(ids, " ")))
    && (forall i, j :: 0 <= i < j < |ids| ==> ids[i] != ids[j])
    && (forall x :: x in ids <==> exists i :: ReportFails(lookup, pvs, reports, i) && x == familyOf(reports[i]))
  }

  /**
   * When no lookup raises and the pre-check fails, its message lists exactly
   * the families of the failing reports, each once.
   */
  lemma ExportCheckMessage(lookup: Lookup, pvs: seq<Linked<VariantFields>>,
                           reports: seq<nat>, familyOf: nat -> string)
    requires MissingAll(lookup, pvs, reports, familyOf).Ok?
    requires ExportCheck(lookup, pvs, reports, familyOf) != Ok(())
    ensures exists ids: seq<string> ::
      NamesFailingFamilies(ExportCheck(lookup, pvs, reports, familyOf), ids, lookup, pvs, reports, familyOf)
  {
    MissingAllFamilies(lookup, pvs, reports, familyOf);
    var m := MissingAll(lookup, pvs, reports, familyOf).value;
    DedupProperties(m);
    var ids := Dedup(m);
    assert m != [];
    assert ExportCheck(lookup, pvs, reports, familyOf) == Err(ValueError(MissingTranscriptsMessage + Join(ids, " ")));
    assert forall x :: x in ids <==> x in m;
    assert NamesFailingFamilies(ExportCheck(lookup, pvs, reports, familyOf), ids, lookup, pvs, reports, familyOf);
  }

  /** The two nested loops of the pre-check, over the MDT's reports and each report's proband variants. */
  method PrecheckMdtExport(db: Database, reports: seq<nat>, familyOf: nat -> string) returns (r: Result<()>)
    ensures r == ExportCheck(TranscriptLookup(db.ptvs, db.transcriptVariants), db.probandVariants, reports, familyOf)
  {
    var lookup := TranscriptLookup(db.ptvs, db.transcriptVariants);
    var failed := [];
    for i := 0 to |reports|
      invariant MissingAll(lookup, db.probandVariants, reports[..i], familyOf) == Ok(failed)
    {
      assert reports[..i + 1][..i] == reports[..i];
      var family := familyOf(reports[i]);
      var probandVariants := ReportVariants(db.probandVariants, reports[i]);
      var here := [];
      for k := 0 to |probandVariants|
        invariant MissingFor(lookup, probandVariants[..k], family) == Ok(here)
      {
        assert probandVariants[..k + 1][..k] == probandVariants[..k];
        var transcriptVariant := lookup(probandVariants[k]);
        if transcriptVariant.Err? {
          PrecheckFailsAt(lookup, db.probandVariants, reports, familyOf, i, k);
          return Err(transcriptVariant.error);
        }
        if transcriptVariant.value.None? {
          here := here + [family];
        }
      }
      assert probandVariants[..|probandVariants|] == probandVariants;
      failed := failed + here;
    }
    assert reports[..|reports|] == reports;
    if failed != [] {
      return Err(ValueError(MissingTranscriptsMessage + Join(Dedup(failed), " ")));
    }
    return Ok(());
  }

  /** A lookup that raises while the earlier ones did not is the error of the whole pre-check. */
  lemma PrecheckFailsAt(lookup: Lookup, pvs: seq<Linked<VariantFields>>,
                        reports: seq<nat>, familyOf: nat -> string, i: nat, k: nat)
    requires i < |reports| && MissingAll(lookup, pvs, reports[..i], familyOf).Ok?
    requires k < |ReportVariants(pvs, reports[i])|
    requires MissingFor(lookup, ReportVariants(pvs, reports[i])[..k], familyOf(reports[i])).Ok?
    requires lookup(ReportVariants(pvs, reports[i])[k]).Err?
    ensures ExportCheck(lookup, pvs, reports, familyOf)
      == Err(lookup(ReportVariants(pvs, reports[i])[k]).error)
  {
    var here := ReportVariants(pvs, reports[i]);
    var e := lookup(here[k]).error;
    MissingForFailsAt(lookup, here, familyOf(reports[i]), k);
    assert reports[..i + 1][..i] == reports[..i];
    assert MissingAll(lookup, pvs, reports[..i + 1], familyOf) == Err(e);
    MissingAllErrStays(lookup, pvs, reports, familyOf, i + 1);
  }

  lemma {:induction false} MissingForFailsAt(lookup: Lookup, pvs: seq<Linked<VariantFields>>, family: string, k: nat)
    requires k < |pvs| && MissingFor(lookup, pvs[..k], family).Ok?
    requires lookup(pvs[k]).Err?
    ensures MissingFor(lookup, pvs, family) == Err(lookup(pvs[k]).error)
    decreases |pvs| - k
  {
    var n := |pvs| - 1;
    if k == n {
      assert pvs[..n] == pvs[..k];
    } else {
      assert pvs[..n][..k] == pvs[..k];
      assert pvs[..n][k] == pvs[k];
      MissingForFailsAt(lookup, pvs[..n], family, k);
    }
  }

  lemma {:induction false} MissingAllErrStays(lookup: Lookup, pvs: seq<Linked<VariantFields>>,
                                              reports: seq<nat>, familyOf: nat -> string, n: nat)
    requires n <= |reports| && MissingAll(lookup, pvs, reports[..n], familyOf).Err?
    ensures MissingAll(lookup, pvs, reports, familyOf) == MissingAll(lookup, pvs, reports[..n], familyOf)
    decreases |reports| - n
  {
    if n < |reports| {
      assert reports[..n + 1][..n] == reports[..n];
      MissingAllErrStays(lookup, pvs, reports, familyOf, n + 1);
    } else {
      assert reports[..n] == reports;
    }
  }

  // ---------------------------------------------------------------------------
  // HGVS fields
  // ---------------------------------------------------------------------------

  /** The second `:`-separated field of an HGVS string, if there is one. */
  function HgvsC(hgvs: string): (r: Option<string>)
    ensures r.None? <==> ':' !in hgvs
    ensures r.Some? ==> ':' !in r.value
  {
    var parts := Split(hgvs, ':');
    SplitSingle(hgvs, ':');
    if |parts| > 1 then Some(parts[1]) else None
  }

  /** The protein change: the second field, with `%3D` decoded to `=`. */
  function HgvsP(hgvs: string): (r: Option<string>)
    ensures r.None? <==> ':' !in hgvs
  {
    match HgvsC(hgvs)
    case None => None
    case Some(field) => Some(Replace(field, "%3D", "="))
  }

  lemma SplitSingle(s: string, c: char)
    ensures |Split(s, c)| > 1 <==> c in s
  {
    if c in s {
      var i := FindChar(s, c);
      assert |Split(s, c)| == 1 + |Split(s[i + 1..], c)|;
    }
  }

  lemma SplitFirst(a: string, rest: string, c: char)
    requires c !in a
    ensures Split(a + [c] + rest, c) == [a] + Split(rest, c)
  {
    var s := a + [c] + rest;
    assert s[|a|] == c;
    var i := FindChar(s, c);
    assert forall k :: 0 <= k < |a| ==> s[k] == a[k];
    assert i == |a|;
    assert s[..i] == a;
    assert s[i + 1..] == rest;
  }

  /** `transcript:change` gives the change, and the protein change when it holds no `%3D`. */
  lemma HgvsSecondField(transcript: string, change: string)
    requires ':' !in transcript && ':' !in change
    ensures HgvsC(transcript + [':'] + change) == Some(change)
    ensures !Contains(change, "%3D") ==> HgvsP(transcript + [':'] + change) == Some(change)
  {
    SplitTwo(transcript, change, ':');
    if !Contains(change, "%3D") {
      ReplaceAbsent(change, "%3D", "=");
    }
  }

  /** Fields after the second are ignored: `transcript:change:anything` gives the change. */
  lemma HgvsLaterFieldsIgnored(transcript: string, change: string, tail: string)
    requires ':' !in transcript && ':' !in change
    ensures HgvsC(transcript + [':'] + change + [':'] + tail) == Some(change)
  {
    var rest := change + [':'] + tail;
    assert transcript + [':'] + change + [':'] + tail == transcript + [':'] + rest;
    SplitFirst(transcript, rest, ':');
    SplitFirst(change, tail, ':');
  }

  // ---------------------------------------------------------------------------
  // write_mdt_export: rows of the spreadsheet
  // ---------------------------------------------------------------------------

  /** A rare-disease proband variant as the export reads it. */
  datatype ExportVariant = ExportVariant(
    gene: string, hasTranscript: bool, transcriptVariant: Option<TranscriptVariant>,
    inheritance: string, zygosity: string, maternalZygosity: string, paternalZygosity: string)

  /** Columns L to P of one variant row. */
  datatype VariantLine = VariantLine(
    variant: string, inheritance: string, probandZygosity: string,
    maternalZygosity: string, paternalZygosity: string)

  /** How Python formats an optional value into an f-string. */
  function Show(o: Option<string>): string
  {
    if o.Some? then o.value else "None"
  }

  function LineOf(v: ExportVariant): VariantLine
    requires v.transcriptVariant.Some?
  {
    var tv := v.transcriptVariant.value;
    VariantLine(v.gene + ", " + Show(HgvsC(tv.hgvsC)) + ", " + Show(HgvsP(tv.hgvsP)) + ", ",
      v.inheritance, v.zygosity, v.maternalZygosity, v.paternalZygosity)
  }

  predicate Printable(v: ExportVariant)
  {
    v.hasTranscript && v.transcriptVariant.Some?
  }

  /** `pv_output`: a line for every variant with a transcript and a transcript variant, in order. */
  function Lines(vs: seq<ExportVariant>): seq<VariantLine>
  {
    if vs == [] then []
    else
      var n := |vs| - 1;
      Lines(vs[..n]) + (if Printable(vs[n]) then [LineOf(vs[n])] else [])
  }

  /** A variant without a transcript or transcript variant is skipped: at most one line per variant. */
  lemma {:induction false} LinesShorter(vs: seq<ExportVariant>)
    ensures |Lines(vs)| <= |vs|
  {
    if vs != [] {
      LinesShorter(vs[..|vs| - 1]);
    }
  }

  /** When every variant has a transcript and a transcript variant, there is one line per variant, in order. */
  lemma {:induction false} LinesMeaning(vs: seq<ExportVariant>)
    requires forall k :: 0 <= k < |vs| ==> vs[k].hasTranscript && vs[k].transcriptVariant.Some?
    ensures |Lines(vs)| == |vs| && forall k :: 0 <= k < |vs| ==> Lines(vs)[k] == LineOf(vs[k])
  {
    if vs != [] {
      var n := |vs| - 1;
      var init := vs[..n];
      assert forall k :: 0 <= k < n ==> init[k] == vs[k];
      LinesMeaning(init);
      var lines := Lines(vs);
      LinesSnoc(vs);
      forall k | 0 <= k < |vs| ensures lines[k] == LineOf(vs[k]) {
        if k < n {
          assert lines[k] == Lines(init)[k] == LineOf(init[k]);
        }
      }
    }
  }

  lemma LinesSnoc(vs: seq<ExportVariant>)
    requires vs != [] && vs[|vs| - 1].hasTranscript && vs[|vs| - 1].transcriptVariant.Some?
    ensures Lines(vs) == Lines(vs[..|vs| - 1]) + [LineOf(vs[|vs| - 1])]
  {
    assert Printable(vs[|vs| - 1]);
  }

  /**
   * The rows one report occupies: from `first` to `last`, written cell by
   * cell when that is one row and with merged columns A to K otherwise.
   */
  datatype Block = Block(report: nat, first: nat, last: int, lines: seq<VariantLine>)

  predicate Merged(b: Block)
  {
    b.first != b.last
  }

  /** The lines of each report's proband variants. */
  function LinesOf(reports: seq<seq<ExportVariant>>): (r: seq<seq<VariantLine>>)
    ensures |r| == |reports| && forall i :: 0 <= i < |reports| ==> r[i] == Lines(reports[i])
  {
    seq(|reports|, i requires 0 <= i < |reports| => Lines(reports[i]))
  }

  /**
   * Where the reports from `i` on land when the next free row is `row`, given
   * each report's lines; a report without variants takes no rows.
   */
  function LayoutFrom(reports: seq<seq<ExportVariant>>, lines: seq<seq<VariantLine>>, i: nat, row: nat): (r: seq<Block>)
    requires i <= |reports| == |lines|
    decreases |reports| - i
  {
    if i == |reports| then []
    else if reports[i] == [] then LayoutFrom(reports, lines, i + 1, row)
    else [Block(i, row, row + |lines[i]| - 1, lines[i])] + LayoutFrom(reports, lines, i + 1, row + |lines[i]|)
  }

  /**
   * Each block belongs to a later report with variants and holds that
   * report's lines; the first starts at `row` and each next one where the
   * previous one ends, for a later report.
   */
  lemma {:induction false} LayoutBlocks(reports: seq<seq<ExportVariant>>, lines: seq<seq<VariantLine>>, i: nat, row: nat)
    requires i <= |reports| == |lines|
    ensures var r := LayoutFrom(reports, lines, i, row);
      && (forall k :: 0 <= k < |r| ==>
            && i <= r[k].report < |reports| && reports[r[k].report] != []
            && r[k].lines == lines[r[k].report]
            && r[k].last == r[k].first + |r[k].lines| - 1
            && r[k].first >= row)
      && (|r| > 0 ==> r[0].first == row)
      && (forall k :: 0 <= k < |r| - 1 ==> r[k + 1].first == r[k].first + |r[k].lines| && r[k].report < r[k + 1].report)
    decreases |reports| - i
  {
    if i < |reports| {
      if reports[i] == [] {
        LayoutBlocks(reports, lines, i + 1, row);
      } else {
        LayoutBlocks(reports, lines, i + 1, row + |lines[i]|);
        var rest := LayoutFrom(reports, lines, i + 1, row + |lines[i]|);
        var r := LayoutFrom(reports, lines, i, row);
        assert r == [Block(i, row, row + |lines[i]| - 1, lines[i])] + rest;
        assert forall k :: 0 < k < |r| ==> r[k] == rest[k - 1];
      }
    }
  }

  /** Every report from `i` on that has variants gets a block. */
  lemma {:induction false} LayoutCovers(reports: seq<seq<ExportVariant>>, lines: seq<seq<VariantLine>>, i: nat, row: nat, j: nat)
    requires i <= j < |reports| == |lines| && reports[j] != []
    ensures exists k :: 0 <= k < |LayoutFrom(reports, lines, i, row)| && LayoutFrom(reports, lines, i, row)[k].report == j
    decreases |reports| - i
  {
    var r := LayoutFrom(reports, lines, i, row);
    if i == j {
      assert r[0].report == j;
    } else if reports[i] == [] {
      LayoutCovers(reports, lines, i + 1, row, j);
    } else {
      var rest := LayoutFrom(reports, lines, i + 1, row + |lines[i]|);
      LayoutCovers(reports, lines, i + 1, row + |lines[i]|, j);
      var k :| 0 <= k < |rest| && rest[k].report == j;
      assert r[k + 1] == rest[k];
    }
  }

  /** The rare-disease sheet: reports in order, the first on row 2 under the headings. */
  function RareDiseaseLayout(reports: seq<seq<ExportVariant>>): seq<Block>
  {
    LayoutFrom(reports, LinesOf(reports), 0, 2)
  }

  /**
   * Row allocation: the blocks follow each other without gap or overlap from
   * row 2, every report with variants has one and only those do, each holds
   * its report's lines, and a block is merged exactly when it does not hold
   * one line.
   */
  lemma RareDiseaseRows(reports: seq<seq<ExportVariant>>)
    ensures var b := RareDiseaseLayout(reports);
      && (|b| > 0 ==> b[0].first == 2)
      && (forall k :: 0 <= k < |b| - 1 ==> b[k + 1].first == b[k].last + 1)
      && (forall k :: 0 <= k < |b| ==> b[k].report < |reports| && b[k].lines == Lines(reports[b[k].report]))
      && (forall k :: 0 <= k < |b| ==> (Merged(b[k]) <==> |b[k].lines| != 1))
      && (forall j :: 0 <= j < |reports| ==> (reports[j] != [] <==> exists k :: 0 <= k < |b| && b[k].report == j))
  {
    var lines := LinesOf(reports);
    var b := RareDiseaseLayout(reports);
    LayoutBlocks(reports, lines, 0, 2);
    forall j | 0 <= j < |reports| && reports[j] != []
      ensures exists k :: 0 <= k < |b| && b[k].report == j
    {
      LayoutCovers(reports, lines, 0, 2, j);
      var k :| 0 <= k < |LayoutFrom(reports, lines, 0, 2)| && LayoutFrom(reports, lines, 0, 2)[k].report == j;
      assert b[k].report == j;
    }
  }

  /** The rare-disease branch of `write_mdt_export`, with `row_count` and `v_rows`. */
  method WriteRareDiseaseRows(reports: seq<seq<ExportVariant>>) returns (blocks: seq<Block>)
    ensures blocks == RareDiseaseLayout(reports)
  {
    ghost var lines := LinesOf(reports);
    blocks := [];
    var rowCount := 2;
    for i := 0 to |reports|
      invariant blocks + LayoutFrom(reports, lines, i, rowCount) == RareDiseaseLayout(reports)
    {
      var probandVariants := reports[i];
      if probandVariants != [] {
        var pvOutput := PvOutput(probandVariants);
        assert pvOutput == lines[i];
        var vRows := rowCount;
        for k := 0 to |pvOutput|
          invariant vRows == rowCount + k
        {
          vRows := vRows + 1;
        }
        blocks := blocks + [Block(i, rowCount, vRows - 1, pvOutput)];
        rowCount := vRows;
      }
    }
  }

  /** The loop building `pv_output` for one report. */
  method PvOutput(probandVariants: seq<ExportVariant>) returns (pvOutput: seq<VariantLine>)
    ensures pvOutput == Lines(probandVariants)
  {
    pvOutput := [];
    for k := 0 to |probandVariants|
      invariant pvOutput == Lines(probandVariants[..k])
    {
      assert probandVariants[..k + 1][..k] == probandVariants[..k];
      var v := probandVariants[k];
      if v.hasTranscript && v.transcriptVariant.Some? {
        pvOutput := pvOutput + [LineOf(v)];
      }
    }
    assert probandVariants[..|probandVariants|] == probandVariants;
  }

  /** The proband columns A to L of a cancer report. */
  datatype CancerCase = CancerCase(
    gelId: string, irFamilyId: string, ldp: string, forename: string, surname: string, sex: string,
    dateOfBirth: string, nhsNumber: string, familyId: string, clinician: string,
    recruitingDisease: string, diseaseSubtype: string)

  datatype SheetRow = SheetRow(row: nat, cells: seq<string>)

  function CancerCells(c: CancerCase): seq<string>
  {
    [c.gelId, c.irFamilyId, c.ldp, c.forename, c.surname, c.sex, c.dateOfBirth,
     c.nhsNumber, c.familyId, c.clinician, c.recruitingDisease, c.diseaseSubtype]
  }

  /** The cancer branch of `write_mdt_export`: one row per report, from row 2 on, in order. */
  method WriteCancerRows(reports: seq<CancerCase>) returns (rows: seq<SheetRow>)
    ensures |rows| == |reports|
    ensures forall i :: 0 <= i < |rows| ==> rows[i].row == i + 2 && rows[i].cells == CancerCells(reports[i])
  {
    rows := [];
    var rowCount := 2;
    for i := 0 to |reports|
      invariant |rows| == i && rowCount == i + 2
      invariant forall j :: 0 <= j < i ==> rows[j].row == j + 2 && rows[j].cells == CancerCells(reports[j])
    {
      rows := rows + [SheetRow(rowCount, CancerCells(reports[i]))];
      rowCount := rowCount + 1;
    }
  }

  // ---------------------------------------------------------------------------
  // monthly_not_completed
  // ---------------------------------------------------------------------------

  /** One MDT report: its case status and the participant line, none when the proband does not exist. */
  datatype MonthlyCase = MonthlyCase(caseStatus: string, participant: Option<string>)

  datatype MonthlyMdt = MonthlyMdt(year: nat, month: nat, cases: seq<MonthlyCase>)

  /** Two spreadsheet columns per month: the counts and the participants not completed. */
  datatype MonthColumn = MonthColumn(
    column: nat, title: string, completed: nat, notCompleted: nat, header: bool, participants: seq<string>)

  /** The years of the summary, as the text the source lists them in. */
  const Years: seq<string> := ["2017", "2018", "2019", "2020"]

  const MonthNames: seq<string> := ["Jan", "Feb", "Mar", "Apr", "May", "June", "July", "Aug", "Sep", "Oct", "Nov", "Dec"]

  predicate IsCompleted(c: MonthlyCase)
  {
    c.caseStatus == "C"
  }

  /** `all_mdts.filter(date_of_mdt__year=year, date_of_mdt__month=month)`; the year lookup compares the year's decimal text. */
  function MdtsIn(mdts: seq<MonthlyMdt>, year: string, month: nat): seq<MonthlyMdt>
  {
    Filter(mdts, (m: MonthlyMdt) => NatToString(m.year) == year && m.month == month)
  }

  /** The reports of a list of MDTs, MDT by MDT. */
  function CasesOf(mdts: seq<MonthlyMdt>): seq<MonthlyCase>
  {
    if mdts == [] then [] else CasesOf(mdts[..|mdts| - 1]) + mdts[|mdts| - 1].cases
  }

  /** The participant lines written under "Participant IDs", skipping cases without a proband. */
  function Participants(cases: seq<MonthlyCase>): seq<string>
  {
    if cases == [] then []
    else
      Participants(cases[..|cases| - 1])
      + (if cases[|cases| - 1].participant.Some? then [cases[|cases| - 1].participant.value] else [])
  }

  predicate NotCompleted(c: MonthlyCase)
  {
    !IsCompleted(c)
  }

  /** The column pair of one month: the reports of its MDTs, counted by status, and the participants not completed. */
  function MonthColumnOf(mdts: seq<MonthlyMdt>, year: string, month: nat, column: nat, title: string): MonthColumn
  {
    var cases := CasesOf(MdtsIn(mdts, year, month));
    var notCompleted := Filter(cases, NotCompleted);
    MonthColumn(column, title, |Filter(cases, IsCompleted)|, |notCompleted|, notCompleted != [], Participants(notCompleted))
  }

  /** The column pair of month `m + 1` of the `y`-th year from 2017; months sit two columns apart. */
  function MonthSummary(mdts: seq<MonthlyMdt>, y: nat, m: nat): MonthColumn
    requires y < 4 && m < 12
  {
    MonthColumnOf(mdts, Years[y], m + 1, 2 * (12 * y + m), Years[y] + "_" + MonthNames[m])
  }

  /**
   * Every report of a month's MDTs is counted once, as completed exactly when
   * its case status is 'C', and at most one participant line is written per
   * case not completed.
   */
  lemma MonthPartition(mdts: seq<MonthlyMdt>, y: nat, m: nat)
    requires y < 4 && m < 12
    ensures var cases := CasesOf(MdtsIn(mdts, Years[y], m + 1));
      && MonthSummary(mdts, y, m).completed + MonthSummary(mdts, y, m).notCompleted == |cases|
      && MonthSummary(mdts, y, m).completed == Count(cases, IsCompleted)
      && MonthSummary(mdts, y, m).header == (MonthSummary(mdts, y, m).notCompleted > 0)
      && |MonthSummary(mdts, y, m).participants| <= MonthSummary(mdts, y, m).notCompleted
  {
    var cases := CasesOf(MdtsIn(mdts, Years[y], m + 1));
    FilterCount(cases, IsCompleted);
    FilterCount(cases, NotCompleted);
    CountComplement(cases, IsCompleted, NotCompleted);
    ParticipantsShorter(Filter(cases, NotCompleted));
  }

  lemma {:induction false} ParticipantsShorter(cases: seq<MonthlyCase>)
    ensures |Participants(cases)| <= |cases|
    decreases |cases|
  {
    if cases != [] {
      ParticipantsShorter(cases[..|cases| - 1]);
    }
  }

  /** The twelve column pairs of the `y`-th year from 2017. */
  function YearSummary(mdts: seq<MonthlyMdt>, y: nat): (r: seq<MonthColumn>)
    requires y < 4
    ensures |r| == 12 && forall m :: 0 <= m < 12 ==> r[m] == MonthSummary(mdts, y, m)
  {
    seq(12, m requires 0 <= m < 12 => MonthSummary(mdts, y, m))
  }

  /** The column pairs of the first `n` years from 2017, in order. */
  function Summaries(mdts: seq<MonthlyMdt>, n: nat): seq<MonthColumn>
    requires n <= 4
  {
    if n == 0 then [] else Summaries(mdts, n - 1) + YearSummary(mdts, n - 1)
  }

  /** Month `m + 1` of year `y` is the `12 * y + m`-th column pair of the summary. */
  lemma {:induction false} SummariesAt(mdts: seq<MonthlyMdt>, n: nat)
    requires n <= 4
    ensures |Summaries(mdts, n)| == 12 * n
    ensures forall y, m :: 0 <= y < n && 0 <= m < 12 ==> Summaries(mdts, n)[12 * y + m] == MonthSummary(mdts, y, m)
  {
    if n > 0 {
      SummariesAt(mdts, n - 1);
      var prev := Summaries(mdts, n - 1);
      forall y, m | 0 <= y < n && 0 <= m < 12
        ensures Summaries(mdts, n)[12 * y + m] == MonthSummary(mdts, y, m)
      {
        if y < n - 1 {
          assert Summaries(mdts, n)[12 * y + m] == prev[12 * y + m];
        } else {
          assert Summaries(mdts, n)[12 * y + m] == YearSummary(mdts, n - 1)[m];
        }
      }
    }
  }

  /** `monthly_not_completed`: the 48 months from January 2017 to December 2020, year by year. */
  method MonthlyNotCompleted(mdts: seq<MonthlyMdt>) returns (columns: seq<MonthColumn>)
    ensures |columns| == 48
    ensures forall y, m :: 0 <= y < 4 && 0 <= m < 12 ==> columns[12 * y + m] == MonthSummary(mdts, y, m)
  {
    columns := [];
    var monthCount := 0;
    for y := 0 to 4
      invariant |columns| == 12 * y && monthCount == 2 * |columns|
      invariant columns == Summaries(mdts, y)
    {
      var year := MonthsOfYear(mdts, y, monthCount);
      columns := columns + year;
      monthCount := monthCount + 24;
    }
    SummariesAt(mdts, 4);
  }

  /** The inner loop of `monthly_not_completed`: the twelve months of the `y`-th year, from column `monthCount` on. */
  method MonthsOfYear(mdts: seq<MonthlyMdt>, y: nat, monthCount: nat) returns (columns: seq<MonthColumn>)
    requires y < 4 && monthCount == 24 * y
    ensures |columns| == 12
    ensures forall m :: 0 <= m < 12 ==> columns[m] == MonthSummary(mdts, y, m)
  {
    ghost var summary := YearSummary(mdts, y);
    columns := [];
    var year := Years[y];
    var count := monthCount;
    for m := 1 to 13
      invariant |columns| == m - 1 && count == 2 * (12 * y + |columns|)
      invariant columns == summary[..m - 1]
    {
      var column := MonthOf(mdts, year, m, count, year + "_" + MonthNames[m - 1]);
      ghost var j := m - 1;
      assert j + 1 == m && count == 2 * (12 * y + j);
      assert column == MonthSummary(mdts, y, j) == summary[j];
      assert summary[..m] == summary[..j] + [summary[j]];
      columns := columns + [column];
      count := count + 2;
    }
    assert columns == summary;
  }

  /** One month of `monthly_not_completed`: the loops over its MDTs, their reports and the cases not completed. */
  method MonthOf(mdts: seq<MonthlyMdt>, year: string, month: nat, monthCount: nat, title: string) returns (c: MonthColumn)
    ensures c == MonthColumnOf(mdts, year, month, monthCount, title)
  {
    var completedCases, notcompletedCases := SortCases(MdtsIn(mdts, year, month));
    var participants := ParticipantLines(notcompletedCases);
    c := MonthColumn(monthCount, title, |completedCases|, |notcompletedCases|, notcompletedCases != [], participants);
  }

  /** The loop over a month's MDTs, sorting their reports by status. */
  method SortCases(monthMdts: seq<MonthlyMdt>) returns (completedCases: seq<MonthlyCase>, notcompletedCases: seq<MonthlyCase>)
    ensures completedCases == Filter(CasesOf(monthMdts), IsCompleted)
    ensures notcompletedCases == Filter(CasesOf(monthMdts), NotCompleted)
  {
    completedCases, notcompletedCases := [], [];
    for i := 0 to |monthMdts|
      invariant completedCases == Filter(CasesOf(monthMdts[..i]), IsCompleted)
      invariant notcompletedCases == Filter(CasesOf(monthMdts[..i]), NotCompleted)
    {
      assert monthMdts[..i + 1][..i] == monthMdts[..i];
      var completed, notCompleted := SortReports(monthMdts[i].cases);
      FilterAppend(CasesOf(monthMdts[..i]), monthMdts[i].cases, IsCompleted);
      FilterAppend(CasesOf(monthMdts[..i]), monthMdts[i].cases, NotCompleted);
      completedCases := completedCases + completed;
      notcompletedCases := notcompletedCases + notCompleted;
    }
    assert monthMdts[..|monthMdts|] == monthMdts;
  }

  /** The loop over one MDT's reports: 'C' goes to the completed cases, any other status to the rest. */
  method SortReports(reports: seq<MonthlyCase>) returns (completed: seq<MonthlyCase>, notCompleted: seq<MonthlyCase>)
    ensures completed == Filter(reports, IsCompleted)
    ensures notCompleted == Filter(reports, NotCompleted)
  {
    completed, notCompleted := [], [];
    for j := 0 to |reports|
      invariant completed == Filter(reports[..j], IsCompleted)
      invariant notCompleted == Filter(reports[..j], NotCompleted)
    {
      assert reports[..j + 1][..j] == reports[..j];
      if reports[j].caseStatus != "C" {
        notCompleted := notCompleted + [reports[j]];
      } else {
        completed := completed + [reports[j]];
      }
    }
    assert reports[..|reports|] == reports;
  }

  /** The loop writing the participant lines of the cases not completed. */
  method ParticipantLines(cases: seq<MonthlyCase>) returns (participants: seq<string>)
    ensures participants == Participants(cases)
  {
    participants := [];
    for j := 0 to |cases|
      invariant participants == Participants(cases[..j])
    {
      assert cases[..j + 1][..j] == cases[..j];
      if cases[j].participant.Some? {
        participants := participants + [cases[j].participant.value];
      }
    }
    assert cases[..|cases|] == cases;
  }

  // ---------------------------------------------------------------------------
  // write_gtab_template: the variant sections
  // ---------------------------------------------------------------------------

  /** A proband variant as the GTAB template reads it. */
  datatype GtabVariant = GtabVariant(
    maxTier: Option<int>, somatic: bool, transcript: Option<string>, transcriptVariant: Option<TranscriptVariant>)

  /** The sections of the GTAB template: the somatic Domains 0, 1 and 2 and the germline variants. */
  datatype Section = Domain(tier: int) | Germline

  predicate InSection(s: Section, v: GtabVariant)
  {
    match s
    case Domain(t) => v.maxTier == Some(t) && v.somatic
    case Germline => !v.somatic
  }

  /** One numbered entry: the count, the variant's position, and its HGVS fields. */
  datatype GtabEntry = GtabEntry(number: nat, variant: nat, hgvsC: Option<string>, hgvsP: Option<string>)

  /**
   * The HGVS field as `write_gtab_template` computes it: empty gives none, and
   * a value without `:` falls into the `else` branch that indexes `[1]` of a
   * one-element list.
   */
  function GtabHgvsAsWritten(hgvs: string): (r: Result<Option<string>>)
  {
    if hgvs == "" then Ok(None)
    else
      var parts := Split(hgvs, ':');
      if |parts| > 1 then Ok(Some(parts[1])) else Err(IndexError)
  }

  /** As written, a non-empty HGVS value without a transcript prefix aborts the template. */
  lemma GtabHgvsIndexError()
    ensures GtabHgvsAsWritten("c.76A>T") == Err(IndexError)
    ensures GtabHgvs("c.76A>T") == Some("c.76A>T")
  {
    assert ':' !in "c.76A>T";
  }

  /** The HGVS field as evidently intended: the second field when there is one, else the value itself. */
  function GtabHgvs(hgvs: string): (r: Option<string>)
    ensures r.None? <==> hgvs == ""
    ensures hgvs != "" && ':' !in hgvs ==> r == Some(hgvs)
    ensures ':' in hgvs ==> r == HgvsC(hgvs)
    ensures GtabHgvsAsWritten(hgvs).Ok? ==> GtabHgvsAsWritten(hgvs).value == r
  {
    SplitSingle(hgvs, ':');
    if hgvs == "" then None
    else
      var parts := Split(hgvs, ':');
      if |parts| > 1 then Some(parts[1]) else Some(hgvs)
  }

  /** A non-empty HGVS value with no transcript prefix. */
  predicate Unprefixed(hgvs: string)
  {
    hgvs != "" && ':' !in hgvs
  }

  /**
   * The HGVS rule a run of the template applies: the one `write_gtab_template`
   * has, or the evidently intended one that keeps an unprefixed value.
   */
  datatype HgvsRule = AsWritten | Intended

  /** The HGVS field under a rule: only the rule as written can fail, and it fails exactly on an unprefixed value. */
  function HgvsField(rule: HgvsRule, hgvs: string): (r: Result<Option<string>>)
    ensures r.Err? <==> rule == AsWritten && Unprefixed(hgvs)
    ensures r.Err? ==> r.error == IndexError
    ensures r.Ok? ==> r.value == GtabHgvs(hgvs)
  {
    SplitSingle(hgvs, ':');
    match rule
    case AsWritten => GtabHgvsAsWritten(hgvs)
    case Intended => Ok(GtabHgvs(hgvs))
  }

  /** A section variant the template cannot write under the rule. */
  predicate EntryFails(rule: HgvsRule, v: GtabVariant)
  {
    || v.transcriptVariant.None?
    || v.transcript.None?
    || (rule == AsWritten && (Unprefixed(v.transcriptVariant.value.hgvsC) || Unprefixed(v.transcriptVariant.value.hgvsP)))
  }

  /**
   * One entry of a section loop, in the order the loop body reads its
   * attributes: the transcript variant's `hgvs_c`, its `hgvs_p`, then the
   * transcript's gene. A missing object raises AttributeError where it is
   * first read, an unprefixed HGVS value raises IndexError under the rule as
   * written.
   */
  function EntryOf(rule: HgvsRule, v: GtabVariant, count: nat, i: nat): (r: Result<GtabEntry>)
    ensures r.Err? <==> EntryFails(rule, v)
    ensures r.Ok? ==> r.value == GtabEntry(count, i, GtabHgvs(v.transcriptVariant.value.hgvsC), GtabHgvs(v.transcriptVariant.value.hgvsP))
    ensures v.transcriptVariant.Some? && rule == AsWritten && Unprefixed(v.transcriptVariant.value.hgvsC) ==> r == Err(IndexError)
    ensures v.transcriptVariant.None? ==> r == Err(AttributeError)
  {
    if v.transcriptVariant.None? then Err(AttributeError)
    else
      var tv := v.transcriptVariant.value;
      match HgvsField(rule, tv.hgvsC)
      case Err(e) => Err(e)
      case Ok(c) =>
        match HgvsField(rule, tv.hgvsP)
        case Err(e) => Err(e)
        case Ok(p) =>
          if v.transcript.None? then Err(AttributeError) else Ok(GtabEntry(count, i, c, p))
  }

  /** The entries of one section from the `i`-th variant on, numbered from `count`; the first entry that fails ends the section. */
  function SectionFrom(vs: seq<GtabVariant>, s: Section, i: nat, count: nat, rule: HgvsRule): Result<seq<GtabEntry>>
    requires i <= |vs|
    decreases |vs| - i
  {
    if i == |vs| then Ok([])
    else if !InSection(s, vs[i]) then SectionFrom(vs, s, i + 1, count, rule)
    else
      match EntryOf(rule, vs[i], count, i)
      case Err(e) => Err(e)
      case Ok(entry) => Prefixed([entry], SectionFrom(vs, s, i + 1, count + 1, rule))
  }

  /** The entries already written in front of those still to come, or the failure that ends the section. */
  function Prefixed(entries: seq<GtabEntry>, r: Result<seq<GtabEntry>>): Result<seq<GtabEntry>>
  {
    match r
    case Err(e) => Err(e)
    case Ok(rest) => Ok(entries + rest)
  }

  /**
   * The entries are numbered consecutively from `count` and name variants of
   * the section from `i` on, in increasing position.
   */
  lemma {:induction false} SectionFromOrdered(vs: seq<GtabVariant>, s: Section, i: nat, count: nat, rule: HgvsRule)
    requires i <= |vs| && SectionFrom(vs, s, i, count, rule).Ok?
    ensures var r := SectionFrom(vs, s, i, count, rule).value;
      && (forall k :: 0 <= k < |r| ==> r[k].number == count + k)
      && (forall k :: 0 <= k < |r| ==> i <= r[k].variant < |vs| && InSection(s, vs[r[k].variant]))
      && (forall k :: 0 <= k < |r| - 1 ==> r[k].variant < r[k + 1].variant)
    decreases |vs| - i
  {
    if i < |vs| {
      if !InSection(s, vs[i]) {
        SectionFromOrdered(vs, s, i + 1, count, rule);
      } else {
        SectionFromOrdered(vs, s, i + 1, count + 1, rule);
        var rest := SectionFrom(vs, s, i + 1, count + 1, rule).value;
        var r := SectionFrom(vs, s, i, count, rule).value;
        assert forall k :: 0 < k < |r| ==> r[k] == rest[k - 1];
      }
    }
  }

  /** Every variant of the section from `i` on has an entry. */
  lemma {:induction false} SectionFromCovers(vs: seq<GtabVariant>, s: Section, i: nat, count: nat, j: nat, rule: HgvsRule)
    requires i <= j < |vs| && InSection(s, vs[j]) && SectionFrom(vs, s, i, count, rule).Ok?
    ensures exists k :: 0 <= k < |SectionFrom(vs, s, i, count, rule).value| && SectionFrom(vs, s, i, count, rule).value[k].variant == j
    decreases |vs| - i
  {
    var r := SectionFrom(vs, s, i, count, rule).value;
    if i == j {
      assert r[0].variant == j;
    } else if !InSection(s, vs[i]) {
      SectionFromCovers(vs, s, i + 1, count, j, rule);
    } else {
      SectionFromCovers(vs, s, i + 1, count + 1, j, rule);
      var rest := SectionFrom(vs, s, i + 1, count + 1, rule).value;
      var k :| 0 <= k < |rest| && rest[k].variant == j;
      assert r[k + 1] == rest[k];
    }
  }

  /** A section fails exactly when one of its variants from `i` on cannot be written. */
  lemma {:induction false} SectionFromFails(vs: seq<GtabVariant>, s: Section, i: nat, count: nat, rule: HgvsRule)
    requires i <= |vs|
    ensures SectionFrom(vs, s, i, count, rule).Err? <==>
      exists j :: i <= j < |vs| && InSection(s, vs[j]) && EntryFails(rule, vs[j])
    decreases |vs| - i
  {
    if i < |vs| {
      var next := if InSection(s, vs[i]) then count + 1 else count;
      SectionFromFails(vs, s, i + 1, next, rule);
      if exists j :: i <= j < |vs| && InSection(s, vs[j]) && EntryFails(rule, vs[j]) {
        var j :| i <= j < |vs| && InSection(s, vs[j]) && EntryFails(rule, vs[j]);
        if j > i {
          assert i + 1 <= j;
        }
      }
    }
  }

  /** Where the template as written succeeds, it writes what the intended template writes. */
  lemma {:induction false} SectionFromAgrees(vs: seq<GtabVariant>, s: Section, i: nat, count: nat)
    requires i <= |vs| && SectionFrom(vs, s, i, count, AsWritten).Ok?
    ensures SectionFrom(vs, s, i, count, AsWritten) == SectionFrom(vs, s, i, count, Intended)
    decreases |vs| - i
  {
    if i < |vs| {
      SectionFromAgrees(vs, s, i + 1, if InSection(s, vs[i]) then count + 1 else count);
    }
  }

  datatype GtabSections = GtabSections(domain0: seq<GtabEntry>, domain1: seq<GtabEntry>,
                                       domain2: seq<GtabEntry>, germline: seq<GtabEntry>)

  /** The four sections in the order the template writes them; the first failure ends the template. */
  function Gtab(vs: seq<GtabVariant>, rule: HgvsRule): Result<GtabSections>
  {
    match SectionFrom(vs, Domain(0), 0, 1, rule)
    case Err(e) => Err(e)
    case Ok(d0) =>
      match SectionFrom(vs, Domain(1), 0, 1, rule)
      case Err(e) => Err(e)
      case Ok(d1) =>
        match SectionFrom(vs, Domain(2), 0, 1, rule)
        case Err(e) => Err(e)
        case Ok(d2) =>
          match SectionFrom(vs, Germline, 0, 1, rule)
          case Err(e) => Err(e)
          case Ok(g) => Ok(GtabSections(d0, d1, d2, g))
  }

  /** Entries of one section name exactly the variants of that section, in order, numbered from 1. */
  predicate SectionLists(vs: seq<GtabVariant>, s: Section, entries: seq<GtabEntry>)
  {
    && (forall k :: 0 <= k < |entries| ==> entries[k].number == k + 1)
    && (forall k :: 0 <= k < |entries| ==> entries[k].variant < |vs| && InSection(s, vs[entries[k].variant]))
    && (forall j :: 0 <= j < |vs| && InSection(s, vs[j]) ==> exists k :: 0 <= k < |entries| && entries[k].variant == j)
  }

  /** A variant some section of the template lists: a germline one, or a somatic one of tier 0, 1 or 2. */
  predicate Listed(v: GtabVariant)
  {
    v.somatic ==> v.maxTier in {Some(0), Some(1), Some(2)}
  }

  /**
   * Sectioning: Domain 0, 1 and 2 list exactly the somatic variants of that
   * tier and the germline section the others, each numbered from 1; a
   * somatic variant of tier 3 or none is in no section; and the template
   * fails exactly when some listed variant cannot be written.
   */
  lemma GtabSectioning(vs: seq<GtabVariant>, rule: HgvsRule)
    ensures Gtab(vs, rule).Ok? ==>
      && SectionLists(vs, Domain(0), Gtab(vs, rule).value.domain0)
      && SectionLists(vs, Domain(1), Gtab(vs, rule).value.domain1)
      && SectionLists(vs, Domain(2), Gtab(vs, rule).value.domain2)
      && SectionLists(vs, Germline, Gtab(vs, rule).value.germline)
    ensures forall v: GtabVariant :: !Listed(v) ==>
      !InSection(Domain(0), v) && !InSection(Domain(1), v) && !InSection(Domain(2), v) && !InSection(Germline, v)
    ensures Gtab(vs, rule).Err? <==> exists j :: 0 <= j < |vs| && Listed(vs[j]) && EntryFails(rule, vs[j])
  {
    SectionFromFails(vs, Domain(0), 0, 1, rule);
    SectionFromFails(vs, Domain(1), 0, 1, rule);
    SectionFromFails(vs, Domain(2), 0, 1, rule);
    SectionFromFails(vs, Germline, 0, 1, rule);
    if Gtab(vs, rule).Ok? {
      SectionListed(vs, Domain(0), rule);
      SectionListed(vs, Domain(1), rule);
      SectionListed(vs, Domain(2), rule);
      SectionListed(vs, Germline, rule);
    }
    forall j | 0 <= j < |vs| && Listed(vs[j])
      ensures InSection(Domain(0), vs[j]) || InSection(Domain(1), vs[j]) || InSection(Domain(2), vs[j]) || InSection(Germline, vs[j])
    {
    }
  }

  lemma SectionListed(vs: seq<GtabVariant>, s: Section, rule: HgvsRule)
    requires SectionFrom(vs, s, 0, 1, rule).Ok?
    ensures SectionLists(vs, s, SectionFrom(vs, s, 0, 1, rule).value)
  {
    SectionFromOrdered(vs, s, 0, 1, rule);
    forall j | 0 <= j < |vs| && InSection(s, vs[j])
      ensures exists k :: 0 <= k < |SectionFrom(vs, s, 0, 1, rule).value| && SectionFrom(vs, s, 0, 1, rule).value[k].variant == j
    {
      SectionFromCovers(vs, s, 0, 1, j, rule);
    }
  }

  /**
   * The template as written aborts on a listed variant whose transcript
   * variant has an unprefixed HGVS value; the intended template fails only on
   * a listed variant without a transcript or transcript variant, and it
   * writes what the template as written writes wherever that succeeds.
   */
  lemma GtabIntended(vs: seq<GtabVariant>)
    ensures (exists j :: 0 <= j < |vs| && Listed(vs[j]) && vs[j].transcriptVariant.Some? && Unprefixed(vs[j].transcriptVariant.value.hgvsC))
      ==> Gtab(vs, AsWritten).Err?
    ensures Gtab(vs, Intended).Err? <==>
      exists j :: 0 <= j < |vs| && Listed(vs[j]) && (vs[j].transcriptVariant.None? || vs[j].transcript.None?)
    ensures Gtab(vs, AsWritten).Ok? ==> Gtab(vs, AsWritten) == Gtab(vs, Intended)
  {
    GtabSectioning(vs, AsWritten);
    GtabSectioning(vs, Intended);
    if Gtab(vs, AsWritten).Ok? {
      SectionFromAgrees(vs, Domain(0), 0, 1);
      SectionFromAgrees(vs, Domain(1), 0, 1);
      SectionFromAgrees(vs, Domain(2), 0, 1);
      SectionFromAgrees(vs, Germline, 0, 1);
    }
  }

  /**
   * One section loop of `write_gtab_template` with its `count`; the loop body
   * reads `hgvs_c`, then `hgvs_p`, then the transcript's gene.
   */
  method WriteGtabSection(vs: seq<GtabVariant>, s: Section) returns (r: Result<seq<GtabEntry>>)
    ensures r == SectionFrom(vs, s, 0, 1, AsWritten)
  {
    var entries := [];
    var count := 1;
    assert SectionFrom(vs, s, 0, 1, AsWritten).Ok? ==>
      [] + SectionFrom(vs, s, 0, 1, AsWritten).value == SectionFrom(vs, s, 0, 1, AsWritten).value;
    for i := 0 to |vs|
      invariant count == |entries| + 1
      invariant SectionFrom(vs, s, 0, 1, AsWritten) == Prefixed(entries, SectionFrom(vs, s, i, count, AsWritten))
    {
      var v := vs[i];
      if InSection(s, v) {
        if v.transcriptVariant.None? {
          return Err(AttributeError);
        }
        var hgvsC := GtabHgvsAsWritten(v.transcriptVariant.value.hgvsC);
        if hgvsC.Err? {
          return Err(hgvsC.error);
        }
        var hgvsP := GtabHgvsAsWritten(v.transcriptVariant.value.hgvsP);
        if hgvsP.Err? {
          return Err(hgvsP.error);
        }
        if v.transcript.None? {
          return Err(AttributeError);
        }
        var entry := GtabEntry(count, i, hgvsC.value, hgvsP.value);
        PrefixedAppend(entries, entry, SectionFrom(vs, s, i + 1, count + 1, AsWritten));
        entries := entries + [entry];
        count := count + 1;
      }
    }
    assert entries + [] == entries;
    return Ok(entries);
  }

  lemma PrefixedAppend(entries: seq<GtabEntry>, entry: GtabEntry, r: Result<seq<GtabEntry>>)
    ensures Prefixed(entries, Prefixed([entry], r)) == Prefixed(entries + [entry], r)
  {
    if r.Ok? {
      assert entries + ([entry] + r.value) == (entries + [entry]) + r.value;
    }
  }

  /** `write_gtab_template`'s four section loops, in order. */
  method WriteGtabSections(vs: seq<GtabVariant>) returns (r: Result<GtabSections>)
    ensures r == Gtab(vs, AsWritten)
  {
    var d0 := WriteGtabSection(vs, Domain(0));
    if d0.Err? { return Err(d0.error); }
    var d1 := WriteGtabSection(vs, Domain(1));
    if d1.Err? { return Err(d1.error); }
    var d2 := WriteGtabSection(vs, Domain(2));
    if d2.Err? { return Err(d2.error); }
    var g := WriteGtabSection(vs, Germline);
    if g.Err? { return Err(g.error); }
    return Ok(GtabSections(d0.value, d1.value, d2.value, g.value));
  }

  // ---------------------------------------------------------------------------
  // write_mdt_outcome_template: the transcript pre-check
  // ---------------------------------------------------------------------------

  const SelectTranscriptsMessage: string := "Please select transcripts for all variants before exporting\n"

  /**
   * One row of the outcome table, from the variant's `get_transcript()` and
   * `get_transcript_variant()`: a raised lookup propagates, and a missing
   * transcript or transcript variant stops the export with the ValueError.
   */
  function OutcomeStep(transcript: Option<nat>, transcriptVariant: Result<Option<nat>>): (r: Result<()>)
    ensures r.Ok? <==> transcript.Some? && transcriptVariant.Ok? && transcriptVariant.value.Some?
    ensures transcriptVariant.Err? ==> r == Err(transcriptVariant.error)
    ensures transcriptVariant.Ok? && !r.Ok? ==> r == Err(ValueError(SelectTranscriptsMessage))
  {
    match transcriptVariant
    case Err(e) => Err(e)
    case Ok(tv) =>
      if transcript.None? || tv.None? then Err(ValueError(SelectTranscriptsMessage)) else Ok(())
  }

  /** How many leading proband variants pass before the first that fails. */
  function Passing(transcriptOf: Linked<VariantFields> -> Option<nat>, lookup: Lookup,
                   pvs: seq<Linked<VariantFields>>): (n: nat)
    ensures n <= |pvs|
    ensures forall k :: 0 <= k < n ==> OutcomeStep(transcriptOf(pvs[k]), lookup(pvs[k])).Ok?
    ensures n < |pvs| ==> OutcomeStep(transcriptOf(pvs[n]), lookup(pvs[n])).Err?
  {
    if pvs == [] then 0
    else if OutcomeStep(transcriptOf(pvs[0]), lookup(pvs[0])).Err? then 0
    else 1 + Passing(transcriptOf, lookup, pvs[1..])
  }

  /** The loop of `write_mdt_outcome_template` over the report's proband variants: the number of table rows, or the first failure. */
  function OutcomeCheck(transcriptOf: Linked<VariantFields> -> Option<nat>, lookup: Lookup,
                        pvs: seq<Linked<VariantFields>>): Result<nat>
  {
    var n := Passing(transcriptOf, lookup, pvs);
    if n == |pvs| then Ok(n) else Err(OutcomeStep(transcriptOf(pvs[n]), lookup(pvs[n])).error)
  }

  /** A variant that passes at or before the first failure is not the first failure. */
  lemma PassingStep(transcriptOf: Linked<VariantFields> -> Option<nat>, lookup: Lookup,
                    pvs: seq<Linked<VariantFields>>, k: nat)
    requires k < |pvs| && k <= Passing(transcriptOf, lookup, pvs)
    requires OutcomeStep(transcriptOf(pvs[k]), lookup(pvs[k])).Ok?
    ensures k + 1 <= Passing(transcriptOf, lookup, pvs)
  {
  }

  /** The first variant that fails decides the outcome check. */
  lemma OutcomeFailsAt(transcriptOf: Linked<VariantFields> -> Option<nat>, lookup: Lookup,
                       pvs: seq<Linked<VariantFields>>, k: nat)
    requires k < |pvs| && k <= Passing(transcriptOf, lookup, pvs)
    requires OutcomeStep(transcriptOf(pvs[k]), lookup(pvs[k])).Err?
    ensures Passing(transcriptOf, lookup, pvs) == k
    ensures OutcomeCheck(transcriptOf, lookup, pvs) == Err(OutcomeStep(transcriptOf(pvs[k]), lookup(pvs[k])).error)
  {
  }

  /**
   * The outcome template is written exactly when every proband variant has a
   * transcript and a transcript variant, with one row each; when no lookup
   * raises, a variant without them gives the ValueError.
   */
  lemma OutcomeCheckMeaning(transcriptOf: Linked<VariantFields> -> Option<nat>, lookup: Lookup,
                            pvs: seq<Linked<VariantFields>>)
    ensures OutcomeCheck(transcriptOf, lookup, pvs).Ok? <==>
      AllSelected(lookup, pvs) && forall k :: 0 <= k < |pvs| ==> transcriptOf(pvs[k]).Some?
    ensures OutcomeCheck(transcriptOf, lookup, pvs).Ok? ==> OutcomeCheck(transcriptOf, lookup, pvs).value == |pvs|
    ensures LookupsSucceed(lookup, pvs) && !OutcomeCheck(transcriptOf, lookup, pvs).Ok? ==>
      OutcomeCheck(transcriptOf, lookup, pvs) == Err(ValueError(SelectTranscriptsMessage))
  {
    var n := Passing(transcriptOf, lookup, pvs);
    if n < |pvs| {
      assert !(lookup(pvs[n]).Ok? && lookup(pvs[n]).value.Some? && transcriptOf(pvs[n]).Some?);
    } else {
      forall k | 0 <= k < |pvs|
        ensures lookup(pvs[k]).Ok? && lookup(pvs[k]).value.Some? && transcriptOf(pvs[k]).Some?
      {
        assert OutcomeStep(transcriptOf(pvs[k]), lookup(pvs[k])).Ok?;
      }
    }
  }

  /** A variant with a transcript variant has a selected transcript, so `transcript is None` never decides on its own. */
  lemma TranscriptOfSelected(ptvs: seq<Ptv>, tvs: seq<TranscriptVariant>, pv: Linked<VariantFields>)
    ensures TranscriptLookup(ptvs, tvs)(pv).Ok? && TranscriptLookup(ptvs, tvs)(pv).value.Some? ==>
      TranscriptOf(ptvs)(pv).Some?
  {
  }

  /** Over the tables, the outcome check passes exactly when every proband variant of the report has its transcript variant. */
  lemma OutcomeTablesMeaning(ptvs: seq<Ptv>, tvs: seq<TranscriptVariant>, pvs: seq<Linked<VariantFields>>)
    ensures OutcomeCheck(TranscriptOf(ptvs), TranscriptLookup(ptvs, tvs), pvs).Ok? <==>
      AllSelected(TranscriptLookup(ptvs, tvs), pvs)
  {
    OutcomeCheckMeaning(TranscriptOf(ptvs), TranscriptLookup(ptvs, tvs), pvs);
    forall k | 0 <= k < |pvs| {
      TranscriptOfSelected(ptvs, tvs, pvs[k]);
    }
  }

  /** Some proband variant of the sequence has primary key `q`. */
  predicate IdAmong(pvs: seq<Linked<VariantFields>>, q: nat)
  {
    exists k :: 0 <= k < |pvs| && pvs[k].id == q
  }

  /**
   * `create_rare_disease_report` for each proband variant in turn: the rare
   * disease report rows and the next primary key afterwards.
   */
  function CreateReports(rows: seq<RareDiseaseReport>, nextId: nat, pvs: seq<Linked<VariantFields>>)
    : (seq<RareDiseaseReport>, nat)
  {
    if pvs == [] then (rows, nextId)
    else
      var (before, id) := CreateReports(rows, nextId, pvs[..|pvs| - 1]);
      var pv := pvs[|pvs| - 1].id;
      (WithRareDiseaseReport(before, pv, id), if HasRareDiseaseReport(before, pv) then id else id + 1)
  }

  /** One more variant: its report is created after those of the variants before it. */
  lemma CreateReportsSnoc(rows: seq<RareDiseaseReport>, nextId: nat, pvs: seq<Linked<VariantFields>>, k: nat)
    requires k < |pvs|
    ensures var before := CreateReports(rows, nextId, pvs[..k]);
      && CreateReports(rows, nextId, pvs[..k + 1]).0 == WithRareDiseaseReport(before.0, pvs[k].id, before.1)
      && CreateReports(rows, nextId, pvs[..k + 1]).1 == if HasRareDiseaseReport(before.0, pvs[k].id) then before.1 else before.1 + 1
  {
    assert pvs[..k + 1][..k] == pvs[..k];
  }

  /**
   * Creating the reports keeps every existing row, and afterwards exactly the
   * variants that had a report or were among those passed have one.
   */
  lemma {:induction false} CreateReportsMeaning(rows: seq<RareDiseaseReport>, nextId: nat, pvs: seq<Linked<VariantFields>>)
    ensures rows <= CreateReports(rows, nextId, pvs).0
    ensures forall q: nat :: HasRareDiseaseReport(CreateReports(rows, nextId, pvs).0, q) <==>
      HasRareDiseaseReport(rows, q) || IdAmong(pvs, q)
  {
    if pvs != [] {
      var n := |pvs| - 1;
      CreateReportsMeaning(rows, nextId, pvs[..n]);
      var (before, id) := CreateReports(rows, nextId, pvs[..n]);
      RareDiseaseReportsGrow(before, pvs[n].id, id);
      forall q: nat ensures IdAmong(pvs, q) <==> IdAmong(pvs[..n], q) || pvs[n].id == q {
        if IdAmong(pvs, q) {
          var k :| 0 <= k < |pvs| && pvs[k].id == q;
          if k < n { assert pvs[..n][k] == pvs[k]; }
        }
        if IdAmong(pvs[..n], q) {
          var k :| 0 <= k < n && pvs[..n][k].id == q;
          assert pvs[k] == pvs[..n][k];
        }
      }
    }
  }

  /**
   * The outcome table loop: each variant passing the check gets its rare
   * disease report (`create_rare_disease_report`) before the next is looked at,
   * so a failing variant leaves the reports of the variants before it.
   */
  method WriteOutcomeRows(db: Database, report: nat) returns (r: Result<nat>)
    modifies db`rareDiseaseReports, db`nextId
    ensures var pvs := ReportVariants(db.probandVariants, report);
      var n := Passing(TranscriptOf(db.ptvs), TranscriptLookup(db.ptvs, db.transcriptVariants), pvs);
      && r == OutcomeCheck(TranscriptOf(db.ptvs), TranscriptLookup(db.ptvs, db.transcriptVariants), pvs)
      && db.rareDiseaseReports == CreateReports(old(db.rareDiseaseReports), old(db.nextId), pvs[..n]).0
      && db.nextId == CreateReports(old(db.rareDiseaseReports), old(db.nextId), pvs[..n]).1
  {
    var pvs := ReportVariants(db.probandVariants, report);
    var transcriptOf := TranscriptOf(db.ptvs);
    var lookup := TranscriptLookup(db.ptvs, db.transcriptVariants);
    ghost var n := Passing(transcriptOf, lookup, pvs);
    for k := 0 to |pvs|
      invariant k <= n
      invariant db.rareDiseaseReports == CreateReports(old(db.rareDiseaseReports), old(db.nextId), pvs[..k]).0
      invariant db.nextId == CreateReports(old(db.rareDiseaseReports), old(db.nextId), pvs[..k]).1
    {
      var step := OutcomeStep(transcriptOf(pvs[k]), lookup(pvs[k]));
      if step.Err? {
        OutcomeFailsAt(transcriptOf, lookup, pvs, k);
        return Err(step.error);
      }
      PassingStep(transcriptOf, lookup, pvs, k);
      CreateReportsSnoc(old(db.rareDiseaseReports), old(db.nextId), pvs, k);
      var _ := CreateRareDiseaseReport(db, pvs[k].id);
    }
    assert pvs[..|pvs|] == pvs;
    return Ok(|pvs|);
  }

  // ---------------------------------------------------------------------------
  // write_npf_template: the clinician's surname and the pronoun
  // ---------------------------------------------------------------------------

  /** The position of the last space. */
  function LastSpace(s: string): (i: nat)
    requires ' ' in s
    ensures i < |s| && s[i] == ' ' && ' ' !in s[i + 1..]
  {
    var n := |s| - 1;
    if s[n] == ' ' then n
    else
      assert ' ' in s[..n] by {
        var k :| 0 <= k < |s| && s[k] == ' ';
        assert k != n && s[..n][k] == ' ';
      }
      var i := LastSpace(s[..n]);
      assert s[i + 1..] == s[..n][i + 1..] + [s[n]];
      i
  }

  /** The clinician's surname: the text after the last space (`rsplit(' ', 1)[1]`), or the whole name when it has none. */
  function ClinicianSurname(name: string): (r: string)
    ensures ' ' !in r
    ensures ' ' !in name ==> r == name
    ensures ' ' in name ==> exists k :: 0 <= k < |name| && name == name[..k] + " " + r
  {
    if ' ' in name then
      var i := LastSpace(name);
      assert name == name[..i] + " " + name[i + 1..];
      name[i + 1..]
    else name
  }

  /** The surname is the text after the last space. */
  lemma ClinicianSurnameOfFullName(first: string, surname: string)
    requires ' ' !in surname
    ensures ClinicianSurname(first + " " + surname) == surname
  {
    var name := first + " " + surname;
    assert name[|first|] == ' ';
    var i := LastSpace(name);
    assert i == |first| by {
      if i < |first| {
        assert false;
      } else if i > |first| {
        assert false;
      }
    }
    assert name[i + 1..] == surname;
  }

  /** The proband's sex and pronoun as the letter shows them. */
  datatype Gender = Gender(sex: string, pronoun: string)

  /**
   * `male` and `female` in any case give "his"/"her" and the initial; none or
   * exactly `unknown` give the placeholders; any other value leaves the
   * pronoun unbound, which the letter's text then trips over.
   */
  function NpfGender(sex: Option<string>): (r: Result<Gender>)
    ensures sex.None? || sex == Some("unknown") ==> r == Ok(Gender("<--Unknown-->", "<--his/her-->"))
    ensures sex.Some? && Lower(sex.value) == "male" ==> r == Ok(Gender("M", "his"))
    ensures sex.Some? && Lower(sex.value) == "female" ==> r == Ok(Gender("F", "her"))
    ensures r.Err? <==> sex.Some? && sex.value != "unknown" && Lower(sex.value) != "male" && Lower(sex.value) != "female"
    ensures r.Err? ==> r.error == UnboundLocalError
  {
    if !(sex.None? || sex.value == "unknown") then
      var s := sex.value;
      if Lower(s) == "male" then
        assert |s| == 4 && LowerChar(s[0]) == 'm';
        Ok(Gender([UpperChar(s[0])], "his"))
      else if Lower(s) == "female" then
        assert |s| == 6 && LowerChar(s[0]) == 'f';
        Ok(Gender([UpperChar(s[0])], "her"))
      else Err(UnboundLocalError)
    else Ok(Gender("<--Unknown-->", "<--his/her-->"))
  }
}
