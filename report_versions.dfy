/**
 * Versioning of interpretation reports (`gel2mdt/models.py`): `save` either
 * overwrites the family's latest report or stores the incoming one as a new
 * version that inherits the latest one's workflow fields and takes over its
 * MDT linkages, proband variants and comments; and the query that keeps only
 * the highest version of each family.
 */
module ReportVersions {
  import opened Wrappers
  import opened Tables

  predicate HasFamily(reports: seq<Report>, fam: nat)
  {
    exists i :: 0 <= i < |reports| && reports[i].irFamily == fam
  }

  /** The number of reports of one family. */
  function FamilyCount(reports: seq<Report>, fam: nat): nat
  {
    if reports == [] then 0
    else FamilyCount(reports[..|reports| - 1], fam) + (if reports[|reports| - 1].irFamily == fam then 1 else 0)
  }

  lemma {:induction false} FamilyCountAppend(a: seq<Report>, b: seq<Report>, fam: nat)
    ensures FamilyCount(a + b, fam) == FamilyCount(a, fam) + FamilyCount(b, fam)
    decreases |b|
  {
    if b != [] {
      var n := |b| - 1;
      assert (a + b)[..|a + b| - 1] == a + b[..n];
      FamilyCountAppend(a, b[..n], fam);
    } else {
      assert a + b == a;
    }
  }

  /** Replacing one row by another of the same family keeps every family's count. */
  lemma {:induction false} FamilyCountUpdate(reports: seq<Report>, i: nat, r: Report, fam: nat)
    requires i < |reports| && r.irFamily == reports[i].irFamily
    ensures FamilyCount(reports[i := r], fam) == FamilyCount(reports, fam)
    decreases |reports|
  {
    var n := |reports| - 1;
    var u := reports[i := r];
    if i < n {
      assert u[..n] == reports[..n][i := r];
      FamilyCountUpdate(reports[..n], i, r, fam);
    } else {
      assert u[..n] == reports[..n];
    }
  }

  /** A family has a report exactly when it counts one. */
  lemma {:induction false} FamilyCountPositive(reports: seq<Report>, fam: nat)
    ensures FamilyCount(reports, fam) > 0 <==> HasFamily(reports, fam)
    decreases |reports|
  {
    if reports != [] {
      var n := |reports| - 1;
      FamilyCountPositive(reports[..n], fam);
      if HasFamily(reports[..n], fam) {
        var j :| 0 <= j < n && reports[..n][j].irFamily == fam;
        assert reports[j].irFamily == fam;
      }
      if HasFamily(reports, fam) && reports[n].irFamily != fam {
        var j :| 0 <= j < |reports| && reports[j].irFamily == fam;
        assert j < n && reports[..n][j].irFamily == fam;
      }
    }
  }

  /**
   * `archived_reports.latest('polled_at_datetime')`: a report of the family
   * with the largest polling time; of several that share it, the first.
   */
  function LatestIndex(reports: seq<Report>, fam: nat): (i: nat)
    requires HasFamily(reports, fam)
    ensures i < |reports| && reports[i].irFamily == fam
    ensures forall j :: 0 <= j < |reports| && reports[j].irFamily == fam ==> reports[j].polledAt <= reports[i].polledAt
    ensures forall j :: 0 <= j < i && reports[j].irFamily == fam ==> reports[j].polledAt < reports[i].polledAt
    decreases |reports|
  {
    var n := |reports| - 1;
    var prefix := reports[..n];
    if !HasFamily(prefix, fam) then
      assert reports[n].irFamily == fam by {
        forall j | 0 <= j < n
          ensures reports[j].irFamily != fam
        {
          assert prefix[j] == reports[j];
        }
      }
      n
    else
      var k := LatestIndex(prefix, fam);
      assert forall j :: 0 <= j < n ==> prefix[j] == reports[j];
      if reports[n].irFamily == fam && reports[n].polledAt > reports[k].polledAt then n else k
  }

  /** The overwritten latest report: the caller's fields on the latest row, polled now. */
  function Overwritten(latest: Report, incoming: Report, now: int): Report
  {
    Report(latest.id, latest.irFamily, incoming.archivedVersion, now, incoming.content, incoming.workflow)
  }

  /** A new version: the caller's content with the latest report's workflow, one version higher. */
  function NewVersion(latest: Report, incoming: Report, id: nat, now: int): Report
  {
    Report(id, incoming.irFamily, latest.archivedVersion + 1, now, incoming.content, latest.workflow)
  }

  /** Rows that pointed at report `from` point at `to`; nothing else changes. */
  function Repoint<T>(rows: seq<Linked<T>>, from: nat, to: nat): (r: seq<Linked<T>>)
    ensures |r| == |rows|
    ensures forall i :: 0 <= i < |rows| ==> r[i].id == rows[i].id && r[i].row == rows[i].row
    ensures forall i :: 0 <= i < |rows| ==> r[i].report == if rows[i].report == from then to else rows[i].report
  {
    seq(|rows|, i requires 0 <= i < |rows| => if rows[i].report == from then rows[i].(report := to) else rows[i])
  }

  /** After re-pointing to a different report, no row is left on the old one. */
  lemma RepointEmpties<T>(rows: seq<Linked<T>>, from: nat, to: nat)
    requires from != to
    ensures forall i :: 0 <= i < |rows| ==> Repoint(rows, from, to)[i].report != from
    ensures forall i :: 0 <= i < |rows| && rows[i].report == from ==> Repoint(rows, from, to)[i].report == to
  {
  }

  /** The loop that moves each child row from one report to another, one row at a time. */
  method RepointRows<T>(rows: seq<Linked<T>>, from: nat, to: nat) returns (r: seq<Linked<T>>)
    ensures r == Repoint(rows, from, to)
  {
    r := rows;
    var i := 0;
    while i < |rows|
      invariant 0 <= i <= |rows| && |r| == |rows|
      invariant forall j :: 0 <= j < i ==> r[j] == Repoint(rows, from, to)[j]
      invariant r[i..] == rows[i..]
    {
      if r[i].report == from {
        r := r[i := r[i].(report := to)];
      }
      i := i + 1;
    }
  }

  /** What `GELInterpretationReport.save(overwrite)` does to the tables. */
  function SaveSpec(v: Versioned, incoming: Report, overwrite: bool, now: int): Versioned
  {
    if !HasFamily(v.reports, incoming.irFamily) then
      v.(reports := v.reports + [incoming.(id := v.nextId, archivedVersion := 1)], nextId := v.nextId + 1)
    else
      var i := LatestIndex(v.reports, incoming.irFamily);
      var latest := v.reports[i];
      if overwrite then
        v.(reports := v.reports[i := Overwritten(latest, incoming, now)])
      else
        var created := NewVersion(latest, incoming, v.nextId, now);
        Versioned(v.reports + [created],
                  Repoint(v.mdtReports, latest.id, created.id),
                  Repoint(v.probandVariants, latest.id, created.id),
                  Repoint(v.caseComments, latest.id, created.id),
                  v.nextId + 1)
  }

  /**
   * `save`: with `now` the value of `timezone.now()`. The incoming report is
   * one that has no primary key yet.
   */
  method Save(db: Database, incoming: Report, overwrite: bool, now: int)
    requires db.Valid()
    modifies db`reports, db`mdtReports, db`probandVariants, db`caseComments, db`nextId
    ensures db.Versions() == SaveSpec(old(db.Versions()), incoming, overwrite, now)
    ensures db.Valid()
  {
    if HasFamily(db.reports, incoming.irFamily) {
      var i := LatestIndex(db.reports, incoming.irFamily);
      var latest := db.reports[i];
      if overwrite {
        db.reports := db.reports[i := Overwritten(latest, incoming, now)];
      } else {
        var created := NewVersion(latest, incoming, db.nextId, now);
        db.reports := db.reports + [created];
        db.nextId := db.nextId + 1;
        db.mdtReports := RepointRows(db.mdtReports, latest.id, created.id);
        db.probandVariants := RepointRows(db.probandVariants, latest.id, created.id);
        db.caseComments := RepointRows(db.caseComments, latest.id, created.id);
      }
    } else {
      db.reports := db.reports + [incoming.(id := db.nextId, archivedVersion := 1)];
      db.nextId := db.nextId + 1;
    }
  }

  /** The first report of a family is version 1, and is then the family's only and latest report. */
  lemma SaveFirstVersion(v: Versioned, incoming: Report, overwrite: bool, now: int)
    requires !HasFamily(v.reports, incoming.irFamily)
    ensures var w := SaveSpec(v, incoming, overwrite, now);
      && HasFamily(w.reports, incoming.irFamily)
      && FamilyCount(w.reports, incoming.irFamily) == 1
      && LatestIndex(w.reports, incoming.irFamily) == |v.reports|
      && w.reports[|v.reports|].archivedVersion == 1
      && w.reports[..|v.reports|] == v.reports
      && w.mdtReports == v.mdtReports && w.probandVariants == v.probandVariants && w.caseComments == v.caseComments
  {
    var w := SaveSpec(v, incoming, overwrite, now);
    var fam := incoming.irFamily;
    assert w.reports[..|v.reports|] == v.reports;
    assert w.reports[|v.reports|].irFamily == fam;
    FamilyCountPositive(v.reports, fam);
  }

  /**
   * An overwrite adds no row: every family keeps its count, the latest row
   * takes all of the caller's fields and the polling time, its key stays, and
   * the other rows and the child tables are unchanged.
   */
  lemma SaveOverwrite(v: Versioned, incoming: Report, now: int)
    requires HasFamily(v.reports, incoming.irFamily)
    ensures var w := SaveSpec(v, incoming, true, now);
      var i := LatestIndex(v.reports, incoming.irFamily);
      && |w.reports| == |v.reports|
      && (forall fam :: FamilyCount(w.reports, fam) == FamilyCount(v.reports, fam))
      && w.reports[i].id == v.reports[i].id
      && w.reports[i].content == incoming.content && w.reports[i].workflow == incoming.workflow
      && w.reports[i].archivedVersion == incoming.archivedVersion && w.reports[i].polledAt == now
      && (forall j :: 0 <= j < |v.reports| && j != i ==> w.reports[j] == v.reports[j])
      && w.mdtReports == v.mdtReports && w.probandVariants == v.probandVariants
      && w.caseComments == v.caseComments && w.nextId == v.nextId
  {
    var i := LatestIndex(v.reports, incoming.irFamily);
    var w := SaveSpec(v, incoming, true, now);
    forall fam: nat
      ensures FamilyCount(w.reports, fam) == FamilyCount(v.reports, fam)
    {
      FamilyCountUpdate(v.reports, i, Overwritten(v.reports[i], incoming, now), fam);
    }
  }

  /** An overwrite with a clock that has not gone back leaves the overwritten row the latest one. */
  lemma OverwriteStaysLatest(v: Versioned, incoming: Report, now: int)
    requires HasFamily(v.reports, incoming.irFamily)
    requires now >= v.reports[LatestIndex(v.reports, incoming.irFamily)].polledAt
    ensures var w := SaveSpec(v, incoming, true, now);
      && HasFamily(w.reports, incoming.irFamily)
      && LatestIndex(w.reports, incoming.irFamily) == LatestIndex(v.reports, incoming.irFamily)
  {
    var fam := incoming.irFamily;
    var i := LatestIndex(v.reports, fam);
    var w := SaveSpec(v, incoming, true, now);
    assert w.reports[i].irFamily == fam;
    assert w.reports[i].polledAt == now;
    assert forall j :: 0 <= j < |w.reports| && j != i ==> w.reports[j] == v.reports[j];
  }

  /**
   * A new version is one higher than the latest, inherits its ten workflow
   * fields, keeps the caller's content, gets a key no report had, and adds one
   * report to its family alone.
   */
  lemma SaveNewVersion(v: Versioned, incoming: Report, now: int)
    requires HasFamily(v.reports, incoming.irFamily) && IdsBelow(v.reports, v.nextId)
    ensures var w := SaveSpec(v, incoming, false, now);
      var latest := v.reports[LatestIndex(v.reports, incoming.irFamily)];
      var created := w.reports[|v.reports|];
      && |w.reports| == |v.reports| + 1 && w.reports[..|v.reports|] == v.reports
      && created.archivedVersion == latest.archivedVersion + 1
      && created.workflow == latest.workflow
      && created.content == incoming.content && created.irFamily == incoming.irFamily
      && (forall j :: 0 <= j < |v.reports| ==> v.reports[j].id != created.id)
      && FamilyCount(w.reports, incoming.irFamily) == FamilyCount(v.reports, incoming.irFamily) + 1
      && (forall fam :: fam != incoming.irFamily ==> FamilyCount(w.reports, fam) == FamilyCount(v.reports, fam))
      && IdsBelow(w.reports, w.nextId)
  {
    var w := SaveSpec(v, incoming, false, now);
    var created := w.reports[|v.reports|];
    assert w.reports[..|v.reports|] == v.reports;
    forall fam: nat
      ensures FamilyCount(w.reports, fam) == FamilyCount(v.reports, fam) + (if fam == incoming.irFamily then 1 else 0)
    {
      FamilyCountAppend(v.reports, [created], fam);
      assert FamilyCount([created], fam) == FamilyCount([], fam) + (if created.irFamily == fam then 1 else 0);
    }
  }

  /**
   * After a new version, every MDT linkage, proband variant and comment of the
   * previous latest report belongs to the new one, and none is left behind.
   */
  lemma SaveNewVersionRepoints(v: Versioned, incoming: Report, now: int)
    requires HasFamily(v.reports, incoming.irFamily) && IdsBelow(v.reports, v.nextId)
    ensures var w := SaveSpec(v, incoming, false, now);
      var old_id := v.reports[LatestIndex(v.reports, incoming.irFamily)].id;
      && |w.mdtReports| == |v.mdtReports| && |w.probandVariants| == |v.probandVariants|
      && |w.caseComments| == |v.caseComments|
      && (forall j :: 0 <= j < |w.mdtReports| ==> w.mdtReports[j].report != old_id)
      && (forall j :: 0 <= j < |w.probandVariants| ==> w.probandVariants[j].report != old_id)
      && (forall j :: 0 <= j < |w.caseComments| ==> w.caseComments[j].report != old_id)
      && (forall j :: 0 <= j < |v.mdtReports| && v.mdtReports[j].report == old_id ==> w.mdtReports[j].report == v.nextId)
      && (forall j :: 0 <= j < |v.probandVariants| && v.probandVariants[j].report == old_id ==>
            w.probandVariants[j].report == v.nextId)
      && (forall j :: 0 <= j < |v.caseComments| && v.caseComments[j].report == old_id ==> w.caseComments[j].report == v.nextId)
  {
    var old_id := v.reports[LatestIndex(v.reports, incoming.irFamily)].id;
    RepointEmpties(v.mdtReports, old_id, v.nextId);
    RepointEmpties(v.probandVariants, old_id, v.nextId);
    RepointEmpties(v.caseComments, old_id, v.nextId);
  }

  /** A new version polled after every earlier version of its family is the family's latest. */
  lemma NewVersionBecomesLatest(v: Versioned, incoming: Report, now: int)
    requires HasFamily(v.reports, incoming.irFamily)
    requires forall j :: 0 <= j < |v.reports| && v.reports[j].irFamily == incoming.irFamily ==> v.reports[j].polledAt < now
    ensures var w := SaveSpec(v, incoming, false, now);
      HasFamily(w.reports, incoming.irFamily) && LatestIndex(w.reports, incoming.irFamily) == |v.reports|
  {
    var fam := incoming.irFamily;
    var w := SaveSpec(v, incoming, false, now);
    var n := |v.reports|;
    assert w.reports[n].irFamily == fam;
    assert forall j :: 0 <= j < n ==> w.reports[j] == v.reports[j];
  }

  /**
   * `latest_cases_by_sample_type` keeps row `i` of the given sample type when
   * no row of its family and type has a higher version and none after it has
   * the same one (the stable sort by family and version, keeping the last).
   */
  predicate Kept(rows: seq<Report>, st: string, i: nat)
    requires i < |rows|
  {
    && rows[i].content.sampleType == st
    && forall j :: 0 <= j < |rows| && rows[j].content.sampleType == st && rows[j].irFamily == rows[i].irFamily ==>
         (rows[j].archivedVersion < rows[i].archivedVersion || (rows[j].archivedVersion == rows[i].archivedVersion && j <= i))
  }

  function KeptFrom(rows: seq<Report>, st: string, k: nat): (r: seq<Report>)
    requires k <= |rows|
    ensures forall x :: 0 <= x < |r| ==> r[x].content.sampleType == st && r[x] in rows[k..]
    decreases |rows| - k
  {
    if k == |rows| then []
    else (if Kept(rows, st, k) then [rows[k]] else []) + KeptFrom(rows, st, k + 1)
  }

  /** The latest report of each family of one sample type, in table order. */
  function LatestCasesBySampleType(rows: seq<Report>, st: string): seq<Report>
  {
    KeptFrom(rows, st, 0)
  }

  predicate TypedInFamily(rows: seq<Report>, st: string, fam: nat, j: nat)
    requires j < |rows|
  {
    rows[j].content.sampleType == st && rows[j].irFamily == fam
  }

  /** Two kept rows of the same family are the same row. */
  lemma KeptUnique(rows: seq<Report>, st: string, i: nat, j: nat)
    requires i < |rows| && j < |rows| && Kept(rows, st, i) && Kept(rows, st, j)
    requires rows[i].irFamily == rows[j].irFamily
    ensures i == j
  {
  }

  /** Of the first `n` rows, the last one with the highest version among a family's rows of one type. */
  function BestBelow(rows: seq<Report>, st: string, fam: nat, n: nat): (r: Option<nat>)
    requires n <= |rows|
    ensures r.None? ==> forall j :: 0 <= j < n ==> !TypedInFamily(rows, st, fam, j)
    ensures r.Some? ==> r.value < n && TypedInFamily(rows, st, fam, r.value)
    ensures r.Some? ==> forall j :: 0 <= j < n && TypedInFamily(rows, st, fam, j) ==>
      (rows[j].archivedVersion < rows[r.value].archivedVersion
       || (rows[j].archivedVersion == rows[r.value].archivedVersion && j <= r.value))
  {
    if n == 0 then None
    else
      var b := BestBelow(rows, st, fam, n - 1);
      if TypedInFamily(rows, st, fam, n - 1) && (b.None? || rows[b.value].archivedVersion <= rows[n - 1].archivedVersion)
      then Some(n - 1)
      else b
  }

  lemma {:induction false} KeptFromCount(rows: seq<Report>, st: string, fam: nat, u: nat, k: nat)
    requires u < |rows| && Kept(rows, st, u) && rows[u].irFamily == fam && k <= |rows|
    ensures FamilyCount(KeptFrom(rows, st, k), fam) == if k <= u then 1 else 0
    decreases |rows| - k
  {
    if k < |rows| {
      KeptFromCount(rows, st, fam, u, k + 1);
      var head: seq<Report> := if Kept(rows, st, k) then [rows[k]] else [];
      FamilyCountAppend(head, KeptFrom(rows, st, k + 1), fam);
      if Kept(rows, st, k) && rows[k].irFamily == fam {
        KeptUnique(rows, st, k, u);
      }
      assert FamilyCount(head, fam) == if k == u then 1 else 0 by {
        if head != [] {
          assert head[..0] == [];
        }
      }
    }
  }

  lemma {:induction false} KeptFromNone(rows: seq<Report>, st: string, fam: nat, k: nat)
    requires k <= |rows|
    requires forall j :: 0 <= j < |rows| ==> !TypedInFamily(rows, st, fam, j)
    ensures FamilyCount(KeptFrom(rows, st, k), fam) == 0
    decreases |rows| - k
  {
    if k < |rows| {
      KeptFromNone(rows, st, fam, k + 1);
      var head: seq<Report> := if Kept(rows, st, k) then [rows[k]] else [];
      FamilyCountAppend(head, KeptFrom(rows, st, k + 1), fam);
      assert !TypedInFamily(rows, st, fam, k);
      if head != [] {
        assert head[..0] == [];
      }
    }
  }

  /**
   * Exactly one report is kept for every family that has one of the sample
   * type, none for any other family, and the kept one has the family's
   * highest version of that type.
   */
  lemma LatestCasesOnePerFamily(rows: seq<Report>, st: string, fam: nat)
    ensures var r := LatestCasesBySampleType(rows, st);
      && (forall x :: 0 <= x < |r| ==> r[x].content.sampleType == st && r[x] in rows)
      && (FamilyCount(r, fam) == 1 <==> exists j :: 0 <= j < |rows| && TypedInFamily(rows, st, fam, j))
      && (FamilyCount(r, fam) == 0 <==> forall j :: 0 <= j < |rows| ==> !TypedInFamily(rows, st, fam, j))
      && (forall x, j :: 0 <= x < |r| && r[x].irFamily == fam && 0 <= j < |rows| && TypedInFamily(rows, st, fam, j) ==>
            rows[j].archivedVersion <= r[x].archivedVersion)
  {
    var r := LatestCasesBySampleType(rows, st);
    assert rows[0..] == rows;
    var b := BestBelow(rows, st, fam, |rows|);
    if b.Some? {
      var u := b.value;
      assert Kept(rows, st, u);
      KeptFromCount(rows, st, fam, u, 0);
      forall x, j | 0 <= x < |r| && r[x].irFamily == fam && 0 <= j < |rows| && TypedInFamily(rows, st, fam, j)
        ensures rows[j].archivedVersion <= r[x].archivedVersion
      {
        KeptIsKept(rows, st, 0, x);
      }
    } else {
      KeptFromNone(rows, st, fam, 0);
    }
  }

  /** Every row of the result is a kept row of the table. */
  lemma {:induction false} KeptIsKept(rows: seq<Report>, st: string, k: nat, x: nat)
    requires k <= |rows| && x < |KeptFrom(rows, st, k)|
    ensures exists i :: k <= i < |rows| && Kept(rows, st, i) && KeptFrom(rows, st, k)[x] == rows[i]
    decreases |rows| - k
  {
    var head: seq<Report> := if Kept(rows, st, k) then [rows[k]] else [];
    var tail := KeptFrom(rows, st, k + 1);
    assert KeptFrom(rows, st, k) == head + tail;
    if x < |head| {
      assert KeptFrom(rows, st, k)[x] == rows[k];
    } else {
      KeptIsKept(rows, st, k + 1, x - |head|);
      assert KeptFrom(rows, st, k)[x] == tail[x - |head|];
    }
  }
}
