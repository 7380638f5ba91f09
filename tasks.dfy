/**
 * The background jobs and helpers of `gel2mdt/tasks.py` that the modelled
 * views rely on: setting up the administrators' group, choosing which GEL
 * clinical report version to download, refreshing a proband's clinician and
 * demographics from LabKey, and the field-by-field history of a case.
 */
module Tasks {
  import opened Wrappers
  import opened Text
  import opened Seqs
  import opened Forms

  // ---------------------------------------------------------------------------
  // create_admin_group
  // ---------------------------------------------------------------------------

  const AdminGroupName: string := "ADMIN GROUP"

  /** Every permission flag switched on. */
  const AllGranted: map<string, bool> := map f | f in PermissionFlags :: true

  /** The first group with the given name (`Group.name` is unique). */
  function FindGroup(groups: seq<Group>, name: string): (r: Option<nat>)
    ensures r.Some? ==> (r.value < |groups| && groups[r.value].name == name
      && forall j :: 0 <= j < r.value ==> groups[j].name != name)
    ensures r.None? <==> forall j :: 0 <= j < |groups| ==> groups[j].name != name
  {
    if groups == [] then None
    else if groups[0].name == name then Some(0)
    else
      var r := FindGroup(groups[1..], name);
      if r.Some? then Some(r.value + 1) else None
  }

  /** The administrators' group with every permission flag set. */
  predicate AdminGranted(g: Group)
  {
    g.name == AdminGroupName && g.permissions.Some?
    && forall f :: f in PermissionFlags ==> f in g.permissions.value && g.permissions.value[f]
  }

  /**
   * The groups after `create_admin_group`: the group "ADMIN GROUP" is fetched
   * or created, given a permissions row if it had none, and every flag of that
   * row is set. No other group changes.
   */
  function WithAdminGroup(groups: seq<Group>): (r: seq<Group>)
    ensures FindGroup(groups, AdminGroupName).Some? ==> |r| == |groups|
    ensures FindGroup(groups, AdminGroupName).None? ==> |r| == |groups| + 1 && r[..|groups|] == groups
    ensures forall j :: 0 <= j < |groups| && groups[j].name != AdminGroupName ==> r[j] == groups[j]
    ensures exists j :: 0 <= j < |r| && AdminGranted(r[j])
  {
    match FindGroup(groups, AdminGroupName)
    case Some(i) =>
      var g := groups[i];
      var perms := if g.permissions.Some? then g.permissions.value else map[];
      var r := groups[i := Group(AdminGroupName, Some(perms + AllGranted))];
      assert AdminGranted(r[i]);
      r
    case None =>
      var r := groups + [Group(AdminGroupName, Some(AllGranted))];
      assert AdminGranted(r[|groups|]);
      r
  }

  /** The administrators' group passes `has_group_permission` for every flag. */
  lemma AdminGroupGrantsAll(groups: seq<Group>, flag: string)
    requires flag in PermissionFlags
    ensures exists j :: (0 <= j < |WithAdminGroup(groups)|
      && WithAdminGroup(groups)[j].name == AdminGroupName
      && GroupPermission([WithAdminGroup(groups)[j]], flag) == Ok(true))
  {
    var r := WithAdminGroup(groups);
    var j :| 0 <= j < |r| && AdminGranted(r[j]);
    assert GroupPermission([r[j]], flag) == Ok(true);
  }

  /** The administrators' group is well formed, and so stay all other groups. */
  lemma AdminGroupWellFormed(groups: seq<Group>)
    requires forall j :: 0 <= j < |groups| ==> WellFormed(groups[j])
    ensures forall j :: 0 <= j < |WithAdminGroup(groups)| ==> WellFormed(WithAdminGroup(groups)[j])
  {
    var r := WithAdminGroup(groups);
    forall j | 0 <= j < |r| ensures WellFormed(r[j]) {
      if j < |groups| && groups[j].name != AdminGroupName {
        assert r[j] == groups[j];
      } else {
        var i := FindGroup(groups, AdminGroupName);
        if i.Some? {
          var g := groups[i.value];
          var perms := if g.permissions.Some? then g.permissions.value else map[];
          if j != i.value {
            assert r[j] == groups[j];
          } else {
            assert r[j].permissions.value.Keys == perms.Keys + AllGranted.Keys;
          }
        }
      }
    }
  }

  /** The GMC names after `create_admin_group`: a row for every non-empty GMC code of a proband. */
  predicate Registered(existing: set<string>, probandGmcs: seq<Option<string>>, name: string)
  {
    name in existing || (name != "" && Some(name) in probandGmcs)
  }

  /**
   * The loop over the distinct proband GMC codes, calling
   * `GMC.objects.get_or_create(name=gmc)` for every non-empty one.
   */
  method RegisterGmcs(existing: set<string>, probandGmcs: seq<Option<string>>) returns (gmcs: set<string>)
    ensures forall name :: name in gmcs <==> Registered(existing, probandGmcs, name)
  {
    var pending := set g | g in probandGmcs;
    var done: set<Option<string>> := {};
    gmcs := existing;
    while pending != {}
      invariant pending + done == set g | g in probandGmcs
      invariant pending !! done
      invariant forall name :: name in gmcs <==> name in existing || (name != "" && Some(name) in done)
      decreases |pending|
    {
      var gmc :| gmc in pending;
      if gmc.Some? && gmc.value != "" {
        gmcs := gmcs + {gmc.value};
      }
      pending, done := pending - {gmc}, done + {gmc};
    }
  }

  // ---------------------------------------------------------------------------
  // get_gel_content: the clinical report version
  // ---------------------------------------------------------------------------

  /**
   * What the CIP-API answers for one clinical report version: a JSON object
   * with a "detail" message (an error message), a JSON object without one, or
   * a body that is not JSON at all (the report itself).
   */
  datatype Reply = Detail(text: string) | NoDetail | NotJson

  /** The two error messages after which the previous version is tried. */
  predicate Refused(reply: Reply)
  {
    reply.Detail? && (IsPrefix("Not found", reply.text) || IsPrefix("Method \"GET\" not allowed", reply.text))
  }

  function Max(vs: seq<int>): (m: int)
    requires vs != []
    ensures m in vs && forall v :: v in vs ==> v <= m
  {
    if |vs| == 1 then vs[0]
    else
      var m := Max(vs[1..]);
      assert forall v :: v in vs ==> v == vs[0] || v in vs[1..];
      if vs[0] > m then vs[0] else m
  }

  /**
   * The version tried first: the largest `clinical_report_version`, 1 when the
   * list is empty, and none when the request carries no `clinical_report`.
   */
  function FirstVersion(clinicalReport: Option<seq<int>>): (r: Option<int>)
    ensures clinicalReport.None? <==> r.None?
    ensures clinicalReport.Some? && clinicalReport.value == [] ==> r == Some(1)
    ensures clinicalReport.Some? && clinicalReport.value != [] ==>
      r.value in clinicalReport.value && forall v :: v in clinicalReport.value ==> v <= r.value
  {
    match clinicalReport
    case None => None
    case Some(vs) => if vs == [] then Some(1) else Some(Max(vs))
  }

  /** The version the loop settles on, starting from `latest` and stepping down. */
  function VersionFrom(latest: int, reply: Option<int> -> Reply): Result<int>
    requires latest >= 1
    decreases latest
  {
    var answer := reply(Some(latest));
    if Refused(answer) then
      if latest == 1 then Err(ValueError("No Clinical Report found for this case"))
      else VersionFrom(latest - 1, reply)
    else if answer.NoDetail? then Err(KeyError("detail"))
    else Ok(latest)
  }

  /** The whole version search, including a request without `clinical_report`. */
  function VersionSearch(clinicalReport: Option<seq<int>>, reply: Option<int> -> Reply): Result<Option<int>>
    requires clinicalReport.Some? ==> forall v :: v in clinicalReport.value ==> v >= 1
  {
    match FirstVersion(clinicalReport)
    case None =>
      var answer := reply(None);
      if Refused(answer) then Err(TypeError)
      else if answer.NoDetail? then Err(KeyError("detail"))
      else Ok(None)
    case Some(latest) =>
      match VersionFrom(latest, reply)
      case Ok(v) => Ok(Some(v))
      case Err(e) => Err(e)
  }

  /**
   * The `while loop_over_reports` loop of `get_gel_content`, with the
   * CIP-API's answer for each version given as `reply`.
   */
  method ClinicalReportVersion(clinicalReport: Option<seq<int>>, reply: Option<int> -> Reply)
    returns (r: Result<Option<int>>)
    requires clinicalReport.Some? ==> forall v :: v in clinicalReport.value ==> v >= 1
    ensures r == VersionSearch(clinicalReport, reply)
  {
    var latest := FirstVersion(clinicalReport);
    if latest.None? {
      var answer := reply(None);
      if Refused(answer) {
        return Err(TypeError);
      } else if answer.NoDetail? {
        return Err(KeyError("detail"));
      }
      return Ok(None);
    }
    var v := latest.value;
    var loopOverReports := true;
    while loopOverReports
      invariant v >= 1
      invariant VersionFrom(latest.value, reply) == VersionFrom(v, reply)
      invariant !loopOverReports ==> VersionFrom(v, reply) == Ok(v)
      decreases v, loopOverReports
    {
      var answer := reply(Some(v));
      if Refused(answer) {
        if v == 1 {
          return Err(ValueError("No Clinical Report found for this case"));
        } else {
          v := v - 1;
        }
      } else if answer.NoDetail? {
        return Err(KeyError("detail"));
      } else {
        loopOverReports := false;
      }
    }
    return Ok(Some(v));
  }

  /**
   * The version found is the newest one not refused: every newer version up to
   * the first one tried was refused.
   */
  lemma {:induction false} VersionFromNewestAvailable(latest: int, reply: Option<int> -> Reply)
    requires latest >= 1
    ensures VersionFrom(latest, reply).Ok? ==>
      var v := VersionFrom(latest, reply).value;
      && 1 <= v <= latest
      && !Refused(reply(Some(v))) && !reply(Some(v)).NoDetail?
      && forall u :: v < u <= latest ==> Refused(reply(Some(u)))
    decreases latest
  {
    if Refused(reply(Some(latest))) && latest > 1 {
      VersionFromNewestAvailable(latest - 1, reply);
    }
  }

  /** The search gives up with ValueError exactly when every version from 1 to the first tried is refused. */
  lemma {:induction false} VersionFromExhausted(latest: int, reply: Option<int> -> Reply)
    requires latest >= 1
    ensures VersionFrom(latest, reply) == Err(ValueError("No Clinical Report found for this case"))
      <==> forall u :: 1 <= u <= latest ==> Refused(reply(Some(u)))
    decreases latest
  {
    if Refused(reply(Some(latest))) && latest > 1 {
      VersionFromExhausted(latest - 1, reply);
      if forall u :: 1 <= u <= latest - 1 ==> Refused(reply(Some(u))) {
        assert forall u :: 1 <= u <= latest ==> Refused(reply(Some(u))) by {
          forall u | 1 <= u <= latest ensures Refused(reply(Some(u))) {
            if u < latest {
              assert 1 <= u <= latest - 1;
            }
          }
        }
      }
    }
  }

  // ---------------------------------------------------------------------------
  // UpdateDemographics: clinician and demographics from LabKey
  // ---------------------------------------------------------------------------

  /** A LabKey result row; `.get` of a column that is absent gives none. */
  type Row = map<string, string>

  function RowGet(row: Row, column: string): Option<string>
  {
    if column in row then Some(row[column]) else None
  }

  /** `.get` on the first row of a result, or the value kept when the result is empty. */
  function FirstGet(rows: seq<Row>, column: string, otherwise: Option<string>): Option<string>
  {
    if rows == [] then otherwise else RowGet(rows[0], column)
  }

  // ---------------------------------------------------------------------------
  // datetime.strptime(text, "%Y/%m/%d").date()
  // ---------------------------------------------------------------------------

  /** A `datetime.date`. */
  datatype Date = Date(year: int, month: int, day: int)

  predicate LeapYear(year: int)
  {
    year % 4 == 0 && (year % 100 != 0 || year % 400 == 0)
  }

  function DaysInMonth(year: int, month: int): (n: int)
    requires 1 <= month <= 12
    ensures 28 <= n <= 31
    ensures n == 29 <==> month == 2 && LeapYear(year)
  {
    if month == 2 then (if LeapYear(year) then 29 else 28)
    else if month == 4 || month == 6 || month == 9 || month == 11 then 30
    else 31
  }

  /** A date `datetime.date` accepts: a year from 1 to 9999 and a day its month has. */
  predicate ValidDate(d: Date)
  {
    1 <= d.year <= 9999 && 1 <= d.month <= 12 && 1 <= d.day <= DaysInMonth(d.year, d.month)
  }

  /**
   * The `%m` directive, which has to match all the text up to the next `/`:
   * one of `1[0-2]`, `0[1-9]` or `[1-9]`.
   */
  predicate MonthText(m: string)
  {
    1 <= |m| <= 2 && IsDigits(m) && 1 <= DigitsValue(m) <= 12
  }

  /**
   * How much of `s` the closing `%d` directive matches: the first of
   * `3[01]`, `[12]\d`, `0[1-9]`, `[1-9]` and ` [1-9]` that fits, or nothing.
   */
  function DayMatch(s: string): (n: nat)
    ensures n <= |s| && n <= 2
    ensures n > 0 ==> '/' !in s[..n]
  {
    if |s| >= 2 && s[0] == '3' && (s[1] == '0' || s[1] == '1') then 2
    else if |s| >= 2 && (s[0] == '1' || s[0] == '2') && IsAsciiDigit(s[1]) then 2
    else if |s| >= 2 && s[0] == '0' && '1' <= s[1] <= '9' then 2
    else if |s| >= 1 && '1' <= s[0] <= '9' then 1
    else if |s| >= 2 && s[0] == ' ' && '1' <= s[1] <= '9' then 2
    else 0
  }

  /** The day a `%d` match stands for; the space-padded form is one digit. */
  function DayValue(d: string): nat
    requires 1 <= |d| <= 2 && (d[0] == ' ' ==> |d| == 2 && IsAsciiDigit(d[1]))
    requires d[0] != ' ' ==> IsDigits(d)
  {
    if d[0] == ' ' then DigitOf(d[1]) else DigitsValue(d)
  }

  /**
   * `datetime.datetime.strptime(s, "%Y/%m/%d").date()`: four digits, `/`,
   * the month up to the next `/`, then the day. Text that does not fit the
   * format, text left over after the day, and a date that does not exist all
   * raise ValueError.
   */
  function StrptimeYmd(s: string): (r: Result<Date>)
    ensures r.Ok? ==> ValidDate(r.value)
    ensures r.Err? ==> r.error.ValueError?
  {
    var noMatch := Err(ValueError("time data '" + s + "' does not match format '%Y/%m/%d'"));
    if |s| < 5 || !IsDigits(s[..4]) || s[4] != '/' || '/' !in s[5..] then noMatch
    else
      var rest := s[5..];
      var slash := FindChar(rest, '/');
      var month := rest[..slash];
      var dayText := rest[slash + 1..];
      var n := DayMatch(dayText);
      if !MonthText(month) || n == 0 then noMatch
      else if n < |dayText| then Err(ValueError("unconverted data remains: " + dayText[n..]))
      else
        var d := Date(DigitsValue(s[..4]), DigitsValue(month), DayValue(dayText));
        if d.year == 0 then Err(ValueError("year 0 is out of range"))
        else if !ValidDate(d) then Err(ValueError("day is out of range for month"))
        else Ok(d)
  }

  function DigitChar(k: nat): (c: char)
    requires k < 10
    ensures IsAsciiDigit(c) && DigitOf(c) == k
  {
    ('0' as int + k) as char
  }

  /** A number below 100 as two digits, zero-padded as `%m` and `%d` print it. */
  function Padded2(n: nat): (s: string)
    requires n < 100
    ensures |s| == 2 && IsDigits(s) && DigitsValue(s) == n
  {
    var s := [DigitChar(n / 10), DigitChar(n % 10)];
    assert s[..1] == [s[0]] && s[..1][..0] == [];
    assert DigitsValue(s[..1]) == n / 10;
    assert DigitsValue(s) == (n / 10) * 10 + n % 10;
    s
  }

  /** A number below 10000 as four digits, zero-padded as `%Y` prints it. */
  function Padded4(n: nat): (s: string)
    requires n < 10000
    ensures |s| == 4 && IsDigits(s) && DigitsValue(s) == n
  {
    var hi, lo := Padded2(n / 100), Padded2(n % 100);
    var s := hi + lo;
    assert s[..3] == hi + [lo[0]] && s[..3][..2] == hi;
    s
  }

  /** `date.strftime("%Y/%m/%d")`. */
  function FormatYmd(d: Date): string
    requires ValidDate(d)
  {
    Padded4(d.year) + "/" + Padded2(d.month) + "/" + Padded2(d.day)
  }

  /** Every date a proband can have reads back from its `%Y/%m/%d` text. */
  lemma StrptimeFormat(d: Date)
    requires ValidDate(d)
    ensures StrptimeYmd(FormatYmd(d)) == Ok(d)
  {
    var y, m, dd := Padded4(d.year), Padded2(d.month), Padded2(d.day);
    var s := FormatYmd(d);
    assert s[..4] == y && s[4] == '/';
    var rest := s[5..];
    assert rest == m + "/" + dd;
    assert rest[2] == '/';
    assert FindChar(rest, '/') == 2;
    assert rest[..2] == m && rest[3..] == dd;
    assert DayMatch(dd) == 2;
  }

  /** Dates in other forms raise ValueError. */
  lemma StrptimeRejectsForms()
    ensures StrptimeYmd("1990-01-01").Err?
    ensures StrptimeYmd("01/02/1990").Err?
    ensures StrptimeYmd("").Err?
  {
    assert !IsDigits("1990-01-01"[..4]) || "1990-01-01"[4] != '/';
    assert "01/02/1990"[4] == '2';
  }

  /** A month past December raises ValueError. */
  lemma StrptimeRejectsMonth()
    ensures StrptimeYmd("1990/13/01").Err?
  {
    assert "1990/13/01"[5..] == "13/01";
    assert FindChar("13/01", '/') == 2;
    assert "13/01"[..2] == "13" && "13"[..1] == "1" && "1"[..0] == "";
    assert !MonthText("13");
  }

  /** A day past the end of its month raises ValueError. */
  lemma StrptimeRejectsDay()
    ensures StrptimeYmd("1990/02/30").Err?
  {
    var s := "1990/02/30";
    assert s[5..] == "02/30" && s[..4] == "1990";
    assert FindChar("02/30", '/') == 2;
    assert "02/30"[..2] == "02" && "02"[..1] == "0" && "0"[..0] == "";
    assert "02/30"[3..] == "30" && "30"[..1] == "3" && "3"[..0] == "";
    assert "1990"[..3] == "199" && "199"[..2] == "19" && "19"[..1] == "1" && "1"[..0] == "";
    assert DigitsValue("02") == 2 && DigitsValue("30") == 30;
    assert !ValidDate(Date(DigitsValue("1990"), 2, 30));
  }

  /** Month and day need no zero padding. */
  lemma StrptimeUnpadded()
    ensures StrptimeYmd("1990/1/5") == Ok(Date(1990, 1, 5))
  {
    var s := "1990/1/5";
    assert s[..4] == "1990" && s[5..] == "1/5";
    assert FindChar("1/5", '/') == 1;
    assert "1/5"[..1] == "1" && "1/5"[2..] == "5";
    assert "1990"[..3] == "199" && "199"[..2] == "19" && "19"[..1] == "1" && "1"[..0] == "";
  }

  datatype Clinician = Clinician(id: nat, name: Option<string>, hospital: Option<string>)

  /** The proband fields that `update_demographics` rewrites. */
  datatype Demographics = Demographics(
    nhsNumber: Option<string>, surname: Option<string>, forename: Option<string>,
    dateOfBirth: Date, recruitingDisease: Option<string>, gmc: Option<string>)

  const ConsultantName: string := "consultant_details_full_name_of_responsible_consultant"
  const ConsultantHospital: string := "consultant_details_hospital_of_responsible_consultant"

  /** `Clinician.objects.filter(name=..., hospital=...).first()`. */
  function FindClinician(clinicians: seq<Clinician>, name: Option<string>, hospital: Option<string>): (r: Option<nat>)
    ensures r.Some? ==> (r.value < |clinicians| && clinicians[r.value].name == name
      && clinicians[r.value].hospital == hospital)
    ensures r.None? <==> forall j :: 0 <= j < |clinicians| ==>
      clinicians[j].name != name || clinicians[j].hospital != hospital
  {
    if clinicians == [] then None
    else if clinicians[0].name == name && clinicians[0].hospital == hospital then Some(0)
    else
      var r := FindClinician(clinicians[1..], name, hospital);
      if r.Some? then Some(r.value + 1) else None
  }

  /**
   * The clinician `update_clinician` settles on: none when LabKey returns no
   * registration row, otherwise the first clinician with the row's consultant
   * name and hospital, or a new one with the next primary key.
   */
  function ClinicianFor(sampleType: string, rows: seq<Row>, clinicians: seq<Clinician>, nextId: nat)
    : Result<Option<Clinician>>
  {
    if sampleType != "raredisease" && sampleType != "cancer" then Err(UnboundLocalError)
    else if rows == [] then Ok(None)
    else
      var name := RowGet(rows[0], ConsultantName);
      var hospital := RowGet(rows[0], ConsultantHospital);
      match FindClinician(clinicians, name, hospital)
      case Some(j) => Ok(Some(clinicians[j]))
      case None => Ok(Some(Clinician(nextId, name, hospital)))
  }

  /**
   * A clinician is set exactly when LabKey returned a registration row; it
   * carries that row's consultant name and hospital, and it is a new row only
   * when no clinician had both.
   */
  lemma ClinicianChosen(sampleType: string, rows: seq<Row>, clinicians: seq<Clinician>, nextId: nat)
    requires sampleType == "raredisease" || sampleType == "cancer"
    ensures ClinicianFor(sampleType, rows, clinicians, nextId).Ok?
    ensures ClinicianFor(sampleType, rows, clinicians, nextId).value.Some? <==> rows != []
    ensures rows != [] ==>
      var c := ClinicianFor(sampleType, rows, clinicians, nextId).value.value;
      && c.name == RowGet(rows[0], ConsultantName)
      && c.hospital == RowGet(rows[0], ConsultantHospital)
      && (c !in clinicians ==> c.id == nextId && forall j :: 0 <= j < |clinicians| ==>
            clinicians[j].name != c.name || clinicians[j].hospital != c.hospital)
  {
  }

  /**
   * The demographics `update_demographics` writes, or none when the surname or
   * the NHS number stayed unknown. `clinician` is the one that
   * `update_clinician` set on the same updater, if any.
   */
  function DemographicsFor(sampleType: string, rows: seq<Row>, diagnosis: seq<Row>, clinician: Option<Clinician>)
    : Result<Option<Demographics>>
  {
    var unknown := Some("unknown");
    if sampleType != "cancer" && sampleType != "raredisease" then Err(AttributeError)
    else
      var surname := FirstGet(rows, "surname", unknown);
      var forename := FirstGet(rows, "forenames", unknown);
      var dob := if rows == [] then Ok("2011/01/01")
        else if RowGet(rows[0], "date_of_birth").None? then Err(AttributeError)
        else Ok(Split(RowGet(rows[0], "date_of_birth").value, ' ')[0]);
      var nhs := if rows == [] then Ok(unknown)
        else if sampleType == "raredisease" then
          var idType := RowGet(rows[0], "person_identifier_type");
          if idType.None? then Err(AttributeError)
          else if Upper(idType.value) == "NHSNUMBER" then Ok(RowGet(rows[0], "person_identifier"))
          else Ok(unknown)
        else Ok(RowGet(rows[0], "person_identifier"));
      var diseaseColumn := if sampleType == "raredisease" then "gel_disease_information_specific_disease"
        else "diagnosis_icd_code";
      var recruiting := FirstGet(diagnosis, diseaseColumn, None);
      if dob.Err? then Err(dob.error)
      else if nhs.Err? then Err(nhs.error)
      else if surname != unknown && nhs.value != unknown then
        match StrptimeYmd(dob.value)
        case Err(e) => Err(e)
        case Ok(date) =>
          if clinician.None? then Err(AttributeError)
          else Ok(Some(Demographics(nhs.value, surname, forename, date, recruiting, clinician.value.hospital)))
      else Ok(None)
  }

  /**
   * The proband is rewritten only from a LabKey row whose surname and NHS
   * number are known, and its GMC becomes the clinician's hospital.
   */
  lemma DemographicsWritten(sampleType: string, rows: seq<Row>, diagnosis: seq<Row>, clinician: Option<Clinician>)
    ensures var d := DemographicsFor(sampleType, rows, diagnosis, clinician);
      d.Ok? && d.value.Some? ==>
      var p := d.value.value;
      && (sampleType == "raredisease" || sampleType == "cancer")
      && rows != [] && clinician.Some?
      && p.surname == RowGet(rows[0], "surname") && p.surname != Some("unknown")
      && p.nhsNumber == RowGet(rows[0], "person_identifier") && p.nhsNumber != Some("unknown")
      && p.forename == RowGet(rows[0], "forenames")
      && RowGet(rows[0], "date_of_birth").Some?
      && StrptimeYmd(Split(RowGet(rows[0], "date_of_birth").value, ' ')[0]) == Ok(p.dateOfBirth)
      && ValidDate(p.dateOfBirth)
      && p.gmc == clinician.value.hospital
  {
  }

  /**
   * A date of birth that `strptime` refuses is never written: the update
   * raises or leaves the proband alone, and it does so before the clinician
   * is read.
   */
  lemma DemographicsDateChecked(sampleType: string, rows: seq<Row>, diagnosis: seq<Row>, clinician: Option<Clinician>)
    requires rows != [] && RowGet(rows[0], "date_of_birth").Some?
    requires StrptimeYmd(Split(RowGet(rows[0], "date_of_birth").value, ' ')[0]).Err?
    ensures DemographicsFor(sampleType, rows, diagnosis, clinician) == DemographicsFor(sampleType, rows, diagnosis, None)
    ensures var d := DemographicsFor(sampleType, rows, diagnosis, clinician);
      d == Ok(None) || (d.Err? && (d.error.ValueError? || d.error == AttributeError))
  {
  }

  /**
   * Without a LabKey row, or for a rare-disease proband whose identifier is
   * not an NHS number, the proband is left alone.
   */
  lemma DemographicsKept(sampleType: string, rows: seq<Row>, diagnosis: seq<Row>, clinician: Option<Clinician>)
    requires sampleType == "raredisease" || sampleType == "cancer"
    ensures rows == [] ==> DemographicsFor(sampleType, rows, diagnosis, clinician) == Ok(None)
    ensures sampleType == "raredisease" && rows != [] && RowGet(rows[0], "date_of_birth").Some?
      && RowGet(rows[0], "person_identifier_type").Some?
      && Upper(RowGet(rows[0], "person_identifier_type").value) != "NHSNUMBER"
      ==> DemographicsFor(sampleType, rows, diagnosis, clinician) == Ok(None)
  {
  }

  /** The `UpdateDemographics` object: the clinician it found and the rows it writes. */
  class DemographicsUpdater {
    const sampleType: string
    /** `self.clinician`, set by `UpdateClinician`. */
    var clinician: Option<Clinician>
    /** The `Clinician` table. */
    var clinicians: seq<Clinician>
    var nextId: nat
    /** The clinician of the case's family. */
    var familyClinician: Option<nat>
    /** The proband's demographic fields. */
    var proband: Demographics

    constructor (sampleType: string, clinicians: seq<Clinician>, nextId: nat,
                 familyClinician: Option<nat>, proband: Demographics)
      ensures this.sampleType == sampleType && this.clinician == None
      ensures this.clinicians == clinicians && this.nextId == nextId
      ensures this.familyClinician == familyClinician && this.proband == proband
    {
      this.sampleType := sampleType;
      this.clinician := None;
      this.clinicians := clinicians;
      this.nextId := nextId;
      this.familyClinician := familyClinician;
      this.proband := proband;
    }

    /** `update_clinician`, with the registration rows LabKey returned. */
    method UpdateClinician(rows: seq<Row>) returns (r: Result<Option<Clinician>>)
      modifies this
      ensures r == ClinicianFor(sampleType, rows, old(clinicians), old(nextId))
      ensures proband == old(proband)
      ensures r.Ok? && r.value.Some? ==>
        && clinician == r.value
        && familyClinician == Some(r.value.value.id)
        && (if r.value.value in old(clinicians) then clinicians == old(clinicians) && nextId == old(nextId)
            else clinicians == old(clinicians) + [r.value.value] && nextId == old(nextId) + 1)
      ensures !(r.Ok? && r.value.Some?) ==>
        clinician == old(clinician) && clinicians == old(clinicians) && nextId == old(nextId)
        && familyClinician == old(familyClinician)
    {
      if sampleType != "raredisease" && sampleType != "cancer" {
        return Err(UnboundLocalError);
      }
      if rows == [] {
        return Ok(None);
      }
      var name := RowGet(rows[0], ConsultantName);
      var hospital := RowGet(rows[0], ConsultantHospital);
      var found := FindClinician(clinicians, name, hospital);
      var c: Clinician;
      if found.Some? {
        c := clinicians[found.value];
      } else {
        c := Clinician(nextId, name, hospital);
        assert c !in clinicians;
        clinicians := clinicians + [c];
        nextId := nextId + 1;
      }
      clinician := Some(c);
      familyClinician := Some(c.id);
      return Ok(Some(c));
    }

    /** `update_demographics`, with the participant and diagnosis rows LabKey returned. */
    method UpdateDemographics(rows: seq<Row>, diagnosis: seq<Row>) returns (r: Result<bool>)
      modifies this`proband
      ensures match DemographicsFor(sampleType, rows, diagnosis, clinician)
        case Err(e) => r == Err(e) && proband == old(proband)
        case Ok(None) => r == Ok(false) && proband == old(proband)
        case Ok(Some(p)) => r == Ok(true) && proband == p
    {
      match DemographicsFor(sampleType, rows, diagnosis, clinician)
      case Err(e) =>
        r := Err(e);
      case Ok(None) =>
        r := Ok(false);
      case Ok(Some(p)) =>
        proband := p;
        r := Ok(true);
    }
  }

  // ---------------------------------------------------------------------------
  // ReportHistoryFormatter
  // ---------------------------------------------------------------------------

  /** A serialized field value; a field that is absent reads as null. */
  datatype Json = JNull | JString(s: string) | JOther(text: string)

  /** The `fields` of one serialized version. */
  type Fields = map<string, Json>

  function Get(fields: Fields, key: string): Json
  {
    if key in fields then fields[key] else JNull
  }

  /** `(changed, fields)` as `json_diff` returns it. */
  datatype Diff = Diff(changed: bool, fields: seq<string>)

  /** One entry of a formatted history: the version and its difference from the one before. */
  datatype Entry = Entry(data: Fields, diff: Diff)

  const ReportInterest: seq<string> := [
    "assigned_user", "case_sent", "case_status", "mdt_status", "pilot_case", "no_primary_findings"]

  const ProbandInterest: seq<string> := [
    "forename", "surname", "date_of_birth", "nhs_number", "sex", "outcome", "comment",
    "discussion", "action", "gmc", "lab_number", "local_id", "deceased", "disease_group",
    "recruiting_disease", "disease_subtype", "disease_stage", "disease_grade",
    "currently_in_clinical_trial", "current_clinical_trial_info",
    "suitable_for_clinical_trial", "previous_testing", "previous_treatment"]

  /** The dictionary `{k: fields.get(k, None) for k in fields_of_interest}` (its keys in first-seen order are `Dedup(interest)`). */
  function Subset(fields: Fields, interest: seq<string>): map<string, Json>
  {
    map k | k in interest :: Get(fields, k)
  }

  /** The fields on which two versions disagree. */
  function Differs(newer: Fields, older: Fields): string -> bool
  {
    k => Get(newer, k) != Get(older, k)
  }

  /** `json_diff`: nothing when the two subsets agree, else the fields of interest that differ, in order. */
  function FieldDiff(newer: Fields, older: Fields, interest: seq<string>): Diff
  {
    if Subset(newer, interest) == Subset(older, interest) then Diff(false, [])
    else Diff(true, Filter(Dedup(interest), Differs(newer, older)))
  }

  /**
   * The meaning of `json_diff`: a change is reported exactly when some field
   * of interest differs, and the fields listed are exactly those, each once.
   */
  lemma FieldDiffMeaning(newer: Fields, older: Fields, interest: seq<string>)
    ensures FieldDiff(newer, older, interest).changed <==>
      exists k :: k in interest && Get(newer, k) != Get(older, k)
    ensures FieldDiff(newer, older, interest).changed <==> FieldDiff(newer, older, interest).fields != []
    ensures forall k :: k in FieldDiff(newer, older, interest).fields <==>
      k in interest && Get(newer, k) != Get(older, k)
    ensures forall i, j :: 0 <= i < j < |FieldDiff(newer, older, interest).fields| ==>
      FieldDiff(newer, older, interest).fields[i] != FieldDiff(newer, older, interest).fields[j]
  {
    var keys := Dedup(interest);
    DedupProperties(interest);
    var p := Differs(newer, older);
    var d := Filter(keys, p);
    FilterUnique(keys, p);
    FilterMembers(keys, p);
    if Subset(newer, interest) == Subset(older, interest) {
      forall k | k in interest ensures Get(newer, k) == Get(older, k) {
        assert Subset(newer, interest)[k] == Subset(older, interest)[k];
      }
    } else {
      var k :| k in interest && p(k);
      var i :| 0 <= i < |keys| && keys[i] == k;
      assert d != [];
    }
  }

  /** `json_diff` does not care which version is the newer. */
  lemma FieldDiffSymmetric(newer: Fields, older: Fields, interest: seq<string>)
    ensures FieldDiff(newer, older, interest) == FieldDiff(older, newer, interest)
  {
    FilterSame(Dedup(interest), Differs(newer, older), Differs(older, newer));
  }

  lemma {:induction false} FilterSame<T>(s: seq<T>, p: T -> bool, q: T -> bool)
    requires forall x :: p(x) == q(x)
    ensures Filter(s, p) == Filter(s, q)
    decreases |s|
  {
    if |s| > 0 {
      FilterSame(s[..|s| - 1], p, q);
    }
  }

  /** Filtering a sequence without duplicates gives one without duplicates. */
  lemma {:induction false} FilterUnique<T>(s: seq<T>, p: T -> bool)
    requires forall i, j :: 0 <= i < j < |s| ==> s[i] != s[j]
    ensures forall i, j :: 0 <= i < j < |Filter(s, p)| ==> Filter(s, p)[i] != Filter(s, p)[j]
    decreases |s|
  {
    if |s| > 0 {
      var init := s[..|s| - 1];
      FilterUnique(init, p);
      FilterMembers(init, p);
      assert s[|s| - 1] !in init;
    }
  }

  /**
   * The `json_diff` method, with its dictionary comprehensions and its loop
   * over the keys of the newer subset.
   */
  method JsonDiff(newer: Fields, older: Fields, interest: seq<string>) returns (d: Diff)
    ensures d == FieldDiff(newer, older, interest)
  {
    var newSubset := Subset(newer, interest);
    var oldSubset := Subset(older, interest);
    if newSubset == oldSubset {
      return Diff(false, []);
    }
    var keys := Dedup(interest);
    DedupProperties(interest);
    var fieldDiff := ChangedFields(newer, older, newSubset, oldSubset, keys);
    return Diff(true, fieldDiff);
  }

  /** The loop of `json_diff` over the keys of the newer subset, in order. */
  method ChangedFields(newer: Fields, older: Fields, newSubset: map<string, Json>, oldSubset: map<string, Json>,
                       keys: seq<string>) returns (fieldDiff: seq<string>)
    requires forall k :: k in keys ==> k in newSubset && k in oldSubset
    requires forall k :: k in keys ==> newSubset[k] == Get(newer, k) && oldSubset[k] == Get(older, k)
    ensures fieldDiff == Filter(keys, Differs(newer, older))
  {
    fieldDiff := [];
    for i := 0 to |keys|
      invariant fieldDiff == Filter(keys[..i], Differs(newer, older))
    {
      assert keys[..i + 1][..i] == keys[..i];
      var field := keys[i];
      if newSubset[field] != oldSubset[field] {
        fieldDiff := fieldDiff + [field];
      }
    }
    assert keys[..|keys|] == keys;
  }

  /** The entry of the `i`-th version: the first is shown whole, each later one against the one before. */
  function EntryAt(versions: seq<Fields>, i: nat, interest: seq<string>): Entry
    requires i < |versions|
  {
    Entry(versions[i], if i == 0 then Diff(true, interest) else FieldDiff(versions[i - 1], versions[i], interest))
  }

  /** The entries of a history, one per version. */
  function Entries(versions: seq<Fields>, interest: seq<string>): seq<Entry>
  {
    if versions == [] then []
    else Entries(versions[..|versions| - 1], interest) + [EntryAt(versions, |versions| - 1, interest)]
  }

  /** The `i`-th entry shows the `i`-th version and its changes against the version before. */
  lemma {:induction false} EntriesMeaning(versions: seq<Fields>, interest: seq<string>)
    ensures |Entries(versions, interest)| == |versions|
    ensures forall i :: 0 <= i < |versions| ==> Entries(versions, interest)[i].data == versions[i]
    ensures |versions| > 0 ==> Entries(versions, interest)[0].diff == Diff(true, interest)
    ensures forall i :: 0 < i < |versions| ==>
      Entries(versions, interest)[i].diff == FieldDiff(versions[i - 1], versions[i], interest)
  {
    if versions != [] {
      var n := |versions| - 1;
      var init := versions[..n];
      EntriesMeaning(init, interest);
      assert forall i :: 0 <= i < n ==> init[i] == versions[i];
    }
  }

  const CaseStatusChoices: map<string, string> := map[
    "N" := "Not Started", "U" := "Under Review", "M" := "Awaiting MDT", "V" := "Awaiting Validation",
    "R" := "Awaiting Reporting", "P" := "Reported", "C" := "Completed", "E" := "External"]

  const MdtStatusChoices: map<string, string> := map[
    "U" := "Unknown", "R" := "Required", "N" := "Not Required", "I" := "In Progress", "D" := "Done"]

  /** The key a `KeyError` names when a stored value is not a choice. */
  function KeyText(v: Json): string
  {
    match v
    case JNull => "None"
    case JString(s) => s
    case JOther(t) => t
  }

  /** Replaces one stored choice code by its display text. */
  function RelabelField(fields: Fields, key: string, choices: map<string, string>): (r: Result<Fields>)
    ensures r.Ok? <==> key in fields && fields[key].JString? && fields[key].s in choices
    ensures r.Ok? ==> r.value == fields[key := JString(choices[fields[key].s])]
    ensures key !in fields ==> r == Err(KeyError(key))
  {
    if key !in fields then Err(KeyError(key))
    else if fields[key].JString? && fields[key].s in choices then Ok(fields[key := JString(choices[fields[key].s])])
    else Err(KeyError(KeyText(fields[key])))
  }

  /** A report version with `case_status` and `mdt_status` shown by their display texts. */
  function Relabel(fields: Fields): Result<Fields>
  {
    match RelabelField(fields, "case_status", CaseStatusChoices)
    case Err(e) => Err(e)
    case Ok(f) => RelabelField(f, "mdt_status", MdtStatusChoices)
  }

  /** Every version relabelled, or the first failure. */
  function RelabelAll(versions: seq<Fields>): (r: Result<seq<Fields>>)
    ensures r.Ok? ==> |r.value| == |versions| && forall i :: 0 <= i < |versions| ==> Relabel(versions[i]) == Ok(r.value[i])
    ensures r.Err? ==> exists i :: (0 <= i < |versions| && Relabel(versions[i]) == Err(r.error)
      && forall j :: 0 <= j < i ==> Relabel(versions[j]).Ok?)
  {
    if versions == [] then Ok([])
    else
      match RelabelAll(versions[..|versions| - 1])
      case Err(e) => Err(e)
      case Ok(init) =>
        match Relabel(versions[|versions| - 1])
        case Err(e) => Err(e)
        case Ok(last) => Ok(init + [last])
  }

  /**
   * A relabelled version keeps every other field, and its two statuses are the
   * display texts of the stored codes.
   */
  lemma RelabelMeaning(fields: Fields)
    ensures Relabel(fields).Ok? <==>
      && "case_status" in fields && fields["case_status"].JString? && fields["case_status"].s in CaseStatusChoices
      && "mdt_status" in fields && fields["mdt_status"].JString? && fields["mdt_status"].s in MdtStatusChoices
    ensures Relabel(fields).Ok? ==>
      && Relabel(fields).value.Keys == fields.Keys
      && Relabel(fields).value["case_status"] == JString(CaseStatusChoices[fields["case_status"].s])
      && Relabel(fields).value["mdt_status"] == JString(MdtStatusChoices[fields["mdt_status"].s])
      && forall k :: k in fields && k != "case_status" && k != "mdt_status" ==> Relabel(fields).value[k] == fields[k]
  {
  }

  /** The `ReportHistoryFormatter` of one case: its report's and its proband's stored versions, reversed from newest-first to oldest first. */
  class ReportHistoryFormatter {
    const reportHistory: seq<Fields>
    const probandHistory: seq<Fields>

    constructor (reportHistory: seq<Fields>, probandHistory: seq<Fields>)
      ensures this.reportHistory == reportHistory && this.probandHistory == probandHistory
    {
      this.reportHistory := reportHistory;
      this.probandHistory := probandHistory;
    }

    /** `get_proband_history`. */
    method GetProbandHistory() returns (entries: seq<Entry>)
      ensures entries == Entries(probandHistory, ProbandInterest)
    {
      entries := [];
      for count := 0 to |probandHistory|
        invariant entries == Entries(probandHistory[..count], ProbandInterest)
      {
        var history := probandHistory[count];
        var diff: Diff;
        if count == 0 {
          diff := Diff(true, ProbandInterest);
        } else {
          diff := JsonDiff(probandHistory[count - 1], history, ProbandInterest);
        }
        EntriesPrefix(probandHistory, count, ProbandInterest);
        entries := entries + [Entry(history, diff)];
      }
      assert probandHistory[..|probandHistory|] == probandHistory;
    }

    /** `get_report_history`: each version is relabelled before it is compared with the one before. */
    method GetReportHistory() returns (r: Result<seq<Entry>>)
      ensures RelabelAll(reportHistory).Err? ==> r == Err(RelabelAll(reportHistory).error)
      ensures RelabelAll(reportHistory).Ok? ==> r == Ok(Entries(RelabelAll(reportHistory).value, ReportInterest))
    {
      var entries := [];
      var relabelled := [];
      for count := 0 to |reportHistory|
        invariant RelabelAll(reportHistory[..count]) == Ok(relabelled)
        invariant entries == Entries(relabelled, ReportInterest)
      {
        var history := Relabel(reportHistory[count]);
        if history.Err? {
          RelabelAllSnoc(reportHistory, count);
          RelabelPrefixErr(reportHistory, count + 1);
          return Err(history.error);
        }
        var diff: Diff;
        if count == 0 {
          diff := Diff(true, ReportInterest);
        } else {
          diff := JsonDiff(relabelled[count - 1], history.value, ReportInterest);
        }
        EntriesSnoc(relabelled, history.value, ReportInterest);
        RelabelAllSnoc(reportHistory, count);
        entries := entries + [Entry(history.value, diff)];
        relabelled := relabelled + [history.value];
      }
      assert reportHistory[..|reportHistory|] == reportHistory;
      return Ok(entries);
    }
  }

  /** One more version at the end of a history adds one entry. */
  lemma EntriesSnoc(versions: seq<Fields>, v: Fields, interest: seq<string>)
    ensures Entries(versions + [v], interest) == Entries(versions, interest)
      + [Entry(v, if versions == [] then Diff(true, interest) else FieldDiff(versions[|versions| - 1], v, interest))]
  {
    assert (versions + [v])[..|versions|] == versions;
    if versions != [] {
      assert (versions + [v])[|versions| - 1] == versions[|versions| - 1];
    }
  }

  /** One more version of a prefix adds one entry. */
  lemma EntriesPrefix(versions: seq<Fields>, n: nat, interest: seq<string>)
    requires n < |versions|
    ensures Entries(versions[..n + 1], interest) == Entries(versions[..n], interest)
      + [Entry(versions[n], if n == 0 then Diff(true, interest) else FieldDiff(versions[n - 1], versions[n], interest))]
  {
    assert versions[..n + 1] == versions[..n] + [versions[n]];
    EntriesSnoc(versions[..n], versions[n], interest);
  }

  /** Relabelling one more version of the prefix. */
  lemma RelabelAllSnoc(versions: seq<Fields>, n: nat)
    requires n < |versions|
    ensures RelabelAll(versions[..n + 1]) ==
      match RelabelAll(versions[..n])
      case Err(e) => Err(e)
      case Ok(init) => match Relabel(versions[n]) case Err(e) => Err(e) case Ok(last) => Ok(init + [last])
  {
    assert versions[..n + 1][..n] == versions[..n];
  }

  /** A failure in a prefix is the failure of the whole history. */
  lemma {:induction false} RelabelPrefixErr(versions: seq<Fields>, n: nat)
    requires n <= |versions|
    requires RelabelAll(versions[..n]).Err?
    ensures RelabelAll(versions) == RelabelAll(versions[..n])
    decreases |versions| - n
  {
    if n < |versions| {
      RelabelPrefixErr(versions, n + 1);
      assert versions[..n + 1][..n] == versions[..n];
    } else {
      assert versions[..n] == versions;
    }
  }
}
