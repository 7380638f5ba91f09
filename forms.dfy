/**
 * The rules in `gel2mdt/forms.py`: group permissions, which forms a user may
 * edit, the field cleaners, and what saving the case and MDT forms writes.
 */
module Forms {
  import opened Wrappers
  import opened Text
  import opened Tables
  import opened ReportVersions

  // ------------------------------------------------------------ permissions

  /** A group of the user, with its `GroupPermissions` row (flag name to value) when it has one. */
  datatype Group = Group(name: string, permissions: Option<map<string, bool>>)

  /** The boolean fields of `GroupPermissions`. */
  const PermissionFlags: seq<string> := [
    "cancer", "raredisease", "can_view_pvs", "can_view_svs", "can_view_strs",
    "can_select_update_transcript", "pull_t3_variants", "can_edit_proband",
    "can_edit_completed_proband", "can_edit_gelir", "can_edit_mdt", "can_get_gel_report",
    "can_edit_relative", "can_edit_clinical_questions", "start_mdt", "can_edit_case_alert",
    "can_edit_validation_list"]

  /** A permissions row holds exactly the flags of the model. */
  predicate WellFormed(g: Group)
  {
    g.permissions.Some? ==> g.permissions.value.Keys == set f | f in PermissionFlags
  }

  /**
   * `has_group_permission` over the user's groups in order: true at the first
   * group whose permissions set the flag; `getattr` raises AttributeError on
   * a name that is not a field.
   */
  function GroupPermission(groups: seq<Group>, flag: string): Result<bool>
  {
    if groups == [] then Ok(false)
    else if groups[0].permissions.None? then GroupPermission(groups[1..], flag)
    else if flag !in groups[0].permissions.value then Err(AttributeError)
    else if groups[0].permissions.value[flag] then Ok(true)
    else GroupPermission(groups[1..], flag)
  }

  method HasGroupPermission(groups: seq<Group>, flag: string) returns (r: Result<bool>)
    ensures r == GroupPermission(groups, flag)
  {
    var i := 0;
    while i < |groups|
      invariant 0 <= i <= |groups|
      invariant GroupPermission(groups, flag) == GroupPermission(groups[i..], flag)
    {
      assert groups[i..][1..] == groups[i + 1..];
      var g := groups[i];
      if g.permissions.Some? {
        if flag !in g.permissions.value {
          return Err(AttributeError);
        }
        if g.permissions.value[flag] {
          return Ok(true);
        }
      }
      i := i + 1;
    }
    return Ok(false);
  }

  /** Some group's permissions set the flag. */
  predicate Grants(groups: seq<Group>, flag: string)
  {
    exists i :: 0 <= i < |groups| && groups[i].permissions.Some? && flag in groups[i].permissions.value
      && groups[i].permissions.value[flag]
  }

  /** With well-formed groups and a real flag: true exactly when some group's permissions set it. */
  lemma {:induction false} GroupPermissionMeaning(groups: seq<Group>, flag: string)
    requires flag in PermissionFlags
    requires forall i :: 0 <= i < |groups| ==> WellFormed(groups[i])
    ensures GroupPermission(groups, flag).Ok?
    ensures GroupPermission(groups, flag).value <==> Grants(groups, flag)
  {
    if groups != [] {
      GroupPermissionMeaning(groups[1..], flag);
      assert forall i :: 1 <= i < |groups| ==> groups[1..][i - 1] == groups[i];
      assert WellFormed(groups[0]);
    }
  }

  // ---------------------------------------------------------- form enabling

  /**
   * `ProbandForm` (with `can_edit_proband`) and `GELIRForm` (with
   * `can_edit_gelir`): enabled with `can_edit_completed_proband`, or for a
   * case not completed with the form's own permission.
   */
  function FormEnabled(groups: seq<Group>, caseStatus: string, editFlag: string): Result<bool>
  {
    var completed := GroupPermission(groups, "can_edit_completed_proband");
    var edit := GroupPermission(groups, editFlag);
    if completed.Err? then Err(completed.error)
    else if edit.Err? then Err(edit.error)
    else Ok(completed.value || (caseStatus != "C" && edit.value))
  }

  /** The enabling rule in terms of the groups; a completed case needs `can_edit_completed_proband`. */
  lemma FormEnabledMeaning(groups: seq<Group>, caseStatus: string, editFlag: string)
    requires editFlag in PermissionFlags
    requires forall i :: 0 <= i < |groups| ==> WellFormed(groups[i])
    ensures FormEnabled(groups, caseStatus, editFlag).Ok?
    ensures FormEnabled(groups, caseStatus, editFlag).value <==>
      Grants(groups, "can_edit_completed_proband") || (caseStatus != "C" && Grants(groups, editFlag))
    ensures caseStatus == "C" ==>
      (FormEnabled(groups, caseStatus, editFlag).value <==> Grants(groups, "can_edit_completed_proband"))
  {
    GroupPermissionMeaning(groups, "can_edit_completed_proband");
    GroupPermissionMeaning(groups, editFlag);
  }

  const ProbandFormFields: seq<string> := ["outcome", "comment"]
  const GelirFormFields: seq<string> := ["case_status", "mdt_status", "pilot_case", "case_sent", "no_primary_findings", "case_code"]

  /** A model form: its field names and which of them are disabled. */
  class EditForm {
    const fields: seq<string>
    var disabled: set<string>

    constructor (fields: seq<string>)
      ensures this.fields == fields && disabled == {}
    {
      this.fields := fields;
      disabled := {};
    }

    /** The end of `__init__`: a form the user may not edit has every field disabled. */
    method Restrict(groups: seq<Group>, caseStatus: string, editFlag: string) returns (r: Result<bool>)
      modifies this
      ensures r == FormEnabled(groups, caseStatus, editFlag)
      ensures r == Ok(false) ==> disabled == old(disabled) + set f | f in fields
      ensures r != Ok(false) ==> disabled == old(disabled)
    {
      var completed := HasGroupPermission(groups, "can_edit_completed_proband");
      var edit := HasGroupPermission(groups, editFlag);
      if completed.Err? {
        return Err(completed.error);
      }
      if edit.Err? {
        return Err(edit.error);
      }
      var enable := false;
      if completed.value {
        enable := true;
      } else if caseStatus != "C" {
        if edit.value {
          enable := true;
        }
      }
      if !enable {
        var k := 0;
        while k < |fields|
          invariant 0 <= k <= |fields|
          invariant disabled == old(disabled) + set f | f in fields[..k]
        {
          assert fields[..k + 1] == fields[..k] + [fields[k]];
          disabled := disabled + {fields[k]};
          k := k + 1;
        }
        assert fields[..k] == fields;
      }
      return Ok(enable);
    }
  }

  // ------------------------------------------------------- GELIRForm.save

  /** The cleaned data of the case form. */
  datatype GelirData = GelirData(
    caseStatus: string, mdtStatus: string, pilotCase: bool, caseSent: bool,
    noPrimaryFindings: bool, caseCode: Option<string>)

  /** The instance with the six form fields copied in. */
  function WithGelirData(report: Report, data: GelirData): (r: Report)
    ensures r.id == report.id && r.irFamily == report.irFamily && r.content == report.content
    ensures r.workflow.assignedUser == report.workflow.assignedUser && r.workflow.user == report.workflow.user
    ensures r.workflow.firstCheck == report.workflow.firstCheck && r.workflow.secondCheck == report.workflow.secondCheck
    ensures r.workflow.caseStatus == data.caseStatus && r.workflow.mdtStatus == data.mdtStatus
    ensures r.workflow.pilotCase == data.pilotCase && r.workflow.caseSent == data.caseSent
    ensures r.workflow.noPrimaryFindings == data.noPrimaryFindings && r.workflow.caseCode == data.caseCode
  {
    report.(workflow := report.workflow.(
      caseStatus := data.caseStatus, mdtStatus := data.mdtStatus, pilotCase := data.pilotCase,
      caseSent := data.caseSent, noPrimaryFindings := data.noPrimaryFindings, caseCode := data.caseCode))
  }

  /** `GELIRForm.save`: copy the six fields, then save with `overwrite=True`. */
  method GelirFormSave(db: Database, instance: Report, data: GelirData, now: int)
    requires db.Valid()
    modifies db`reports, db`mdtReports, db`probandVariants, db`caseComments, db`nextId
    ensures db.Versions() == SaveSpec(old(db.Versions()), WithGelirData(instance, data), true, now)
    ensures db.Valid()
  {
    var edited := WithGelirData(instance, data);
    Save(db, edited, true, now);
  }

  /**
   * Saving the form of a stored report creates no version: the family's
   * latest row takes the six fields and keeps the instance's other workflow
   * fields, and no other row or table changes.
   */
  lemma GelirSaveOverwrites(v: Versioned, instance: Report, data: GelirData, now: int)
    requires instance in v.reports
    ensures var w := SaveSpec(v, WithGelirData(instance, data), true, now);
      var i := LatestIndex(v.reports, instance.irFamily);
      && |w.reports| == |v.reports| && w.nextId == v.nextId
      && w.reports[i].id == v.reports[i].id
      && w.reports[i].workflow == WithGelirData(instance, data).workflow
      && w.reports[i].content == instance.content && w.reports[i].polledAt == now
      && (forall j :: 0 <= j < |v.reports| && j != i ==> w.reports[j] == v.reports[j])
      && w.mdtReports == v.mdtReports && w.probandVariants == v.probandVariants && w.caseComments == v.caseComments
  {
    var k :| 0 <= k < |v.reports| && v.reports[k] == instance;
    assert HasFamily(v.reports, instance.irFamily) by {
      assert v.reports[k].irFamily == instance.irFamily;
    }
    SaveOverwrite(v, WithGelirData(instance, data), now);
  }

  // --------------------------------------------------------------- cleaners

  predicate IsBase(c: char)
  {
    c == 'A' || c == 'T' || c == 'G' || c == 'C'
  }

  /** `clean_reference` and `clean_alternate`: the stripped value if it is made of A, T, G and C only. */
  function CleanDna(data: string): (r: Result<string>)
    ensures r.Ok? <==> forall i :: 0 <= i < |Strip(data)| ==> IsBase(Strip(data)[i])
    ensures r.Ok? ==> r.value == Strip(data)
    ensures r.Err? ==> r.error == ValidationError("Not DNA sequence")
  {
    var d := Strip(data);
    if forall i :: 0 <= i < |d| ==> IsBase(d[i]) then Ok(d) else Err(ValidationError("Not DNA sequence"))
  }

  /** The empty sequence is accepted, and an accepted sequence is accepted again unchanged. */
  lemma CleanDnaStable(data: string)
    ensures CleanDna("") == Ok("")
    ensures CleanDna(data).Ok? ==> CleanDna(CleanDna(data).value) == CleanDna(data)
  {
    assert Strip("") == "";
    var d := Strip(data);
    if CleanDna(data).Ok? {
      StripNoSpace(d);
    }
  }

  /** `clean_gmc`: a missing or empty code is refused, any other is stripped. */
  function CleanGmc(gmc: Option<string>): (r: Result<string>)
    ensures r.Err? <==> gmc.None? || gmc.value == []
    ensures r.Err? ==> r.error == ValidationError("You must set a GMC code")
    ensures r.Ok? ==> r.value == Strip(gmc.value)
  {
    if gmc.None? || gmc.value == [] then Err(ValidationError("You must set a GMC code")) else Ok(Strip(gmc.value))
  }

  /** A cleaned code that is not empty is cleaned to itself. */
  lemma CleanGmcStable(gmc: Option<string>)
    ensures CleanGmc(gmc).Ok? && CleanGmc(gmc).value != [] ==> CleanGmc(Some(CleanGmc(gmc).value)) == CleanGmc(gmc)
  {
    if gmc.Some? {
      StripIdempotent(gmc.value);
    }
  }

  predicate LooksLikeGelId(id: string)
  {
    IsDigits(id) && |id| >= 8
  }

  /**
   * `clean_gel_id` as written: the error for an id that does not look like a
   * GEL id is built but not raised, so the method returns None and the form
   * takes None as the cleaned value.
   */
  function CleanGelIdAsWritten(id: string): (r: Result<Option<string>>)
    ensures r.Ok?
    ensures r.value.Some? <==> LooksLikeGelId(id)
  {
    if LooksLikeGelId(id) then Ok(Some(Strip(id))) else Ok(None)
  }

  /** `clean_gel_id` with the error raised: exactly the ids that do not look like GEL ids are refused, the others kept. */
  function CleanGelId(id: string): (r: Result<string>)
    ensures r.Ok? <==> LooksLikeGelId(id)
    ensures r.Ok? ==> r.value == id
    ensures r.Err? ==> r.error == ValidationError("Doesn't look like a GELID")
  {
    if LooksLikeGelId(id) then
      DigitsUnstripped(id);
      Ok(Strip(id))
    else Err(ValidationError("Doesn't look like a GELID"))
  }

  /** The id "abc" is accepted as written, as None, instead of being refused. */
  lemma GelIdNotRejected()
    ensures CleanGelIdAsWritten("abc") == Ok(None)
    ensures CleanGelId("abc").Err?
  {
    assert !IsAsciiDigit("abc"[0]);
  }

  /** On the ids it accepts, the corrected cleaner returns what the written one does. */
  lemma CleanGelIdAgrees(id: string)
    ensures CleanGelId(id).Ok? ==> CleanGelIdAsWritten(id) == Ok(Some(CleanGelId(id).value))
  {
  }

  lemma DigitsUnstripped(id: string)
    requires IsDigits(id)
    ensures Strip(id) == id
  {
    forall i | 0 <= i < |id|
      ensures !IsSpace(id[i])
    {
      assert IsAsciiDigit(id[i]);
    }
    StripNoSpace(id);
  }

  // ---------------------------------------------- RareDiseaseMDTForm.save

  /**
   * The status of the variant the MDT report belongs to: its proband variant,
   * else its SV, else its STR; with none of them the variable the method
   * writes through is never bound.
   */
  function MdtFormSpec(v: Validations, report: RareDiseaseReport, code: char, now: int): Result<Validations>
  {
    if report.probandVariant.Some? then
      var i := FindLinked(v.variants, report.probandVariant.value);
      if i.None? then Err(DoesNotExist)
      else
        var row := v.variants[i.value];
        Ok(v.(variants := v.variants[i.value := row.(row := row.row.(validation := Revalidated(row.row.validation, code, now)))]))
    else if report.probandSv.Some? then
      var i := FindLinked(v.svs, report.probandSv.value);
      if i.None? then Err(DoesNotExist)
      else Ok(v.(svs := v.svs[i.value := v.svs[i.value].(row := Revalidated(v.svs[i.value].row, code, now))]))
    else if report.probandStr.Some? then
      var i := FindLinked(v.strs, report.probandStr.value);
      if i.None? then Err(DoesNotExist)
      else Ok(v.(strs := v.strs[i.value := v.strs[i.value].(row := Revalidated(v.strs[i.value].row, code, now))]))
    else Err(UnboundLocalError)
  }

  /** `RareDiseaseMDTForm.save`, with `now` the value of `datetime.now()`. */
  method RareDiseaseMdtFormSave(db: Database, report: RareDiseaseReport, code: char, now: int) returns (r: Result<RareDiseaseReport>)
    modifies db`probandVariants, db`probandSvs, db`probandStrs
    ensures var spec := MdtFormSpec(old(db.Statuses()), report, code, now);
      && (r.Err? <==> spec.Err?)
      && (r.Err? ==> r.error == spec.error && db.Statuses() == old(db.Statuses()))
      && (r.Ok? ==> r.value == report && db.Statuses() == spec.value)
  {
    if report.probandVariant.Some? {
      var i := FindLinked(db.probandVariants, report.probandVariant.value);
      if i.None? {
        return Err(DoesNotExist);
      }
      var row := db.probandVariants[i.value];
      var validation := row.row.validation.(status := code);
      if validation.datetimeSet.None? {
        validation := validation.(datetimeSet := Some(now));
      }
      db.probandVariants := db.probandVariants[i.value := row.(row := row.row.(validation := validation))];
    } else if report.probandSv.Some? {
      var i := FindLinked(db.probandSvs, report.probandSv.value);
      if i.None? {
        return Err(DoesNotExist);
      }
      var validation := db.probandSvs[i.value].row.(status := code);
      if validation.datetimeSet.None? {
        validation := validation.(datetimeSet := Some(now));
      }
      db.probandSvs := db.probandSvs[i.value := db.probandSvs[i.value].(row := validation)];
    } else if report.probandStr.Some? {
      var i := FindLinked(db.probandStrs, report.probandStr.value);
      if i.None? {
        return Err(DoesNotExist);
      }
      var validation := db.probandStrs[i.value].row.(status := code);
      if validation.datetimeSet.None? {
        validation := validation.(datetimeSet := Some(now));
      }
      db.probandStrs := db.probandStrs[i.value := db.probandStrs[i.value].(row := validation)];
    } else {
      return Err(UnboundLocalError);
    }
    return Ok(report);
  }

  /**
   * The precedence of the MDT form: a report of a proband variant changes only
   * that variant, one of an SV only that SV (and likewise for an STR), giving
   * it the chosen status and keeping a time already set.
   */
  lemma MdtFormPrecedence(v: Validations, report: RareDiseaseReport, code: char, now: int)
    requires MdtFormSpec(v, report, code, now).Ok?
    ensures var w := MdtFormSpec(v, report, code, now).value;
      && |w.variants| == |v.variants| && |w.svs| == |v.svs| && |w.strs| == |v.strs|
      && (report.probandVariant.Some? ==> (
            var i := FindLinked(v.variants, report.probandVariant.value).value;
            && w.svs == v.svs && w.strs == v.strs
            && w.variants[i].row.validation == Revalidated(v.variants[i].row.validation, code, now)
            && (forall j :: 0 <= j < |v.variants| && j != i ==> w.variants[j] == v.variants[j])))
      && (report.probandVariant.None? && report.probandSv.Some? ==> (
            var i := FindLinked(v.svs, report.probandSv.value).value;
            && w.variants == v.variants && w.strs == v.strs
            && w.svs[i].row == Revalidated(v.svs[i].row, code, now)
            && (forall j :: 0 <= j < |v.svs| && j != i ==> w.svs[j] == v.svs[j])))
      && (report.probandVariant.None? && report.probandSv.None? ==> (
            var i := FindLinked(v.strs, report.probandStr.value).value;
            && w.variants == v.variants && w.svs == v.svs
            && w.strs[i].row == Revalidated(v.strs[i].row, code, now)
            && (forall j :: 0 <= j < |v.strs| && j != i ==> w.strs[j] == v.strs[j])))
  {
  }
}
