/**
 * Request handlers of `gel2mdt/views.py` that are rules rather than page
 * rendering: the username `register` derives, the validation-status update
 * of `ajax_variant_validation`, and the transcript `select_transcript`
 * chooses.
 */
module Views {
  import opened Wrappers
  import opened Text
  import opened Tables
  import opened ProbandVariants

  // ----------------------------------------------------------------- register

  /** `register`: five letters of the surname (or all of a shorter one) and the first initial, lower-cased. */
  function Username(firstName: string, lastName: string): (r: Result<string>)
    ensures r.Err? <==> firstName == []
    ensures r.Err? ==> r.error == IndexError
    ensures r.Ok? ==> (
      var n := if |lastName| >= 6 then 5 else |lastName|;
      && |r.value| == n + 1 && |r.value| <= 6
      && r.value[..n] == Lower(lastName[..n])
      && r.value[n] == LowerChar(firstName[0]))
  {
    if firstName == [] then Err(IndexError)
    else if |lastName| >= 6 then Ok(Lower(lastName[..5] + [firstName[0]]))
    else Ok(Lower(lastName + [firstName[0]]))
  }

  lemma LowerIdempotent(s: string)
    ensures Lower(Lower(s)) == Lower(s)
  {
  }

  /** The derived username holds no capital letter, and does not depend on how the names were capitalised. */
  lemma UsernameIgnoresCase(firstName: string, lastName: string)
    ensures Username(firstName, lastName).Ok? ==>
      forall i :: 0 <= i < |Username(firstName, lastName).value| ==> !('A' <= Username(firstName, lastName).value[i] <= 'Z')
    ensures Username(Lower(firstName), Lower(lastName)) == Username(firstName, lastName)
  {
    if firstName != [] {
      var n := if |lastName| >= 6 then 5 else |lastName|;
      assert Lower(lastName)[..n] == Lower(lastName[..n]);
      assert Lower(lastName)[..n] + [Lower(firstName)[0]] == Lower(lastName[..n] + [firstName[0]]);
      LowerIdempotent(lastName[..n] + [firstName[0]]);
      assert lastName == lastName[..n] || n == 5;
    }
  }

  // ------------------------------------------------------ validation status

  /** The choices of `validation_status` on proband variants, SVs and STRs: code and caption. */
  const ValidationChoices: seq<(char, string)> := [
    ('U', "Unknown"), ('A', "Awaiting Validation"), ('K', "Urgent Validation"), ('I', "In Progress"),
    ('P', "Passed Validation"), ('F', "Failed Validation"), ('N', "Not Required")]

  /** `validation_status_key` of `ajax_variant_validation`: caption to code. */
  const ValidationStatusKey: map<string, char> := map[
    "Unknown" := 'U', "Awaiting Validation" := 'A', "Urgent Validation" := 'K', "In Progress" := 'I',
    "Passed Validation" := 'P', "Failed Validation" := 'F', "Not Required" := 'N']

  function ValidationCode(caption: string): (r: Result<char>)
    ensures r.Ok? <==> caption in ValidationStatusKey
    ensures r.Err? ==> r.error == KeyError(caption)
  {
    if caption in ValidationStatusKey then Ok(ValidationStatusKey[caption]) else Err(KeyError(caption))
  }

  /**
   * The view's table is exactly the inverse of the model's choices: each
   * caption maps to its own code, every key is a caption, and no two choices
   * share a code.
   */
  lemma ValidationKeyInvertsChoices()
    ensures forall k :: 0 <= k < |ValidationChoices| ==> ValidationCode(ValidationChoices[k].1) == Ok(ValidationChoices[k].0)
    ensures forall caption :: caption in ValidationStatusKey ==>
      exists k :: 0 <= k < |ValidationChoices| && ValidationChoices[k] == (ValidationStatusKey[caption], caption)
  {
    ChoicesInKey();
    KeyInChoices();
  }

  /** No two choices share a code. */
  lemma ValidationCodesDistinct()
    ensures forall i, j :: 0 <= i < j < |ValidationChoices| ==> ValidationChoices[i].0 != ValidationChoices[j].0
  {
  }

  lemma ChoicesInKey()
    ensures forall k :: 0 <= k < |ValidationChoices| ==> ValidationCode(ValidationChoices[k].1) == Ok(ValidationChoices[k].0)
  {
    forall k | 0 <= k < |ValidationChoices|
      ensures ValidationCode(ValidationChoices[k].1) == Ok(ValidationChoices[k].0)
    {
      var c := ValidationChoices[k];
      assert c.1 in ValidationStatusKey && ValidationStatusKey[c.1] == c.0 by {
        if k == 0 { assert c == ('U', "Unknown"); }
        else if k == 1 { assert c == ('A', "Awaiting Validation"); }
        else if k == 2 { assert c == ('K', "Urgent Validation"); }
        else if k == 3 { assert c == ('I', "In Progress"); }
        else if k == 4 { assert c == ('P', "Passed Validation"); }
        else if k == 5 { assert c == ('F', "Failed Validation"); }
        else { assert c == ('N', "Not Required"); }
      }
    }
  }

  lemma KeyInChoices()
    ensures forall caption :: caption in ValidationStatusKey ==>
      exists k :: 0 <= k < |ValidationChoices| && ValidationChoices[k] == (ValidationStatusKey[caption], caption)
  {
    forall caption | caption in ValidationStatusKey
      ensures exists k :: 0 <= k < |ValidationChoices| && ValidationChoices[k] == (ValidationStatusKey[caption], caption)
    {
      var keys := ValidationStatusKey.Keys;
      assert keys == {"Unknown", "Awaiting Validation", "Urgent Validation", "In Progress",
                       "Passed Validation", "Failed Validation", "Not Required"};
      if caption == "Unknown" { assert ValidationChoices[0] == (ValidationStatusKey[caption], caption); }
      else if caption == "Awaiting Validation" { assert ValidationChoices[1] == (ValidationStatusKey[caption], caption); }
      else if caption == "Urgent Validation" { assert ValidationChoices[2] == (ValidationStatusKey[caption], caption); }
      else if caption == "In Progress" { assert ValidationChoices[3] == (ValidationStatusKey[caption], caption); }
      else if caption == "Passed Validation" { assert ValidationChoices[4] == (ValidationStatusKey[caption], caption); }
      else if caption == "Failed Validation" { assert ValidationChoices[5] == (ValidationStatusKey[caption], caption); }
      else { assert ValidationChoices[6] == (ValidationStatusKey[caption], caption); }
    }
  }

  /** A validation update: the new status and user, and the time only if none was set before. */
  function Validated(v: Validation, code: char, user: Option<nat>, now: int): (w: Validation)
    ensures w.status == code && w.responsibleUser == user
    ensures v.datetimeSet.Some? ==> w.datetimeSet == v.datetimeSet
    ensures v.datetimeSet.None? ==> w.datetimeSet == Some(now)
  {
    Revalidated(v, code, now).(responsibleUser := user)
  }

  /** A later update changes the status and the user but keeps the time of the first. */
  lemma ValidationTimeSetOnce(v: Validation, c1: char, u1: Option<nat>, t1: int, c2: char, u2: Option<nat>, t2: int)
    ensures Validated(Validated(v, c1, u1, t1), c2, u2, t2) == Validated(v, c2, u2, t1)
    ensures Validated(Validated(v, c1, u1, t1), c2, u2, t2).datetimeSet.Some?
  {
  }

  /** Which of the three POST parameters named the variant. */
  datatype Submitted = VariantSubmitted(id: nat) | SvSubmitted(id: nat) | StrSubmitted(id: nat) | NoneSubmitted

  /** The JSON answer: the status and the responsible user's name read back. */
  datatype ValidationResponse = ValidationResponse(status: Option<char>, user: Option<string>)

  function FindUser(users: seq<User>, name: string): (r: Option<nat>)
    ensures r.Some? ==> r.value < |users| && users[r.value].username == name
    ensures r.None? ==> forall i :: 0 <= i < |users| ==> users[i].username != name
  {
    if users == [] then None
    else if users[0].username == name then Some(0)
    else
      var r := FindUser(users[1..], name);
      if r.Some? then Some(r.value + 1)
      else
        assert forall i :: 1 <= i < |users| ==> users[i] == users[1..][i - 1];
        None
  }

  /** The responsible user: none for the placeholder `---------`, else `User.objects.get(username=...)`. */
  function ResolveUser(users: seq<User>, name: string): (r: Result<Option<User>>)
    ensures r.Err? ==> r.error == DoesNotExist
  {
    if name == "---------" then Ok(None)
    else
      var i := FindUser(users, name);
      if i.Some? then Ok(Some(users[i.value])) else Err(DoesNotExist)
  }

  function UserId(u: Option<User>): Option<nat>
  {
    if u.Some? then Some(u.value.id) else None
  }

  function UserName(u: Option<User>): Option<string>
  {
    if u.Some? then Some(u.value.username) else None
  }

  /** What `ajax_variant_validation` does: the tables afterwards and the answer, or the exception. */
  function AjaxSpec(v: Validations, users: seq<User>, submitted: Submitted, caption: string, userName: string, now: int)
    : Result<(Validations, ValidationResponse)>
  {
    if submitted.NoneSubmitted? then Ok((v, ValidationResponse(None, None)))
    else
      var user := ResolveUser(users, userName);
      var code := ValidationCode(caption);
      if user.Err? then Err(user.error)
      else if code.Err? then Err(code.error)
      else
        var answer := ValidationResponse(Some(code.value), UserName(user.value));
        var u := UserId(user.value);
        match submitted
        case VariantSubmitted(id) =>
          var i := FindLinked(v.variants, id);
          if i.None? then Err(DoesNotExist)
          else
            var row := v.variants[i.value];
            Ok((v.(variants := v.variants[i.value := row.(row := row.row.(validation := Validated(row.row.validation, code.value, u, now)))]), answer))
        case SvSubmitted(id) =>
          var i := FindLinked(v.svs, id);
          if i.None? then Err(DoesNotExist)
          else Ok((v.(svs := v.svs[i.value := v.svs[i.value].(row := Validated(v.svs[i.value].row, code.value, u, now))]), answer))
        case StrSubmitted(id) =>
          var i := FindLinked(v.strs, id);
          if i.None? then Err(DoesNotExist)
          else Ok((v.(strs := v.strs[i.value := v.strs[i.value].(row := Validated(v.strs[i.value].row, code.value, u, now))]), answer))
  }

  /** `ajax_variant_validation`, with `now` the value of `timezone.now()`. */
  method AjaxVariantValidation(db: Database, submitted: Submitted, caption: string, userName: string, now: int)
    returns (r: Result<ValidationResponse>)
    modifies db`probandVariants, db`probandSvs, db`probandStrs
    ensures var spec := AjaxSpec(old(db.Statuses()), db.users, submitted, caption, userName, now);
      && (r.Err? <==> spec.Err?)
      && (r.Err? ==> (
            && r.error == spec.error
            && db.probandVariants == old(db.probandVariants) && db.probandSvs == old(db.probandSvs)
            && db.probandStrs == old(db.probandStrs)))
      && (r.Ok? ==> (
            && r.value == spec.value.1
            && db.Statuses() == spec.value.0))
  {
    if submitted.NoneSubmitted? {
      return Ok(ValidationResponse(None, None));
    }
    var user := ResolveUser(db.users, userName);
    if user.Err? {
      return Err(user.error);
    }
    var code := ValidationCode(caption);
    if code.Err? {
      return Err(code.error);
    }
    var u := UserId(user.value);
    match submitted {
      case VariantSubmitted(id) =>
        var i := FindLinked(db.probandVariants, id);
        if i.None? {
          return Err(DoesNotExist);
        }
        var row := db.probandVariants[i.value];
        var validation := row.row.validation.(status := code.value, responsibleUser := u);
        if validation.datetimeSet.None? {
          validation := validation.(datetimeSet := Some(now));
        }
        db.probandVariants := db.probandVariants[i.value := row.(row := row.row.(validation := validation))];
        r := Ok(ValidationResponse(Some(db.probandVariants[i.value].row.validation.status), UserName(user.value)));
      case SvSubmitted(id) =>
        var i := FindLinked(db.probandSvs, id);
        if i.None? {
          return Err(DoesNotExist);
        }
        var validation := db.probandSvs[i.value].row.(status := code.value, responsibleUser := u);
        if validation.datetimeSet.None? {
          validation := validation.(datetimeSet := Some(now));
        }
        db.probandSvs := db.probandSvs[i.value := db.probandSvs[i.value].(row := validation)];
        r := Ok(ValidationResponse(Some(db.probandSvs[i.value].row.status), UserName(user.value)));
      case StrSubmitted(id) =>
        var i := FindLinked(db.probandStrs, id);
        if i.None? {
          return Err(DoesNotExist);
        }
        var validation := db.probandStrs[i.value].row.(status := code.value, responsibleUser := u);
        if validation.datetimeSet.None? {
          validation := validation.(datetimeSet := Some(now));
        }
        db.probandStrs := db.probandStrs[i.value := db.probandStrs[i.value].(row := validation)];
        r := Ok(ValidationResponse(Some(db.probandStrs[i.value].row.status), UserName(user.value)));
    }
  }

  /**
   * A successful update of a proband variant gives it the code of the caption
   * and the chosen user, sets the time only if it was unset, answers with that
   * code, and changes no other row or table.
   */
  lemma AjaxUpdatesOneVariant(v: Validations, users: seq<User>, id: nat, caption: string, userName: string, now: int)
    requires AjaxSpec(v, users, VariantSubmitted(id), caption, userName, now).Ok?
    ensures var (w, answer) := AjaxSpec(v, users, VariantSubmitted(id), caption, userName, now).value;
      var i := FindLinked(v.variants, id).value;
      && caption in ValidationStatusKey && ResolveUser(users, userName).Ok?
      && answer == ValidationResponse(Some(ValidationStatusKey[caption]), UserName(ResolveUser(users, userName).value))
      && |w.variants| == |v.variants| && w.svs == v.svs && w.strs == v.strs
      && w.variants[i].id == id && w.variants[i].report == v.variants[i].report
      && w.variants[i].row.variant == v.variants[i].row.variant
      && w.variants[i].row.validation.status == ValidationStatusKey[caption]
      && w.variants[i].row.validation.datetimeSet ==
           (if v.variants[i].row.validation.datetimeSet.Some? then v.variants[i].row.validation.datetimeSet else Some(now))
      && (forall j :: 0 <= j < |v.variants| && j != i ==> w.variants[j] == v.variants[j])
  {
  }

  /** The exceptions, in the order the view meets them: the user, then the caption, then the row. */
  lemma AjaxErrors(v: Validations, users: seq<User>, submitted: Submitted, caption: string, userName: string, now: int)
    requires !submitted.NoneSubmitted?
    ensures var r := AjaxSpec(v, users, submitted, caption, userName, now);
      && (ResolveUser(users, userName).Err? ==> r == Err(DoesNotExist))
      && (ResolveUser(users, userName).Ok? && caption !in ValidationStatusKey ==> r == Err(KeyError(caption)))
      && (ResolveUser(users, userName).Ok? && caption in ValidationStatusKey ==>
            (r.Err? <==> match submitted
                         case VariantSubmitted(id) => FindLinked(v.variants, id).None?
                         case SvSubmitted(id) => FindLinked(v.svs, id).None?
                         case StrSubmitted(id) => FindLinked(v.strs, id).None?))
  {
  }

  // ------------------------------------------------------ transcript choice

  /** `Transcript.is_preferred_transcript`: a preferred-transcript row for it, its gene and its assembly. */
  predicate IsPreferred(prefs: seq<PreferredTranscript>, t: Transcript)
  {
    exists i :: 0 <= i < |prefs| && prefs[i].transcript == t.id && t.gene == Some(prefs[i].gene) && prefs[i].assembly == t.assembly
  }

  function FindTranscript(ts: seq<Transcript>, id: nat): (r: Option<nat>)
    ensures r.Some? ==> r.value < |ts| && ts[r.value].id == id
  {
    if ts == [] then None
    else if ts[|ts| - 1].id == id then Some(|ts| - 1)
    else FindTranscript(ts[..|ts| - 1], id)
  }

  /** Every row's transcript is in the transcript table (the foreign key holds). */
  predicate TranscriptsPresent(rows: seq<Ptv>, ts: seq<Transcript>)
  {
    forall i :: 0 <= i < |rows| ==> FindTranscript(ts, rows[i].transcript).Some?
  }

  function TranscriptOf(p: Ptv, ts: seq<Transcript>): Transcript
    requires FindTranscript(ts, p.transcript).Some?
  {
    ts[FindTranscript(ts, p.transcript).value]
  }

  /**
   * The transcripts the view's loop passes to `select_transcript`, from row
   * `k` of the variant's rows on, when `count` selected rows came before: the
   * first selected row's transcript, and then the first preferred one, at
   * which the loop stops.
   */
  function ChoicesFrom(rows: seq<Ptv>, ts: seq<Transcript>, prefs: seq<PreferredTranscript>, k: nat, count: nat): seq<Transcript>
    requires TranscriptsPresent(rows, ts) && k <= |rows|
    decreases |rows| - k
  {
    if k == |rows| then []
    else if !rows[k].selected then ChoicesFrom(rows, ts, prefs, k + 1, count)
    else
      var t := TranscriptOf(rows[k], ts);
      if IsPreferred(prefs, t) then [t]
      else (if count == 0 then [t] else []) + ChoicesFrom(rows, ts, prefs, k + 1, count + 1)
  }

  /** The first selected row from `k` on, and the first selected row with a preferred transcript. */
  function FirstSelected(rows: seq<Ptv>, k: nat): (r: Option<nat>)
    requires k <= |rows|
    ensures r.Some? ==> (
      && k <= r.value < |rows| && rows[r.value].selected
      && forall j :: k <= j < r.value ==> !rows[j].selected)
    ensures r.None? ==> forall j :: k <= j < |rows| ==> !rows[j].selected
    decreases |rows| - k
  {
    if k == |rows| then None else if rows[k].selected then Some(k) else FirstSelected(rows, k + 1)
  }

  function FirstPreferred(rows: seq<Ptv>, ts: seq<Transcript>, prefs: seq<PreferredTranscript>, k: nat): (r: Option<nat>)
    requires TranscriptsPresent(rows, ts) && k <= |rows|
    ensures r.Some? ==> k <= r.value < |rows| && rows[r.value].selected && IsPreferred(prefs, TranscriptOf(rows[r.value], ts))
    ensures r.None? ==> forall j :: k <= j < |rows| && rows[j].selected ==> !IsPreferred(prefs, TranscriptOf(rows[j], ts))
    decreases |rows| - k
  {
    if k == |rows| then None
    else if rows[k].selected && IsPreferred(prefs, TranscriptOf(rows[k], ts)) then Some(k)
    else FirstPreferred(rows, ts, prefs, k + 1)
  }

  /** After `count` selected non-preferred rows, the calls from `k` on: the first preferred, if any. */
  lemma {:induction false} ChoicesAfterFirst(rows: seq<Ptv>, ts: seq<Transcript>, prefs: seq<PreferredTranscript>, k: nat, count: nat)
    requires TranscriptsPresent(rows, ts) && k <= |rows| && count > 0
    ensures var f := FirstPreferred(rows, ts, prefs, k);
      ChoicesFrom(rows, ts, prefs, k, count) == if f.Some? then [TranscriptOf(rows[f.value], ts)] else []
    decreases |rows| - k
  {
    if k < |rows| {
      ChoicesAfterFirst(rows, ts, prefs, k + 1, if rows[k].selected then count + 1 else count);
    }
  }

  /**
   * What the view selects: nothing when no row is selected; otherwise the
   * first selected row's transcript, followed by the first preferred one when
   * that is a different, later row; so the last choice, which stands, is the
   * first preferred transcript among the selected rows, or else the first
   * selected one.
   */
  lemma ChoicesCharacterised(rows: seq<Ptv>, ts: seq<Transcript>, prefs: seq<PreferredTranscript>)
    requires TranscriptsPresent(rows, ts)
    ensures var c := ChoicesFrom(rows, ts, prefs, 0, 0);
      var s := FirstSelected(rows, 0);
      var p := FirstPreferred(rows, ts, prefs, 0);
      && |c| <= 2
      && (c == [] <==> s.None?)
      && (s.Some? ==> c[0] == TranscriptOf(rows[s.value], ts))
      && (p.Some? ==> c[|c| - 1] == TranscriptOf(rows[p.value], ts))
      && (s.Some? && p.None? ==> c == [TranscriptOf(rows[s.value], ts)])
  {
    ChoicesFromFirst(rows, ts, prefs, 0);
  }

  lemma {:induction false} ChoicesFromFirst(rows: seq<Ptv>, ts: seq<Transcript>, prefs: seq<PreferredTranscript>, k: nat)
    requires TranscriptsPresent(rows, ts) && k <= |rows|
    ensures var c := ChoicesFrom(rows, ts, prefs, k, 0);
      var s := FirstSelected(rows, k);
      var p := FirstPreferred(rows, ts, prefs, k);
      && |c| <= 2
      && (c == [] <==> s.None?)
      && (s.Some? ==> c[0] == TranscriptOf(rows[s.value], ts))
      && (p.Some? ==> c[|c| - 1] == TranscriptOf(rows[p.value], ts))
      && (s.Some? && p.None? ==> c == [TranscriptOf(rows[s.value], ts)])
    decreases |rows| - k
  {
    if k < |rows| {
      if !rows[k].selected {
        ChoicesFromFirst(rows, ts, prefs, k + 1);
      } else if !IsPreferred(prefs, TranscriptOf(rows[k], ts)) {
        ChoicesAfterFirst(rows, ts, prefs, k + 1, 1);
      }
    }
  }

  /** The selection table after `select_transcript` was called with each of `cs`, in order. */
  function ApplyChoices(ptvs: seq<Ptv>, ts: seq<Transcript>, pvs: seq<Linked<VariantFields>>,
                        pv: Linked<VariantFields>, cs: seq<Transcript>): seq<Ptv>
  {
    if cs == [] then ptvs
    else
      var before := ApplyChoices(ptvs, ts, pvs, pv, cs[..|cs| - 1]);
      var t := cs[|cs| - 1];
      SelectedAfter(before, Targets(before, ts, pvs, pv, t), t.id)
  }

  /** The variant's rows of the transcript-variant table, in table order (the queryset the view iterates). */
  function RowsOfVariant(ptvs: seq<Ptv>, pv: nat): (r: seq<Ptv>)
    ensures forall x :: 0 <= x < |r| ==> r[x] in ptvs
  {
    if ptvs == [] then []
    else RowsOfVariant(ptvs[..|ptvs| - 1], pv) + (if ptvs[|ptvs| - 1].probandVariant == pv then [ptvs[|ptvs| - 1]] else [])
  }

  /** The `select_transcript` view on proband variant `pv`. */
  method SelectTranscriptView(db: Database, pv: Linked<VariantFields>)
    requires TranscriptsPresent(RowsOfVariant(db.ptvs, pv.id), db.transcripts)
    modifies db`ptvs
    ensures var rows := RowsOfVariant(old(db.ptvs), pv.id);
      db.ptvs == ApplyChoices(old(db.ptvs), db.transcripts, db.probandVariants, pv,
                              ChoicesFrom(rows, db.transcripts, db.preferredTranscripts, 0, 0))
  {
    var rows := RowsOfVariant(db.ptvs, pv.id);
    ghost var ptvs0 := db.ptvs;
    ghost var made: seq<Transcript> := [];
    var selectedCount := 0;
    var k := 0;
    while k < |rows|
      invariant 0 <= k <= |rows|
      invariant made + ChoicesFrom(rows, db.transcripts, db.preferredTranscripts, k, selectedCount)
        == ChoicesFrom(rows, db.transcripts, db.preferredTranscripts, 0, 0)
      invariant db.ptvs == ApplyChoices(ptvs0, db.transcripts, db.probandVariants, pv, made)
    {
      var ptv := rows[k];
      if ptv.selected {
        var t := TranscriptOf(ptv, db.transcripts);
        if IsPreferred(db.preferredTranscripts, t) {
          assert ChoicesFrom(rows, db.transcripts, db.preferredTranscripts, k, selectedCount) == [t];
          SelectTranscript(db, pv, t);
          assert (made + [t])[..|made|] == made;
          made := made + [t];
          return;
        } else {
          if selectedCount == 0 {
            SelectTranscript(db, pv, t);
            assert (made + [t])[..|made|] == made;
            made := made + [t];
          }
        }
        selectedCount := selectedCount + 1;
      }
      k := k + 1;
    }
    assert ChoicesFrom(rows, db.transcripts, db.preferredTranscripts, k, selectedCount) == [];
    assert made == ChoicesFrom(rows, db.transcripts, db.preferredTranscripts, 0, 0);
  }
}
