/**
 * `CaseModel` (`database_utils/case_handler.py`): the attributes of a record
 * that a case wants to find or create, the copy of them with SQL quotes
 * escaped, and the outcome of looking the record up.
 */
module CaseModels {
  import opened Wrappers
  import opened Text

  /** An attribute value: only strings are escaped. */
  datatype Value = Str(s: string) | Int(i: int) | Bool(b: bool) | NoneValue | Entry(id: nat)

  /** PostgreSQL's quoting of `'` inside a string literal: every `'` doubled. */
  function EscapeQuotes(s: string): string
  {
    Replace(s, "'", "''")
  }

  function EscapeValue(v: Value): Value
  {
    if v.Str? then Str(EscapeQuotes(v.s)) else v
  }

  lemma {:induction false} EscapeQuotesShape(s: string)
    ensures EscapeQuotes(s) == if |s| == 0 then [] else
      (if s[0] == '\'' then "''" else [s[0]]) + EscapeQuotes(s[1..])
  {
    if |s| > 0 {
      assert s[..1] == [s[0]];
    }
  }

  /** Replacing each `''` by `'` in an escaped string gives the original back. */
  lemma {:induction false} UnescapeEscape(s: string)
    ensures Replace(EscapeQuotes(s), "''", "'") == s
    decreases |s|
  {
    EscapeQuotesShape(s);
    if |s| > 0 {
      UnescapeEscape(s[1..]);
      var e := EscapeQuotes(s);
      var rest := EscapeQuotes(s[1..]);
      if s[0] == '\'' {
        assert e == "''" + rest;
        assert e[..2] == "''" && e[2..] == rest;
      } else {
        assert e == [s[0]] + rest;
        assert |e| < 2 || e[..2] != "''" by {
          if |e| >= 2 {
            assert e[0] == s[0];
          }
        }
        EscapedStartsAfterQuote(s, e, rest);
      }
      assert s == [s[0]] + s[1..];
    }
  }

  lemma EscapedStartsAfterQuote(s: string, e: string, rest: string)
    requires |s| > 0 && s[0] != '\'' && e == [s[0]] + rest
    ensures |e| < 2 ==> Replace(e, "''", "'") == e
    ensures Replace(e, "''", "'") == [s[0]] + Replace(rest, "''", "'")
  {
    if |e| < 2 {
      assert rest == [];
    } else {
      assert e[..2] != "''" by { assert e[0] == s[0]; }
      assert e[1..] == rest;
    }
  }

  /** An escaped string has no quote left that is not doubled: its length grows by one per quote. */
  lemma {:induction false} EscapeQuotesLength(s: string)
    ensures |EscapeQuotes(s)| == |s| + Occurrences(s, '\'')
    decreases |s|
  {
    EscapeQuotesShape(s);
    if |s| > 0 {
      EscapeQuotesLength(s[1..]);
    }
  }

  function Occurrences(s: string, c: char): nat
  {
    if |s| == 0 then 0 else (if s[0] == c then 1 else 0) + Occurrences(s[1..], c)
  }

  /** The escaped copy of the whole dictionary. */
  function EscapeAll(attrs: map<string, Value>): (r: map<string, Value>)
    ensures r.Keys == attrs.Keys
    ensures forall k :: k in attrs ==> r[k] == EscapeValue(attrs[k])
  {
    map k | k in attrs :: EscapeValue(attrs[k])
  }

  /** Escaping leaves the non-string values as they are, and can be undone on the strings. */
  lemma EscapeAllInverse(attrs: map<string, Value>)
    ensures forall k :: k in attrs && !attrs[k].Str? ==> EscapeAll(attrs)[k] == attrs[k]
    ensures forall k :: k in attrs && attrs[k].Str? ==>
      Replace(EscapeAll(attrs)[k].s, "''", "'") == attrs[k].s
  {
    forall k | k in attrs && attrs[k].Str?
      ensures Replace(EscapeAll(attrs)[k].s, "''", "'") == attrs[k].s
    {
      UnescapeEscape(attrs[k].s);
    }
  }

  /**
   * `check_found_in_db`: one matching row is the entry, none gives `False`
   * (here `None`), more than one raises ValueError.
   */
  function LookupOutcome(rows: seq<nat>): (r: Result<Option<nat>>)
    ensures r.Err? <==> |rows| > 1
    ensures r == Ok(None) <==> |rows| == 0
    ensures forall x :: r == Ok(Some(x)) <==> rows == [x]
  {
    if |rows| == 1 then Ok(Some(rows[0]))
    else if |rows| == 0 then Ok(None)
    else Err(ValueError("Multiple entries found for same object."))
  }

  class CaseModel {
    var modelAttributes: map<string, Value>
    var escapedModelAttributes: map<string, Value>
    var entry: Option<nat>

    /**
     * The first half of `__init__`: both dictionaries start as copies of the
     * attributes, then the second is escaped. No entry has been looked up yet.
     */
    constructor (attrs: map<string, Value>)
      ensures modelAttributes == attrs
      ensures escapedModelAttributes == EscapeAll(attrs)
      ensures entry == None
    {
      modelAttributes := attrs;
      escapedModelAttributes := attrs;
      entry := None;
      new;
      StringEscapeModelAttributes();
    }

    /**
     * `CaseModel(model_type, model_attributes, model_objects)` as a whole: the
     * copies and the escaping, then the lookup among the rows the query
     * returns. More than one row makes `__init__` raise, so no case model is
     * made; otherwise its entry is the row found, if any.
     */
    static method Init(attrs: map<string, Value>, rows: seq<nat>) returns (r: Result<CaseModel>)
      ensures r.Err? <==> |rows| > 1
      ensures r.Err? ==> r == Err(ValueError("Multiple entries found for same object."))
      ensures r.Ok? ==> fresh(r.value)
      ensures r.Ok? ==> && r.value.modelAttributes == attrs
                        && r.value.escapedModelAttributes == EscapeAll(attrs)
                        && r.value.entry == LookupOutcome(rows).value
    {
      var model := new CaseModel(attrs);
      var found := model.CheckFoundInDb(rows);
      if found.Err? {
        return Err(found.error);
      }
      return Ok(model);
    }

    /**
     * `string_escape_model_attributes`: every string value of the escaped copy
     * has its quotes doubled, in place; the unescaped copy is untouched.
     */
    method StringEscapeModelAttributes()
      modifies this
      ensures escapedModelAttributes == EscapeAll(old(escapedModelAttributes))
      ensures modelAttributes == old(modelAttributes) && entry == old(entry)
    {
      var original := escapedModelAttributes;
      var todo := original.Keys;
      while todo != {}
        invariant todo <= original.Keys
        invariant escapedModelAttributes.Keys == original.Keys
        invariant forall k :: k in original && k !in todo ==> escapedModelAttributes[k] == EscapeValue(original[k])
        invariant forall k :: k in todo ==> escapedModelAttributes[k] == original[k]
        invariant modelAttributes == old(modelAttributes) && entry == old(entry)
        decreases todo
      {
        var k :| k in todo;
        var v := escapedModelAttributes[k];
        if v.Str? {
          escapedModelAttributes := escapedModelAttributes[k := Str(EscapeQuotes(v.s))];
        }
        todo := todo - {k};
      }
    }

    /** `check_found_in_db` on the rows of the query: sets the entry, or raises. */
    method CheckFoundInDb(rows: seq<nat>) returns (r: Result<Option<nat>>)
      modifies this
      ensures r == LookupOutcome(rows)
      ensures r.Ok? ==> entry == r.value
      ensures r.Err? ==> entry == old(entry)
      ensures modelAttributes == old(modelAttributes) && escapedModelAttributes == old(escapedModelAttributes)
    {
      if |rows| == 1 {
        entry := Some(rows[0]);
        return Ok(entry);
      } else if |rows| == 0 {
        entry := None;
        return Ok(None);
      }
      return Err(ValueError("Multiple entries found for same object."));
    }
  }
}
