/** `get_info` and `get_translation` resolve the synonym through
    `get_public_value`, which lower-cases the field, but then index the row
    index with the field exactly as given.  A field written in another case
    therefore resolves and then raises `KeyError`.  This module exhibits that
    on a small valid table and defines the lookups with the field lower-cased,
    as every other query does.
 */
module Findings {
  import opened Wrappers
  import opened Text
  import opened TranslateCodes
  import opened TableProperties
  import opened Queries

  /** One row of field "p" with public value "A"; its synonyms are "a" (from
      the "synonyms" column and from the public value) and "p" (from the field
      column). */
  const RowA: Row := Row(map["field" := "p", "public_value" := "A", "synonyms" := "a"], {"a", "p"})

  const TableA: Table := Table(
    ["field", "public_value", "synonyms"],
    map["p" := map["A" := RowA]],
    map["p" := map["a" := "A", "p" := "A"]])

  /** With the field spelled "P" the synonym resolves, yet `get_info` and
      `get_translation` raise `KeyError('P')`. */
  lemma FieldCaseCounterexample()
    ensures GetPublicValue(TableA, "P", "a") == Some("A")
    ensures GetInfo(TableA, "P", "a") == Err(KeyError("P"))
    ensures GetTranslation(TableA, "P", "a", "public_value") == Err(KeyError("P"))
  {
    assert ConvertField("P") == "p";
    assert ConvertSynonym("a") == "a";
    PublicValueColumnNormal();
  }

  lemma SynonymLiterals()
    ensures ConvertSynonym("a") == "a"
    ensures ConvertSynonym("p") == "p"
    ensures ConvertSynonym("A") == "a"
  {
    assert Lower("A") == "a";
  }

  lemma RowAStored()
    ensures StoredUnder(TableA.header, "p", "A", RowA)
  {
    SynonymLiterals();
    assert ConvertField("p") == "p";
    assert ConvertPublicValue("A") == "A";
  }

  /** The counterexample table satisfies the invariant of every loaded table. */
  lemma TableAValid()
    ensures Valid(TableA)
  {
    var t := TableA;
    SynonymLiterals();
    RowAStored();
    assert NoUpper("p");
    forall f, s | Get2(t.synonyms, f, s).Some?
      ensures ConvertSynonym(s) == s
      ensures Get2(t.data, f, ConvertPublicValue(Get2(t.synonyms, f, s).value)).Some?
    {
      assert f == "p" && (s == "a" || s == "p");
      assert ConvertPublicValue("A") == "A";
    }
    forall f, k | Get2(t.data, f, k).Some?
      ensures StoredUnder(t.header, f, k, Get2(t.data, f, k).value)
    {
      assert f == "p" && k == "A";
    }
  }

  /** `get_info` with the row index read under the lower-cased field. */
  function GetInfoNormalized(t: Table, field: string, synonym: string): (r: Result<Option<Row>>)
    ensures r == GetInfo(t, ConvertField(field), synonym)
  {
    var pv := GetPublicValue(t, field, synonym);
    GetPublicValueNormalized(t, field, synonym);
    ConvertFieldIdempotent(field);
    if pv.None? || pv.value == "" then Ok(None)
    else
      var f := ConvertField(field);
      var key := ConvertPublicValue(pv.value);
      if f !in t.data then Err(KeyError(f))
      else if key !in t.data[f] then Err(KeyError(key))
      else Ok(Some(t.data[f][key]))
  }

  /** `get_translation` on top of `GetInfoNormalized`. */
  function GetTranslationNormalized(t: Table, field: string, synonym: string, translateTo: string): (r: Result<Option<Cell>>)
    ensures r == GetTranslation(t, ConvertField(field), synonym, translateTo)
  {
    var col := ConvertHeaderCol(translateTo);
    if col !in t.header then Ok(None)
    else
      match GetInfoNormalized(t, field, synonym)
      case Err(e) => Err(e)
      case Ok(None) => Ok(None)
      case Ok(Some(row)) =>
        match row.Get(col)
        case None => Err(KeyError(col))
        case Some(cell) => Ok(Some(cell))
  }

  /** On a valid table the corrected `get_info` never raises, whatever the case
      of the field, and ignores that case: it agrees with itself on the
      lower-cased field, and with the code as written whenever the field is
      already lower-case. */
  lemma GetInfoNormalizedOnValid(t: Table, field: string, synonym: string)
    requires Valid(t)
    ensures GetInfoNormalized(t, field, synonym).Ok?
    ensures GetInfoNormalized(t, field, synonym) == GetInfoNormalized(t, ConvertField(field), synonym)
    ensures NoUpper(field) ==> GetInfoNormalized(t, field, synonym) == GetInfo(t, field, synonym)
  {
    ConvertFieldIdempotent(field);
    GetInfoOnValid(t, ConvertField(field), synonym);
  }

  /** On a valid table the corrected `get_translation` fails only on a target
      column that is excluded from the synonyms and missing from the row,
      whatever the case of the field. */
  lemma GetTranslationNormalizedOnValid(t: Table, field: string, synonym: string, translateTo: string)
    requires Valid(t)
    ensures var r := GetTranslationNormalized(t, field, synonym, translateTo);
      var col := ConvertHeaderCol(translateTo);
      r.Err? ==> && r.error == KeyError(col)
                 && col in KeysNotAsSynonyms
                 && col != "synonyms"
    ensures NoUpper(field) ==>
      GetTranslationNormalized(t, field, synonym, translateTo) == GetTranslation(t, field, synonym, translateTo)
  {
    ConvertFieldIdempotent(field);
    GetTranslationOnValid(t, ConvertField(field), synonym, translateTo);
  }
}
