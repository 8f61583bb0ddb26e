/** The read-only queries of `TranslateCodes` on a table the loader built:
    the sorted listings, and what the lookups promise once the indexes are
    consistent (see `TableProperties.Valid`).
 */
module Queries {
  import opened Wrappers
  import opened Text
  import opened Ordering
  import opened TranslateCodes
  import opened TableProperties

  /** `fields`: the fields of the row index, sorted, each once. */
  method Fields(t: Table) returns (r: seq<string>)
    ensures StrictlySorted(r)
    ensures forall f :: f in r <==> f in t.data
    ensures |r| == |t.data|
    ensures forall i, j :: 0 <= i < j < |r| ==> r[i] != r[j]
  {
    r := SortedKeys(t.data.Keys);
    SortedDistinct(r);
  }

  /** `get_public_value_list`: the upper-cased public values of the lower-cased
      field, sorted, each once; an unknown field raises `KeyError`. */
  method GetPublicValueList(t: Table, field: string) returns (r: Result<seq<string>>)
    ensures r.Err? <==> ConvertField(field) !in t.data
    ensures r.Err? ==> r.error == KeyError(ConvertField(field))
    ensures r.Ok? ==> StrictlySorted(r.value)
    ensures r.Ok? ==> forall k :: k in r.value <==> k in t.data[ConvertField(field)]
    ensures r.Ok? ==> forall i, j :: 0 <= i < j < |r.value| ==> r.value[i] != r.value[j]
  {
    var f := ConvertField(field);
    if f !in t.data {
      return Err(KeyError(f));
    }
    var keys := SortedKeys(t.data[f].Keys);
    SortedDistinct(keys);
    return Ok(keys);
  }

  /** `get_public_value` normalises its arguments itself, so passing them
      normalised already changes nothing: the lookup ignores ASCII case in the
      field and case and spaces in the synonym. */
  lemma GetPublicValueNormalized(t: Table, field: string, synonym: string)
    ensures GetPublicValue(t, field, synonym) == GetPublicValue(t, ConvertField(field), ConvertSynonym(synonym))
  {
    ConvertFieldIdempotent(field);
    ConvertSynonymNormalForm(synonym);
  }

  /** After loading, `get_public_value` returns the public value of the last
      data line of the lower-cased field whose synonym set holds the normalised
      synonym, and `None` when there is no such line. */
  lemma LoadedPublicValue(lines: seq<string>, field: string, synonym: string)
    requires Load(lines).Ok?
    ensures GetPublicValue(Load(lines).value, field, synonym)
      == SynonymWriter(Entries(lines), |lines|, ConvertField(field), ConvertSynonym(synonym))
  {
    SynonymsLastWriteWins(lines, ConvertField(field), ConvertSynonym(synonym));
  }

  /** A field of a valid table is lower-case, so it is its own normal form and
      every name `fields` lists is accepted by `get_public_value_list`. */
  lemma FieldIsNormal(t: Table, f: string)
    requires Valid(t) && f in t.data
    ensures ConvertField(f) == f
  {
    ConvertFieldIdempotent(f);
  }

  /** A key of the row index is an upper-cased public value, so it is its own
      normal form and `list_synonyms` finds its row under it. */
  lemma PublicValueKeyIsNormal(t: Table, field: string, k: string)
    requires Valid(t) && ConvertField(field) in t.data && k in t.data[ConvertField(field)]
    ensures ConvertPublicValue(k) == k
    ensures ListSynonyms(t, field, k) == Ok(t.data[ConvertField(field)][k].synonyms)
  {
    var f := ConvertField(field);
    assert Get2(t.data, f, k).Some?;
    var row := t.data[f][k];
    ConvertPublicValueIdempotent(row.cells["public_value"]);
  }

  /** In a valid table, `get_info` with a lower-case field never raises: a
      resolved public value always has its row, and that row's own public
      value upper-cases to the same key. */
  lemma GetInfoOnValid(t: Table, field: string, synonym: string)
    requires Valid(t) && NoUpper(field)
    ensures GetInfo(t, field, synonym).Ok?
    ensures GetInfo(t, field, synonym).value.Some? ==>
      var row := GetInfo(t, field, synonym).value.value;
      && "public_value" in row.cells
      && ConvertPublicValue(row.cells["public_value"]) == ConvertPublicValue(GetPublicValue(t, field, synonym).value)
  {
    ConvertFieldIdempotent(field);
    var pv := GetPublicValue(t, field, synonym);
    if pv.Some? {
      assert Get2(t.synonyms, field, ConvertSynonym(synonym)).Some?;
      assert Get2(t.data, field, ConvertPublicValue(pv.value)).Some?;
    }
  }

  /** In a valid table, `get_translation` with a lower-case field can fail only
      on the last lookup, the target column of the row, and only for a column
      excluded from the synonyms other than "synonyms" itself: every other
      header column is in every stored row. */
  lemma GetTranslationOnValid(t: Table, field: string, synonym: string, translateTo: string)
    requires Valid(t) && NoUpper(field)
    ensures var r := GetTranslation(t, field, synonym, translateTo);
      var col := ConvertHeaderCol(translateTo);
      r.Err? ==> && r.error == KeyError(col)
                 && col in t.header
                 && col in KeysNotAsSynonyms
                 && col != "synonyms"
  {
    GetInfoOnValid(t, field, synonym);
    var col := ConvertHeaderCol(translateTo);
    var info := GetInfo(t, field, synonym);
    if col in t.header && info.value.Some? {
      var pv := GetPublicValue(t, field, synonym).value;
      assert Get2(t.data, field, ConvertPublicValue(pv)).Some?;
    }
  }

  /** In a valid table, the synonyms `list_synonyms` returns are in normal form
      and include the public value asked for, in any ASCII case. */
  lemma ListSynonymsOnValid(t: Table, field: string, publicValue: string)
    requires Valid(t)
    ensures var r := ListSynonyms(t, field, publicValue);
      r.Ok? ==> AllNormal(r.value) && ConvertSynonym(publicValue) in r.value
  {
    var f := ConvertField(field);
    var k := ConvertPublicValue(publicValue);
    if Get2(t.data, f, k).Some? {
      var row := t.data[f][k];
      SameUpperSameLower(row.cells["public_value"], publicValue);
    }
  }

  /** The row `get_info` returns is the one `list_synonyms` reads for that
      row's own public value and for the resolved public value. */
  lemma InfoAgreesWithListSynonyms(t: Table, field: string, synonym: string)
    requires Valid(t)
    requires GetInfo(t, field, synonym).Ok? && GetInfo(t, field, synonym).value.Some?
    ensures var row := GetInfo(t, field, synonym).value.value;
      && "public_value" in row.cells
      && ListSynonyms(t, field, row.cells["public_value"]) == Ok(row.synonyms)
      && ListSynonyms(t, field, GetPublicValue(t, field, synonym).value) == Ok(row.synonyms)
  {
    FieldIsNormal(t, field);
    var k := ConvertPublicValue(GetPublicValue(t, field, synonym).value);
    assert Get2(t.data, field, k).Some?;
  }

  /** After loading, a synonym of a data line leads `get_info` to that line's
      row when no later line of the same field claims the synonym or has a
      public value with the same upper-case form; a line with an empty public
      value resolves to `None`. */
  lemma LoadedLineInfo(lines: seq<string>, i: nat, s: string)
    requires Load(lines).Ok?
    requires i < |lines| && EntryAt(lines, i).Some?
    requires var e := EntryAt(lines, i).value;
      && s in e.row.synonyms
      && forall j :: i < j < |lines| && EntryAt(lines, j).Some? && EntryAt(lines, j).value.field == e.field ==>
           && s !in EntryAt(lines, j).value.row.synonyms
           && ConvertPublicValue(EntryAt(lines, j).value.publicValue) != ConvertPublicValue(e.publicValue)
    ensures var e := EntryAt(lines, i).value;
      GetInfo(Load(lines).value, e.field, s) == if e.publicValue == "" then Ok(None) else Ok(Some(e.row))
  {
    var es := Entries(lines);
    var e := es[i].value;
    SynonymResolves(lines, i, s);
    var k := ConvertPublicValue(e.publicValue);
    RowsLastWriteWins(lines, e.field, k);
    RowWriterUnchallenged(es, |lines|, i);
  }

  /** A table loaded with at least one data line has a "public_value" column. */
  lemma LoadedHasPublicValueColumn(lines: seq<string>, i: nat)
    requires Load(lines).Ok?
    requires i < |lines| && EntryAt(lines, i).Some?
    ensures "public_value" in Load(lines).value.header
    ensures EntryAt(lines, i).value.row.Get("public_value") == Some(TextCell(EntryAt(lines, i).value.publicValue))
  {
    var rawHeader := HeaderOf(lines);
    var cells := SplitLine(lines[i]);
    ParseRowSpec(rawHeader, cells);
    ZipKeyIsColumn(rawHeader, cells, "public_value");
    PublicValueColumnNormal();
    LoadedValid(lines);
  }

  /** Under the same conditions, translating the synonym to "public_value"
      gives that line's public value as written. */
  lemma LoadedLineRoundTrip(lines: seq<string>, i: nat, s: string)
    requires Load(lines).Ok?
    requires i < |lines| && EntryAt(lines, i).Some?
    requires var e := EntryAt(lines, i).value;
      && s in e.row.synonyms
      && forall j :: i < j < |lines| && EntryAt(lines, j).Some? && EntryAt(lines, j).value.field == e.field ==>
           && s !in EntryAt(lines, j).value.row.synonyms
           && ConvertPublicValue(EntryAt(lines, j).value.publicValue) != ConvertPublicValue(e.publicValue)
    ensures var e := EntryAt(lines, i).value;
      GetTranslation(Load(lines).value, e.field, s, "public_value")
        == if e.publicValue == "" then Ok(None) else Ok(Some(TextCell(e.publicValue)))
  {
    LoadedLineInfo(lines, i, s);
    LoadedHasPublicValueColumn(lines, i);
    PublicValueColumnNormal();
  }
}
