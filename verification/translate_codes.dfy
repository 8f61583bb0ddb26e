/** The synonym-resolution table `TranslateCodes`: a tab-delimited reference
    file, read line by line, fills two nested indexes

      synonyms[field][normalised synonym]  -> public value as written
      data[field][UPPER(public value)]     -> the whole row

    and the read-only queries resolve free-text synonyms against them.
 */
module TranslateCodes {
  import opened Wrappers
  import opened Text

  /** Column names whose values do not become synonyms (`keys_not_as_synonyms`).
      The first entry is spelled "filed", so the "field" column is NOT excluded
      and its value becomes a synonym of every row. */
  const KeysNotAsSynonyms: seq<string> := ["filed", "filter", "source", "synonyms"]

  /** The separator between the alternatives in the "synonyms" column. */
  const SynonymSeparator: string := "<or>"

  /** `_convert_synonym`: lower-case, every space removed. */
  function ConvertSynonym(synonym: string): string
  {
    RemoveSpaces(Lower(synonym))
  }

  /** `_convert_field`. */
  function ConvertField(field: string): string
  {
    Lower(field)
  }

  /** `_convert_public_value`. */
  function ConvertPublicValue(publicValue: string): string
  {
    Upper(publicValue)
  }

  /** `_convert_header_col`. */
  function ConvertHeaderCol(col: string): string
  {
    Lower(Strip(col))
  }

  /** A normalised synonym has no upper-case letter and no space. */
  lemma ConvertSynonymShape(s: string)
    ensures ' ' !in ConvertSynonym(s)
    ensures NoUpper(ConvertSynonym(s))
  {
    var lower := Lower(s);
    var r := RemoveSpaces(lower);
    RemoveSpacesSpec(lower);
    LowerFixedPoint(s);
    assert forall i :: 0 <= i < |r| ==> r[i] in lower;
  }

  /** A synonym is in normal form exactly when it has no upper-case letter and
      no space; normalising twice is normalising once. */
  lemma ConvertSynonymNormalForm(s: string)
    ensures ConvertSynonym(s) == s <==> NoUpper(s) && ' ' !in s
    ensures ConvertSynonym(ConvertSynonym(s)) == ConvertSynonym(s)
  {
    LowerFixedPoint(s);
    RemoveSpacesSpec(Lower(s));
    ConvertSynonymShape(s);
    var r := ConvertSynonym(s);
    LowerFixedPoint(r);
    RemoveSpacesSpec(Lower(r));
  }

  /** A normalised field has no upper-case letter, and normalising twice is
      normalising once. */
  lemma ConvertFieldIdempotent(f: string)
    ensures NoUpper(ConvertField(f))
    ensures ConvertField(ConvertField(f)) == ConvertField(f)
    ensures ConvertField(f) == f <==> NoUpper(f)
  {
    LowerIdempotent(f);
    LowerFixedPoint(f);
  }

  /** A normalised public value has no lower-case letter, and normalising twice
      is normalising once. */
  lemma ConvertPublicValueIdempotent(v: string)
    ensures NoLower(ConvertPublicValue(v))
    ensures ConvertPublicValue(ConvertPublicValue(v)) == ConvertPublicValue(v)
  {
    UpperIdempotent(v);
    UpperFixedPoint(v);
  }

  /** A column name already stripped and lower-case is its own normal form. */
  lemma ConvertHeaderColFixed(col: string)
    requires |col| > 0 ==> !IsSpace(col[0]) && !IsSpace(col[|col| - 1])
    requires NoUpper(col)
    ensures ConvertHeaderCol(col) == col
  {
    StripUnpadded(col);
    LowerFixedPoint(col);
  }

  /** A normalised column name has no upper-case letter, and normalising
      twice is normalising once. */
  lemma ConvertHeaderColIdempotent(col: string)
    ensures NoUpper(ConvertHeaderCol(col))
    ensures ConvertHeaderCol(ConvertHeaderCol(col)) == ConvertHeaderCol(col)
  {
    var t := Strip(col);
    StripSlice(col);
    LowerFixedPoint(t);
    var r := Lower(t);
    if |r| > 0 {
      assert r[0] == LowerChar(t[0]);
      assert r[|r| - 1] == LowerChar(t[|t| - 1]);
    }
    ConvertHeaderColFixed(r);
  }

  lemma FieldColumnNormal()
    ensures ConvertHeaderCol("field") == "field"
  {
    ConvertHeaderColFixed("field");
  }

  lemma PublicValueColumnNormal()
    ensures ConvertHeaderCol("public_value") == "public_value"
  {
    ConvertHeaderColFixed("public_value");
  }

  /** One value of a stored row: the "synonyms" entry holds a set, every
      other entry the stripped text of its column. */
  datatype Cell = TextCell(text: string) | SynonymsCell(members: set<string>)

  /** A stored row (`line_dict`): the column texts keyed by the header names as
      written, and the row's synonym set, which replaces the text of the
      "synonyms" column when the row is read. */
  datatype Row = Row(cells: map<string, string>, synonyms: set<string>) {

    /** `line_dict[key]`. */
    function Get(key: string): Option<Cell>
    {
      if key == "synonyms" then Some(SynonymsCell(synonyms))
      else if key in cells then Some(TextCell(cells[key]))
      else None
    }
  }

  /** What one data line contributes: its normalised field, its public value as
      written, and the row to store. */
  datatype Entry = Entry(field: string, publicValue: string, row: Row)

  /** The loaded table: the normalised header and the two indexes. */
  datatype Table = Table(
    header: seq<string>,
    data: map<string, map<string, Row>>,
    synonyms: map<string, map<string, string>>)

  /** The state of the loading pass: the header names as written (a local of
      `_load_file`) and the table built so far. */
  datatype Loader = Loader(rawHeader: seq<string>, table: Table)

  const EmptyTable: Table := Table([], map[], map[])

  function Min(a: nat, b: nat): nat
  {
    if a < b then a else b
  }

  /** `dict(zip(keys, values))`: pairs only up to the shorter of the two, and a
      repeated key keeps the value of its last occurrence (see ZipLastWins). */
  function Zip(keys: seq<string>, values: seq<string>): map<string, string>
    decreases |keys|
  {
    if |keys| == 0 || |values| == 0 then map[]
    else map[keys[0] := values[0]] + Zip(keys[1..], values[1..])
  }

  /** The keys of the zipped dictionary are the keys paired with a value. */
  lemma {:induction false} ZipKeys(keys: seq<string>, values: seq<string>, k: string)
    ensures k in Zip(keys, values) <==> exists i :: 0 <= i < Min(|keys|, |values|) && keys[i] == k
    decreases |keys|
  {
    if |keys| > 0 && |values| > 0 {
      ZipKeys(keys[1..], values[1..], k);
      assert forall i :: 1 <= i < Min(|keys|, |values|) ==> keys[1..][i - 1] == keys[i];
    }
  }

  /** No later pair of the zip carries the key at position `i`. */
  ghost predicate LastOccurrence(keys: seq<string>, n: nat, i: nat)
  {
    forall j :: i < j < n && j < |keys| ==> keys[j] != keys[i]
  }

  /** A key of the zipped dictionary holds the value paired with its last
      occurrence among the first `Min(|keys|, |values|)` positions. */
  lemma {:induction false} ZipLastWins(keys: seq<string>, values: seq<string>, i: nat)
    requires i < Min(|keys|, |values|)
    requires LastOccurrence(keys, Min(|keys|, |values|), i)
    ensures keys[i] in Zip(keys, values) && Zip(keys, values)[keys[i]] == values[i]
    decreases i
  {
    var n := Min(|keys|, |values|);
    if i > 0 {
      assert LastOccurrence(keys[1..], n - 1, i - 1) by {
        forall j | i - 1 < j < n - 1
          ensures keys[1..][j] != keys[1..][i - 1]
        {
          assert keys[1..][j] == keys[j + 1];
        }
      }
      ZipLastWins(keys[1..], values[1..], i - 1);
      assert keys[1..][i - 1] == keys[i];
    } else {
      ZipKeys(keys[1..], values[1..], keys[0]);
      assert forall j :: 0 <= j < n - 1 ==> keys[1..][j] == keys[j + 1];
    }
  }

  /** The header as `self._header` holds it: every name stripped and lower-cased. */
  function HeaderColumns(rawHeader: seq<string>): seq<string>
  {
    seq(|rawHeader|, i requires 0 <= i < |rawHeader| => ConvertHeaderCol(rawHeader[i]))
  }

  /** Every column of `self._header` is its own normal form, so asking
      `get_translation` for a listed column passes its header test. */
  lemma HeaderColumnNormal(rawHeader: seq<string>, col: string)
    requires col in HeaderColumns(rawHeader)
    ensures ConvertHeaderCol(col) == col
    ensures ConvertHeaderCol(col) in HeaderColumns(rawHeader)
  {
    var i :| 0 <= i < |rawHeader| && HeaderColumns(rawHeader)[i] == col;
    ConvertHeaderColIdempotent(rawHeader[i]);
  }

  /** `[item.strip() for item in line.split('\t')]`. */
  function SplitLine(line: string): (cells: seq<string>)
    ensures |cells| >= 1
  {
    var parts := Split(line, "\t");
    seq(|parts|, i requires 0 <= i < |parts| => Strip(parts[i]))
  }

  /** `not line.strip()`, which holds exactly when every character is
      whitespace (see BlankLine). */
  predicate IsBlank(line: string)
  {
    AllSpace(line)
  }

  lemma BlankLine(line: string)
    ensures IsBlank(line) <==> Strip(line) == ""
  {
    StripEmpty(line);
  }

  /** The normalised alternatives of a "synonyms" column. */
  function SynonymPieces(text: string): set<string>
  {
    set p | p in Split(text, SynonymSeparator) :: ConvertSynonym(p)
  }

  /** The normalised values of the header columns that count as synonyms,
      as a set description. */
  ghost function ColumnValues(cols: seq<string>, d: map<string, string>): set<string>
  {
    set c | c in cols && c !in KeysNotAsSynonyms && c in d :: ConvertSynonym(d[c])
  }

  /** The loop over `self.header` adding `_convert_synonym(line_dict[col])`
      for every column not in `keys_not_as_synonyms`; the first such column
      missing from the row raises `KeyError`. */
  function ColumnSynonyms(cols: seq<string>, d: map<string, string>): Result<set<string>>
    decreases |cols|
  {
    if |cols| == 0 then Ok({})
    else if cols[0] in KeysNotAsSynonyms then ColumnSynonyms(cols[1..], d)
    else if cols[0] !in d then Err(KeyError(cols[0]))
    else
      match ColumnSynonyms(cols[1..], d)
      case Err(e) => Err(e)
      case Ok(rest) => Ok({ConvertSynonym(d[cols[0]])} + rest)
  }

  /** The loop succeeds exactly when every non-excluded column is in the row,
      collects the normalised values of those columns, and otherwise fails on
      a non-excluded column the row lacks. */
  lemma {:induction false} ColumnSynonymsSpec(cols: seq<string>, d: map<string, string>)
    ensures var r := ColumnSynonyms(cols, d);
      && (r.Ok? <==> forall c :: c in cols && c !in KeysNotAsSynonyms ==> c in d)
      && (r.Ok? ==> r.value == ColumnValues(cols, d))
      && (r.Err? ==> r.error.key in cols && r.error.key !in KeysNotAsSynonyms && r.error.key !in d)
    decreases |cols|
  {
    if |cols| > 0 {
      ColumnSynonymsSpec(cols[1..], d);
      assert cols == [cols[0]] + cols[1..];
      if cols[0] in KeysNotAsSynonyms {
        assert ColumnValues(cols, d) == ColumnValues(cols[1..], d);
      } else if cols[0] in d {
        assert ColumnValues(cols, d) == {ConvertSynonym(d[cols[0]])} + ColumnValues(cols[1..], d);
      }
    }
  }

  /** All the keys a data row must have, in the order the loader reads them. */
  ghost predicate HasRequiredKeys(cols: seq<string>, d: map<string, string>)
  {
    && "field" in d
    && "synonyms" in d
    && (forall c :: c in cols && c !in KeysNotAsSynonyms ==> c in d)
    && "public_value" in d
  }

  /** Lines 62-75 of `_load_file` for one data line: zip with the header as
      written, read "field" and "synonyms", add every non-excluded column, and
      read "public_value", which the store loop at line 75 reads first. */
  function ParseRow(rawHeader: seq<string>, cells: seq<string>): Result<Entry>
  {
    var d := Zip(rawHeader, cells);
    if "field" !in d then Err(KeyError("field"))
    else if "synonyms" !in d then Err(KeyError("synonyms"))
    else
      match ColumnSynonyms(HeaderColumns(rawHeader), d)
      case Err(e) => Err(e)
      case Ok(extra) =>
        if "public_value" !in d then Err(KeyError("public_value"))
        else
          var syns := SynonymPieces(d["synonyms"]) + extra;
          Ok(Entry(ConvertField(d["field"]), d["public_value"], Row(d, syns)))
  }

  /** A data line parses exactly when its row has every key the loader reads;
      a row without "field" fails on "field" first; a failure names a key the
      row lacks; and a parsed entry carries the lower-cased field, the public
      value as written, the whole row, and as synonyms the alternatives of the
      "synonyms" column with the values of the non-excluded columns. */
  lemma ParseRowSpec(rawHeader: seq<string>, cells: seq<string>)
    ensures var d := Zip(rawHeader, cells);
      var r := ParseRow(rawHeader, cells);
      && (r.Ok? <==> HasRequiredKeys(HeaderColumns(rawHeader), d))
      && ("field" !in d ==> r == Err(KeyError("field")))
      && (r.Err? ==> r.error.key !in d)
      && (r.Ok? ==>
            && r.value.field == ConvertField(d["field"])
            && r.value.publicValue == d["public_value"]
            && r.value.row.cells == d
            && r.value.row.synonyms == SynonymPieces(d["synonyms"]) + ColumnValues(HeaderColumns(rawHeader), d))
  {
    ColumnSynonymsSpec(HeaderColumns(rawHeader), Zip(rawHeader, cells));
  }

  /** Reading "synonyms" from a parsed row yields its synonym set: the
      alternatives of the "synonyms" column with the values of the
      non-excluded columns. */
  lemma ParsedRowSynonyms(rawHeader: seq<string>, cells: seq<string>, e: Entry)
    requires ParseRow(rawHeader, cells) == Ok(e)
    ensures var d := Zip(rawHeader, cells);
      && "synonyms" in d
      && e.row.Get("synonyms") == Some(SynonymsCell(SynonymPieces(d["synonyms"]) + ColumnValues(HeaderColumns(rawHeader), d)))
  {
    ParseRowSpec(rawHeader, cells);
  }

  /** Reading any other key from a parsed row yields something exactly when a
      header name as written spells it within the length of the data line. */
  lemma ParsedRowGet(rawHeader: seq<string>, cells: seq<string>, c: string)
    requires ParseRow(rawHeader, cells).Ok? && c != "synonyms"
    ensures ParseRow(rawHeader, cells).value.row.Get(c).Some?
      <==> exists i :: 0 <= i < Min(|rawHeader|, |cells|) && rawHeader[i] == c
  {
    ParseRowSpec(rawHeader, cells);
    ZipKeys(rawHeader, cells, c);
  }

  /** The text a parsed row yields for a header name other than "synonyms" is
      the cell of the data line under the last column so named. */
  lemma ParsedRowCell(rawHeader: seq<string>, cells: seq<string>, i: nat)
    requires ParseRow(rawHeader, cells).Ok?
    requires i < Min(|rawHeader|, |cells|) && rawHeader[i] != "synonyms"
    requires LastOccurrence(rawHeader, Min(|rawHeader|, |cells|), i)
    ensures ParseRow(rawHeader, cells).value.row.Get(rawHeader[i]) == Some(TextCell(cells[i]))
  {
    ParseRowSpec(rawHeader, cells);
    ZipLastWins(rawHeader, cells, i);
  }

  /** Lines 73-79 of `_load_file`: every synonym of the entry is mapped to its
      public value, and the row is stored under its upper-cased public value
      (see StoreSpec). */
  function Store(t: Table, e: Entry): Table
  {
    var fieldSynonyms := if e.field in t.synonyms then t.synonyms[e.field] else map[];
    var fieldRows := if e.field in t.data then t.data[e.field] else map[];
    var added := map s | s in e.row.synonyms :: e.publicValue;
    t.(synonyms := t.synonyms[e.field := fieldSynonyms + added],
       data := t.data[e.field := fieldRows[ConvertPublicValue(e.publicValue) := e.row]])
  }

  /** Storing keeps the header and adds the entry's field to both indexes. */
  lemma StoreSpec(t: Table, e: Entry)
    ensures Store(t, e).header == t.header
    ensures Store(t, e).synonyms.Keys == t.synonyms.Keys + {e.field}
    ensures Store(t, e).data.Keys == t.data.Keys + {e.field}
  {
  }

  /** After storing, synonym `s` of field `f` resolves to the entry's public
      value when the entry claims it, and to what it resolved to before
      otherwise. */
  lemma StoreSynonym(t: Table, e: Entry, f: string, s: string)
    ensures Get2(Store(t, e).synonyms, f, s)
      == if f == e.field && s in e.row.synonyms then Some(e.publicValue) else Get2(t.synonyms, f, s)
  {
  }

  /** After storing, key `k` of field `f` holds the entry's row when it is the
      entry's upper-cased public value, and what it held before otherwise. */
  lemma StoreRow(t: Table, e: Entry, f: string, k: string)
    ensures Get2(Store(t, e).data, f, k)
      == if f == e.field && k == ConvertPublicValue(e.publicValue) then Some(e.row) else Get2(t.data, f, k)
  {
  }

  /** One iteration of the loop in `_load_file`; `first` says whether the
      line is physical line 0, the only one that can set the header. */
  function Step(st: Loader, first: bool, line: string): (r: Result<Loader>)
    ensures IsBlank(line) ==> r == Ok(st)
    ensures !IsBlank(line) && first ==> r == Ok(Loader(SplitLine(line), st.table.(header := HeaderColumns(SplitLine(line)))))
    ensures !IsBlank(line) && !first ==> r.Ok? == ParseRow(st.rawHeader, SplitLine(line)).Ok?
    ensures r.Ok? && !first ==> r.value.rawHeader == st.rawHeader && r.value.table.header == st.table.header
  {
    if IsBlank(line) then Ok(st)
    else
      var cells := SplitLine(line);
      if first then Ok(Loader(cells, st.table.(header := HeaderColumns(cells))))
      else
        match ParseRow(st.rawHeader, cells)
        case Err(e) => Err(e)
        case Ok(entry) => Ok(st.(table := Store(st.table, entry)))
  }

  /** The loading pass over the given lines, a left fold that stops at the first
      `KeyError`. */
  function LoadLines(lines: seq<string>): Result<Loader>
    decreases |lines|
  {
    if |lines| == 0 then Ok(Loader([], EmptyTable))
    else
      match LoadLines(lines[..|lines| - 1])
      case Err(e) => Err(e)
      case Ok(st) => Step(st, |lines| == 1, lines[|lines| - 1])
  }

  /** `TranslateCodes(path)` once the file has been read into lines. */
  function Load(lines: seq<string>): Result<Table>
  {
    match LoadLines(lines)
    case Err(e) => Err(e)
    case Ok(st) => Ok(st.table)
  }

  /** `get_public_value`: the field is lower-cased and the synonym normalised;
      an unknown field or synonym gives `None`. */
  function GetPublicValue(t: Table, field: string, synonym: string): Option<string>
  {
    Get2(t.synonyms, ConvertField(field), ConvertSynonym(synonym))
  }

  /** `get_info`: the row of the resolved public value.  A missing or empty
      public value gives `None`; the row is looked up under `field` exactly as
      given, so both lookups can raise `KeyError`. */
  function GetInfo(t: Table, field: string, synonym: string): (r: Result<Option<Row>>)
    ensures var pv := GetPublicValue(t, field, synonym);
      pv.None? || pv.value == "" <==> r == Ok(None)
    ensures r.Err? ==> r.error.key == field || r.error.key == ConvertPublicValue(GetPublicValue(t, field, synonym).value)
    ensures r.Ok? && r.value.Some? ==>
      var k := ConvertPublicValue(GetPublicValue(t, field, synonym).value);
      field in t.data && k in t.data[field] && r.value.value == t.data[field][k]
  {
    var pv := GetPublicValue(t, field, synonym);
    if pv.None? || pv.value == "" then Ok(None)
    else
      var key := ConvertPublicValue(pv.value);
      if field !in t.data then Err(KeyError(field))
      else if key !in t.data[field] then Err(KeyError(key))
      else Ok(Some(t.data[field][key]))
  }

  /** `get_translation`: `None` when the stripped, lower-cased target is not a
      header column or the synonym does not resolve to a non-empty public value;
      otherwise the target cell of the resolved row. */
  function GetTranslation(t: Table, field: string, synonym: string, translateTo: string): (r: Result<Option<Cell>>)
    ensures ConvertHeaderCol(translateTo) !in t.header ==> r == Ok(None)
    ensures ConvertHeaderCol(translateTo) in t.header ==>
      (GetInfo(t, field, synonym) == Ok(None) <==> r == Ok(None))
    ensures r.Err? ==> ConvertHeaderCol(translateTo) in t.header && GetInfo(t, field, synonym) != Ok(None)
    ensures r.Ok? && r.value.Some? ==>
      GetInfo(t, field, synonym).Ok? && GetInfo(t, field, synonym).value.Some?
      && GetInfo(t, field, synonym).value.value.Get(ConvertHeaderCol(translateTo)) == r.value
  {
    var col := ConvertHeaderCol(translateTo);
    if col !in t.header then Ok(None)
    else
      match GetInfo(t, field, synonym)
      case Err(e) => Err(e)
      case Ok(None) => Ok(None)
      case Ok(Some(row)) =>
        match row.Get(col)
        case None => Err(KeyError(col))
        case Some(cell) => Ok(Some(cell))
  }

  /** `list_synonyms`: the stored synonym set of the row filed under the
      lower-cased field and the upper-cased public value. */
  function ListSynonyms(t: Table, field: string, publicValue: string): (r: Result<set<string>>)
    ensures r.Ok? <==> Get2(t.data, ConvertField(field), ConvertPublicValue(publicValue)).Some?
    ensures r.Ok? ==> r.value == Get2(t.data, ConvertField(field), ConvertPublicValue(publicValue)).value.synonyms
    ensures r.Err? && ConvertField(field) !in t.data ==> r.error == KeyError(ConvertField(field))
  {
    var f := ConvertField(field);
    var k := ConvertPublicValue(publicValue);
    if f !in t.data then Err(KeyError(f))
    else if k !in t.data[f] then Err(KeyError(k))
    else Ok(t.data[f][k].synonyms)
  }
}
