/** Properties of the loading pass of `TranslateCodes`: the shape of the
    indexes it builds, which line wins when two lines claim the same key,
    when loading fails, and how blank lines and the header line are treated.
 */
module TableProperties {
  import opened Wrappers
  import opened Text
  import opened TranslateCodes

  /** A row as the loader stores it under field `f` and key `k` of a table
      with the given header. */
  ghost predicate StoredUnder(header: seq<string>, f: string, k: string, row: Row)
  {
    && (forall c :: c in header && c !in KeysNotAsSynonyms ==> c in row.cells)
    && "public_value" in row.cells
    && ConvertPublicValue(row.cells["public_value"]) == k
    && "field" in row.cells
    && ConvertField(row.cells["field"]) == f
    && (forall s :: s in row.synonyms ==> ConvertSynonym(s) == s)
    && ConvertSynonym(row.cells["public_value"]) in row.synonyms
    && ConvertSynonym(row.cells["field"]) in row.synonyms
  }

  /** What every loaded table satisfies: both indexes know the same fields,
      field keys are lower-case, synonym keys are in normal form, every
      resolved public value has a row, and every row sits under its own field
      and upper-cased public value and has every header column outside
      `KeysNotAsSynonyms`. */
  ghost predicate Valid(t: Table)
  {
    && t.synonyms.Keys == t.data.Keys
    && (forall f :: f in t.data ==> NoUpper(f))
    && (forall f, s :: Get2(t.synonyms, f, s).Some? ==>
          && ConvertSynonym(s) == s
          && Get2(t.data, f, ConvertPublicValue(Get2(t.synonyms, f, s).value)).Some?)
    && (forall f, k :: Get2(t.data, f, k).Some? ==> StoredUnder(t.header, f, k, Get2(t.data, f, k).value))
  }

  /** An entry as `ParseRow` produces it under the given header. */
  ghost predicate WellFormed(header: seq<string>, e: Entry)
  {
    && NoUpper(e.field)
    && StoredUnder(header, e.field, ConvertPublicValue(e.publicValue), e.row)
    && e.row.cells["public_value"] == e.publicValue
  }

  lemma KnownColumns()
    ensures ConvertHeaderCol("public_value") == "public_value"
    ensures ConvertHeaderCol("field") == "field"
    ensures "public_value" !in KeysNotAsSynonyms && "field" !in KeysNotAsSynonyms
  {
    FieldColumnNormal();
    PublicValueColumnNormal();
  }

  /** A key of the zipped row is a header name, so its normalised form is a
      header column. */
  lemma ZipKeyIsColumn(rawHeader: seq<string>, cells: seq<string>, k: string)
    requires k in Zip(rawHeader, cells)
    ensures ConvertHeaderCol(k) in HeaderColumns(rawHeader)
  {
    ZipKeys(rawHeader, cells, k);
    var i :| 0 <= i < Min(|rawHeader|, |cells|) && rawHeader[i] == k;
    assert HeaderColumns(rawHeader)[i] == ConvertHeaderCol(k);
  }

  /** A parsed row's synonym set holds every normalised alternative of its
      "synonyms" column and the normalised value of every header column outside
      `KeysNotAsSynonyms`, which includes "field" and "public_value". */
  lemma ParsedSynonyms(rawHeader: seq<string>, cells: seq<string>)
    requires ParseRow(rawHeader, cells).Ok?
    ensures var d := Zip(rawHeader, cells);
      var syns := ParseRow(rawHeader, cells).value.row.synonyms;
      && (forall p :: p in Split(d["synonyms"], SynonymSeparator) ==> ConvertSynonym(p) in syns)
      && (forall c :: c in HeaderColumns(rawHeader) && c !in KeysNotAsSynonyms ==> c in d && ConvertSynonym(d[c]) in syns)
      && ConvertSynonym(d["field"]) in syns
      && ConvertSynonym(d["public_value"]) in syns
  {
    var d := Zip(rawHeader, cells);
    ParseRowSpec(rawHeader, cells);
    KnownColumns();
    ZipKeyIsColumn(rawHeader, cells, "field");
    ZipKeyIsColumn(rawHeader, cells, "public_value");
  }

  /** Every member of a set of normalised synonyms is in normal form. */
  ghost predicate AllNormal(syns: set<string>)
  {
    forall s :: s in syns ==> ConvertSynonym(s) == s
  }

  lemma SynonymPiecesNormal(text: string)
    ensures AllNormal(SynonymPieces(text))
  {
    forall s | s in SynonymPieces(text)
      ensures ConvertSynonym(s) == s
    {
      var p :| p in Split(text, SynonymSeparator) && s == ConvertSynonym(p);
      ConvertSynonymNormalForm(p);
    }
  }

  lemma ColumnValuesNormal(cols: seq<string>, d: map<string, string>)
    ensures AllNormal(ColumnValues(cols, d))
  {
    forall s | s in ColumnValues(cols, d)
      ensures ConvertSynonym(s) == s
    {
      var c :| c in cols && c !in KeysNotAsSynonyms && c in d && s == ConvertSynonym(d[c]);
      ConvertSynonymNormalForm(d[c]);
    }
  }

  lemma ParseRowWellFormed(rawHeader: seq<string>, cells: seq<string>)
    requires ParseRow(rawHeader, cells).Ok?
    ensures WellFormed(HeaderColumns(rawHeader), ParseRow(rawHeader, cells).value)
  {
    var e := ParseRow(rawHeader, cells).value;
    var d := Zip(rawHeader, cells);
    ParseRowSpec(rawHeader, cells);
    ParsedSynonyms(rawHeader, cells);
    SynonymPiecesNormal(d["synonyms"]);
    ColumnValuesNormal(HeaderColumns(rawHeader), d);
    assert AllNormal(e.row.synonyms);
    ConvertFieldIdempotent(d["field"]);
  }

  /** Storing a parsed entry keeps the table valid. */
  lemma StorePreservesValid(t: Table, e: Entry)
    requires Valid(t) && WellFormed(t.header, e)
    ensures Valid(Store(t, e))
  {
    var t' := Store(t, e);
    StoreSpec(t, e);
    forall f, k | Get2(t'.data, f, k).Some?
      ensures StoredUnder(t'.header, f, k, Get2(t'.data, f, k).value)
    {
      StoreRow(t, e, f, k);
    }
    forall f, s | Get2(t'.synonyms, f, s).Some?
      ensures ConvertSynonym(s) == s
      ensures Get2(t'.data, f, ConvertPublicValue(Get2(t'.synonyms, f, s).value)).Some?
    {
      StoreSynonym(t, e, f, s);
      var k := ConvertPublicValue(Get2(t'.synonyms, f, s).value);
      StoreRow(t, e, f, k);
    }
  }

  /** The header as written: the stripped cells of physical line 0, or nothing
      when that line is blank. */
  ghost function HeaderOf(lines: seq<string>): seq<string>
  {
    if |lines| > 0 && !IsBlank(lines[0]) then SplitLine(lines[0]) else []
  }

  /** What data line `i` contributes, or `None` for the header line, a blank
      line, or a line that does not parse. */
  ghost function EntryAt(lines: seq<string>, i: nat): Option<Entry>
    requires i < |lines|
  {
    if i == 0 || IsBlank(lines[i]) then None
    else ParseRow(HeaderOf(lines), SplitLine(lines[i])).ToOption()
  }

  /** What each line contributes, in order. */
  ghost function Entries(lines: seq<string>): (es: seq<Option<Entry>>)
    ensures |es| == |lines|
    ensures forall i :: 0 <= i < |lines| ==> es[i] == EntryAt(lines, i)
  {
    seq(|lines|, i requires 0 <= i < |lines| => EntryAt(lines, i))
  }

  /** The public value of the last entry among the first `n` whose field is
      `f` and whose synonym set contains `s`. */
  ghost function SynonymWriter(es: seq<Option<Entry>>, n: nat, f: string, s: string): Option<string>
    requires n <= |es|
    decreases n
  {
    if n == 0 then None
    else if es[n - 1].Some? && es[n - 1].value.field == f && s in es[n - 1].value.row.synonyms then
      Some(es[n - 1].value.publicValue)
    else SynonymWriter(es, n - 1, f, s)
  }

  /** The row of the last entry among the first `n` whose field is `f` and
      whose upper-cased public value is `k`. */
  ghost function RowWriter(es: seq<Option<Entry>>, n: nat, f: string, k: string): Option<Row>
    requires n <= |es|
    decreases n
  {
    if n == 0 then None
    else if es[n - 1].Some? && es[n - 1].value.field == f && ConvertPublicValue(es[n - 1].value.publicValue) == k then
      Some(es[n - 1].value.row)
    else RowWriter(es, n - 1, f, k)
  }

  /** The fold over a prefix, one line unrolled. */
  lemma LoadLinesPrefix(lines: seq<string>, n: nat)
    requires 1 <= n <= |lines|
    ensures LoadLines(lines[..n]) ==
      match LoadLines(lines[..n - 1])
      case Err(e) => Err(e)
      case Ok(st) => Step(st, n == 1, lines[n - 1])
  {
    assert lines[..n][..n - 1] == lines[..n - 1];
  }

  lemma StepOnPrefix(lines: seq<string>, n: nat)
    requires 1 <= n <= |lines| && LoadLines(lines[..n]).Ok?
    ensures LoadLines(lines[..n - 1]).Ok?
    ensures LoadLines(lines[..n]) == Step(LoadLines(lines[..n - 1]).value, n == 1, lines[n - 1])
  {
    LoadLinesPrefix(lines, n);
  }

  /** The header as written comes from line 0 and nowhere else. */
  lemma {:induction false} LoadedHeader(lines: seq<string>, n: nat)
    requires n <= |lines| && LoadLines(lines[..n]).Ok?
    ensures var st := LoadLines(lines[..n]).value;
      && (n >= 1 ==> st.rawHeader == HeaderOf(lines))
      && st.table.header == HeaderColumns(st.rawHeader)
    decreases n
  {
    if n == 0 {
      assert lines[..0] == [];
    } else {
      StepOnPrefix(lines, n);
      LoadedHeader(lines, n - 1);
    }
  }

  /** The step for a data line stores its entry, if the line is not blank. */
  lemma DataStep(lines: seq<string>, n: nat)
    requires 2 <= n <= |lines| && LoadLines(lines[..n]).Ok?
    ensures LoadLines(lines[..n - 1]).Ok?
    ensures var table := LoadLines(lines[..n - 1]).value.table;
      LoadLines(lines[..n]).value.table ==
        if EntryAt(lines, n - 1).Some? then Store(table, EntryAt(lines, n - 1).value) else table
  {
    StepOnPrefix(lines, n);
    LoadedHeader(lines, n - 1);
  }

  /** The header step leaves both indexes empty. */
  lemma FirstStep(lines: seq<string>)
    requires 1 <= |lines| && LoadLines(lines[..1]).Ok?
    ensures LoadLines(lines[..1]).value.table.synonyms == map[]
    ensures LoadLines(lines[..1]).value.table.data == map[]
  {
    StepOnPrefix(lines, 1);
    assert lines[..0] == [];
  }

  lemma {:induction false} LoadedValidPrefix(lines: seq<string>, n: nat)
    requires n <= |lines| && LoadLines(lines[..n]).Ok?
    ensures Valid(LoadLines(lines[..n]).value.table)
    decreases n
  {
    if n == 0 {
      assert lines[..0] == [];
    } else if n == 1 {
      FirstStep(lines);
    } else {
      DataStep(lines, n);
      LoadedValidPrefix(lines, n - 1);
      LoadedHeader(lines, n - 1);
      if EntryAt(lines, n - 1).Some? {
        ParseRowWellFormed(HeaderOf(lines), SplitLine(lines[n - 1]));
        StorePreservesValid(LoadLines(lines[..n - 1]).value.table, EntryAt(lines, n - 1).value);
      }
    }
  }

  lemma {:induction false} LoadedSynonymsPrefix(lines: seq<string>, n: nat, f: string, s: string)
    requires n <= |lines| && LoadLines(lines[..n]).Ok?
    ensures Get2(LoadLines(lines[..n]).value.table.synonyms, f, s) == SynonymWriter(Entries(lines), n, f, s)
    decreases n
  {
    if n == 0 {
      assert lines[..0] == [];
    } else if n == 1 {
      FirstStep(lines);
    } else {
      DataStep(lines, n);
      LoadedSynonymsPrefix(lines, n - 1, f, s);
      if EntryAt(lines, n - 1).Some? {
        StoreSynonym(LoadLines(lines[..n - 1]).value.table, EntryAt(lines, n - 1).value, f, s);
      }
    }
  }

  lemma {:induction false} LoadedRowsPrefix(lines: seq<string>, n: nat, f: string, k: string)
    requires n <= |lines| && LoadLines(lines[..n]).Ok?
    ensures Get2(LoadLines(lines[..n]).value.table.data, f, k) == RowWriter(Entries(lines), n, f, k)
    decreases n
  {
    if n == 0 {
      assert lines[..0] == [];
    } else if n == 1 {
      FirstStep(lines);
    } else {
      DataStep(lines, n);
      LoadedRowsPrefix(lines, n - 1, f, k);
      if EntryAt(lines, n - 1).Some? {
        StoreRow(LoadLines(lines[..n - 1]).value.table, EntryAt(lines, n - 1).value, f, k);
      }
    }
  }

  /** Line `i` does not stop the load: it is line 0, blank, or a data line
      that parses. */
  ghost predicate LineLoads(lines: seq<string>, i: nat)
    requires i < |lines|
  {
    i == 0 || IsBlank(lines[i]) || EntryAt(lines, i).Some?
  }

  /** Line 0 never stops the load. */
  lemma HeaderStepOk(lines: seq<string>)
    requires 1 <= |lines|
    ensures LoadLines(lines[..1]).Ok?
  {
    LoadLinesPrefix(lines, 1);
    assert lines[..0] == [];
  }

  /** Once a line has stopped the load, no later line resumes it. */
  lemma ErrorPersists(lines: seq<string>, n: nat)
    requires 1 <= n <= |lines| && LoadLines(lines[..n - 1]).Err?
    ensures LoadLines(lines[..n]) == LoadLines(lines[..n - 1])
  {
    LoadLinesPrefix(lines, n);
  }

  /** A data line keeps the load going exactly when it is blank or parses. */
  lemma StepOk(lines: seq<string>, n: nat)
    requires 2 <= n <= |lines| && LoadLines(lines[..n - 1]).Ok?
    ensures LoadLines(lines[..n]).Ok? <==> LineLoads(lines, n - 1)
  {
    LoadLinesPrefix(lines, n);
    LoadedHeader(lines, n - 1);
  }

  /** None of the first `n` lines stops the load. */
  ghost predicate PrefixLoads(lines: seq<string>, n: nat)
    requires n <= |lines|
  {
    forall i :: 0 <= i < n ==> LineLoads(lines, i)
  }

  lemma PrefixLoadsStep(lines: seq<string>, n: nat)
    requires 1 <= n <= |lines|
    ensures PrefixLoads(lines, n) <==> PrefixLoads(lines, n - 1) && LineLoads(lines, n - 1)
  {
  }

  /** Loading the first `n` lines fails exactly when one of them stops it. */
  lemma {:induction false} LoadPrefixOk(lines: seq<string>, n: nat)
    requires n <= |lines|
    ensures LoadLines(lines[..n]).Ok? <==> PrefixLoads(lines, n)
    decreases n
  {
    if n == 0 {
      assert lines[..0] == [];
    } else if n == 1 {
      HeaderStepOk(lines);
      PrefixLoadsStep(lines, 1);
    } else {
      LoadPrefixOk(lines, n - 1);
      PrefixLoadsStep(lines, n);
      if LoadLines(lines[..n - 1]).Ok? {
        StepOk(lines, n);
      } else {
        ErrorPersists(lines, n);
      }
    }
  }

  /** Loading fails exactly when some data line (a non-blank line other than
      line 0) lacks a key the loader reads. */
  lemma LoadOk(lines: seq<string>)
    ensures Load(lines).Ok? <==> forall i :: 0 <= i < |lines| ==> LineLoads(lines, i)
  {
    LoadPrefixOk(lines, |lines|);
    assert lines[..|lines|] == lines;
  }

  /** Every table `Load` produces is valid, and its header is line 0 normalised. */
  lemma LoadedValid(lines: seq<string>)
    requires Load(lines).Ok?
    ensures Valid(Load(lines).value)
    ensures Load(lines).value.header == HeaderColumns(HeaderOf(lines))
  {
    assert lines[..|lines|] == lines;
    LoadedValidPrefix(lines, |lines|);
    LoadedHeader(lines, |lines|);
  }

  /** Last write wins for synonyms: after loading, `synonyms[f][s]` is the public
      value of the last data line with field `f` whose synonym set holds `s`,
      and is absent when there is none. */
  lemma SynonymsLastWriteWins(lines: seq<string>, f: string, s: string)
    requires Load(lines).Ok?
    ensures Get2(Load(lines).value.synonyms, f, s) == SynonymWriter(Entries(lines), |lines|, f, s)
  {
    assert lines[..|lines|] == lines;
    LoadedSynonymsPrefix(lines, |lines|, f, s);
  }

  /** Last write wins for rows: after loading, `data[f][k]` is the row of the
      last data line with field `f` and upper-cased public value `k`, and that
      row's public value upper-cases to `k`. */
  lemma RowsLastWriteWins(lines: seq<string>, f: string, k: string)
    requires Load(lines).Ok?
    ensures Get2(Load(lines).value.data, f, k) == RowWriter(Entries(lines), |lines|, f, k)
    ensures Get2(Load(lines).value.data, f, k).Some? ==>
      var row := Get2(Load(lines).value.data, f, k).value;
      "public_value" in row.cells && ConvertPublicValue(row.cells["public_value"]) == k
  {
    assert lines[..|lines|] == lines;
    LoadedRowsPrefix(lines, |lines|, f, k);
    LoadedValid(lines);
  }

  /** An entry whose synonym `s` no later entry of the same field claims keeps
      `s` for itself. */
  lemma {:induction false} WriterUnchallenged(es: seq<Option<Entry>>, n: nat, i: nat, s: string)
    requires i < n <= |es|
    requires es[i].Some? && s in es[i].value.row.synonyms
    requires forall j :: i < j < n && es[j].Some? && es[j].value.field == es[i].value.field
               ==> s !in es[j].value.row.synonyms
    ensures SynonymWriter(es, n, es[i].value.field, s) == Some(es[i].value.publicValue)
    decreases n
  {
    if n - 1 > i {
      WriterUnchallenged(es, n - 1, i, s);
    }
  }

  /** An entry whose upper-cased public value no later entry of the same field
      shares keeps its row under that key. */
  lemma {:induction false} RowWriterUnchallenged(es: seq<Option<Entry>>, n: nat, i: nat)
    requires i < n <= |es|
    requires es[i].Some?
    requires forall j :: i < j < n && es[j].Some? && es[j].value.field == es[i].value.field
               ==> ConvertPublicValue(es[j].value.publicValue) != ConvertPublicValue(es[i].value.publicValue)
    ensures RowWriter(es, n, es[i].value.field, ConvertPublicValue(es[i].value.publicValue)) == Some(es[i].value.row)
    decreases n
  {
    if n - 1 > i {
      RowWriterUnchallenged(es, n - 1, i);
    }
  }

  /** Some entry claims `s` in its field, so `s` has a last writer. */
  lemma {:induction false} WriterExists(es: seq<Option<Entry>>, n: nat, i: nat, s: string)
    requires i < n <= |es|
    requires es[i].Some? && s in es[i].value.row.synonyms
    ensures SynonymWriter(es, n, es[i].value.field, s).Some?
    decreases n
  {
    if n - 1 > i {
      WriterExists(es, n - 1, i, s);
    }
  }

  /** Every synonym of a data line resolves after loading, to that line's own
      public value when no later line of the same field claims it too. */
  lemma SynonymResolves(lines: seq<string>, i: nat, s: string)
    requires Load(lines).Ok?
    requires i < |lines| && EntryAt(lines, i).Some? && s in EntryAt(lines, i).value.row.synonyms
    ensures GetPublicValue(Load(lines).value, EntryAt(lines, i).value.field, s).Some?
    ensures (forall j :: i < j < |lines| && EntryAt(lines, j).Some? && EntryAt(lines, j).value.field == EntryAt(lines, i).value.field
               ==> s !in EntryAt(lines, j).value.row.synonyms)
      ==> GetPublicValue(Load(lines).value, EntryAt(lines, i).value.field, s) == Some(EntryAt(lines, i).value.publicValue)
  {
    var es := Entries(lines);
    var e := es[i].value;
    ParseRowWellFormed(HeaderOf(lines), SplitLine(lines[i]));
    LowerFixedPoint(e.field);
    ConvertSynonymNormalForm(s);
    SynonymsLastWriteWins(lines, e.field, s);
    WriterExists(es, |lines|, i, s);
    if forall j :: i < j < |lines| && es[j].Some? && es[j].value.field == e.field ==> s !in es[j].value.row.synonyms {
      WriterUnchallenged(es, |lines|, i, s);
    }
  }

  /** A row's own public value resolves to itself when no later line of the
      same field claims its normalised form. */
  lemma PublicValueResolvesToItself(lines: seq<string>, i: nat)
    requires Load(lines).Ok?
    requires i < |lines| && EntryAt(lines, i).Some?
    requires var e := EntryAt(lines, i).value;
      forall j :: i < j < |lines| && EntryAt(lines, j).Some? && EntryAt(lines, j).value.field == e.field
        ==> ConvertSynonym(e.publicValue) !in EntryAt(lines, j).value.row.synonyms
    ensures var e := EntryAt(lines, i).value;
      GetPublicValue(Load(lines).value, e.field, e.publicValue) == Some(e.publicValue)
  {
    var e := EntryAt(lines, i).value;
    ParseRowWellFormed(HeaderOf(lines), SplitLine(lines[i]));
    SynonymResolves(lines, i, ConvertSynonym(e.publicValue));
    ConvertSynonymNormalForm(e.publicValue);
  }
}
