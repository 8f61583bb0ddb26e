/** How the loading pass of `TranslateCodes` treats individual lines: blank
    lines after line 0 change nothing, a blank line 0 leaves the table without
    a header, and a row shorter than the header loses its trailing columns.
 */
module LineHandling {
  import opened Wrappers
  import opened TranslateCodes
  import opened TableProperties

  /** The lines with line `i` removed. */
  function Without(lines: seq<string>, i: nat): (r: seq<string>)
    requires i < |lines|
    ensures |r| == |lines| - 1
    ensures forall j :: 0 <= j < i ==> r[j] == lines[j]
    ensures forall j :: i <= j < |r| ==> r[j] == lines[j + 1]
  {
    lines[..i] + lines[i + 1..]
  }

  /** Past the removed blank line, the shortened input has loaded exactly as
      far as the full one. */
  lemma {:induction false} BlankLineSkipped(lines: seq<string>, i: nat, n: nat)
    requires 1 <= i < |lines| && IsBlank(lines[i])
    requires i + 1 <= n <= |lines|
    ensures LoadLines(Without(lines, i)[..n - 1]) == LoadLines(lines[..n])
    decreases n
  {
    var shorter := Without(lines, i);
    LoadLinesPrefix(lines, n);
    if n == i + 1 {
      assert shorter[..i] == lines[..i];
    } else {
      BlankLineSkipped(lines, i, n - 1);
      LoadLinesPrefix(shorter, n - 1);
      assert shorter[n - 2] == lines[n - 1];
    }
  }

  /** A whitespace-only line other than line 0 can be removed without changing
      the outcome of loading. */
  lemma BlankLinesIrrelevant(lines: seq<string>, i: nat)
    requires 1 <= i < |lines| && IsBlank(lines[i])
    ensures Load(Without(lines, i)) == Load(lines)
  {
    BlankLineSkipped(lines, i, |lines|);
    assert Without(lines, i)[..|lines| - 1] == Without(lines, i);
    assert lines[..|lines|] == lines;
  }

  /** Every line from 1 up to (excluding) `n` is blank. */
  ghost predicate BlankFrom1(lines: seq<string>, n: nat)
    requires n <= |lines|
  {
    forall j :: 1 <= j < n ==> IsBlank(lines[j])
  }

  lemma {:induction false} BlankFirstLinePrefix(lines: seq<string>, n: nat)
    requires 1 <= n <= |lines| && IsBlank(lines[0])
    ensures LoadLines(lines[..n]) ==
      if BlankFrom1(lines, n) then Ok(Loader([], EmptyTable)) else Err(KeyError("field"))
    decreases n
  {
    LoadLinesPrefix(lines, n);
    if n == 1 {
      assert lines[..0] == [];
    } else {
      BlankFirstLinePrefix(lines, n - 1);
      if BlankFrom1(lines, n - 1) && !IsBlank(lines[n - 1]) {
        ParseRowSpec([], SplitLine(lines[n - 1]));
        ZipKeys([], SplitLine(lines[n - 1]), "field");
      }
    }
  }

  /** When line 0 is blank there is no header: the load succeeds, with an empty
      table, exactly when every other line is blank too, and otherwise fails on
      the "field" key of the first data line. */
  lemma BlankFirstLine(lines: seq<string>)
    requires 1 <= |lines| && IsBlank(lines[0])
    ensures Load(lines) ==
      if forall j :: 1 <= j < |lines| ==> IsBlank(lines[j]) then Ok(EmptyTable) else Err(KeyError("field"))
  {
    BlankFirstLinePrefix(lines, |lines|);
    assert lines[..|lines|] == lines;
  }

  /** Zipping stops at the shorter sequence, so a data line that lacks a
      header column which is not excluded from the synonyms, and which no
      earlier header name spells exactly, fails instead of reading an empty
      value. */
  lemma ShortRowFails(rawHeader: seq<string>, cells: seq<string>, j: nat)
    requires j < |rawHeader|
    requires ConvertHeaderCol(rawHeader[j]) !in KeysNotAsSynonyms
    requires forall i :: 0 <= i < |cells| && i < |rawHeader| ==> rawHeader[i] != ConvertHeaderCol(rawHeader[j])
    ensures ParseRow(rawHeader, cells).Err?
  {
    var c := ConvertHeaderCol(rawHeader[j]);
    ZipKeys(rawHeader, cells, c);
    ParseRowSpec(rawHeader, cells);
    assert HeaderColumns(rawHeader)[j] == c;
  }
}
