# TranslateCodes in Dafny

A model of the synonym-resolution table `TranslateCodes` of the `nodc_codes`
package and of proofs about it.

The table is read from a tab-delimited reference file. The file has a header
line followed by data lines. Each data line names:

- a `field`, which is a category of codes;
- a `public_value`, the canonical code within that field;
- a `synonyms` column of alternatives separated by `<or>`;
- free-text columns such as short or translated names.

Loading fills two nested indexes:

    synonyms[field][normalised synonym]  -> public value as written
    data[field][UPPER(public value)]     -> the whole row

The queries then resolve free-text synonyms against these indexes:

- `get_public_value`, `get_info`, `get_translation`;
- `list_synonyms`, `get_public_value_list`, `fields`.

Modules, one per file:

| file | module | contents |
|---|---|---|
| `wrappers.dfy` | `Wrappers` | `Option`, `Result` and the `KeyError` the code raises |
| `text.dfy` | `Text` | the `str` methods used on ASCII text: `lower`, `upper`, `strip`, `replace(' ', '')`, `split` |
| `ordering.dfy` | `Ordering` | code-point order of strings and `sorted` over a key set |
| `translate_codes.dfy` | `TranslateCodes` | the normalisers, the loading pass as a fold over the lines, the queries |
| `table_properties.dfy` | `TableProperties` | index consistency of loaded tables, last-write-wins, when loading fails |
| `line_handling.dfy` | `LineHandling` | blank lines, a blank line 0, rows shorter than the header |
| `queries.dfy` | `Queries` | `fields`, `get_public_value_list`, and what the lookups promise on a loaded table |
| `findings.dfy` | `Findings` | the field-case defect of `get_info` / `get_translation`, and the corrected lookups |

How the code is represented:

- The file is a `seq<string>` of lines, as iterating over the file yields them.
- Loading is a left fold, `LoadLines`. It stops at the first `KeyError`, which
  `Result.Err` carries together with the missing key.
- A row (`line_dict`) is a `map<string, string>` from header names as written
  to stripped cell texts, plus the row's synonym set. That set replaces the
  text of the "synonyms" column when the row is read (`Row.Get`).
- `TableProperties.Valid` states what every loaded table satisfies:
  - both indexes have the same fields;
  - fields are lower-case;
  - synonym keys are in normal form;
  - every resolved public value has a row;
  - every row sits under its own field and upper-cased public value, and has
    every header column outside `keys_not_as_synonyms`.

The model follows the code as written; in particular:

- Rows are not padded. `dict(zip(header, split_line))` truncates to the
  shorter list, so a short row fails whenever a column it lacks is read
  (`LineHandling.ShortRowFails`).
- `keys_not_as_synonyms` is spelled `['filed', 'filter', 'source',
  'synonyms']`. So the `field` column is not excluded, and its value becomes
  a synonym of every row (`TableProperties.ParsedSynonyms`).
- The header is taken only from physical line 0. When that line is blank
  there is no header, and every data line fails on "field"
  (`LineHandling.BlankFirstLine`).
- `get_public_value_list` raises `KeyError` on an unknown field. It does not
  return an empty list.
- `get_info` and `get_translation` index the row index with the field as
  given. They do not lower-case it (see "## Findings").
- Rows are zipped with the header names as written but read with the
  normalised names, so a non-excluded header column written with an
  upper-case letter makes every data line fail, unless another header column
  within the length of the line spells the lower-case name exactly
  (`LineHandling.ShortRowFails`).
- `get_translation` to a column outside the header returns `None`. A target
  column that is in the header but missing from the row raises `KeyError`.
- `list_synonyms` returns the stored set, not a sorted list.
- Nothing rejects a synonym claimed by two rows of the same field. The later
  line wins (`TableProperties.SynonymsLastWriteWins`).
- Every key named in the source code is checked: a data line without "field",
  "synonyms", "public_value" or a non-excluded header column fails the whole
  load.

## Model

| member | source | states |
|---|---|---|
| Text.LowerFixedPoint | src/nodc_codes/translate_codes.py:40-41 | ASCII lower-casing leaves no upper-case letter, and changes exactly the strings that contain one |
| Text.UpperFixedPoint | src/nodc_codes/translate_codes.py:44-45 | ASCII upper-casing leaves no lower-case letter, and changes exactly the strings that contain one |
| Text.SameUpperSameLower | src/nodc_codes/translate_codes.py:44-45 | two strings with the same upper-case form have the same lower-case form |
| Text.RemoveSpacesSpec | src/nodc_codes/translate_codes.py:37 | `replace(' ', '')` leaves no space and keeps every other character, and is the identity on text without spaces |
| Text.RemoveSpacesAppend | src/nodc_codes/translate_codes.py:37 | `replace(' ', '')` works character by character: on a concatenation it is the concatenation of the results, a space becomes nothing and any other character stays, so order and multiplicity of the other characters are kept |
| Text.StripSlice | src/nodc_codes/translate_codes.py:49 | `strip()` returns a contiguous slice of the input with only whitespace cut from either end, and no whitespace at its own ends |
| Text.StripEmpty | src/nodc_codes/translate_codes.py:55 | a line strips to the empty string exactly when every character is whitespace |
| Text.StripIdempotent | src/nodc_codes/translate_codes.py:49 | stripping twice is stripping once |
| Text.JoinSplit | src/nodc_codes/translate_codes.py:57 | splitting on a separator loses nothing: joining the parts with the separator gives back the input |
| Text.SplitPiecesFree | src/nodc_codes/translate_codes.py:66 | `split('<or>')` (like `split('\t')`) cuts at every occurrence of the separator: no piece contains it |
| Ordering.SortedKeys | src/nodc_codes/translate_codes.py:29 | `sorted` over a key set yields each key exactly once, in strictly increasing code-point order, and nothing else |
| Ordering.SortedUnique | src/nodc_codes/translate_codes.py:29 | there is only one strictly sorted listing of a set of strings |
| TranslateCodes.ConvertSynonymShape | src/nodc_codes/translate_codes.py:36-37 | a normalised synonym has no upper-case letter and no space |
| TranslateCodes.ConvertSynonymNormalForm | src/nodc_codes/translate_codes.py:36-37 | a synonym is its own normal form exactly when it has no upper-case letter and no space, and normalising is idempotent |
| TranslateCodes.ConvertFieldIdempotent | src/nodc_codes/translate_codes.py:40-41 | a normalised field is lower-case, normalising is idempotent, and a field is its own normal form exactly when it is lower-case |
| TranslateCodes.ConvertPublicValueIdempotent | src/nodc_codes/translate_codes.py:44-45 | a normalised public value is upper-case, and normalising is idempotent |
| TranslateCodes.ConvertHeaderColFixed | src/nodc_codes/translate_codes.py:48-49 | a column name without surrounding whitespace or upper-case letters is its own normal form |
| TranslateCodes.ConvertHeaderColIdempotent | src/nodc_codes/translate_codes.py:48-49 | every result of `strip().lower()` has no upper-case letter and is its own normal form, so normalising twice is normalising once |
| TranslateCodes.HeaderColumnNormal | src/nodc_codes/translate_codes.py:60 | every column of `self._header` is its own normal form, so `get_translation` asked for a listed column passes the header test at line 107 |
| TranslateCodes.ParsedRowSynonyms | src/nodc_codes/translate_codes.py:66-70 | reading "synonyms" from a parsed row yields the set of the `<or>` pieces plus the non-excluded column values, not the column's text |
| TranslateCodes.ParsedRowGet | src/nodc_codes/translate_codes.py:62 | reading any other key from a parsed row yields a value exactly when a header name as written spells it within the length of the data line |
| TranslateCodes.ParsedRowCell | src/nodc_codes/translate_codes.py:62 | the value a parsed row yields for a header name other than "synonyms" is the data line's cell under the last column so named |
| TranslateCodes.ZipKeys | src/nodc_codes/translate_codes.py:62 | the keys of `dict(zip(keys, values))` are the keys at the positions below the shorter length |
| TranslateCodes.ZipLastWins | src/nodc_codes/translate_codes.py:62 | a repeated key of the zip keeps the value paired with its last occurrence |
| TranslateCodes.BlankLine | src/nodc_codes/translate_codes.py:55 | the skip test `not line.strip()` holds exactly for whitespace-only lines |
| TranslateCodes.ColumnSynonymsSpec | src/nodc_codes/translate_codes.py:67-70 | the loop over the header succeeds exactly when every non-excluded column is in the row, adds the normalised value of each such column, and otherwise fails on a non-excluded column the row lacks |
| TranslateCodes.ParseRowSpec | src/nodc_codes/translate_codes.py:62-75 | a data line parses exactly when its row has "field", "synonyms", every non-excluded header column and "public_value"; it fails on "field" first; every failure names a key the row lacks; a parsed entry has the lower-cased field, the public value as written, the whole row, and as synonyms the `<or>` pieces plus the non-excluded column values |
| TranslateCodes.StoreSynonym | src/nodc_codes/translate_codes.py:73-75 | after storing, a synonym of the entry's field resolves to the entry's public value if the entry claims it, and otherwise to what it resolved to before |
| TranslateCodes.StoreRow | src/nodc_codes/translate_codes.py:77-79 | after storing, the entry's row sits under its field and upper-cased public value, and every other slot is unchanged |
| TranslateCodes.StoreSpec | src/nodc_codes/translate_codes.py:73-79 | storing keeps the header and adds the entry's field to both indexes |
| TranslateCodes.Step | src/nodc_codes/translate_codes.py:54-79 | a blank line leaves the state alone; line 0 sets the header; any other line succeeds exactly when it parses, and keeps the header |
| TranslateCodes.GetInfo | src/nodc_codes/translate_codes.py:87-91 | `None` exactly when the synonym does not resolve or resolves to the empty string; a failure names the field as given or the upper-cased public value; a result is the row stored under them |
| TranslateCodes.GetTranslation | src/nodc_codes/translate_codes.py:105-114 | `None` when the normalised target is not a header column, or when `get_info` gives `None`; any failure happens after both checks pass; a result is the target cell of the `get_info` row |
| TranslateCodes.ListSynonyms | src/nodc_codes/translate_codes.py:116-119 | succeeds exactly when a row sits under the lower-cased field and upper-cased public value, returns that row's stored synonym set, and an unknown field fails on the lower-cased field |
| TableProperties.ZipKeyIsColumn | src/nodc_codes/translate_codes.py:60-62 | every key of a zipped row normalises to a header column |
| TableProperties.ParsedSynonyms | src/nodc_codes/translate_codes.py:62-70 | a parsed row's synonyms include every normalised `<or>` piece, every non-excluded column's normalised value, and so the normalised field and public value |
| TableProperties.ParseRowWellFormed | src/nodc_codes/translate_codes.py:62-79 | a parsed entry has a lower-case field, normal-form synonyms, its own public value among them, and every non-excluded header column |
| TableProperties.StorePreservesValid | src/nodc_codes/translate_codes.py:73-79 | storing a parsed entry keeps the indexes consistent |
| TableProperties.LoadedHeader | src/nodc_codes/translate_codes.py:58-60 | the header names as written come from line 0 and nowhere else, and the table's header is their normalised form |
| TableProperties.LoadOk | src/nodc_codes/translate_codes.py:54-79 | loading succeeds exactly when every line is line 0, blank, or a data line that parses |
| TableProperties.LoadedValid | src/nodc_codes/translate_codes.py:51-79 | every loaded table satisfies the index-consistency invariant, and its header is line 0 normalised |
| TableProperties.SynonymsLastWriteWins | src/nodc_codes/translate_codes.py:73-75 | after loading, `synonyms[f][s]` is the public value of the last data line of field `f` whose synonym set holds `s`, and absent when there is none |
| TableProperties.RowsLastWriteWins | src/nodc_codes/translate_codes.py:77-79 | after loading, `data[f][k]` is the row of the last data line of field `f` whose public value upper-cases to `k`, and that row's public value upper-cases to `k` |
| TableProperties.WriterUnchallenged | src/nodc_codes/translate_codes.py:73-75 | a line's synonym that no later line of the same field claims resolves to that line's public value |
| TableProperties.RowWriterUnchallenged | src/nodc_codes/translate_codes.py:77-79 | a line whose upper-cased public value no later line of its field shares keeps its row under that key |
| TableProperties.WriterExists | src/nodc_codes/translate_codes.py:73-75 | a synonym some line claims has a last writer |
| TableProperties.SynonymResolves | src/nodc_codes/translate_codes.py:66-85 | every synonym of a loaded data line resolves, and resolves to that line's public value when no later line of its field claims it |
| TableProperties.PublicValueResolvesToItself | src/nodc_codes/translate_codes.py:66-85 | a row's own public value resolves to itself unless a later line of its field claims its normalised form |
| LineHandling.BlankLinesIrrelevant | src/nodc_codes/translate_codes.py:54-56 | removing a whitespace-only line other than line 0 does not change the outcome of loading |
| LineHandling.BlankFirstLine | src/nodc_codes/translate_codes.py:54-63 | with a blank line 0, loading yields the empty table when every line is blank, and otherwise fails on "field" |
| LineHandling.ShortRowFails | src/nodc_codes/translate_codes.py:62-70 | a row missing a non-excluded header column, because zip stopped early, fails to parse |
| Queries.Fields | src/nodc_codes/translate_codes.py:27-29 | the fields of the row index, each once, in strictly increasing order |
| Queries.GetPublicValueList | src/nodc_codes/translate_codes.py:81-82 | the keys under the lower-cased field, each once, in strictly increasing order; fails with `KeyError` on the lower-cased field exactly when that field is unknown |
| Queries.GetPublicValueNormalized | src/nodc_codes/translate_codes.py:84-85 | the lookup ignores ASCII case in the field and case and spaces in the synonym |
| Queries.LoadedPublicValue | src/nodc_codes/translate_codes.py:73-85 | on a loaded table, `get_public_value` returns the public value of the last line of the field claiming the normalised synonym, and `None` when there is none |
| Queries.FieldIsNormal | src/nodc_codes/translate_codes.py:27-29 | every field `fields` lists is its own normal form, so `get_public_value_list` accepts it |
| Queries.PublicValueKeyIsNormal | src/nodc_codes/translate_codes.py:81-82 | every public value `get_public_value_list` lists is its own normal form, and `list_synonyms` returns its row's set |
| Queries.GetInfoOnValid | src/nodc_codes/translate_codes.py:87-91 | on a consistent table and a lower-case field, `get_info` never raises, and the row it returns has the resolved public value up to case |
| Queries.GetTranslationOnValid | src/nodc_codes/translate_codes.py:105-114 | on a consistent table and a lower-case field, `get_translation` fails only on a target column in the header that is excluded from the synonyms, is not "synonyms", and is missing from the row |
| Queries.ListSynonymsOnValid | src/nodc_codes/translate_codes.py:116-119 | on a consistent table, the synonyms returned are in normal form and include the public value asked for, in any ASCII case |
| Queries.InfoAgreesWithListSynonyms | src/nodc_codes/translate_codes.py:87-119 | the row `get_info` returns has the synonym set `list_synonyms` returns for its public value and for the resolved one |
| Queries.LoadedLineInfo | src/nodc_codes/translate_codes.py:73-91 | on a loaded table, a synonym of a data line that no later line of its field claims, and whose public value no later line shares up to case, leads `get_info` to that line's row, or to `None` when its public value is empty |
| Queries.LoadedHasPublicValueColumn | src/nodc_codes/translate_codes.py:60-70 | a table loaded with a data line has a "public_value" column, and reading it from that line's row gives the public value as written |
| Queries.LoadedLineRoundTrip | src/nodc_codes/translate_codes.py:105-114 | translating such a synonym to "public_value" gives back that line's public value as written |
| Findings.FieldCaseCounterexample | src/nodc_codes/translate_codes.py:87-91 | with the field "P" on a table of field "p", the synonym resolves but `get_info` and `get_translation` raise `KeyError('P')` |
| Findings.TableAValid | src/nodc_codes/translate_codes.py:73-79 | the counterexample table satisfies the invariant of loaded tables |
| Findings.GetInfoNormalized | src/nodc_codes/translate_codes.py:87-91 | the corrected `get_info` is the as-written one applied to the lower-cased field |
| Findings.GetTranslationNormalized | src/nodc_codes/translate_codes.py:105-114 | the corrected `get_translation` is the as-written one applied to the lower-cased field |
| Findings.GetInfoNormalizedOnValid | src/nodc_codes/translate_codes.py:87-91 | on a consistent table the corrected `get_info` never raises, ignores the case of the field, and agrees with the code for lower-case fields |
| Findings.GetTranslationNormalizedOnValid | src/nodc_codes/translate_codes.py:105-114 | on a consistent table the corrected `get_translation` fails only on an excluded target column other than "synonyms", whatever the case of the field, and agrees with the code for lower-case fields |

## Left out

- `src/nodc_codes/__init__.py` is not part of this model. It holds config-directory discovery, the cached singleton and list helpers, all outside the table.
- Opening and decoding the file (`open(self.path)` at line 53) are left out. The model takes the file's lines as a given sequence, and a cell's trailing newline disappears with `strip`. The `encoding` keyword is stored but never passed to `open`.
- The `logging` warnings of `get_translation` are left out; their only effect is log output.
- The `path` property and the commented-out `get_swedish_name` / `get_english_name` are left out.
- `None` arguments to the queries are left out: the model's arguments are always strings.
- Text.Lower: only ASCII letters change case. Python's full Unicode case mapping (for example 'ß' upper-casing to 'SS') is not modelled.
- Text.Upper: only ASCII letters change case, for the same reason.
- Text.IsSpace: only the ASCII characters Python treats as whitespace (9-13 and 28-32) are stripped. Unicode spaces such as U+00A0 are not.
- Aliasing of the stored objects is left out because the model's values are immutable. `get_info` returns the stored row dict, `list_synonyms` returns the stored synonym set, and `get_translation` to "synonyms" returns that same set, so a caller could mutate the table through them. `fields` and `get_public_value_list` return new lists, and every other `get_translation` result is a string.

## Findings

| source | as written | input that shows it | evidently intended | confidence | as-written member | corrected member |
|---|---|---|---|---|---|---|
| src/nodc_codes/translate_codes.py:87-91 | `get_info` resolves through `get_public_value`, which lower-cases the field, then indexes `_data[field]` with the field as given | a table loaded with field `p` and public value `A`, and `get_info('P', 'a')`: `get_public_value` returns `'A'`, then `_data['P']` raises `KeyError` | index `_data` with `_convert_field(field)`, as `get_public_value`, `get_public_value_list` and `list_synonyms` do | medium; not executed | Findings.FieldCaseCounterexample | Findings.GetInfoNormalizedOnValid |
| src/nodc_codes/translate_codes.py:105-114 | `get_translation` resolves the synonym with the field lower-cased, then indexes `_data[field]` with the field as given | the same table and `get_translation('P', 'a', 'public_value')`: raises `KeyError('P')` | index `_data` with `_convert_field(field)` | medium; not executed | Findings.FieldCaseCounterexample | Findings.GetTranslationNormalizedOnValid |
