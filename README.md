# Delphes spring 2021 IDEA FullSilicon catalog page, modelled in Dafny

The page `Delphesevents_spring2021_IDEA_FullSilicon.php` lists the Delphes
event samples of the FCC-ee spring 2021 production. It reads a text file in
which every line is a sample and every field is separated by the two
characters `,,`. It then prints an HTML table:

- a header row holding the 14 column names (`NO` followed by 13 data columns);
- one body row per line of the file, except the last line, which the loop
  bound `$NbrLigne - 1` always drops;
- in each body row, a 1-based counter in the first cell, then the first 13
  fields of the line, verbatim. A field the line lacks echoes as empty.

The model has four modules:

- `Wrappers` (`wrappers.dfy`): `Option`. `None` stands for PHP `null`, the
  value of an absent array element.
- `PhpStrings` (`php_strings.dfy`): the PHP built-ins the page relies on.
  - `Explode` is `explode` with a non-empty separator. It splits at the
    leftmost non-overlapping occurrences, so adjacent separators give empty
    pieces.
  - `Implode` is `implode`.
  - `SubstrCount` is `substr_count`.
  - Each comes with its round trips and counting laws.
- `Decimal` (`decimal.dfy`): how PHP prints the non-negative integer `$no`.
- `DatasetTable` (`dataset_table.dfy`): the page itself.
  - `ParseRows` is the `foreach`/`for` loops that fill `$info`.
  - `Render` is the header loop and the body loop with its `$no` counter.
  - `BuildPage` chains them.
  - Each method is proved against a specification function (`Catalog`,
    `RenderTable`, `Page`). The lemmas are stated over those functions.

The file is an input of the model. A successful read is `Some(text)`. A
failed read is `None`: `file_get_contents` returns `false`, which PHP turns
into the empty string.

Two consequences of the code are worth stating outright:

- `$lname` has 14 names, so `$NbrCol` is 14, every row has 14 cells, and
  each line supplies up to 13 fields.
- A file of two newline-terminated records splits into three lines, the
  last one empty, and shows two rows (`TwoRecordFile`).

## Model

| member | source | states |
|---|---|---|
| PhpStrings.Explode | Delphesevents_spring2021_IDEA_FullSilicon.php:12 | `explode`: the pieces between the leftmost non-overlapping occurrences of the separator, at least one piece (see ImplodeExplode, ExplodeLength, ExplodePiecesFree) |
| DatasetTable.ColumnNames | Delphesevents_spring2021_IDEA_FullSilicon.php:23-26 | `$lname`: "NO" followed by the 13 data column names, in order |
| DatasetTable.FileText | Delphesevents_spring2021_IDEA_FullSilicon.php:11-12 | The text that is split: the file contents, or "" when the read fails |
| DatasetTable.Lines | Delphesevents_spring2021_IDEA_FullSilicon.php:12 | `$rows`: the file text split on "\n" (see ExplodeCharLength, LastLineEmptyIffTerminated) |
| DatasetTable.Field | Delphesevents_spring2021_IDEA_FullSilicon.php:39 | `$row_data[$i]`: field i of the line, or null when the line has i fields or fewer |
| DatasetTable.FillColumns | Delphesevents_spring2021_IDEA_FullSilicon.php:37-39 | The record after n passes of the inner fill loop: column i + 1 set to field i for i < n (see FillColumnsKeys, FillColumnsValues) |
| DatasetTable.RecordOf | Delphesevents_spring2021_IDEA_FullSilicon.php:35-40 | `$info[$row]` for one line: the line split on ",," and all 13 data columns filled (see RecordOfColumns, RecordOfKeys) |
| DatasetTable.ParseLines | Delphesevents_spring2021_IDEA_FullSilicon.php:32-41 | One record per line, in line order |
| DatasetTable.Catalog | Delphesevents_spring2021_IDEA_FullSilicon.php:32-41 | `$info`: the records of the lines of the file text (computed by ParseRows) |
| DatasetTable.Cell | Delphesevents_spring2021_IDEA_FullSilicon.php:81 | What a body cell echoes for a column: the stored field, or "" when it is null |
| DatasetTable.RowCount | Delphesevents_spring2021_IDEA_FullSilicon.php:43-77 | The bound of the body loop: `count($info) - 1` rows, none for an empty catalog |
| DatasetTable.Page | Delphesevents_spring2021_IDEA_FullSilicon.php:11-85 | The whole page: read, split into records, rendered (computed by BuildPage; see PageRowCount, PageCells) |
| PhpStrings.ImplodeExplode | Delphesevents_spring2021_IDEA_FullSilicon.php:35 | Joining the pieces of a line back with the separator gives the line again, for every string and non-empty separator |
| PhpStrings.ExplodeLength | Delphesevents_spring2021_IDEA_FullSilicon.php:35 | A split yields one more piece than there are non-overlapping separator occurrences |
| PhpStrings.ExplodePiecesFree | Delphesevents_spring2021_IDEA_FullSilicon.php:35 | No piece of a split contains the separator |
| PhpStrings.ExplodeImplode | Delphesevents_spring2021_IDEA_FullSilicon.php:35 | Splitting the join of pieces gives the pieces back when, in each piece but the last followed by the separator, the first occurrence of the separator is the appended one, and the last piece is free of it |
| PhpStrings.SeparableWhenDisjoint | Delphesevents_spring2021_IDEA_FullSilicon.php:35 | Pieces that share no character with the separator satisfy the condition of the split/join round trip |
| PhpStrings.ExplodeCharLength | Delphesevents_spring2021_IDEA_FullSilicon.php:12 | Splitting on "\n" gives the number of newline characters plus one lines |
| PhpStrings.ExplodeCharConcat | Delphesevents_spring2021_IDEA_FullSilicon.php:12 | Splitting `a + c + b` on the one-character separator `c` gives the lines of `a` followed by the lines of `b` |
| PhpStrings.ImplodeSnoc | Delphesevents_spring2021_IDEA_FullSilicon.php:12 | Joining pieces with one more at the end appends the separator and that piece |
| PhpStrings.FindFrom | Delphesevents_spring2021_IDEA_FullSilicon.php:12 | The search for the next separator returns the first occurrence at or after the start position, or none when there is none |
| Decimal.DecimalString | Delphesevents_spring2021_IDEA_FullSilicon.php:80 | The printed counter is a non-empty digit string without a leading zero |
| Decimal.DecimalRoundTrip | Delphesevents_spring2021_IDEA_FullSilicon.php:80 | Reading the printed counter back as a decimal number gives the counter |
| Decimal.DecimalStringInjective | Delphesevents_spring2021_IDEA_FullSilicon.php:80 | Distinct counters print differently |
| DatasetTable.ColumnNamesDistinct | Delphesevents_spring2021_IDEA_FullSilicon.php:23-30 | There are 14 column names, pairwise distinct, so each field is stored under a key of its own |
| DatasetTable.ParseRows | Delphesevents_spring2021_IDEA_FullSilicon.php:12-41 | The fill loops build exactly the catalog: one record per line, in file order, each record the fill of that line's fields |
| DatasetTable.FillColumnsKeys | Delphesevents_spring2021_IDEA_FullSilicon.php:37-39 | After n passes of the inner loop, the record's keys are exactly column names 1 to n |
| DatasetTable.FillColumnsValues | Delphesevents_spring2021_IDEA_FullSilicon.php:37-39 | After n passes of the inner loop, column j (j <= n) holds field j - 1, or null when the line is too short |
| DatasetTable.RecordOfColumns | Delphesevents_spring2021_IDEA_FullSilicon.php:35-39 | For every data column j, the record of a line stores field j - 1 of the line, or null when the line has fewer fields |
| DatasetTable.RecordOfKeys | Delphesevents_spring2021_IDEA_FullSilicon.php:37-39 | Every record has exactly the 13 data columns as keys; "NO" is never filled by the parser |
| DatasetTable.FillColumnsAgree | Delphesevents_spring2021_IDEA_FullSilicon.php:37-39 | The first n passes of the inner loop read only the first n fields |
| DatasetTable.ExtraFieldsIgnored | Delphesevents_spring2021_IDEA_FullSilicon.php:37-39 | Fields after the thirteenth do not change the record |
| DatasetTable.RecordOfImplode | Delphesevents_spring2021_IDEA_FullSilicon.php:35-39 | A line built by joining fields with ",," stores each field verbatim under its column, and null past the last one, whenever no field holds ",," and no field but the last ends in ',' |
| DatasetTable.TrailingCommaFieldIsCut | Delphesevents_spring2021_IDEA_FullSilicon.php:35 | A field ending in ',' followed by another field is cut: "a," and "b" join to "a,,,b", whose first column reads back "a" |
| DatasetTable.BodyRow | Delphesevents_spring2021_IDEA_FullSilicon.php:79-82 | The cells echoed for one record, the printed counter first, then each data column with null as "" (see RowOfLine, PageCells) |
| DatasetTable.RenderTable | Delphesevents_spring2021_IDEA_FullSilicon.php:43-85 | `$lname` as header, then one row per record except the last, counted from 1 (computed by Render; see PageRowCount, PageCells) |
| DatasetTable.Render | Delphesevents_spring2021_IDEA_FullSilicon.php:57-85 | The header loop and the counting body loop produce exactly the rendered table |
| DatasetTable.BuildPage | Delphesevents_spring2021_IDEA_FullSilicon.php:11-85 | Reading, parsing and rendering produce exactly the page of the file's text |
| DatasetTable.PageRowCount | Delphesevents_spring2021_IDEA_FullSilicon.php:43-77 | The page shows the 14 names as header and one body row per newline in the file, so the last line is always dropped; a failed read shows no row |
| DatasetTable.RowOfLine | Delphesevents_spring2021_IDEA_FullSilicon.php:79-81 | Cell j of the row of a line is field j - 1 of the line, or "" when the line is too short |
| DatasetTable.PageCells | Delphesevents_spring2021_IDEA_FullSilicon.php:73-84 | Body row k has 14 cells; its first cell is the counter k + 1 whatever the line holds; cell j is field j - 1 of line k verbatim, or "" |
| DatasetTable.CountersDistinct | Delphesevents_spring2021_IDEA_FullSilicon.php:73-84 | No two body rows carry the same counter |
| DatasetTable.LinesOfSingleLine | Delphesevents_spring2021_IDEA_FullSilicon.php:12 | Text without a newline is one line |
| DatasetTable.LinesOfTerminatedLine | Delphesevents_spring2021_IDEA_FullSilicon.php:12 | A line followed by a newline splits into that line and an empty last line |
| DatasetTable.LinesOfTerminatedText | Delphesevents_spring2021_IDEA_FullSilicon.php:12 | Adding a final newline to any text adds one empty last line and keeps the others |
| DatasetTable.LinesAfterAppend | Delphesevents_spring2021_IDEA_FullSilicon.php:12 | Appending a newline-terminated line to a newline-terminated (or empty) file puts it in place of the empty last line, followed by a new empty last line |
| DatasetTable.LastLineEmptyIffTerminated | Delphesevents_spring2021_IDEA_FullSilicon.php:12 | The dropped last line is empty exactly when the file is empty or ends in a newline; otherwise a real record is lost |
| DatasetTable.TerminatedHasEmptyLastLine | Delphesevents_spring2021_IDEA_FullSilicon.php:12 | A file ending in a newline has an empty last line |
| DatasetTable.EmptyLastLineIsTerminated | Delphesevents_spring2021_IDEA_FullSilicon.php:12 | A non-empty file whose last line is empty ends in a newline |
| DatasetTable.RenderAppend | Delphesevents_spring2021_IDEA_FullSilicon.php:77-85 | One more line before the final empty line renders one more row at the end and leaves the earlier rows unchanged |
| DatasetTable.PagesOfAppendedLines | Delphesevents_spring2021_IDEA_FullSilicon.php:77-85 | Two files whose lines differ by one line before the empty last line differ by exactly that line's row at the end of the page |
| DatasetTable.AppendLine | Delphesevents_spring2021_IDEA_FullSilicon.php:77-85 | Appending a newline-terminated line to a newline-terminated file appends exactly its row: rows keep file order and lines are never merged |
| DatasetTable.TwoFieldRow | Delphesevents_spring2021_IDEA_FullSilicon.php:79-82 | The row of a two-field line holds the counter, the two fields and 11 empty cells |
| DatasetTable.TwoLineRows | Delphesevents_spring2021_IDEA_FullSilicon.php:77-85 | A file of two newline-terminated lines renders exactly their two rows, in order |
| DatasetTable.TwoRecordFile | Delphesevents_spring2021_IDEA_FullSilicon.php:12-85 | A file of two newline-terminated two-field records shows two rows counted "1" and "2", with the fields in place and empty cells after them |

## Left out

- Reading the data file (`file_get_contents`, line 11): file I/O. The file's text, or the failed read, is an input of the model.
- The `include`s of the style sheet, the top bar and the search script (lines 6, 15, 47): those files are not part of this model. The search filter runs in the browser.
- HTML markup, the title, the heading and the search box: presentation only. Rows and cells are sequences of strings, not HTML text.
- `$totale`, `$totalf` and the commented-out table footer: these are never computed or shown.
- PHP's "undefined array key" warning when a line has fewer than 13 fields: a PHP warning, logged, or printed into the page when `display_errors` is on. The empty last line of every newline-terminated file raises 12 of them on each page load. Only the value (`null`, echoed as "") is modelled.
- `FCCee/delphes/winter2023-training/idea-worse-hcalereso-atlas/index.php`: it only assigns configuration variables. The `page.php` and `config.php` it delegates to are not part of this model.
- PHP strings are byte strings. The model uses `seq<char>`; no step of the page depends on the encoding.
