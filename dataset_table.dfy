/**
 * The dataset catalog page for the spring 2021 IDEA FullSilicon campaign: the
 * text of the data file is split into lines on "\n" and each line into fields
 * on ",,"; field i of a line is stored under column name i + 1; the page then
 * emits a header row of the column names and one body row per line except the
 * last, led by a 1-based row counter.
 */
module DatasetTable {
  import opened Wrappers
  import opened PhpStrings
  import opened Decimal

  /** The column names (`$lname`); "NO" is the row counter, the rest are the data columns. */
  const ColumnNames: seq<string> := [
    "NO", "Name", "Nevents", "Nweights",
    "Nfiles", "Nbad", "Neos", "Size (GB)",
    "Output Path", "Main Process", "Final States",
    "Cross Section (pb)", "K-factor", "Matching eff"]

  const LineSeparator: string := "\n"
  const FieldSeparator: string := ",,"

  /** The set of names in a sequence of names. */
  ghost function NameSet(names: seq<string>): set<string>
  {
    set name | name in names
  }

  /** The names of the columns the parser fills: every name but "NO". */
  ghost const DataColumns: set<string> := NameSet(ColumnNames[1..])

  /** No two columns share a name, so each field lands under a key of its own. */
  lemma ColumnNamesDistinct()
    ensures |ColumnNames| == 14
    ensures forall a, b :: 0 <= a < b < |ColumnNames| ==> ColumnNames[a] != ColumnNames[b]
  {
  }

  /** The file text the page works on: a failed read (`false`) reads as the empty string. */
  function FileText(read: Option<string>): string
  {
    match read
    case Some(text) => text
    case None => ""
  }

  /** The lines of the file (`$rows`). */
  function Lines(text: string): (lines: seq<string>)
  {
    Explode(text, LineSeparator)
  }

  /** `$row_data[$i]`: the field, or PHP null when the line has too few fields. */
  function Field(fields: seq<string>, i: nat): Option<string>
  {
    if i < |fields| then Some(fields[i]) else None
  }

  /** One parsed line, `$info[$row]`: column name to field (None is PHP null). */
  type Record = map<string, Option<string>>

  /** The record after the first `n` passes of the fill loop over `fields`. */
  function FillColumns(fields: seq<string>, n: nat): Record
    requires n < |ColumnNames|
  {
    if n == 0 then map[] else FillColumns(fields, n - 1)[ColumnNames[n] := Field(fields, n - 1)]
  }

  /** The record the parser builds from one line. */
  function RecordOf(line: string): Record
  {
    FillColumns(Explode(line, FieldSeparator), |ColumnNames| - 1)
  }

  /** The records of a sequence of lines, one per line, in order. */
  function ParseLines(lines: seq<string>): seq<Record>
  {
    seq(|lines|, k requires 0 <= k < |lines| => RecordOf(lines[k]))
  }

  /** The parsed catalog, `$info`: one record per line of the file, in file order. */
  function Catalog(text: string): seq<Record>
  {
    ParseLines(Lines(text))
  }

  /** After `n` passes, the data columns 1..n are exactly the keys. */
  lemma {:induction false} FillColumnsKeys(fields: seq<string>, n: nat)
    requires n < |ColumnNames|
    ensures FillColumns(fields, n).Keys == NameSet(ColumnNames[1..n + 1])
  {
    if n > 0 {
      FillColumnsKeys(fields, n - 1);
      assert ColumnNames[1..n + 1] == ColumnNames[1..n] + [ColumnNames[n]];
    }
  }

  /** After `n` passes, column j holds field j - 1, for every data column j <= n. */
  lemma {:induction false} FillColumnsValues(fields: seq<string>, n: nat)
    requires n < |ColumnNames|
    ensures forall j :: 1 <= j <= n ==>
      ColumnNames[j] in FillColumns(fields, n) && FillColumns(fields, n)[ColumnNames[j]] == Field(fields, j - 1)
  {
    if n > 0 {
      FillColumnsValues(fields, n - 1);
      ColumnNamesDistinct();
    }
  }

  /**
   * The parser stores field j - 1 of a line under data column j, or null when
   * the line is too short.
   */
  lemma RecordOfColumns(line: string)
    ensures forall j :: 1 <= j < |ColumnNames| ==>
      ColumnNames[j] in RecordOf(line) &&
      RecordOf(line)[ColumnNames[j]] == Field(Explode(line, FieldSeparator), j - 1)
  {
    FillColumnsValues(Explode(line, FieldSeparator), |ColumnNames| - 1);
  }

  /** The parser fills every data column and never fills "NO". */
  lemma RecordOfKeys(line: string)
    ensures RecordOf(line).Keys == DataColumns
    ensures ColumnNames[0] !in RecordOf(line)
  {
    FillColumnsKeys(Explode(line, FieldSeparator), |ColumnNames| - 1);
    assert ColumnNames[1..|ColumnNames|] == ColumnNames[1..];
    assert ColumnNames[0] !in ColumnNames[1..];
  }

  /** The first `n` passes of the fill loop read only the first `n` fields. */
  lemma {:induction false} FillColumnsAgree(f: seq<string>, g: seq<string>, n: nat)
    requires n < |ColumnNames|
    requires forall i :: 0 <= i < n ==> Field(f, i) == Field(g, i)
    ensures FillColumns(f, n) == FillColumns(g, n)
  {
    if n > 0 {
      FillColumnsAgree(f, g, n - 1);
    }
  }

  /**
   * Fields past the thirteenth are ignored: two lines whose first thirteen
   * fields agree (present with the same text, or both absent) give the same
   * record, however many fields follow.
   */
  lemma ExtraFieldsIgnored(fields: seq<string>, extra: seq<string>)
    requires |fields| == |ColumnNames| - 1
    ensures FillColumns(fields + extra, |ColumnNames| - 1) == FillColumns(fields, |ColumnNames| - 1)
  {
    FillColumnsAgree(fields + extra, fields, |ColumnNames| - 1);
  }

  /** The text a body cell echoes for column `name` of a record; PHP null echoes as "". */
  function Cell(rec: Record, name: string): string
  {
    if name in rec && rec[name].Some? then rec[name].value else ""
  }

  /** The output table: the header cells and the body rows of cells. */
  datatype Table = Table(header: seq<string>, body: seq<seq<string>>)

  /** The body row the page emits for a record when the counter is `no`. */
  function BodyRow(no: nat, rec: Record): seq<string>
  {
    seq(|ColumnNames|, j requires 0 <= j < |ColumnNames| =>
      if j == 0 then DecimalString(no) else Cell(rec, ColumnNames[j]))
  }

  /** `$NbrLigne - 1` body rows; none when there is no record at all. */
  function RowCount(info: seq<Record>): nat
  {
    if |info| == 0 then 0 else |info| - 1
  }

  /** The table the page renders from the parsed catalog. */
  function RenderTable(info: seq<Record>): Table
  {
    Table(ColumnNames, seq(RowCount(info), k requires 0 <= k < RowCount(info) => BodyRow(k + 1, info[k])))
  }

  /** The whole page: read, parse, render. */
  function Page(read: Option<string>): Table
  {
    RenderTable(Catalog(FileText(read)))
  }

  /** The parse loops (`foreach` over the lines, `for` over the data columns). */
  method ParseRows(text: string) returns (info: seq<Record>)
    ensures info == Catalog(text)
  {
    var rows := Explode(text, LineSeparator);
    info := [];
    for r := 0 to |rows|
      invariant |info| == r
      invariant forall k :: 0 <= k < r ==> info[k] == RecordOf(rows[k])
    {
      var rowData := Explode(rows[r], FieldSeparator);
      var rec: Record := map[];
      for i := 0 to |ColumnNames| - 1
        invariant rec == FillColumns(rowData, i)
      {
        rec := rec[ColumnNames[i + 1] := Field(rowData, i)];
      }
      info := info + [rec];
    }
  }

  /** The header loop and the body loop with its `$no` counter. */
  method Render(info: seq<Record>) returns (t: Table)
    ensures t == RenderTable(info)
  {
    var header: seq<string> := [];
    for i := 0 to |ColumnNames|
      invariant header == ColumnNames[..i]
    {
      header := header + [ColumnNames[i]];
    }
    var body: seq<seq<string>> := [];
    var no := 1;
    var i := 0;
    while i < |info| - 1
      invariant 0 <= i <= RowCount(info)
      invariant no == i + 1
      invariant |body| == i
      invariant forall k :: 0 <= k < i ==> body[k] == BodyRow(k + 1, info[k])
    {
      var row: seq<string> := [];
      for j := 0 to |ColumnNames|
        invariant |row| == j
        invariant forall m :: 0 <= m < j ==> row[m] == BodyRow(no, info[i])[m]
      {
        if j == 0 {
          row := row + [DecimalString(no)];
        } else {
          row := row + [Cell(info[i], ColumnNames[j])];
        }
      }
      body := body + [row];
      no := no + 1;
      i := i + 1;
    }
    t := Table(header, body);
  }

  /** The page as the PHP script produces it. */
  method BuildPage(read: Option<string>) returns (t: Table)
    ensures t == Page(read)
  {
    var text := FileText(read);
    var info := ParseRows(text);
    t := Render(info);
  }

  /** `echo` of a field: its text verbatim, or "" for PHP null. */
  function FieldText(fields: seq<string>, i: nat): string
  {
    if i < |fields| then fields[i] else ""
  }

  /**
   * The page has the fixed header and one body row per newline in the file
   * (lines minus one: the last line is always dropped); a failed read counts
   * as an empty file.
   */
  lemma PageRowCount(read: Option<string>)
    ensures Page(read).header == ColumnNames
    ensures |Page(read).body| == multiset(FileText(read))['\n']
    ensures read.None? ==> Page(read).body == []
  {
    ExplodeCharLength(FileText(read), '\n');
  }

  /** The row for a line: the counter, then field j - 1 of the line in cell j. */
  lemma RowOfLine(no: nat, line: string)
    ensures forall j :: 1 <= j < |ColumnNames| ==>
      BodyRow(no, RecordOf(line))[j] == FieldText(Explode(line, FieldSeparator), j - 1)
  {
    RecordOfColumns(line);
    var rec := RecordOf(line);
    var fields := Explode(line, FieldSeparator);
    forall j | 1 <= j < |ColumnNames|
      ensures BodyRow(no, rec)[j] == FieldText(fields, j - 1)
    {
      assert ColumnNames[j] in rec && rec[ColumnNames[j]] == Field(fields, j - 1);
      assert BodyRow(no, rec)[j] == Cell(rec, ColumnNames[j]);
    }
  }

  /**
   * Row k of the page comes from line k of the file: its first cell is the
   * counter k + 1 whatever the line holds, and cell j is field j - 1 of the
   * line, verbatim, or "" when the line has fewer fields.
   */
  lemma PageCells(read: Option<string>, k: nat)
    requires k < |Page(read).body|
    ensures |Page(read).body[k]| == |ColumnNames|
    ensures Page(read).body[k][0] == DecimalString(k + 1)
    ensures forall j :: 1 <= j < |ColumnNames| ==>
      Page(read).body[k][j] == FieldText(Explode(Lines(FileText(read))[k], FieldSeparator), j - 1)
  {
    var lines := Lines(FileText(read));
    assert Page(read).body[k] == BodyRow(k + 1, RecordOf(lines[k]));
    RowOfLine(k + 1, lines[k]);
  }

  /** Different rows carry different counters. */
  lemma CountersDistinct(read: Option<string>, k: nat, m: nat)
    requires k < m < |Page(read).body|
    ensures Page(read).body[k][0] != Page(read).body[m][0]
  {
    if Page(read).body[k][0] == Page(read).body[m][0] {
      DecimalStringInjective(k + 1, m + 1);
    }
  }

  /** A line with no newline is a single line. */
  lemma LinesOfSingleLine(line: string)
    requires '\n' !in line
    ensures Lines(line) == [line]
  {
    ExplodeCharLength(line, '\n');
    ImplodeExplode(line, LineSeparator);
  }

  /** A newline-free line followed by a newline is that line and an empty last line. */
  lemma LinesOfTerminatedLine(line: string)
    requires '\n' !in line
    ensures Lines(line + "\n") == [line, ""]
  {
    LinesOfSingleLine(line);
    ExplodeCharConcat(line, '\n', "");
    assert line + "\n" == line + ['\n'] + "";
  }

  /** Text that ends in a newline has an empty last line; the lines before are those of the rest. */
  lemma LinesOfTerminatedText(a: string)
    ensures Lines(a + "\n") == Lines(a) + [""]
  {
    ExplodeCharConcat(a, '\n', "");
    assert a + "\n" == a + ['\n'] + "";
  }

  /**
   * Appending a line and a newline to a file that ends in a newline (or is
   * empty) turns its empty last line into that line, followed by a new empty
   * last line.
   */
  lemma LinesAfterAppend(text: string, line: string)
    requires text == "" || text[|text| - 1] == '\n'
    requires '\n' !in line
    ensures Lines(text)[|Lines(text)| - 1] == ""
    ensures Lines(text + line + "\n") == Lines(text)[..|Lines(text)| - 1] + [line, ""]
  {
    LinesOfTerminatedLine(line);
    if text == "" {
      assert Lines(text) == [""];
      assert text + line + "\n" == line + "\n";
    } else {
      var a := text[..|text| - 1];
      assert text == a + "\n";
      LinesOfTerminatedText(a);
      assert text + line + "\n" == a + ['\n'] + (line + "\n");
      ExplodeCharConcat(a, '\n', line + "\n");
      assert Lines(text)[..|Lines(text)| - 1] == Lines(a);
    }
  }

  /** A file that ends in a newline has an empty last line. */
  lemma TerminatedHasEmptyLastLine(text: string)
    requires text != "" && text[|text| - 1] == '\n'
    ensures Lines(text)[|Lines(text)| - 1] == ""
  {
    var a := text[..|text| - 1];
    assert text == a + "\n";
    LinesOfTerminatedText(a);
  }

  /** A non-empty file whose last line is empty ends in a newline. */
  lemma EmptyLastLineIsTerminated(text: string)
    requires text != "" && Lines(text)[|Lines(text)| - 1] == ""
    ensures text[|text| - 1] == '\n'
  {
    var lines := Lines(text);
    ImplodeExplode(text, LineSeparator);
    assert text == Implode(lines, LineSeparator);
    if |lines| > 1 {
      var before := lines[..|lines| - 1];
      assert lines == before + [""];
      ImplodeSnoc(before, "", LineSeparator);
    }
  }

  /**
   * The last line is empty exactly when the file is empty or ends in a
   * newline; otherwise the record on the last line is not rendered.
   */
  lemma LastLineEmptyIffTerminated(text: string)
    ensures Lines(text)[|Lines(text)| - 1] == "" <==> (text == "" || text[|text| - 1] == '\n')
  {
    if text == "" {
      assert Lines(text) == [""];
    } else {
      if text[|text| - 1] == '\n' {
        TerminatedHasEmptyLastLine(text);
      }
      if Lines(text)[|Lines(text)| - 1] == "" {
        EmptyLastLineIsTerminated(text);
      }
    }
  }

  /**
   * Two files whose lines are `before + [""]` and `before + [line, ""]`: the
   * page of the second is the page of the first with one more row, for `line`.
   */
  lemma PagesOfAppendedLines(text: string, longer: string, before: seq<string>, line: string)
    requires Lines(text) == before + [""]
    requires Lines(longer) == before + [line, ""]
    ensures Page(Some(longer)).body ==
      Page(Some(text)).body + [BodyRow(|Page(Some(text)).body| + 1, RecordOf(line))]
  {
    assert Page(Some(text)) == RenderTable(ParseLines(before + [""]));
    assert Page(Some(longer)) == RenderTable(ParseLines(before + [line, ""]));
    RenderAppend(before, line);
  }

  /** Rendering lines `before + [line, ""]` adds one row, for `line`, to rendering `before + [""]`. */
  lemma RenderAppend(before: seq<string>, line: string)
    ensures |RenderTable(ParseLines(before + [""])).body| == |before|
    ensures RenderTable(ParseLines(before + [line, ""])).body ==
      RenderTable(ParseLines(before + [""])).body + [BodyRow(|before| + 1, RecordOf(line))]
  {
    var was := RenderTable(ParseLines(before + [""])).body;
    var now := RenderTable(ParseLines(before + [line, ""])).body;
    assert |was| == |before|;
    assert |now| == |was| + 1;
    forall k | 0 <= k < |now| ensures now[k] == (was + [BodyRow(|before| + 1, RecordOf(line))])[k] {
    }
  }

  /**
   * Appending a line and a newline to a file that ends in a newline (or is
   * empty) appends exactly one row, for that line, at the end: rows keep file
   * order and lines are never merged.
   */
  lemma AppendLine(text: string, line: string)
    requires text == "" || text[|text| - 1] == '\n'
    requires '\n' !in line
    ensures Page(Some(text + line + "\n")).body ==
      Page(Some(text)).body + [BodyRow(|Page(Some(text)).body| + 1, RecordOf(line))]
  {
    LinesAfterAppend(text, line);
    var before := Lines(text)[..|Lines(text)| - 1];
    assert Lines(text) == before + [""];
    PagesOfAppendedLines(text, text + line + "\n", before, line);
  }

  /**
   * Fields joined with ",," into a line are read back verbatim whenever the
   * join can be split again (no field holds ",,", and no field but the last
   * ends in ','): the record holds field i under column i + 1, null past the end.
   */
  lemma RecordOfImplode(fields: seq<string>)
    requires Separable(fields, FieldSeparator)
    ensures forall i :: 0 <= i < |ColumnNames| - 1 ==>
      Cell(RecordOf(Implode(fields, FieldSeparator)), ColumnNames[i + 1]) == FieldText(fields, i)
  {
    ExplodeImplode(fields, FieldSeparator);
    var line := Implode(fields, FieldSeparator);
    RecordOfColumns(line);
    var rec := RecordOf(line);
    forall i | 0 <= i < |ColumnNames| - 1 ensures Cell(rec, ColumnNames[i + 1]) == FieldText(fields, i) {
      assert ColumnNames[i + 1] in rec && rec[ColumnNames[i + 1]] == Field(fields, i);
    }
  }

  /**
   * A field that ends in ',' does not come back verbatim when another field
   * follows it: joining "a," and "b" gives "a,,,b", which splits at its first
   * ",," into "a" and ",b".
   */
  lemma TrailingCommaFieldIsCut()
    ensures Implode(["a,", "b"], FieldSeparator) == "a,,,b"
    ensures Cell(RecordOf(Implode(["a,", "b"], FieldSeparator)), ColumnNames[1]) == "a"
  {
    var line := Implode(["a,", "b"], FieldSeparator);
    assert line == "a,,,b";
    assert line[0..2] == "a," && line[1..3] == ",,";
    FindFromIs(line, FieldSeparator, 0, 1);
    ExplodeFound(line, FieldSeparator, 1);
    RecordOfColumns(line);
  }

  /** The row of a two-field line: the counter, the two fields, then empty cells. */
  lemma TwoFieldRow(no: nat, x: string, y: string)
    requires ',' !in x && ',' !in y
    ensures var row := BodyRow(no, RecordOf(x + ",," + y));
      row[0] == DecimalString(no) && row[1] == x && row[2] == y &&
      forall j :: 3 <= j < |ColumnNames| ==> row[j] == ""
  {
    var line := x + ",," + y;
    assert Implode([x, y], FieldSeparator) == line;
    SeparableWhenDisjoint([x, y], FieldSeparator);
    RecordOfImplode([x, y]);
    var rec := RecordOf(line);
    forall j | 1 <= j < |ColumnNames| ensures BodyRow(no, rec)[j] == FieldText([x, y], j - 1) {
      assert Cell(rec, ColumnNames[(j - 1) + 1]) == FieldText([x, y], j - 1);
    }
  }

  /** Two newline-terminated lines render as their two rows, in order. */
  lemma TwoLineRows(lineA: string, lineB: string)
    requires '\n' !in lineA && '\n' !in lineB
    ensures Page(Some(lineA + "\n" + lineB + "\n")).body ==
      [BodyRow(1, RecordOf(lineA)), BodyRow(2, RecordOf(lineB))]
  {
    assert Page(Some("")).body == [];
    AppendLine("", lineA);
    assert "" + lineA + "\n" == lineA + "\n";
    var textA := lineA + "\n";
    assert textA[|textA| - 1] == '\n';
    AppendLine(textA, lineB);
  }

  /**
   * A file of two two-field records, each ending in a newline, splits into
   * three lines, the last one empty, and renders two rows: the dropped last
   * line is the empty one after the final newline. The columns past a line's
   * last field are empty.
   */
  lemma TwoRecordFile(x1: string, y1: string, x2: string, y2: string)
    requires ',' !in x1 && ',' !in y1 && ',' !in x2 && ',' !in y2
    requires '\n' !in x1 && '\n' !in y1 && '\n' !in x2 && '\n' !in y2
    ensures var t := Page(Some(x1 + ",," + y1 + "\n" + x2 + ",," + y2 + "\n"));
      && |t.body| == 2
      && t.body[0][0] == "1" && t.body[0][1] == x1 && t.body[0][2] == y1 && t.body[0][3] == ""
      && t.body[1][0] == "2" && t.body[1][1] == x2 && t.body[1][2] == y2 && t.body[1][3] == ""
  {
    var lineA, lineB := x1 + ",," + y1, x2 + ",," + y2;
    TwoLineRows(lineA, lineB);
    assert lineA + "\n" + lineB + "\n" == x1 + ",," + y1 + "\n" + x2 + ",," + y2 + "\n";
    TwoFieldRow(1, x1, y1);
    TwoFieldRow(2, x2, y2);
    assert DecimalString(1) == "1" && DecimalString(2) == "2";
  }
}
