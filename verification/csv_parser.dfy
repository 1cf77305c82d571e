/** `parseCSV` of server/csv-parser.ts: the text is cut into lines, blank
    lines are dropped, the first line names the columns (lower-cased) and
    every later line becomes one row object keyed by those names. */
module CsvParser {
  import opened Text
  import opened CsvLine
  import CsvImport

  /** `values[index] || ""`: a missing cell and an empty one both read as
      the empty string. */
  function CellAt(values: seq<string>, j: nat): string {
    if j < |values| then values[j] else ""
  }

  /** The set of column names among the first `n` headers. */
  function HeaderSet(headers: seq<string>, n: nat): set<string>
    requires n <= |headers|
  {
    set i | 0 <= i < n :: headers[i]
  }

  /** The row object after the first `n` headers have been assigned in
      order; a later header with the same name overwrites the earlier cell. */
  function RowUpTo(headers: seq<string>, values: seq<string>, n: nat): (row: CsvImport.Row)
    requires n <= |headers|
    ensures row.Keys == HeaderSet(headers, n)
  {
    if n == 0 then map[]
    else
      var prev := RowUpTo(headers, values, n - 1);
      assert HeaderSet(headers, n) == HeaderSet(headers, n - 1) + {headers[n - 1]};
      prev[headers[n - 1] := CellAt(values, n - 1)]
  }

  /** The row object of one line's values. */
  function RowFrom(headers: seq<string>, values: seq<string>): (row: CsvImport.Row)
    ensures row.Keys == HeaderSet(headers, |headers|)
  {
    RowUpTo(headers, values, |headers|)
  }

  /** A column holds the cell of the last header of that name. */
  lemma {:induction false} LastHeaderWins(headers: seq<string>, values: seq<string>, n: nat, j: nat)
    requires j < n <= |headers|
    requires forall k :: j < k < n ==> headers[k] != headers[j]
    ensures headers[j] in RowUpTo(headers, values, n)
    ensures RowUpTo(headers, values, n)[headers[j]] == CellAt(values, j)
  {
    if j < n - 1 {
      LastHeaderWins(headers, values, n - 1, j);
    }
  }

  predicate Distinct(headers: seq<string>) {
    forall i, j :: 0 <= i < j < |headers| ==> headers[i] != headers[j]
  }

  /** The record a line stands for when the column names are distinct: each
      name paired with the cell in its column. */
  function Record(headers: seq<string>, values: seq<string>): (row: CsvImport.Row)
    requires Distinct(headers) && |values| == |headers|
    ensures forall j :: 0 <= j < |headers| ==> headers[j] in row && row[headers[j]] == values[j]
  {
    map j | 0 <= j < |headers| :: headers[j] := values[j]
  }

  /** With distinct column names, assigning the cells one by one builds the
      record. */
  lemma RowFromRecord(headers: seq<string>, values: seq<string>)
    requires Distinct(headers) && |values| == |headers|
    ensures RowFrom(headers, values) == Record(headers, values)
  {
    var row := RowFrom(headers, values);
    var rec := Record(headers, values);
    forall j | 0 <= j < |headers|
      ensures row[headers[j]] == rec[headers[j]]
    {
      LastHeaderWins(headers, values, |headers|, j);
    }
    assert row.Keys == rec.Keys;
  }

  /** The column names: the fields of the first line, lower-cased. */
  function Headers(line: string): (r: seq<string>)
    ensures |r| == |ParseLine(line)|
  {
    var fs := ParseLine(line);
    seq(|fs|, i requires 0 <= i < |fs| => ToLower(fs[i]))
  }

  /** The rows of the non-blank lines: none without a line after the
      header, otherwise one per later line, all keyed by the same names. */
  function Rows(lines: seq<string>): (rows: seq<CsvImport.Row>)
    ensures |rows| == if |lines| < 2 then 0 else |lines| - 1
  {
    if |lines| < 2 then [] else DataRows(Headers(lines[0]), lines[1..])
  }

  /** One row object per data line, all keyed by the same column names. */
  function DataRows(headers: seq<string>, data: seq<string>): (rows: seq<CsvImport.Row>)
    ensures |rows| == |data|
  {
    seq(|data|, i requires 0 <= i < |data| => LineRow(headers, data[i]))
  }

  /** The row object of one data line. */
  function LineRow(headers: seq<string>, line: string): CsvImport.Row {
    RowFrom(headers, ParseLine(line))
  }

  lemma RowOfLine(lines: seq<string>, i: nat)
    requires i + 1 < |lines|
    ensures Rows(lines)[i] == LineRow(Headers(lines[0]), lines[i + 1])
  {
    assert lines[1..][i] == lines[i + 1];
  }

  /** Every row is keyed by exactly the lower-cased names of the header
      line, whatever the width of its own line. */
  lemma RowKeys(lines: seq<string>, i: nat)
    requires i + 1 < |lines|
    ensures Rows(lines)[i].Keys == set j | 0 <= j < |Headers(lines[0])| :: Headers(lines[0])[j]
  {
    RowOfLine(lines, i);
  }

  /** `parseCSV`. */
  function ParseCSV(text: string): (rows: seq<CsvImport.Row>)
    ensures var lines := NonBlank(SplitLines(text));
            |rows| == if |lines| < 2 then 0 else |lines| - 1
  {
    Rows(NonBlank(SplitLines(text)))
  }

  // ---- Writing a table and reading it back ----

  /** A field that survives a trip through a quoted line. */
  predicate Cellable(f: string) {
    Writable(f) && '\n' !in f && '\r' !in f
  }

  /** A table that can be written as CSV and read back unchanged: distinct
      lower-case column names and rows as wide as the header, every field
      free of quotes, line breaks and surrounding white space. */
  predicate Table(headers: seq<string>, cells: seq<seq<string>>) {
    && |headers| >= 1
    && Distinct(headers)
    && (forall j :: 0 <= j < |headers| ==> Cellable(headers[j]) && ToLower(headers[j]) == headers[j])
    && (forall i :: 0 <= i < |cells| ==> |cells[i]| == |headers|)
    && (forall i, j :: 0 <= i < |cells| && 0 <= j < |cells[i]| ==> Cellable(cells[i][j]))
  }

  /** The lines of the written table: the header, then one per row. */
  function TableLines(headers: seq<string>, cells: seq<seq<string>>): (ls: seq<string>)
    requires |headers| >= 1
    requires forall i :: 0 <= i < |cells| ==> |cells[i]| == |headers|
    ensures |ls| == |cells| + 1
  {
    [QuotedLine(headers)] + seq(|cells|, i requires 0 <= i < |cells| => QuotedLine(cells[i]))
  }

  /** The table written as CSV text, one quoted line per row. */
  function TableText(headers: seq<string>, cells: seq<seq<string>>): string
    requires |headers| >= 1
    requires forall i :: 0 <= i < |cells| ==> |cells[i]| == |headers|
  {
    Join(TableLines(headers, cells), '\n')
  }

  /** A quoted line contains no character its fields lack, other than the
      quote and the comma. */
  lemma {:induction false} QuotedLineLacks(fields: seq<string>, c: char)
    requires |fields| >= 1 && c != '"' && c != ','
    requires forall i :: 0 <= i < |fields| ==> c !in fields[i]
    ensures c !in QuotedLine(fields)
  {
    if |fields| > 1 {
      QuotedLineLacks(fields[1..], c);
    }
  }

  lemma QuotedLineClean(fields: seq<string>)
    requires |fields| >= 1
    requires forall i :: 0 <= i < |fields| ==> Cellable(fields[i])
    ensures '\n' !in QuotedLine(fields) && '\r' !in QuotedLine(fields)
    ensures Trim(QuotedLine(fields)) != []
    ensures ParseLine(QuotedLine(fields)) == fields
  {
    QuotedLineLacks(fields, '\n');
    QuotedLineLacks(fields, '\r');
    QuotedLineNotBlank(fields);
    QuotedLineRoundTrip(fields);
  }

  /** Reading the written text finds exactly the written lines. */
  lemma TableLinesRead(headers: seq<string>, cells: seq<seq<string>>)
    requires Table(headers, cells)
    ensures NonBlank(SplitLines(TableText(headers, cells))) == TableLines(headers, cells)
  {
    var ls := TableLines(headers, cells);
    forall i | 0 <= i < |ls|
      ensures '\n' !in ls[i] && '\r' !in ls[i] && Trim(ls[i]) != []
    {
      if i == 0 {
        QuotedLineClean(headers);
      } else {
        QuotedLineClean(cells[i - 1]);
      }
    }
    UnixLines(ls);
    NonBlankKeepsAll(ls);
  }

  /** The header line of a written table reads back as its column names. */
  lemma TableHeadersRead(headers: seq<string>, cells: seq<seq<string>>)
    requires Table(headers, cells)
    ensures Headers(TableLines(headers, cells)[0]) == headers
  {
    QuotedLineClean(headers);
    HeadersLower(QuotedLine(headers), headers);
  }

  lemma HeadersLower(line: string, headers: seq<string>)
    requires ParseLine(line) == headers
    requires forall j :: 0 <= j < |headers| ==> ToLower(headers[j]) == headers[j]
    ensures Headers(line) == headers
  {
  }

  /** Each data line of a written table reads back as the record of its
      row. */
  lemma TableRowRead(headers: seq<string>, cells: seq<seq<string>>, i: nat)
    requires Table(headers, cells) && i < |cells|
    ensures Rows(TableLines(headers, cells))[i] == Record(headers, cells[i])
  {
    var ls := TableLines(headers, cells);
    RowOfLine(ls, i);
    TableHeadersRead(headers, cells);
    assert ls[i + 1] == QuotedLine(cells[i]);
    QuotedLineClean(cells[i]);
    RowFromRecord(headers, cells[i]);
  }

  /** A table written as CSV reads back as one record per row, each naming
      every column's cell; a header line alone reads as no rows. */
  lemma ParseCSVRoundTrip(headers: seq<string>, cells: seq<seq<string>>)
    requires Table(headers, cells)
    ensures ParseCSV(TableText(headers, cells))
            == seq(|cells|, i requires 0 <= i < |cells| => Record(headers, cells[i]))
  {
    var ls := TableLines(headers, cells);
    TableLinesRead(headers, cells);
    var want := seq(|cells|, i requires 0 <= i < |cells| => Record(headers, cells[i]));
    forall i | 0 <= i < |cells|
      ensures Rows(ls)[i] == want[i]
    {
      TableRowRead(headers, cells, i);
    }
  }
}
