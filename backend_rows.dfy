/** Row construction of `readCsv` in backend/Backend.java: the header line
    becomes trimmed lower-case column names, every later non-blank line a map
    from column name to cell, and rows without coordinates are dropped. */
module BackendRows {
  import opened Wrappers
  import opened Text
  import BackendCsv

  /** One CSV record keyed by column name. */
  type Row = map<string, string>

  /** `getOrDefault(key, "")`. */
  function Get(row: Row, key: string): string
  {
    if key in row then row[key] else ""
  }

  // ----------------------------------------------------------------- headers

  /** The column name made of one raw header field. */
  function HeaderName(h: string): string
  {
    Lower(Trim(Java, h))
  }

  /** Header names in header order. */
  function Headers(raw: seq<string>): (r: seq<string>)
    ensures |r| == |raw|
    ensures forall i :: 0 <= i < |raw| ==> r[i] == HeaderName(raw[i])
  {
    seq(|raw|, i requires 0 <= i < |raw| => HeaderName(raw[i]))
  }

  /** The header loop of `readCsv`. */
  method NormalizeHeaders(raw: seq<string>) returns (headers: seq<string>)
    ensures headers == Headers(raw)
    ensures forall h :: h in headers ==> Trimmed(Java, h) && Lower(h) == h
  {
    headers := [];
    for i := 0 to |raw|
      invariant headers == Headers(raw[..i])
    {
      headers := headers + [HeaderName(raw[i])];
    }
    assert raw[..|raw|] == raw;
    forall h | h in headers ensures Trimmed(Java, h) && Lower(h) == h {
      var i :| 0 <= i < |headers| && headers[i] == h;
      LowerKeepsTrimmed(Java, Trim(Java, raw[i]));
      LowerIdempotent(Trim(Java, raw[i]));
    }
  }

  // ------------------------------------------------------------------- rows

  /** The cell under column `i`, or "" past the end of a short line. */
  function CellAt(cells: seq<string>, i: nat): string
  {
    if i < |cells| then cells[i] else ""
  }

  /** The row the inner loop builds after putting the first `n` columns. */
  function KeyedRow(headers: seq<string>, cells: seq<string>, n: nat): (r: Row)
    requires n <= |headers|
    ensures r.Keys == set i | 0 <= i < n :: headers[i]
  {
    if n == 0 then map[]
    else KeyedRow(headers, cells, n - 1)[headers[n - 1] := CellAt(cells, n - 1)]
  }

  /** The keys of a full row are the headers. */
  lemma RowKeys(headers: seq<string>, cells: seq<string>)
    ensures KeyedRow(headers, cells, |headers|).Keys == set h | h in headers
  {
    assert forall h :: h in headers <==> exists i :: 0 <= i < |headers| && headers[i] == h;
  }

  /** The row of one line: every header is a key, and a header that occurs
      twice keeps the cell of its last column. */
  function RowOf(headers: seq<string>, line: string): (r: Row)
    ensures r.Keys == set h | h in headers
  {
    RowKeys(headers, BackendCsv.CsvFields(line));
    KeyedRow(headers, BackendCsv.CsvFields(line), |headers|)
  }

  /** A kept row has both coordinates. */
  predicate HasCoordinates(row: Row)
  {
    !Blank(Java, Get(row, "lat")) && !Blank(Java, Get(row, "lng"))
  }

  /** What one line contributes: nothing for a blank line or a row without
      coordinates, otherwise its row. */
  function Kept(headers: seq<string>, line: string): (r: seq<Row>)
    ensures |r| <= 1
  {
    if Blank(Java, line) then []
    else
      var row := RowOf(headers, line);
      if HasCoordinates(row) then [row] else []
  }

  /** The rows `readCsv` collects from the lines after the header, in order. */
  function RowsOf(headers: seq<string>, lines: seq<string>): (r: seq<Row>)
    ensures |r| <= |lines|
  {
    if |lines| == 0 then []
    else RowsOf(headers, lines[..|lines| - 1]) + Kept(headers, lines[|lines| - 1])
  }

  lemma RowsOfSnoc(headers: seq<string>, lines: seq<string>, k: nat)
    requires k < |lines|
    ensures RowsOf(headers, lines[..k + 1]) == RowsOf(headers, lines[..k]) + Kept(headers, lines[k])
  {
    assert lines[..k + 1][..k] == lines[..k];
  }

  /** `readCsv` on the file's lines; `None` stands for a missing file. Line
      splitting by the reader is taken as given. */
  function ReadCsvSpec(file: Option<seq<string>>, path: string): Result<seq<Row>, string>
  {
    match file
    case None => Err("CSV file not found: " + path)
    case Some(lines) =>
      if |lines| == 0 then Err("CSV file is empty")
      else Ok(RowsOf(Headers(BackendCsv.CsvFields(lines[0])), lines[1..]))
  }

  /** The inner loop: one `put` per header column. */
  method BuildRow(headers: seq<string>, cells: seq<string>) returns (row: Row)
    ensures row == KeyedRow(headers, cells, |headers|)
  {
    row := map[];
    for i := 0 to |headers|
      invariant row == KeyedRow(headers, cells, i)
    {
      var key := headers[i];
      var val := if i < |cells| then cells[i] else "";
      row := row[key := val];
    }
  }

  /** One pass of the row loop: skip a blank line, build the row, skip it
      when a coordinate is blank. */
  method KeepLine(headers: seq<string>, line: string) returns (kept: seq<Row>)
    ensures kept == Kept(headers, line)
  {
    if Trim(Java, line) == "" {
      return [];
    }
    var cells := BackendCsv.ParseCsvLine(line);
    var row := BuildRow(headers, cells);
    var lat := Trim(Java, Get(row, "lat"));
    var lng := Trim(Java, Get(row, "lng"));
    if lat == "" || lng == "" {
      return [];
    }
    return [row];
  }

  method ReadCsv(file: Option<seq<string>>, path: string) returns (res: Result<seq<Row>, string>)
    ensures res == ReadCsvSpec(file, path)
  {
    if file.None? {
      return Err("CSV file not found: " + path);
    }
    var lines := file.value;
    if |lines| == 0 {
      return Err("CSV file is empty");
    }
    var headersRaw := BackendCsv.ParseCsvLine(lines[0]);
    var headers := NormalizeHeaders(headersRaw);
    var body := lines[1..];
    var rows: seq<Row> := [];
    var k := 0;
    while k < |body|
      invariant 0 <= k <= |body|
      invariant rows == RowsOf(headers, body[..k])
    {
      var kept := KeepLine(headers, body[k]);
      RowsOfSnoc(headers, body, k);
      rows := rows + kept;
      k := k + 1;
    }
    assert body[..|body|] == body;
    return Ok(rows);
  }

  // --------------------------------------------------------------- properties

  /** Where a header occurs several times, the last column wins; a missing
      cell reads as "". */
  lemma {:induction false} KeyedRowValue(headers: seq<string>, cells: seq<string>, n: nat, j: nat)
    requires j < n <= |headers|
    requires forall m :: j < m < n ==> headers[m] != headers[j]
    ensures KeyedRow(headers, cells, n)[headers[j]] == CellAt(cells, j)
    decreases n
  {
    if n - 1 != j {
      KeyedRowValue(headers, cells, n - 1, j);
    }
  }

  /** With distinct headers, column `j` is read from cell `j`. */
  lemma RowValue(headers: seq<string>, line: string, j: nat)
    requires j < |headers|
    requires forall m :: j < m < |headers| ==> headers[m] != headers[j]
    ensures RowOf(headers, line)[headers[j]] == CellAt(BackendCsv.CsvFields(line), j)
  {
    KeyedRowValue(headers, BackendCsv.CsvFields(line), |headers|, j);
  }

  /** Every collected row has exactly the header columns and both coordinates,
      and comes from a non-blank line. */
  lemma {:induction false} RowsSound(headers: seq<string>, lines: seq<string>, row: Row)
    requires row in RowsOf(headers, lines)
    ensures row.Keys == set h | h in headers
    ensures HasCoordinates(row)
    ensures exists i :: 0 <= i < |lines| && !Blank(Java, lines[i]) && row == RowOf(headers, lines[i])
    decreases |lines|
  {
    var front := lines[..|lines| - 1];
    var last := lines[|lines| - 1];
    if row in RowsOf(headers, front) {
      RowsSound(headers, front, row);
      var i :| 0 <= i < |front| && !Blank(Java, front[i]) && row == RowOf(headers, front[i]);
      assert lines[i] == front[i];
    } else {
      assert row in Kept(headers, last);
    }
  }

  /** Every non-blank line whose row has both coordinates is collected. */
  lemma {:induction false} RowsComplete(headers: seq<string>, lines: seq<string>, i: nat)
    requires i < |lines|
    requires !Blank(Java, lines[i]) && HasCoordinates(RowOf(headers, lines[i]))
    ensures RowOf(headers, lines[i]) in RowsOf(headers, lines)
    decreases |lines|
  {
    var front := lines[..|lines| - 1];
    if i < |lines| - 1 {
      assert front[i] == lines[i];
      RowsComplete(headers, front, i);
    } else {
      assert Kept(headers, lines[i]) == [RowOf(headers, lines[i])];
    }
  }
}
