/** app/api/meta/route.ts: the whole-text CSV parser `parseCSV` (quoted
    fields, CR, LF and CRLF record ends, blank records dropped, records keyed
    by the trimmed header names) and the `GET` handler's sorted,
    duplicate-free lists of cities, categories and languages. */
module MetaRoute {
  import opened Wrappers
  import opened Text
  import BackendCsv
  import BackendRows

  /** One parsed record: its cells in column order. */
  type Record = seq<string>

  /** The object built for one record, keyed by header name. */
  type Obj = BackendRows.Row

  // ------------------------------------------------------------- records

  /** `row.some((c) => c.trim() !== "")`. */
  predicate NonBlankRecord(row: Record)
  {
    exists k :: 0 <= k < |row| && !Blank(Js, row[k])
  }

  /** Closing a record: it is kept only when some cell is non-blank. */
  function Flush(rows: seq<Record>, row: Record): seq<Record>
  {
    if NonBlankRecord(row) then rows + [row] else rows
  }

  /** The parser's state machine over the unread suffix `s`: `cur` is the
      cell being built, `row` the cells of the open record, `rows` the
      records already closed. Inside quotes `""` yields one `"`; any other
      `"` toggles quoting; outside quotes a comma closes the cell and a CR,
      LF or CRLF closes the record; at the end the open record is closed. */
  function Records(s: string, inQuotes: bool, cur: string, row: Record, rows: seq<Record>): seq<Record>
    decreases |s|
  {
    if |s| == 0 then Flush(rows, row + [cur])
    else if s[0] == '"' && inQuotes && |s| > 1 && s[1] == '"' then
      Records(s[2..], inQuotes, cur + ['"'], row, rows)
    else if s[0] == '"' then Records(s[1..], !inQuotes, cur, row, rows)
    else if s[0] == ',' && !inQuotes then Records(s[1..], inQuotes, "", row + [cur], rows)
    else if s[0] == '\r' && !inQuotes && |s| > 1 && s[1] == '\n' then
      Records(s[2..], inQuotes, "", [], Flush(rows, row + [cur]))
    else if (s[0] == '\n' || s[0] == '\r') && !inQuotes then
      Records(s[1..], inQuotes, "", [], Flush(rows, row + [cur]))
    else Records(s[1..], inQuotes, cur + [s[0]], row, rows)
  }

  /** The records `parseCSV` collects from the whole text. */
  function ParseRecords(text: string): seq<Record>
  {
    Records(text, false, "", [], [])
  }

  /** The character loop of `parseCSV`. */
  method ScanRecords(text: string) returns (rows: seq<Record>)
    ensures rows == ParseRecords(text)
  {
    rows := [];
    var row: Record := [];
    var cur := "";
    var inQuotes := false;
    var i := 0;
    while i < |text|
      invariant 0 <= i <= |text|
      invariant Records(text[i..], inQuotes, cur, row, rows) == ParseRecords(text)
    {
      var ch := text[i];
      assert text[i..][0] == ch;
      var hasNext := i + 1 < |text|;
      if ch == '"' && inQuotes && hasNext && text[i + 1] == '"' {
        assert text[i..][2..] == text[i + 2..];
        cur := cur + ['"'];
        i := i + 2;
        continue;
      }
      assert text[i..][1..] == text[i + 1..];
      if ch == '"' {
        inQuotes := !inQuotes;
        i := i + 1;
        continue;
      }
      if ch == ',' && !inQuotes {
        row := row + [cur];
        cur := "";
        i := i + 1;
        continue;
      }
      if (ch == '\n' || ch == '\r') && !inQuotes {
        if ch == '\r' && hasNext && text[i + 1] == '\n' {
          assert text[i..][2..] == text[i + 2..];
          i := i + 1;
        }
        row := row + [cur];
        cur := "";
        if NonBlankRecord(row) {
          rows := rows + [row];
        }
        row := [];
        i := i + 1;
        continue;
      }
      cur := cur + [ch];
      i := i + 1;
    }
    row := row + [cur];
    if NonBlankRecord(row) {
      rows := rows + [row];
    }
  }

  // ------------------------------------------------ every record non-blank

  lemma {:induction false} RecordsNonBlankFrom(s: string, inQuotes: bool, cur: string, row: Record, rows: seq<Record>)
    requires forall r :: r in rows ==> NonBlankRecord(r)
    ensures forall r :: r in Records(s, inQuotes, cur, row, rows) ==> NonBlankRecord(r)
    decreases |s|
  {
    var closed := Flush(rows, row + [cur]);
    assert forall r :: r in closed ==> NonBlankRecord(r) by {
      assert forall r :: r in rows + [row + [cur]] ==> r in rows || r == row + [cur];
    }
    if |s| == 0 {
    } else if s[0] == '"' && inQuotes && |s| > 1 && s[1] == '"' {
      RecordsNonBlankFrom(s[2..], inQuotes, cur + ['"'], row, rows);
    } else if s[0] == '"' {
      RecordsNonBlankFrom(s[1..], !inQuotes, cur, row, rows);
    } else if s[0] == ',' && !inQuotes {
      RecordsNonBlankFrom(s[1..], inQuotes, "", row + [cur], rows);
    } else if s[0] == '\r' && !inQuotes && |s| > 1 && s[1] == '\n' {
      RecordsNonBlankFrom(s[2..], inQuotes, "", [], closed);
    } else if (s[0] == '\n' || s[0] == '\r') && !inQuotes {
      RecordsNonBlankFrom(s[1..], inQuotes, "", [], closed);
    } else {
      RecordsNonBlankFrom(s[1..], inQuotes, cur + [s[0]], row, rows);
    }
  }

  /** Every record `parseCSV` keeps has a non-blank cell. */
  lemma RecordsNonBlank(text: string)
    ensures forall r :: r in ParseRecords(text) ==> NonBlankRecord(r)
  {
    RecordsNonBlankFrom(text, false, "", [], []);
  }

  // ----------------------------------------------- quoted records read back

  /** A record end: CRLF, LF or a lone CR. */
  predicate LineEnd(eol: string)
  {
    eol == "\r\n" || eol == "\n" || eol == "\r"
  }

  /** Records written with every cell quoted and its quotes doubled, each
      followed by the line end `eol`. */
  function EncodeRecords(recs: seq<Record>, eol: string): string
  {
    if |recs| == 0 then "" else BackendCsv.EncodeLine(recs[0]) + eol + EncodeRecords(recs[1..], eol)
  }

  /** The records with at least one non-blank cell, in order. */
  function NonBlankOnly(recs: seq<Record>): seq<Record>
  {
    if |recs| == 0 then []
    else (if NonBlankRecord(recs[0]) then [recs[0]] else []) + NonBlankOnly(recs[1..])
  }

  lemma {:induction false} QuotedBody(f: string, rest: string, cur: string, row: Record, rows: seq<Record>)
    requires rest == [] || rest[0] != '"'
    ensures Records(BackendCsv.DoubleQuotes(f) + "\"" + rest, true, cur, row, rows)
         == Records(rest, false, cur + f, row, rows)
    decreases |f|
  {
    var s := BackendCsv.DoubleQuotes(f) + "\"" + rest;
    if |f| == 0 {
      assert s == "\"" + rest;
      assert s[1..] == rest;
      assert cur + f == cur;
    } else if f[0] == '"' {
      var s' := BackendCsv.DoubleQuotes(f[1..]) + "\"" + rest;
      assert s == "\"\"" + s';
      assert s[2..] == s';
      QuotedBody(f[1..], rest, cur + ['"'], row, rows);
      assert f == ['"'] + f[1..];
      assert cur + ['"'] + f[1..] == cur + f;
    } else {
      var s' := BackendCsv.DoubleQuotes(f[1..]) + "\"" + rest;
      assert s == [f[0]] + s';
      assert s[1..] == s';
      QuotedBody(f[1..], rest, cur + [f[0]], row, rows);
      assert f == [f[0]] + f[1..];
      assert cur + [f[0]] + f[1..] == cur + f;
    }
  }

  lemma QuotedCell(f: string, rest: string, row: Record, rows: seq<Record>)
    requires rest == [] || rest[0] != '"'
    ensures Records(BackendCsv.QuoteField(f) + rest, false, "", row, rows) == Records(rest, false, f, row, rows)
  {
    var s := BackendCsv.QuoteField(f) + rest;
    assert s == "\"" + (BackendCsv.DoubleQuotes(f) + "\"" + rest);
    assert s[1..] == BackendCsv.DoubleQuotes(f) + "\"" + rest;
    QuotedBody(f, rest, "", row, rows);
    assert "" + f == f;
  }

  /** A comma outside quotes closes the cell. */
  lemma CommaStep(s: string, cur: string, row: Record, rows: seq<Record>)
    requires |s| > 0 && s[0] == ','
    ensures Records(s, false, cur, row, rows) == Records(s[1..], false, "", row + [cur], rows)
  {
  }

  lemma EncodeLineStartsWithQuote(fields: seq<string>)
    requires |fields| >= 1
    ensures |BackendCsv.EncodeLine(fields)| > 0 && BackendCsv.EncodeLine(fields)[0] == '"'
  {
  }

  /** One quoted record followed by `rest`: its cells are all read, the last
      one still open. */
  lemma {:induction false} QuotedLine(fields: seq<string>, rest: string, row: Record, rows: seq<Record>)
    requires |fields| >= 1
    requires rest == [] || rest[0] != '"'
    ensures Records(BackendCsv.EncodeLine(fields) + rest, false, "", row, rows)
         == Records(rest, false, fields[|fields| - 1], row + fields[..|fields| - 1], rows)
    decreases |fields|
  {
    if |fields| == 1 {
      assert BackendCsv.EncodeLine(fields) == BackendCsv.QuoteField(fields[0]);
      QuotedCell(fields[0], rest, row, rows);
      assert row + fields[..0] == row;
    } else {
      QuotedLine(fields[1..], rest, row + [fields[0]], rows);
      QuotedLineCons(fields, rest, row, rows);
    }
  }

  /** The step of `QuotedLine`: the first cell, then the comma, then the rest. */
  lemma QuotedLineCons(fields: seq<string>, rest: string, row: Record, rows: seq<Record>)
    requires |fields| >= 2
    requires rest == [] || rest[0] != '"'
    requires Records(BackendCsv.EncodeLine(fields[1..]) + rest, false, "", row + [fields[0]], rows)
          == Records(rest, false, fields[|fields| - 1], row + [fields[0]] + fields[1..][..|fields| - 2], rows)
    ensures Records(BackendCsv.EncodeLine(fields) + rest, false, "", row, rows)
         == Records(rest, false, fields[|fields| - 1], row + fields[..|fields| - 1], rows)
  {
    var f := fields[0];
    var tail := fields[1..];
    var t := BackendCsv.EncodeLine(tail);
    var s := "," + t + rest;
    assert BackendCsv.EncodeLine(fields) + rest == BackendCsv.QuoteField(f) + s;
    QuotedCell(f, s, row, rows);
    CommaStep(s, f, row, rows);
    assert s[1..] == t + rest;
    assert row + [f] + tail[..|tail| - 1] == row + fields[..|fields| - 1];
  }

  lemma LineEndCloses(eol: string, more: string, cur: string, row: Record, rows: seq<Record>)
    requires LineEnd(eol)
    requires more == [] || more[0] == '"'
    ensures Records(eol + more, false, cur, row, rows) == Records(more, false, "", [], Flush(rows, row + [cur]))
  {
    var s := eol + more;
    if eol == "\r\n" {
      assert s[2..] == more;
    } else {
      assert s[1..] == more;
    }
  }

  lemma LastSplit(r: Record)
    requires |r| >= 1
    ensures [] + r[..|r| - 1] + [r[|r| - 1]] == r
  {
  }

  lemma Assoc(a: seq<Record>, b: seq<Record>, c: seq<Record>)
    ensures a + b + c == a + (b + c)
  {
  }

  lemma Regroup(a: string, b: string, c: string, d: string)
    ensures a + b + c + d == a + (b + (c + d))
  {
  }

  /** One quoted record and its line end close that record. */
  lemma QuotedRecord(r: Record, eol: string, x: string, rows: seq<Record>)
    requires LineEnd(eol)
    requires |r| >= 1
    requires x == [] || x[0] == '"'
    ensures Records(BackendCsv.EncodeLine(r) + (eol + x), false, "", [], rows) == Records(x, false, "", [], Flush(rows, r))
  {
    QuotedLine(r, eol + x, [], rows);
    LineEndCloses(eol, x, r[|r| - 1], [] + r[..|r| - 1], rows);
    LastSplit(r);
  }

  lemma {:induction false} QuotedRecords(recs: seq<Record>, eol: string, more: string, rows: seq<Record>)
    requires LineEnd(eol)
    requires forall r :: r in recs ==> |r| >= 1
    requires more == [] || more[0] == '"'
    ensures Records(EncodeRecords(recs, eol) + more, false, "", [], rows)
         == Records(more, false, "", [], rows + NonBlankOnly(recs))
    decreases |recs|
  {
    if |recs| == 0 {
      assert EncodeRecords(recs, eol) + more == more;
      assert rows + NonBlankOnly(recs) == rows;
    } else {
      var r := recs[0];
      var tail := recs[1..];
      assert r in recs;
      assert forall x :: x in tail ==> x in recs;
      var x := EncodeRecords(tail, eol) + more;
      assert x == [] || x[0] == '"' by {
        if |tail| > 0 {
          EncodeLineStartsWithQuote(tail[0]);
        } else {
          assert x == more;
        }
      }
      var e := BackendCsv.EncodeLine(r);
      var t := EncodeRecords(tail, eol);
      assert EncodeRecords(recs, eol) == e + eol + t;
      Regroup(e, eol, t, more);
      QuotedRecord(r, eol, x, rows);
      var kept: seq<Record> := if NonBlankRecord(r) then [r] else [];
      var rows' := Flush(rows, r);
      assert rows' == rows + kept;
      QuotedRecords(tail, eol, more, rows');
      assert NonBlankOnly(recs) == kept + NonBlankOnly(tail);
      Assoc(rows, kept, NonBlankOnly(tail));
    }
  }

  /** Writing records with every cell quoted and each record ended by CRLF,
      LF or CR, then parsing, gives back exactly the non-blank records: a
      comma, quote, CR or LF inside a cell stays in it, a CRLF ends one
      record and not two, and all-blank records are dropped. */
  lemma QuotedRoundTrip(recs: seq<Record>, eol: string)
    requires LineEnd(eol)
    requires forall r :: r in recs ==> |r| >= 1
    ensures ParseRecords(EncodeRecords(recs, eol)) == NonBlankOnly(recs)
  {
    QuotedRecords(recs, eol, "", []);
    assert EncodeRecords(recs, eol) + "" == EncodeRecords(recs, eol);
    assert !NonBlankRecord([""]) by {
      assert Trim(Js, "") == "";
    }
    assert [] + NonBlankOnly(recs) == NonBlankOnly(recs);
  }

  /** A non-blank record after the last line end is still emitted. */
  lemma UnterminatedLastRecord(recs: seq<Record>, eol: string, last: Record)
    requires LineEnd(eol)
    requires forall r :: r in recs ==> |r| >= 1
    requires |last| >= 1 && NonBlankRecord(last)
    ensures ParseRecords(EncodeRecords(recs, eol) + BackendCsv.EncodeLine(last)) == NonBlankOnly(recs) + [last]
  {
    var line := BackendCsv.EncodeLine(last);
    EncodeLineStartsWithQuote(last);
    QuotedRecords(recs, eol, line, []);
    var kept := NonBlankOnly(recs);
    assert [] + kept == kept;
    assert line + "" == line;
    QuotedLine(last, "", [], kept);
    LastSplit(last);
  }

  // ------------------------------------------------------------- objects

  /** `rows[0].map((h) => h.trim())`. */
  function TrimAll(cells: Record): (r: seq<string>)
    ensures |r| == |cells|
    ensures forall i :: 0 <= i < |cells| ==> r[i] == Trim(Js, cells[i])
  {
    seq(|cells|, i requires 0 <= i < |cells| => Trim(Js, cells[i]))
  }

  /** The object the `forEach` fills for one record: each header in turn is
      set to its trimmed cell, `""` past the end of a short record, so a
      header that occurs twice keeps its last column. */
  function ObjectOf(headers: seq<string>, cells: Record): (o: Obj)
    ensures o.Keys == set h | h in headers
  {
    BackendRows.RowKeys(headers, TrimAll(cells));
    BackendRows.KeyedRow(headers, TrimAll(cells), |headers|)
  }

  /** The objects of the records after the header. */
  function ObjectsOf(headers: seq<string>, recs: seq<Record>): (r: seq<Obj>)
    ensures |r| == |recs|
  {
    seq(|recs|, i requires 0 <= i < |recs| => ObjectOf(headers, recs[i]))
  }

  /** `parseCSV(text)`; `None` when there is no record at all, where
      `rows[0].map` throws. */
  function ParseCsvSpec(text: string): Option<seq<Obj>>
  {
    var recs := ParseRecords(text);
    if |recs| == 0 then None else Some(ObjectsOf(TrimAll(recs[0]), recs[1..]))
  }

  /** `(cells[idx] ?? "").trim()`. */
  lemma TrimmedCell(cells: Record, idx: nat)
    ensures BackendRows.CellAt(TrimAll(cells), idx) == Trim(Js, if idx < |cells| then cells[idx] else "")
  {
    if idx >= |cells| {
      assert Trim(Js, "") == "";
    }
  }

  /** The `forEach` that fills one object. */
  method BuildObject(headers: seq<string>, cells: Record) returns (obj: Obj)
    ensures obj == ObjectOf(headers, cells)
  {
    obj := map[];
    for idx := 0 to |headers|
      invariant obj == BackendRows.KeyedRow(headers, TrimAll(cells), idx)
    {
      var cell := if idx < |cells| then cells[idx] else "";
      TrimmedCell(cells, idx);
      obj := obj[headers[idx] := Trim(Js, cell)];
    }
  }

  method ParseCsv(text: string) returns (res: Option<seq<Obj>>)
    ensures res == ParseCsvSpec(text)
  {
    var recs := ScanRecords(text);
    if |recs| == 0 {
      return None;
    }
    var headers := TrimAll(recs[0]);
    var body := recs[1..];
    var objs: seq<Obj> := [];
    for k := 0 to |body|
      invariant |objs| == k
      invariant forall i :: 0 <= i < k ==> objs[i] == ObjectOf(headers, body[i])
    {
      var obj := BuildObject(headers, body[k]);
      objs := objs + [obj];
    }
    assert objs == ObjectsOf(headers, body);
    return Some(objs);
  }

  /** Every value of an object built from trimmed cells is trimmed. */
  lemma {:induction false} KeyedTrimmed(headers: seq<string>, vals: seq<string>, n: nat)
    requires n <= |headers|
    requires forall i :: 0 <= i < |vals| ==> Trimmed(Js, vals[i])
    ensures forall k :: k in BackendRows.KeyedRow(headers, vals, n) ==> Trimmed(Js, BackendRows.KeyedRow(headers, vals, n)[k])
    decreases n
  {
    if n > 0 {
      KeyedTrimmed(headers, vals, n - 1);
    }
  }

  /** One object per record after the header; each has exactly the trimmed
      header names as keys, trimmed values, and the trimmed cell of the last
      column of its name, `""` where the record is short. */
  lemma ObjectsShape(text: string, k: nat, j: nat)
    requires |ParseRecords(text)| > 0
    requires j < |ParseRecords(text)[0]|
    requires k + 1 < |ParseRecords(text)|
    requires forall m :: j < m < |ParseRecords(text)[0]| ==> Trim(Js, ParseRecords(text)[0][m]) != Trim(Js, ParseRecords(text)[0][j])
    ensures ParseCsvSpec(text).Some?
    ensures |ParseCsvSpec(text).value| == |ParseRecords(text)| - 1
    ensures ParseCsvSpec(text).value[k].Keys == set h | h in TrimAll(ParseRecords(text)[0])
    ensures forall key :: key in ParseCsvSpec(text).value[k] ==> Trimmed(Js, ParseCsvSpec(text).value[k][key])
    ensures ParseCsvSpec(text).value[k][Trim(Js, ParseRecords(text)[0][j])]
         == Trim(Js, BackendRows.CellAt(ParseRecords(text)[k + 1], j))
  {
    var recs := ParseRecords(text);
    var hs := TrimAll(recs[0]);
    var cells := recs[k + 1];
    var vals := TrimAll(cells);
    assert ParseCsvSpec(text).value[k] == ObjectOf(hs, cells);
    KeyedTrimmed(hs, vals, |hs|);
    BackendRows.KeyedRowValue(hs, vals, |hs|, j);
    TrimmedCell(cells, j);
  }

  /** Text with no record at all makes `parseCSV` throw: a file made only
      of white space and line breaks (space, tab, CR, LF and the other
      characters `String.prototype.trim` removes) has no header record. */
  lemma BlankTextFails(text: string)
    requires forall k :: 0 <= k < |text| ==> IsJsSpace(text[k])
    ensures ParseCsvSpec(text).None?
  {
    BlankRecords(text, "", [], []);
  }

  lemma {:induction false} BlankRecords(s: string, cur: string, row: Record, rows: seq<Record>)
    requires forall k :: 0 <= k < |s| ==> IsJsSpace(s[k])
    requires forall k :: 0 <= k < |cur| ==> IsJsSpace(cur[k])
    requires forall c :: c in row ==> Blank(Js, c)
    ensures Records(s, false, cur, row, rows) == rows
    decreases |s|
  {
    TrimAllSpace(Js, cur);
    assert !NonBlankRecord(row + [cur]) by {
      forall k | 0 <= k < |row + [cur]| ensures Blank(Js, (row + [cur])[k]) {
        if k < |row| {
          assert row[k] in row;
        }
      }
    }
    if |s| > 0 {
      assert IsJsSpace(s[0]);
      assert s[0] != '"' && s[0] != ',';
      if s[0] == '\r' && |s| > 1 && s[1] == '\n' {
        assert forall k :: 0 <= k < |s[2..]| ==> IsJsSpace(s[2..][k]) by {
          forall k | 0 <= k < |s[2..]| ensures IsJsSpace(s[2..][k]) {
            assert s[2..][k] == s[k + 2];
          }
        }
        BlankRecords(s[2..], "", [], rows);
      } else if s[0] == '\n' || s[0] == '\r' {
        BlankRecords(s[1..], "", [], rows);
      } else {
        assert forall c :: c in row ==> Blank(Js, c);
        assert forall k :: 0 <= k < |cur + [s[0]]| ==> IsJsSpace((cur + [s[0]])[k]);
        BlankRecords(s[1..], cur + [s[0]], row, rows);
      }
    }
  }

  // -------------------------------------------------------------- facets

  /** `Set.prototype.add` on a set kept in insertion order. */
  function Add(seen: seq<string>, x: string): (r: seq<string>)
    ensures forall y :: y in r <==> y in seen || y == x
    ensures Distinct(seen) ==> Distinct(r)
  {
    if x in seen then seen else seen + [x]
  }

  /** Adding each of `xs` in turn. */
  function AddAll(seen: seq<string>, xs: seq<string>): (r: seq<string>)
    ensures forall y :: y in r <==> y in seen || y in xs
    ensures Distinct(seen) ==> Distinct(r)
  {
    if |xs| == 0 then seen
    else
      var front := xs[..|xs| - 1];
      assert forall y :: y in xs <==> y in front || y == xs[|xs| - 1];
      Add(AddAll(seen, front), xs[|xs| - 1])
  }

  /** `obj[key]` read as a string, `""` if the key is absent; both are falsy. */
  function Get(o: Obj, key: string): string
  {
    if key in o then o[key] else ""
  }

  /** The city set after the first `|objs|` rows: every non-empty city. */
  function CitySet(objs: seq<Obj>): (r: seq<string>)
    ensures Distinct(r)
    ensures forall c :: c in r <==> c != "" && exists o :: o in objs && Get(o, "city") == c
  {
    if |objs| == 0 then []
    else
      var front := objs[..|objs| - 1];
      var last := objs[|objs| - 1];
      assert forall o :: o in objs <==> o in front || o == last;
      var city := Get(last, "city");
      if city != "" then Add(CitySet(front), city) else CitySet(front)
  }

  /** The set of comma tokens of column `key` over the rows: `split(",")`,
      `map(trim)`, `filter(Boolean)`, each token added. */
  function TokenSet(objs: seq<Obj>, key: string): (r: seq<string>)
    ensures Distinct(r)
    ensures forall t :: t in r <==> exists o :: o in objs && t in Tokens(Js, Get(o, key))
  {
    if |objs| == 0 then []
    else
      var front := objs[..|objs| - 1];
      var last := objs[|objs| - 1];
      assert forall o :: o in objs <==> o in front || o == last;
      AddAll(TokenSet(front, key), Tokens(Js, Get(last, key)))
  }

  /** The `forEach` adding each token to a set. */
  method AddEach(seen: seq<string>, xs: seq<string>) returns (r: seq<string>)
    ensures r == AddAll(seen, xs)
  {
    r := seen;
    for j := 0 to |xs|
      invariant r == AddAll(seen, xs[..j])
    {
      assert xs[..j + 1][..j] == xs[..j];
      r := Add(r, xs[j]);
    }
    assert xs[..|xs|] == xs;
  }

  /** The aggregation loop of `GET`. */
  method CollectFacets(objs: seq<Obj>) returns (cities: seq<string>, cats: seq<string>, langs: seq<string>)
    ensures cities == CitySet(objs)
    ensures cats == TokenSet(objs, "categories")
    ensures langs == TokenSet(objs, "languages")
  {
    cities, cats, langs := [], [], [];
    for k := 0 to |objs|
      invariant cities == CitySet(objs[..k])
      invariant cats == TokenSet(objs[..k], "categories")
      invariant langs == TokenSet(objs[..k], "languages")
    {
      assert objs[..k + 1][..k] == objs[..k];
      var r := objs[k];
      var city := Get(r, "city");
      if city != "" {
        cities := Add(cities, city);
      }
      cats := AddEach(cats, Tokens(Js, Get(r, "categories")));
      langs := AddEach(langs, Tokens(Js, Get(r, "languages")));
    }
    assert objs[..|objs|] == objs;
  }

  // ------------------------------------------------------------- sorting

  predicate SortedLex(xs: seq<string>)
  {
    forall i, j :: 0 <= i < j < |xs| ==> LexLe(xs[i], xs[j])
  }

  function Insert(x: string, xs: seq<string>): (r: seq<string>)
    ensures forall y :: y in r <==> y == x || y in xs
    ensures |r| == |xs| + 1
    ensures multiset(r) == multiset(xs) + multiset{x}
  {
    if |xs| == 0 then [x]
    else if LexLe(x, xs[0]) then [x] + xs
    else
      assert xs == [xs[0]] + xs[1..];
      [xs[0]] + Insert(x, xs[1..])
  }

  /** `Array.prototype.sort()` with its default comparison. */
  function SortStrings(xs: seq<string>): (r: seq<string>)
    ensures forall y :: y in r <==> y in xs
    ensures |r| == |xs|
    ensures multiset(r) == multiset(xs)
  {
    if |xs| == 0 then []
    else
      assert xs == [xs[0]] + xs[1..];
      Insert(xs[0], SortStrings(xs[1..]))
  }

  lemma {:induction false} InsertSorted(x: string, xs: seq<string>)
    requires SortedLex(xs)
    ensures SortedLex(Insert(x, xs))
    decreases |xs|
  {
    if |xs| > 0 {
      if LexLe(x, xs[0]) {
        forall j | 0 <= j < |xs| ensures LexLe(x, xs[j]) {
          if j > 0 {
            LexTransitive(x, xs[0], xs[j]);
          }
        }
      } else {
        LexTotal(x, xs[0]);
        var tail := xs[1..];
        InsertSorted(x, tail);
        var ins := Insert(x, tail);
        forall y | y in ins ensures LexLe(xs[0], y) {
          if y in tail {
            var j :| 0 <= j < |tail| && tail[j] == y;
            assert xs[j + 1] == y;
          }
        }
        var r := [xs[0]] + ins;
        forall i, j | 0 <= i < j < |r| ensures LexLe(r[i], r[j]) {
          if i == 0 {
            assert r[j] == ins[j - 1];
            assert ins[j - 1] in ins;
          } else {
            assert r[i] == ins[i - 1] && r[j] == ins[j - 1];
          }
        }
      }
    }
  }

  lemma ConsDistinct(a: string, s: seq<string>)
    requires Distinct(s) && a !in s
    ensures Distinct([a] + s)
  {
    var r := [a] + s;
    forall i, j | 0 <= i < j < |r| ensures r[i] != r[j] {
      if i == 0 {
        assert r[j] == s[j - 1];
        assert s[j - 1] in s;
      } else {
        assert r[i] == s[i - 1] && r[j] == s[j - 1];
      }
    }
  }

  lemma {:induction false} InsertDistinct(x: string, xs: seq<string>)
    requires Distinct(xs) && x !in xs
    ensures Distinct(Insert(x, xs))
    decreases |xs|
  {
    if |xs| > 0 && !LexLe(x, xs[0]) {
      var tail := xs[1..];
      assert forall y :: y in tail ==> y in xs;
      assert Distinct(tail) by {
        forall i, j | 0 <= i < j < |tail| ensures tail[i] != tail[j] {
          assert tail[i] == xs[i + 1] && tail[j] == xs[j + 1];
        }
      }
      InsertDistinct(x, tail);
      assert xs[0] !in tail;
      ConsDistinct(xs[0], Insert(x, tail));
    } else if |xs| > 0 {
      ConsDistinct(x, xs);
    }
  }

  /** The sorted list is in order and holds the same strings; sorting a list
      without duplicates gives a list without duplicates. */
  lemma {:induction false} SortStringsCorrect(xs: seq<string>)
    ensures SortedLex(SortStrings(xs))
    ensures Distinct(xs) ==> Distinct(SortStrings(xs))
    decreases |xs|
  {
    if |xs| > 0 {
      var tail := xs[1..];
      SortStringsCorrect(tail);
      InsertSorted(xs[0], SortStrings(tail));
      if Distinct(xs) {
        assert Distinct(tail) by {
          forall i, j | 0 <= i < j < |tail| ensures tail[i] != tail[j] {
            assert tail[i] == xs[i + 1] && tail[j] == xs[j + 1];
          }
        }
        assert xs[0] !in tail;
        InsertDistinct(xs[0], SortStrings(tail));
      }
    }
  }

  // ------------------------------------------------------------------ GET

  /** What `GET` answers: the 500 for a missing file, the error `parseCSV`
      throws on a text without records, or the three lists. */
  datatype MetaResponse =
    | CsvNotFound
    | ParseFailed
    | Facets(cities: seq<string>, categories: seq<string>, languages: seq<string>)

  /** `GET`; `file` is the file's text, `None` if it does not exist. */
  function MetaSpec(file: Option<string>): MetaResponse
  {
    match file
    case None => CsvNotFound
    case Some(text) =>
      match ParseCsvSpec(text)
      case None => ParseFailed
      case Some(objs) =>
        Facets(SortStrings(CitySet(objs)), SortStrings(TokenSet(objs, "categories")),
               SortStrings(TokenSet(objs, "languages")))
  }

  method MetaGet(file: Option<string>) returns (res: MetaResponse)
    ensures res == MetaSpec(file)
  {
    if file.None? {
      return CsvNotFound;
    }
    var parsed := ParseCsv(file.value);
    if parsed.None? {
      return ParseFailed;
    }
    var cities, cats, langs := CollectFacets(parsed.value);
    return Facets(SortStrings(cities), SortStrings(cats), SortStrings(langs));
  }

  /** The three lists are sorted and free of duplicates; `cities` is exactly
      the non-empty city values, `categories` and `languages` exactly the
      comma tokens of their columns, each trimmed, non-empty and without a
      comma. */
  lemma FacetsCorrect(text: string)
    requires ParseCsvSpec(text).Some?
    ensures var objs := ParseCsvSpec(text).value;
      var r := MetaSpec(Some(text));
      && r.Facets?
      && SortedLex(r.cities) && Distinct(r.cities)
      && SortedLex(r.categories) && Distinct(r.categories)
      && SortedLex(r.languages) && Distinct(r.languages)
      && (forall c :: c in r.cities <==> c != "" && exists o :: o in objs && Get(o, "city") == c)
      && (forall t :: t in r.categories <==> exists o :: o in objs && t in Tokens(Js, Get(o, "categories")))
      && (forall t :: t in r.languages <==> exists o :: o in objs && t in Tokens(Js, Get(o, "languages")))
      && (forall t :: t in r.categories + r.languages ==> t != "" && Trimmed(Js, t) && ',' !in t)
  {
    var objs := ParseCsvSpec(text).value;
    SortStringsCorrect(CitySet(objs));
    SortStringsCorrect(TokenSet(objs, "categories"));
    SortStringsCorrect(TokenSet(objs, "languages"));
    var r := MetaSpec(Some(text));
    forall t | t in r.categories + r.languages ensures t != "" && Trimmed(Js, t) && ',' !in t {
      var key := if t in r.categories then "categories" else "languages";
      var o :| o in objs && t in Tokens(Js, Get(o, key));
      TokensWellFormed(Js, Get(o, key));
    }
  }
}
