/** The single-line CSV splitter and the comma-token splitter of
    backend/Backend.java (`parseCsvLine`, `splitCommaTokens`). */
module BackendCsv {
  import opened Text

  // ------------------------------------------------------------ parseCsvLine

  /** Commas met outside quotes while scanning `s` in quote state `inQuotes`. */
  function OutsideCommas(s: string, inQuotes: bool): nat
    decreases |s|
  {
    if |s| == 0 then 0
    else if s[0] == '"' then
      if inQuotes && |s| > 1 && s[1] == '"' then OutsideCommas(s[2..], inQuotes)
      else OutsideCommas(s[1..], !inQuotes)
    else if s[0] == ',' && !inQuotes then 1 + OutsideCommas(s[1..], inQuotes)
    else OutsideCommas(s[1..], inQuotes)
  }

  /** The splitter's state machine run over the unread suffix `s`: `cur` is the
      field being built, `acc` the fields already closed. A `"` toggles quoting
      wherever it stands; inside quotes `""` yields one `"`; a comma outside
      quotes closes the field; the end of the line closes the last one. */
  function Scan(s: string, inQuotes: bool, cur: string, acc: seq<string>): (r: seq<string>)
    ensures |r| == |acc| + 1 + OutsideCommas(s, inQuotes)
    ensures r[..|acc|] == acc
    decreases |s|
  {
    if |s| == 0 then acc + [cur]
    else if s[0] == '"' then
      if inQuotes && |s| > 1 && s[1] == '"' then Scan(s[2..], inQuotes, cur + ['"'], acc)
      else Scan(s[1..], !inQuotes, cur, acc)
    else if s[0] == ',' && !inQuotes then Scan(s[1..], inQuotes, "", acc + [cur])
    else Scan(s[1..], inQuotes, cur + [s[0]], acc)
  }

  /** The fields `parseCsvLine(line)` returns: never empty, and one more than
      the commas outside quotes. */
  function CsvFields(line: string): (r: seq<string>)
    ensures |r| >= 1
    ensures |r| == 1 + OutsideCommas(line, false)
  {
    Scan(line, false, "", [])
  }

  method ParseCsvLine(line: string) returns (out: seq<string>)
    ensures out == CsvFields(line)
    ensures |out| == 1 + OutsideCommas(line, false)
  {
    out := [];
    var sb := "";
    var inQuotes := false;
    var i := 0;
    while i < |line|
      invariant 0 <= i <= |line|
      invariant Scan(line[i..], inQuotes, sb, out) == CsvFields(line)
    {
      var ch := line[i];
      assert line[i..][0] == ch;
      if ch == '"' {
        if inQuotes && i + 1 < |line| && line[i + 1] == '"' {
          assert line[i..][2..] == line[i + 2..];
          sb := sb + ['"'];
          i := i + 1;
        } else {
          assert line[i..][1..] == line[i + 1..];
          inQuotes := !inQuotes;
        }
      } else if ch == ',' && !inQuotes {
        assert line[i..][1..] == line[i + 1..];
        out := out + [sb];
        sb := "";
      } else {
        assert line[i..][1..] == line[i + 1..];
        sb := sb + [ch];
      }
      i := i + 1;
    }
    out := out + [sb];
  }

  // --------------------------------------------- lines without any quote

  /** `cur` glued in front of the first part. */
  function Prepend(cur: string, parts: seq<string>): seq<string>
    requires |parts| >= 1
  {
    [cur + parts[0]] + parts[1..]
  }

  lemma {:induction false} ScanNoQuote(s: string, cur: string, acc: seq<string>)
    requires '"' !in s
    ensures Scan(s, false, cur, acc) == acc + Prepend(cur, Split(s, ','))
    decreases |s|
  {
    if |s| > 0 {
      assert '"' !in s[1..] by { assert forall c :: c in s[1..] ==> c in s; }
      assert s[0] != '"' by { assert s[0] in s; }
      if s[0] == ',' {
        ScanNoQuote(s[1..], "", acc + [cur]);
        ScanComma(s, cur, acc);
      } else {
        ScanNoQuote(s[1..], cur + [s[0]], acc);
        ScanPlain(s, cur, acc);
      }
    } else {
      assert cur + "" == cur;
    }
  }

  /** The comma step of `ScanNoQuote`. */
  lemma ScanComma(s: string, cur: string, acc: seq<string>)
    requires |s| > 0 && s[0] == ','
    requires Scan(s[1..], false, "", acc + [cur]) == acc + [cur] + Prepend("", Split(s[1..], ','))
    ensures Scan(s, false, cur, acc) == acc + Prepend(cur, Split(s, ','))
  {
    var rest := Split(s[1..], ',');
    assert Split(s, ',') == [""] + rest;
    assert Prepend("", rest) == rest by { assert "" + rest[0] == rest[0]; }
    assert cur + "" == cur;
  }

  /** The ordinary-character step of `ScanNoQuote`. */
  lemma ScanPlain(s: string, cur: string, acc: seq<string>)
    requires |s| > 0 && s[0] != ',' && s[0] != '"'
    requires Scan(s[1..], false, cur + [s[0]], acc) == acc + Prepend(cur + [s[0]], Split(s[1..], ','))
    ensures Scan(s, false, cur, acc) == acc + Prepend(cur, Split(s, ','))
  {
    var rest := Split(s[1..], ',');
    assert Split(s, ',') == [[s[0]] + rest[0]] + rest[1..];
    assert cur + [s[0]] + rest[0] == cur + ([s[0]] + rest[0]);
  }

  /** A line with no `"` splits exactly at its commas. */
  lemma NoQuoteFields(line: string)
    requires '"' !in line
    ensures CsvFields(line) == Split(line, ',')
  {
    ScanNoQuote(line, "", []);
    var parts := Split(line, ',');
    assert "" + parts[0] == parts[0];
    assert [parts[0]] + parts[1..] == parts;
  }

  /** For a line with no `"`, joining the fields with "," gives the line back. */
  lemma NoQuoteRoundTrip(line: string)
    requires '"' !in line
    ensures Join(CsvFields(line), ",") == line
  {
    NoQuoteFields(line);
    JoinSplit(line, ',');
  }

  // ------------------------------------------------ lines of quoted fields

  /** A field with each `"` doubled, as RFC 4180 section 2 rule 7 writes it. */
  function DoubleQuotes(f: string): string
  {
    if |f| == 0 then ""
    else (if f[0] == '"' then "\"\"" else [f[0]]) + DoubleQuotes(f[1..])
  }

  function QuoteField(f: string): string
  {
    "\"" + DoubleQuotes(f) + "\""
  }

  /** A line of fields, each quoted, separated by commas. */
  function EncodeLine(fields: seq<string>): string
  {
    if |fields| == 0 then ""
    else if |fields| == 1 then QuoteField(fields[0])
    else QuoteField(fields[0]) + "," + EncodeLine(fields[1..])
  }

  /** Inside quotes, a doubled-quote body followed by the closing quote adds
      `f` to the field and leaves quoting. */
  lemma {:induction false} ScanQuotedBody(f: string, rest: string, cur: string, acc: seq<string>)
    requires rest == [] || rest[0] != '"'
    ensures Scan(DoubleQuotes(f) + "\"" + rest, true, cur, acc) == Scan(rest, false, cur + f, acc)
    decreases |f|
  {
    var s := DoubleQuotes(f) + "\"" + rest;
    if |f| == 0 {
      assert s == "\"" + rest;
      assert s[1..] == rest;
      assert cur + f == cur;
    } else if f[0] == '"' {
      var s' := DoubleQuotes(f[1..]) + "\"" + rest;
      assert s == "\"\"" + s';
      assert s[2..] == s';
      ScanQuotedBody(f[1..], rest, cur + ['"'], acc);
      assert f == ['"'] + f[1..];
      assert cur + ['"'] + f[1..] == cur + f;
    } else {
      var s' := DoubleQuotes(f[1..]) + "\"" + rest;
      assert s == [f[0]] + s';
      assert s[1..] == s';
      ScanQuotedBody(f[1..], rest, cur + [f[0]], acc);
      assert f == [f[0]] + f[1..];
      assert cur + [f[0]] + f[1..] == cur + f;
    }
  }

  lemma ScanQuotedField(f: string, rest: string, acc: seq<string>)
    requires rest == [] || rest[0] != '"'
    ensures Scan(QuoteField(f) + rest, false, "", acc) == Scan(rest, false, f, acc)
  {
    var s := QuoteField(f) + rest;
    assert s == "\"" + (DoubleQuotes(f) + "\"" + rest);
    assert s[1..] == DoubleQuotes(f) + "\"" + rest;
    ScanQuotedBody(f, rest, "", acc);
    assert "" + f == f;
  }

  lemma {:induction false} ScanEncoded(fields: seq<string>, acc: seq<string>)
    requires |fields| >= 1
    ensures Scan(EncodeLine(fields), false, "", acc) == acc + fields
    decreases |fields|
  {
    var f := fields[0];
    if |fields| == 1 {
      assert EncodeLine(fields) == QuoteField(f) + "";
      ScanQuotedField(f, "", acc);
      assert fields == [f];
    } else {
      var tail := EncodeLine(fields[1..]);
      var rest := "," + tail;
      assert EncodeLine(fields) == QuoteField(f) + rest;
      ScanQuotedField(f, rest, acc);
      assert rest[1..] == tail;
      ScanEncoded(fields[1..], acc + [f]);
      assert acc + [f] + fields[1..] == acc + fields;
    }
  }

  /** Quoting every field, doubling its quotes, and splitting the line again
      gives the fields back, whatever commas and quotes they hold. */
  lemma QuotedRoundTrip(fields: seq<string>)
    requires |fields| >= 1
    ensures CsvFields(EncodeLine(fields)) == fields
  {
    ScanEncoded(fields, []);
  }

  // ------------------------------------------- where quotes can come from

  /** The quotes copied into fields while scanning `s` in quote state
      `inQuotes`: one for each `""` met inside quotes. Every other `"` only
      toggles the state. */
  function CopiedQuotes(s: string, inQuotes: bool): nat
    decreases |s|
  {
    if |s| == 0 then 0
    else if s[0] == '"' then
      if inQuotes && |s| > 1 && s[1] == '"' then 1 + CopiedQuotes(s[2..], inQuotes)
      else CopiedQuotes(s[1..], !inQuotes)
    else CopiedQuotes(s[1..], inQuotes)
  }

  /** The number of `"` characters in `s`. */
  function QuoteCount(s: string): nat
  {
    if |s| == 0 then 0 else QuoteCount(s[..|s| - 1]) + (if s[|s| - 1] == '"' then 1 else 0)
  }

  /** The number of `"` characters in all of `fs`. */
  function FieldQuotes(fs: seq<string>): nat
  {
    if |fs| == 0 then 0 else FieldQuotes(fs[..|fs| - 1]) + QuoteCount(fs[|fs| - 1])
  }

  lemma {:induction false} ScanQuotes(s: string, inQuotes: bool, cur: string, acc: seq<string>)
    ensures FieldQuotes(Scan(s, inQuotes, cur, acc)) == FieldQuotes(acc) + QuoteCount(cur) + CopiedQuotes(s, inQuotes)
    decreases |s|
  {
    if |s| == 0 {
      assert (acc + [cur])[..|acc|] == acc;
    } else if s[0] == '"' {
      if inQuotes && |s| > 1 && s[1] == '"' {
        ScanQuotes(s[2..], inQuotes, cur + ['"'], acc);
        assert (cur + ['"'])[..|cur|] == cur;
      } else {
        ScanQuotes(s[1..], !inQuotes, cur, acc);
      }
    } else if s[0] == ',' && !inQuotes {
      ScanQuotes(s[1..], inQuotes, "", acc + [cur]);
      assert (acc + [cur])[..|acc|] == acc;
    } else {
      ScanQuotes(s[1..], inQuotes, cur + [s[0]], acc);
      assert (cur + [s[0]])[..|cur|] == cur;
    }
  }

  /** The fields of a line hold exactly as many `"` as the line has `""`
      pairs inside quotes: no other quote is ever copied. */
  lemma QuotesCopied(line: string)
    ensures FieldQuotes(CsvFields(line)) == CopiedQuotes(line, false)
  {
    ScanQuotes(line, false, "", []);
  }

  lemma {:induction false} QuoteCountZero(s: string)
    requires QuoteCount(s) == 0
    ensures '"' !in s
  {
    if |s| > 0 {
      QuoteCountZero(s[..|s| - 1]);
      assert s == s[..|s| - 1] + [s[|s| - 1]];
    }
  }

  lemma {:induction false} FieldQuotesZero(fs: seq<string>)
    requires FieldQuotes(fs) == 0
    ensures forall f :: f in fs ==> '"' !in f
  {
    if |fs| > 0 {
      FieldQuotesZero(fs[..|fs| - 1]);
      QuoteCountZero(fs[|fs| - 1]);
      assert fs == fs[..|fs| - 1] + [fs[|fs| - 1]];
    }
  }

  /** A line without a `""` inside quotes yields fields without `"`, as in
      `a,"",b` and `a""b`, where every quote only toggles the state. */
  lemma QuotesOnlyFromDoubled(line: string)
    requires CopiedQuotes(line, false) == 0
    ensures forall f :: f in CsvFields(line) ==> '"' !in f
  {
    QuotesCopied(line);
    FieldQuotesZero(CsvFields(line));
  }

  /** An empty quoted field: both quotes only toggle the state. */
  lemma EmptyQuotedField()
    ensures CsvFields("a,\"\",b") == ["a", "", "b"]
  {
    var s := "a,\"\",b";
    assert s[0] == 'a' && s[1..] == ",\"\",b" && "" + ['a'] == "a" && "" + ['b'] == "b";
    assert Scan(s, false, "", []) == Scan(",\"\",b", false, "a", []);
    assert Scan(",\"\",b", false, "a", []) == Scan("\"\",b", false, "", ["a"]);
    assert Scan("\"\",b", false, "", ["a"]) == Scan("\",b", true, "", ["a"]);
    assert Scan("\",b", true, "", ["a"]) == Scan(",b", false, "", ["a"]);
    assert Scan(",b", false, "", ["a"]) == Scan("b", false, "", ["a", ""]);
    assert Scan("b", false, "", ["a", ""]) == Scan("", false, "b", ["a", ""]);
  }

  /** `""` in the middle of an unquoted field toggles quoting twice. */
  lemma MidFieldQuotes()
    ensures CsvFields("a\"\"b") == ["ab"]
  {
    var s := "a\"\"b";
    assert s[0] == 'a' && s[1..] == "\"\"b" && "" + ['a'] == "a" && "a" + ['b'] == "ab";
    assert Scan(s, false, "", []) == Scan("\"\"b", false, "a", []);
    assert Scan("\"\"b", false, "a", []) == Scan("\"b", true, "a", []);
    assert Scan("\"b", true, "a", []) == Scan("b", false, "a", []);
    assert Scan("b", false, "a", []) == Scan("", false, "ab", []);
  }

  // -------------------------------------------------------- splitCommaTokens

  /** `splitCommaTokens`: the trimmed, non-empty comma-separated tokens of `s`. */
  method SplitCommaTokens(s: string) returns (out: seq<string>)
    ensures out == Tokens(Java, s)
    ensures forall x :: x in out ==> x != "" && Trimmed(Java, x) && ',' !in x
  {
    var parts := Split(s, ',');
    out := [];
    for k := 0 to |parts|
      invariant out + TrimNonEmpty(Java, parts[k..]) == TrimNonEmpty(Java, parts)
    {
      var t := Trim(Java, parts[k]);
      ghost var rest := TrimNonEmpty(Java, parts[k + 1..]);
      TrimNonEmptyStep(Java, parts, k);
      if t != "" {
        assert out + [t] + rest == out + ([t] + rest);
        out := out + [t];
      } else {
        assert [] + rest == rest;
      }
    }
    assert parts[|parts|..] == [];
    TokensWellFormed(Java, s);
  }
}
