/** JSON output of backend/Backend.java: string escaping (`escapeJson`),
    `safe`, the array and row builders (`listToJsonArray`, `rowToJson`), the
    result document (`printJson`) and the error document (`dieJson`). The
    builders append text by hand; here each is proved equal to the
    serialisation of a JSON value, and escaping is proved to be undone by a
    decoder that follows the string grammar of section 7 of RFC 8259. */
module BackendJson {
  import opened Wrappers
  import opened Text
  import BackendCsv
  import BackendRows
  import BackendFilter

  /** `safe`: a missing string reads as "". */
  function Safe(s: Option<string>): (r: string)
    ensures s.Some? ==> r == s.value
    ensures s.None? ==> r == ""
  {
    s.GetOr("")
  }

  // ------------------------------------------------------------- hex digits

  /** The lower-case hex digit `%x` prints for `n`. */
  function HexDigit(n: nat): (c: char)
    requires n < 16
    ensures '0' <= c <= '9' || 'a' <= c <= 'f'
  {
    if n < 10 then (48 + n) as char else (87 + n) as char
  }

  /** The value of a hex digit of either case. */
  function HexValue(c: char): (r: Option<nat>)
    ensures r.Some? ==> r.value < 16
  {
    if '0' <= c <= '9' then Some(c as int - 48)
    else if 'a' <= c <= 'f' then Some(c as int - 87)
    else if 'A' <= c <= 'F' then Some(c as int - 55)
    else None
  }

  lemma HexRoundTrip(n: nat)
    requires n < 16
    ensures HexValue(HexDigit(n)) == Some(n)
  {
  }

  /** The value of four hex digits. */
  function Hex4(d: string): Option<nat>
    requires |d| == 4
  {
    match (HexValue(d[0]), HexValue(d[1]), HexValue(d[2]), HexValue(d[3]))
    case (Some(a), Some(b), Some(c), Some(e)) => Some(4096 * a + 256 * b + 16 * c + e)
    case _ => None
  }

  // ------------------------------------------------------------- escapeJson

  /** The text `escapeJson` writes for one character: the two-character
      escapes for backslash, quote, newline, return and tab, `\u00xx` for the
      other characters below U+0020, the character itself otherwise. */
  function EscapeChar(c: char): string
  {
    if c == '\\' then "\\\\"
    else if c == '"' then "\\\""
    else if c == '\n' then "\\n"
    else if c == '\r' then "\\r"
    else if c == '\t' then "\\t"
    else if c < ' ' then "\\u00" + [HexDigit(c as int / 16), HexDigit(c as int % 16)]
    else [c]
  }

  /** The escaped text of a whole string. */
  function Escape(s: string): string
  {
    if |s| == 0 then "" else EscapeChar(s[0]) + Escape(s[1..])
  }

  lemma {:induction false} EscapeAppend(a: string, b: string)
    ensures Escape(a + b) == Escape(a) + Escape(b)
    decreases |a|
  {
    if |a| == 0 {
      assert a + b == b;
    } else {
      assert (a + b)[1..] == a[1..] + b;
      EscapeAppend(a[1..], b);
    }
  }

  method EscapeJson(s: string) returns (out: string)
    ensures out == Escape(s)
  {
    out := "";
    for i := 0 to |s|
      invariant out == Escape(s[..i])
    {
      var ch := s[i];
      var piece;
      if ch == '\\' {
        piece := "\\\\";
      } else if ch == '"' {
        piece := "\\\"";
      } else if ch == '\n' {
        piece := "\\n";
      } else if ch == '\r' {
        piece := "\\r";
      } else if ch == '\t' {
        piece := "\\t";
      } else if ch < ' ' {
        piece := "\\u00" + [HexDigit(ch as int / 16), HexDigit(ch as int % 16)];
      } else {
        piece := [ch];
      }
      assert piece == EscapeChar(ch);
      assert Escape([ch]) == EscapeChar(ch) + Escape([]);
      EscapeAppend(s[..i], [ch]);
      assert s[..i + 1] == s[..i] + [ch];
      out := out + piece;
    }
    assert s[..|s|] == s;
  }

  // ----------------------------------------------- decoding a string body

  /** The character a two-character escape stands for. */
  function SimpleEscape(c: char): Option<char>
  {
    if c == '"' then Some('"')
    else if c == '\\' then Some('\\')
    else if c == '/' then Some('/')
    else if c == 'b' then Some('\U{0008}')
    else if c == 'f' then Some('\U{000C}')
    else if c == 'n' then Some('\n')
    else if c == 'r' then Some('\r')
    else if c == 't' then Some('\t')
    else None
  }

  function Cons(c: char, rest: Option<string>): Option<string>
  {
    match rest
    case Some(r) => Some([c] + r)
    case None => None
  }

  /** Decodes the text between the quotes of a JSON string, following the
      grammar of section 7 of RFC 8259: an unescaped `"`, `\` or character
      below U+0020 is refused, and so is a `\u` escape that names a surrogate
      (a surrogate pair is not decoded). */
  function Unescape(t: string): Option<string>
    decreases |t|
  {
    if |t| == 0 then Some("")
    else if t[0] == '\\' then
      if |t| < 2 then None
      else if SimpleEscape(t[1]).Some? then Cons(SimpleEscape(t[1]).value, Unescape(t[2..]))
      else if t[1] == 'u' && |t| >= 6 then
        match Hex4(t[2..6])
        case Some(v) =>
          if v < 0xD800 || 0xE000 <= v then Cons(v as char, Unescape(t[6..])) else None
        case None => None
      else None
    else if t[0] == '"' || t[0] < ' ' then None
    else Cons(t[0], Unescape(t[1..]))
  }

  lemma UnescapeEscapeChar(c: char, rest: string)
    ensures Unescape(EscapeChar(c) + rest) == Cons(c, Unescape(rest))
  {
    var t := EscapeChar(c) + rest;
    if c == '\\' || c == '"' || c == '\n' || c == '\r' || c == '\t' {
      assert t[2..] == rest;
    } else if c < ' ' {
      var n := c as int;
      assert t == ['\\', 'u', '0', '0', HexDigit(n / 16), HexDigit(n % 16)] + rest;
      assert t[2..6] == ['0', '0', HexDigit(n / 16), HexDigit(n % 16)];
      HexRoundTrip(n / 16);
      HexRoundTrip(n % 16);
      assert Hex4(t[2..6]) == Some(n);
      assert t[6..] == rest;
      assert (n as char) == c;
    } else {
      assert t[1..] == rest;
    }
  }

  /** Escaping is undone by decoding: `escapeJson` loses nothing, and its
      output is a valid JSON string body (no bare `"`, `\` or control
      character). */
  lemma {:induction false} EscapeRoundTrip(s: string)
    ensures Unescape(Escape(s)) == Some(s)
    decreases |s|
  {
    if |s| > 0 {
      EscapeRoundTrip(s[1..]);
      UnescapeEscapeChar(s[0], Escape(s[1..]));
      assert [s[0]] + s[1..] == s;
    }
  }

  /** The escaped text holds no character below U+0020. */
  lemma {:induction false} EscapeNoControl(s: string)
    ensures forall c :: c in Escape(s) ==> c >= ' '
    decreases |s|
  {
    if |s| > 0 {
      EscapeNoControl(s[1..]);
      var e := EscapeChar(s[0]);
      assert forall c :: c in e ==> c >= ' ';
      assert forall c :: c in e + Escape(s[1..]) ==> c in e || c in Escape(s[1..]);
    }
  }

  /** A character that needs no escape. */
  predicate Plain(c: char)
  {
    c >= ' ' && c != '"' && c != '\\'
  }

  /** A string none of whose characters needs an escape. */
  predicate AllPlain(s: string)
  {
    forall k :: 0 <= k < |s| ==> Plain(s[k])
  }

  /** A string of plain characters is copied unchanged and in order. */
  lemma {:induction false} EscapePlain(s: string)
    requires AllPlain(s)
    ensures Escape(s) == s
    decreases |s|
  {
    if |s| > 0 {
      EscapePlain(s[1..]);
      assert [s[0]] + s[1..] == s;
    }
  }

  /** Plain characters are copied in place: each one sits in the output
      after the escapes of the characters before it. */
  lemma PlainCopied(s: string, k: nat)
    requires k < |s| && Plain(s[k])
    ensures |Escape(s[..k])| < |Escape(s)| && Escape(s)[|Escape(s[..k])|] == s[k]
  {
    assert s == s[..k] + ([s[k]] + s[k + 1..]);
    EscapeAppend(s[..k], [s[k]] + s[k + 1..]);
  }

  // ------------------------------------------------------------- JSON values

  datatype Json =
    | Str(s: string)
    | Num(text: string)
    | Null
    | Arr(items: seq<Json>)
    | Obj(members: seq<Member>)

  datatype Member = Member(key: string, value: Json)

  /** A JSON string literal. */
  function Quote(s: string): string
  {
    "\"" + Escape(s) + "\""
  }

  /** The serialisation the hand-written builders produce: no white space,
      `,` between items and members, `:` after each name. A number is written
      as the text already given for it. */
  function Serialize(j: Json): string
    decreases j
  {
    match j
    case Str(s) => Quote(s)
    case Num(t) => t
    case Null => "null"
    case Arr(items) => "[" + Join(seq(|items|, i requires 0 <= i < |items| => Serialize(items[i])), ",") + "]"
    case Obj(ms) =>
      "{" + Join(seq(|ms|, i requires 0 <= i < |ms| => "\"" + Escape(ms[i].key) + "\":" + Serialize(ms[i].value)), ",") + "}"
  }

  /** A serialised string literal decodes back to the string. */
  lemma StringLiteralRoundTrip(s: string)
    ensures var t := Serialize(Str(s));
      |t| >= 2 && t[0] == '"' && t[|t| - 1] == '"' && Unescape(t[1..|t| - 1]) == Some(s)
  {
    var t := Serialize(Str(s));
    assert t[1..|t| - 1] == Escape(s);
    EscapeRoundTrip(s);
  }

  function Strings(items: seq<string>): (r: seq<Json>)
    ensures |r| == |items| && forall i :: 0 <= i < |items| ==> r[i] == Str(items[i])
  {
    seq(|items|, i requires 0 <= i < |items| => Str(items[i]))
  }

  function Quoted(items: seq<string>): seq<string>
  {
    seq(|items|, i requires 0 <= i < |items| => Quote(items[i]))
  }

  /** The serialised array of strings is the quoted strings joined by ",". */
  lemma SerializeStrings(items: seq<string>)
    ensures Serialize(Arr(Strings(items))) == "[" + Join(Quoted(items), ",") + "]"
  {
    var js := Strings(items);
    assert seq(|js|, i requires 0 <= i < |js| => Serialize(js[i])) == Quoted(items);
  }

  // -------------------------------------------------------- listToJsonArray

  lemma QuotedSnoc(items: seq<string>, i: nat)
    requires i < |items|
    ensures Join(Quoted(items[..i + 1]), ",")
      == if i == 0 then Quote(items[i]) else Join(Quoted(items[..i]), ",") + "," + Quote(items[i])
  {
    assert Quoted(items[..i + 1]) == Quoted(items[..i]) + [Quote(items[i])];
    JoinSnoc(Quoted(items[..i]), ",", Quote(items[i]));
  }

  method ListToJsonArray(items: seq<string>) returns (out: string)
    ensures out == Serialize(Arr(Strings(items)))
  {
    var body := "";
    for i := 0 to |items|
      invariant body == Join(Quoted(items[..i]), ",")
    {
      var e := EscapeJson(items[i]);
      var q := "\"" + e + "\"";
      QuotedSnoc(items, i);
      if i > 0 {
        body := body + ",";
      }
      body := body + q;
    }
    assert items[..|items|] == items;
    SerializeStrings(items);
    out := "[" + body + "]";
  }

  // --------------------------------------------------------------- rowToJson

  /** The columns `rowToJson` writes, in this order. */
  const RowFields: seq<string> :=
    ["name", "categories", "languages", "address_line1", "city", "state", "postal_code",
     "phone", "website", "cost_notes", "eligibility", "lat", "lng"]

  /** The value written for column `f` holding the trimmed text `val`:
      coordinates as numbers or `null`, list columns as arrays of their comma
      tokens, everything else as a string. `number` stands for
      `Double.parseDouble` followed by `Double.toString`, `None` for a parse
      failure. */
  function FieldValue(f: string, val: string, number: string -> Option<string>): Json
  {
    if f == "lat" || f == "lng" then
      match number(val)
      case Some(t) => Num(t)
      case None => Null
    else if f == "categories" || f == "languages" then Arr(Strings(Tokens(Java, val)))
    else Str(val)
  }

  /** A column is written when the row has it and it is not blank. */
  predicate Written(row: BackendRows.Row, f: string)
  {
    f in row && !Blank(Java, row[f])
  }

  /** The members written for the first columns of `fields`. */
  function RowMembers(row: BackendRows.Row, fields: seq<string>, number: string -> Option<string>): seq<Member>
  {
    if |fields| == 0 then []
    else
      var f := fields[|fields| - 1];
      RowMembers(row, fields[..|fields| - 1], number)
        + (if Written(row, f) then [Member(f, FieldValue(f, Trim(Java, row[f]), number))] else [])
  }

  /** The object `rowToJson` writes for a row. */
  function RowObject(row: BackendRows.Row, number: string -> Option<string>): Json
  {
    Obj(RowMembers(row, RowFields, number))
  }

  function MemberText(m: Member): string
  {
    "\"" + Escape(m.key) + "\":" + Serialize(m.value)
  }

  function MemberTexts(ms: seq<Member>): seq<string>
  {
    seq(|ms|, i requires 0 <= i < |ms| => MemberText(ms[i]))
  }

  lemma SerializeObj(ms: seq<Member>)
    ensures Serialize(Obj(ms)) == "{" + Join(MemberTexts(ms), ",") + "}"
  {
    assert seq(|ms|, i requires 0 <= i < |ms| => "\"" + Escape(ms[i].key) + "\":" + Serialize(ms[i].value)) == MemberTexts(ms);
  }

  lemma RowMembersSnoc(row: BackendRows.Row, fields: seq<string>, i: nat, number: string -> Option<string>)
    requires i < |fields|
    ensures RowMembers(row, fields[..i + 1], number)
      == RowMembers(row, fields[..i], number)
         + (if Written(row, fields[i]) then [Member(fields[i], FieldValue(fields[i], Trim(Java, row[fields[i]]), number))] else [])
  {
    assert fields[..i + 1][..i] == fields[..i];
  }

  lemma MemberTextsSnoc(ms: seq<Member>, m: Member)
    ensures Join(MemberTexts(ms + [m]), ",")
      == if |ms| == 0 then MemberText(m) else Join(MemberTexts(ms), ",") + "," + MemberText(m)
  {
    assert MemberTexts(ms + [m]) == MemberTexts(ms) + [MemberText(m)];
    JoinSnoc(MemberTexts(ms), ",", MemberText(m));
  }

  /** The value text `rowToJson` appends after a column name. */
  method FieldText(f: string, val: string, number: string -> Option<string>) returns (text: string)
    ensures text == Serialize(FieldValue(f, val, number))
  {
    if f == "lat" || f == "lng" {
      var num := number(val);
      if num.None? {
        text := "null";
      } else {
        text := num.value;
      }
    } else if f == "categories" || f == "languages" {
      var tokens := BackendCsv.SplitCommaTokens(val);
      text := ListToJsonArray(tokens);
    } else {
      var e := EscapeJson(val);
      text := "\"" + e + "\"";
    }
  }

  /** One `"name":value` member of `rowToJson`. */
  method WriteMember(f: string, val: string, number: string -> Option<string>) returns (mt: string)
    ensures mt == MemberText(Member(f, FieldValue(f, val, number)))
  {
    var key := EscapeJson(f);
    var text := FieldText(f, val, number);
    mt := "\"" + key + "\":" + text;
  }

  /** The loop of `rowToJson` over a column list: the members of the written
      columns, comma-separated. */
  method WriteMembers(row: BackendRows.Row, fields: seq<string>, number: string -> Option<string>)
    returns (body: string)
    ensures body == Join(MemberTexts(RowMembers(row, fields, number)), ",")
  {
    body := "";
    var first := true;
    ghost var ms: seq<Member> := [];
    for i := 0 to |fields|
      invariant ms == RowMembers(row, fields[..i], number)
      invariant body == Join(MemberTexts(ms), ",")
      invariant first <==> |ms| == 0
    {
      var f := fields[i];
      RowMembersSnoc(row, fields, i, number);
      if f !in row {
        continue;
      }
      var val := Trim(Java, row[f]);
      if val == "" {
        continue;
      }
      ghost var m := Member(f, FieldValue(f, val, number));
      MemberTextsSnoc(ms, m);
      if !first {
        body := body + ",";
      }
      first := false;
      var mt := WriteMember(f, val, number);
      body := body + mt;
      ms := ms + [m];
    }
    assert fields[..|fields|] == fields;
  }

  method RowToJson(row: BackendRows.Row, number: string -> Option<string>) returns (out: string)
    ensures out == Serialize(RowObject(row, number))
  {
    var body := WriteMembers(row, RowFields, number);
    SerializeObj(RowMembers(row, RowFields, number));
    out := "{" + body + "}";
  }

  function Keys(ms: seq<Member>): seq<string>
  {
    seq(|ms|, i requires 0 <= i < |ms| => ms[i].key)
  }

  /** The members of a row object: one per written column, in column order,
      each holding that column's value. */
  lemma {:induction false} RowMembersShape(row: BackendRows.Row, fields: seq<string>, number: string -> Option<string>)
    ensures forall f :: f in Keys(RowMembers(row, fields, number)) <==> f in fields && Written(row, f)
    ensures forall m :: m in RowMembers(row, fields, number) ==>
      m.key in row && m.value == FieldValue(m.key, Trim(Java, row[m.key]), number)
    decreases |fields|
  {
    if |fields| > 0 {
      var front := fields[..|fields| - 1];
      var f := fields[|fields| - 1];
      RowMembersShape(row, front, number);
      var ms := RowMembers(row, front, number);
      var extra := if Written(row, f) then [Member(f, FieldValue(f, Trim(Java, row[f]), number))] else [];
      assert RowMembers(row, fields, number) == ms + extra;
      assert Keys(ms + extra) == Keys(ms) + Keys(extra);
      assert Keys(extra) == if Written(row, f) then [f] else [];
      assert forall g :: g in Keys(ms) + Keys(extra) <==> g in Keys(ms) || g in Keys(extra);
      assert fields == front + [f];
      assert forall g :: g in fields <==> g in front || g == f;
      assert forall m :: m in ms + extra <==> m in ms || m in extra;
    }
  }

  /** Distinct columns give distinct member names. */
  lemma {:induction false} RowMembersDistinct(row: BackendRows.Row, fields: seq<string>, number: string -> Option<string>)
    requires Distinct(fields)
    ensures Distinct(Keys(RowMembers(row, fields, number)))
    decreases |fields|
  {
    if |fields| > 0 {
      var front := fields[..|fields| - 1];
      var f := fields[|fields| - 1];
      RowMembersDistinct(row, front, number);
      RowMembersShape(row, front, number);
      var ms := RowMembers(row, front, number);
      var extra := if Written(row, f) then [Member(f, FieldValue(f, Trim(Java, row[f]), number))] else [];
      assert RowMembers(row, fields, number) == ms + extra;
      assert Keys(ms + extra) == Keys(ms) + Keys(extra);
      assert Keys(extra) == if Written(row, f) then [f] else [];
      assert f !in front by {
        assert forall k :: 0 <= k < |front| ==> front[k] == fields[k];
      }
      var kms := Keys(ms);
      assert f !in kms;
      var ks := Keys(ms + extra);
      forall i, j | 0 <= i < j < |ks| ensures ks[i] != ks[j] {
        assert ks[i] == kms[i];
        if j >= |kms| {
          assert ks[j] == f;
          assert kms[i] in kms;
        } else {
          assert ks[j] == kms[j];
        }
      }
    }
  }

  /** A row object names each written column once, in column order, and no
      other; list columns hold trimmed, non-empty tokens. */
  lemma RowObjectShape(row: BackendRows.Row, number: string -> Option<string>)
    ensures var ms := RowObject(row, number).members;
      (forall f :: f in Keys(ms) <==> f in RowFields && Written(row, f))
      && Distinct(Keys(ms))
      && (forall m :: m in ms && (m.key == "categories" || m.key == "languages") ==>
            m.value.Arr? && forall v :: v in m.value.items ==> v.Str? && v.s != "" && Trimmed(Java, v.s))
  {
    var ms := RowObject(row, number).members;
    RowMembersShape(row, RowFields, number);
    assert Distinct(RowFields);
    RowMembersDistinct(row, RowFields, number);
    forall m | m in ms && (m.key == "categories" || m.key == "languages")
      ensures m.value.Arr? && forall v :: v in m.value.items ==> v.Str? && v.s != "" && Trimmed(Java, v.s)
    {
      var ts := Tokens(Java, Trim(Java, row[m.key]));
      TokensWellFormed(Java, Trim(Java, row[m.key]));
      assert m.value == Arr(Strings(ts));
      forall v | v in m.value.items ensures v.Str? && v.s != "" && Trimmed(Java, v.s) {
        var k :| 0 <= k < |ts| && Strings(ts)[k] == v;
        assert ts[k] in ts;
      }
    }
  }

  // ---------------------------------------------------------------- numbers

  /** Decimal digits of a count, as `StringBuilder.append(int)` writes them. */
  function Decimal(n: nat): (r: string)
    ensures |r| >= 1 && forall c :: c in r ==> '0' <= c <= '9'
  {
    if n < 10 then [(48 + n) as char] else Decimal(n / 10) + [(48 + n % 10) as char]
  }

  /** The value of a string of decimal digits. */
  function DigitsValue(s: string): nat
  {
    if |s| == 0 then 0
    else
      var d := s[|s| - 1] as int - 48;
      10 * DigitsValue(s[..|s| - 1]) + (if 0 <= d then d else 0)
  }

  lemma {:induction false} DecimalRoundTrip(n: nat)
    ensures DigitsValue(Decimal(n)) == n
  {
    if n >= 10 {
      DecimalRoundTrip(n / 10);
      var s := Decimal(n);
      assert s[..|s| - 1] == Decimal(n / 10);
    }
  }

  // --------------------------------------------------------------- printJson

  /** The echoed filters: normalised key, raw (decoded) value. */
  function FilterMembers(filters: seq<BackendFilter.Filter>): seq<Member>
  {
    seq(|filters|, i requires 0 <= i < |filters| =>
      Member(BackendFilter.NormalizeKey(filters[i].key), Str(filters[i].value)))
  }

  function RowObjects(rows: seq<BackendRows.Row>, number: string -> Option<string>): seq<Json>
  {
    seq(|rows|, i requires 0 <= i < |rows| => RowObject(rows[i], number))
  }

  function ItemTexts(items: seq<Json>): seq<string>
  {
    seq(|items|, i requires 0 <= i < |items| => Serialize(items[i]))
  }

  lemma SerializeArr(items: seq<Json>)
    ensures Serialize(Arr(items)) == "[" + Join(ItemTexts(items), ",") + "]"
  {
    assert seq(|items|, i requires 0 <= i < |items| => Serialize(items[i])) == ItemTexts(items);
  }

  /** The document `printJson` writes for the matched rows. */
  function Document(matched: seq<BackendRows.Row>, filters: seq<BackendFilter.Filter>,
                    number: string -> Option<string>): Json
  {
    Obj([Member("meta", Obj([Member("count", Num(Decimal(|matched|))),
                             Member("filters", Obj(FilterMembers(filters)))])),
         Member("results", Arr(RowObjects(matched, number)))])
  }

  lemma SerializeTwo(m1: Member, m2: Member)
    ensures Serialize(Obj([m1, m2])) == "{" + MemberText(m1) + "," + MemberText(m2) + "}"
  {
    var ms := [m1, m2];
    assert MemberTexts(ms) == [MemberText(m1), MemberText(m2)];
    SerializeObj(ms);
  }

  /** A member with a plain name is written with that name as it is. */
  lemma PlainMemberText(k: string, v: Json)
    requires AllPlain(k)
    ensures MemberText(Member(k, v)) == "\"" + k + "\":" + Serialize(v)
  {
    EscapePlain(k);
  }

  /** The text of the result document, piece by piece. */
  // The three lemmas below regroup the literal pieces of the document text.

  lemma CountFiltersText(d: string, fj: string)
    ensures "{" + ("\"" + "count" + "\":" + d) + "," + ("\"" + "filters" + "\":" + ("{" + fj + "}")) + "}"
         == "{\"count\":" + d + ",\"filters\":{" + fj + "}}"
  {
    assert "{" + ("\"" + "count" + "\":" + d) == "{\"count\":" + d;
    assert "," + ("\"" + "filters" + "\":" + ("{" + fj + "}")) + "}" == ",\"filters\":{" + fj + "}}";
  }

  lemma MetaResultsText(m: string, rj: string)
    ensures "{" + ("\"" + "meta" + "\":" + m) + "," + ("\"" + "results" + "\":" + ("[" + rj + "]")) + "}"
         == "{\"meta\":" + m + ",\"results\":[" + rj + "]}"
  {
    assert "{" + ("\"" + "meta" + "\":" + m) == "{\"meta\":" + m;
    assert "," + ("\"" + "results" + "\":" + ("[" + rj + "]")) + "}" == ",\"results\":[" + rj + "]}";
  }

  lemma FlatText(d: string, fj: string, rj: string)
    ensures "{\"meta\":" + ("{\"count\":" + d + ",\"filters\":{" + fj + "}}") + ",\"results\":[" + rj + "]}"
         == "{\"meta\":{" + "\"count\":" + d + "," + "\"filters\":{" + fj + "}}," + "\"results\":[" + rj + "]}"
  {
  }

  /** The member names of the result document need no escape. */
  lemma DocumentKeysPlain()
    ensures AllPlain("meta") && AllPlain("count") && AllPlain("filters") && AllPlain("results")
  {
  }

  /** The `meta` object: the count, then the echoed filters. */
  lemma SerializeMeta(d: string, fms: seq<Member>)
    ensures Serialize(Obj([Member("count", Num(d)), Member("filters", Obj(fms))]))
         == "{\"count\":" + d + ",\"filters\":{" + Join(MemberTexts(fms), ",") + "}}"
  {
    DocumentKeysPlain();
    var filt := Obj(fms);
    PlainMemberText("count", Num(d));
    PlainMemberText("filters", filt);
    SerializeTwo(Member("count", Num(d)), Member("filters", filt));
    SerializeObj(fms);
    CountFiltersText(d, Join(MemberTexts(fms), ","));
  }

  /** The outer object: `meta`, then the `results` array. */
  lemma SerializeOuter(meta: Json, items: seq<Json>)
    ensures Serialize(Obj([Member("meta", meta), Member("results", Arr(items))]))
         == "{\"meta\":" + Serialize(meta) + ",\"results\":[" + Join(ItemTexts(items), ",") + "]}"
  {
    DocumentKeysPlain();
    var res := Arr(items);
    PlainMemberText("meta", meta);
    PlainMemberText("results", res);
    SerializeArr(items);
    SerializeTwo(Member("meta", meta), Member("results", res));
    MetaResultsText(Serialize(meta), Join(ItemTexts(items), ","));
  }

  /** The document text, in the order `printJson` appends its pieces. */
  lemma SerializeDocument(matched: seq<BackendRows.Row>, filters: seq<BackendFilter.Filter>,
                          number: string -> Option<string>)
    ensures Serialize(Document(matched, filters, number))
      == "{\"meta\":{" + "\"count\":" + Decimal(|matched|) + "," + "\"filters\":{"
         + Join(MemberTexts(FilterMembers(filters)), ",") + "}}," + "\"results\":["
         + Join(ItemTexts(RowObjects(matched, number)), ",") + "]}"
  {
    var d := Decimal(|matched|);
    var fms := FilterMembers(filters);
    var items := RowObjects(matched, number);
    var meta := Obj([Member("count", Num(d)), Member("filters", Obj(fms))]);
    SerializeMeta(d, fms);
    SerializeOuter(meta, items);
    FlatText(d, Join(MemberTexts(fms), ","), Join(ItemTexts(items), ","));
  }

  lemma FilterStep(fms: seq<Member>, i: nat)
    requires i < |fms|
    ensures Join(MemberTexts(fms[..i + 1]), ",")
      == if i == 0 then MemberText(fms[i]) else Join(MemberTexts(fms[..i]), ",") + "," + MemberText(fms[i])
  {
    assert fms[..i + 1] == fms[..i] + [fms[i]];
    MemberTextsSnoc(fms[..i], fms[i]);
  }

  lemma StringMemberText(k: string, v: string, ek: string, ev: string)
    requires ek == Escape(k) && ev == Escape(v)
    ensures "\"" + ek + "\":" + ("\"" + ev + "\"") == MemberText(Member(k, Str(v)))
  {
  }

  /** The filter echo loop of `printJson`. */
  method WriteFilters(filters: seq<BackendFilter.Filter>) returns (fs: string)
    ensures fs == Join(MemberTexts(FilterMembers(filters)), ",")
  {
    fs := "";
    ghost var fms := FilterMembers(filters);
    for i := 0 to |filters|
      invariant fs == Join(MemberTexts(fms[..i]), ",")
    {
      var f := filters[i];
      var k := BackendFilter.NormalizeKey(f.key);
      var v := f.value;
      FilterStep(fms, i);
      if i > 0 {
        fs := fs + ",";
      }
      var ek := EscapeJson(k);
      var ev := EscapeJson(v);
      var mt := "\"" + ek + "\":" + ("\"" + ev + "\"");
      StringMemberText(k, v, ek, ev);
      fs := fs + mt;
    }
    assert fms[..|filters|] == fms;
  }

  /** The result loop of `printJson`. */
  method WriteRows(matched: seq<BackendRows.Row>, number: string -> Option<string>) returns (rs: string)
    ensures rs == Join(ItemTexts(RowObjects(matched, number)), ",")
  {
    rs := "";
    ghost var texts := ItemTexts(RowObjects(matched, number));
    for i := 0 to |matched|
      invariant rs == Join(texts[..i], ",")
    {
      assert texts[..i + 1] == texts[..i] + [texts[i]];
      JoinSnoc(texts[..i], ",", texts[i]);
      if i > 0 {
        rs := rs + ",";
      }
      var r := RowToJson(matched[i], number);
      rs := rs + r;
    }
    assert texts[..|matched|] == texts;
  }

  method PrintJson(matched: seq<BackendRows.Row>, filters: seq<BackendFilter.Filter>,
                   number: string -> Option<string>) returns (json: string)
    ensures json == Serialize(Document(matched, filters, number))
  {
    json := "{\"meta\":{";
    json := json + "\"count\":" + Decimal(|matched|) + ",";
    json := json + "\"filters\":{";
    var fs := WriteFilters(filters);
    json := json + fs + "}},";
    json := json + "\"results\":[";
    var rs := WriteRows(matched, number);
    json := json + rs + "]}";
    SerializeDocument(matched, filters, number);
  }

  // ----------------------------------------------------------------- dieJson

  /** The text `dieJson(message)` prints before exiting. */
  function ErrorText(message: Option<string>): string
  {
    "{\"error\":\"" + Escape(Safe(message)) + "\"}"
  }

  lemma ErrorKeyPlain()
    ensures AllPlain("error")
  {
  }

  lemma ErrorPieces(e: string)
    ensures "{" + ("\"" + "error" + "\":" + ("\"" + e + "\"")) + "}" == "{\"error\":\"" + e + "\"}"
  {
    assert "{" + "\"" + "error" + "\":" + "\"" == "{\"error\":\"";
  }

  /** The error text is the one-member object `{"error": message}`. */
  lemma ErrorTextIsJson(message: Option<string>)
    ensures ErrorText(message) == Serialize(Obj([Member("error", Str(Safe(message)))]))
  {
    var m := Member("error", Str(Safe(message)));
    ErrorKeyPlain();
    PlainMemberText("error", m.value);
    assert MemberTexts([m]) == [MemberText(m)];
    SerializeObj([m]);
    ErrorPieces(Escape(Safe(message)));
  }
}
