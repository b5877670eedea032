/** String helpers shared by the Java back end and the TypeScript routes:
    trimming, ASCII lower-casing, substring search, splitting on a separator,
    joining, comma-token lists and the UTF-16 code-unit order used by sorting. */
module Text {

  /** Whose `trim()` is meant: Java's `String.trim` strips every character
      up to U+0020, ECMAScript's `String.prototype.trim` strips its WhiteSpace
      and LineTerminator characters. */
  datatype Trimmer = Java | Js

  predicate IsJsSpace(c: char) {
    c == '\t' || c == '\n' || c == '\U{000B}' || c == '\U{000C}' || c == '\r' || c == ' '
    || c == '\U{00A0}' || c == '\U{1680}' || ('\U{2000}' <= c <= '\U{200A}')
    || c == '\U{2028}' || c == '\U{2029}' || c == '\U{202F}' || c == '\U{205F}'
    || c == '\U{3000}' || c == '\U{FEFF}'
  }

  predicate IsSpace(t: Trimmer, c: char) {
    match t
    case Java => c <= ' '
    case Js => IsJsSpace(c)
  }

  /** Neither end of `s` is a space character. */
  predicate Trimmed(t: Trimmer, s: string) {
    |s| == 0 || (!IsSpace(t, s[0]) && !IsSpace(t, s[|s| - 1]))
  }

  /** Index of the first non-space character at or after `i` (or `|s|`). */
  function SkipLeading(t: Trimmer, s: string, i: nat): (a: nat)
    requires i <= |s|
    ensures i <= a <= |s|
    ensures forall k :: i <= k < a ==> IsSpace(t, s[k])
    ensures a == |s| || !IsSpace(t, s[a])
    decreases |s| - i
  {
    if i == |s| || !IsSpace(t, s[i]) then i else SkipLeading(t, s, i + 1)
  }

  /** Index just past the last non-space character before `j` (or `lo`). */
  function SkipTrailing(t: Trimmer, s: string, lo: nat, j: nat): (b: nat)
    requires lo <= j <= |s|
    ensures lo <= b <= j
    ensures forall k :: b <= k < j ==> IsSpace(t, s[k])
    ensures b == lo || !IsSpace(t, s[b - 1])
  {
    if j == lo || !IsSpace(t, s[j - 1]) then j else SkipTrailing(t, s, lo, j - 1)
  }

  /** `trim()`: the slice of `s` left after removing spaces at both ends. */
  function Trim(t: Trimmer, s: string): (r: string)
    ensures Trimmed(t, r)
    ensures |r| <= |s|
  {
    var a := SkipLeading(t, s, 0);
    s[a..SkipTrailing(t, s, a, |s|)]
  }

  /** `s.trim().isEmpty()` in Java, `s.trim() === ""` in TypeScript. */
  predicate Blank(t: Trimmer, s: string) {
    Trim(t, s) == ""
  }

  lemma TrimOfTrimmed(t: Trimmer, s: string)
    requires Trimmed(t, s)
    ensures Trim(t, s) == s
  {
  }

  lemma TrimIdempotent(t: Trimmer, s: string)
    ensures Trim(t, Trim(t, s)) == Trim(t, s)
  {
    TrimOfTrimmed(t, Trim(t, s));
  }

  /** The trimmed string is a slice of the original; `i` is where it starts. */
  lemma TrimIsSlice(t: Trimmer, s: string) returns (i: nat)
    ensures i + |Trim(t, s)| <= |s| && Trim(t, s) == s[i..i + |Trim(t, s)|]
  {
    i := SkipLeading(t, s, 0);
  }

  /** A string of spaces only trims to the empty string. */
  lemma TrimAllSpace(t: Trimmer, s: string)
    requires forall k :: 0 <= k < |s| ==> IsSpace(t, s[k])
    ensures Trim(t, s) == ""
  {
  }

  // ---------------------------------------------------------------- case

  /** `toLowerCase` restricted to ASCII letters. */
  function LowerChar(c: char): char {
    if 'A' <= c <= 'Z' then (c as int + 32) as char else c
  }

  function Lower(s: string): (r: string)
    ensures |r| == |s|
    ensures forall i :: 0 <= i < |s| ==> r[i] == LowerChar(s[i])
  {
    if |s| == 0 then "" else [LowerChar(s[0])] + Lower(s[1..])
  }

  lemma LowerIdempotent(s: string)
    ensures Lower(Lower(s)) == Lower(s)
  {
  }

  lemma LowerSlice(s: string, i: nat, j: nat)
    requires i <= j <= |s|
    ensures Lower(s[i..j]) == Lower(s)[i..j]
  {
  }

  lemma LowerKeepsSpace(t: Trimmer, c: char)
    ensures IsSpace(t, LowerChar(c)) <==> IsSpace(t, c)
  {
  }

  lemma LowerKeepsTrimmed(t: Trimmer, s: string)
    requires Trimmed(t, s)
    ensures Trimmed(t, Lower(s))
  {
    if |s| > 0 {
      LowerKeepsSpace(t, s[0]);
      LowerKeepsSpace(t, s[|s| - 1]);
    }
  }

  // ----------------------------------------------------------- substring

  /** `s.contains(sub)` / `s.includes(sub)`: `sub` occurs somewhere in `s`. */
  predicate Contains(s: string, sub: string)
    decreases |s|
  {
    sub <= s || (|s| > 0 && Contains(s[1..], sub))
  }

  lemma {:induction false} ContainsSlice(s: string, sub: string, i: nat)
    requires i + |sub| <= |s| && s[i..i + |sub|] == sub
    ensures Contains(s, sub)
    decreases i
  {
    if i == 0 {
      assert sub == s[..|sub|];
    } else {
      assert s[1..][i - 1..i - 1 + |sub|] == s[i..i + |sub|];
      ContainsSlice(s[1..], sub, i - 1);
    }
  }

  lemma {:induction false} ContainsWitness(s: string, sub: string) returns (i: nat)
    requires Contains(s, sub)
    ensures i + |sub| <= |s| && s[i..i + |sub|] == sub
    decreases |s|
  {
    if sub <= s {
      i := 0;
    } else {
      var j := ContainsWitness(s[1..], sub);
      i := j + 1;
      assert s[1..][j..j + |sub|] == s[i..i + |sub|];
    }
  }

  /** Lower-casing both sides keeps an occurrence. */
  lemma ContainsLower(s: string, sub: string)
    requires Contains(s, sub)
    ensures Contains(Lower(s), Lower(sub))
  {
    var i := ContainsWitness(s, sub);
    LowerSlice(s, i, i + |sub|);
    ContainsSlice(Lower(s), Lower(sub), i);
  }

  // ------------------------------------------------------- split and join

  /** `s.split(sep)` without Java's removal of trailing empty pieces. */
  function Split(s: string, sep: char): (r: seq<string>)
    ensures |r| >= 1
    ensures forall p :: p in r ==> sep !in p
  {
    if |s| == 0 then [""]
    else
      var rest := Split(s[1..], sep);
      if s[0] == sep then [""] + rest
      else [[s[0]] + rest[0]] + rest[1..]
  }

  /** `parts.join(sep)` */
  function Join(parts: seq<string>, sep: string): string
  {
    if |parts| == 0 then ""
    else if |parts| == 1 then parts[0]
    else parts[0] + sep + Join(parts[1..], sep)
  }

  lemma {:induction false} JoinSplit(s: string, sep: char)
    ensures Join(Split(s, sep), [sep]) == s
  {
    if |s| > 0 {
      JoinSplit(s[1..], sep);
      var rest := Split(s[1..], sep);
      if s[0] != sep {
        var r := Split(s, sep);
        if |rest| == 1 {
          assert r == [[s[0]] + rest[0]];
        } else {
          assert r[1..] == rest[1..];
          assert Join(rest, [sep]) == rest[0] + [sep] + Join(rest[1..], [sep]);
          assert s == [s[0]] + s[1..];
        }
      } else {
        assert s == [sep] + s[1..];
      }
    }
  }

  lemma SplitSep(s: string, sep: char)
    ensures Split([sep] + s, sep) == [""] + Split(s, sep)
  {
    assert ([sep] + s)[1..] == s;
  }

  lemma SplitOther(c: char, s: string, sep: char)
    requires c != sep
    ensures Split([c] + s, sep) == [[c] + Split(s, sep)[0]] + Split(s, sep)[1..]
  {
    assert ([c] + s)[1..] == s;
  }

  lemma {:induction false} SplitJoin(parts: seq<string>, sep: char)
    requires |parts| >= 1
    requires forall p :: p in parts ==> sep !in p
    ensures Split(Join(parts, [sep]), sep) == parts
    decreases |parts|, |parts[0]|
  {
    var p := parts[0];
    if |p| == 0 {
      if |parts| > 1 {
        var tail := Join(parts[1..], [sep]);
        assert Join(parts, [sep]) == [sep] + tail;
        assert forall q :: q in parts[1..] ==> q in parts;
        SplitJoin(parts[1..], sep);
        SplitSep(tail, sep);
        assert parts == [""] + parts[1..];
      }
    } else {
      var parts' := [p[1..]] + parts[1..];
      assert p[0] != sep by { assert p[0] in p; }
      assert sep !in p[1..] by { assert forall c :: c in p[1..] ==> c in p; }
      assert forall q :: q in parts[1..] ==> q in parts;
      assert forall q :: q in parts' ==> sep !in q;
      SplitJoin(parts', sep);
      var tail := Join(parts', [sep]);
      assert p == [p[0]] + p[1..];
      assert Join(parts, [sep]) == [p[0]] + tail by {
        if |parts| > 1 {
          assert parts'[1..] == parts[1..];
        }
      }
      SplitOther(p[0], tail, sep);
      assert parts == [[p[0]] + parts'[0]] + parts'[1..];
    }
  }

  /** Appending one more part adds a separator and the part. */
  lemma {:induction false} JoinSnoc(parts: seq<string>, sep: string, x: string)
    ensures Join(parts + [x], sep) == if |parts| == 0 then x else Join(parts, sep) + sep + x
    decreases |parts|
  {
    if |parts| == 1 {
      assert parts + [x] == [parts[0], x];
      assert [parts[0], x][1..] == [x];
    } else if |parts| > 1 {
      assert (parts + [x])[1..] == parts[1..] + [x];
      JoinSnoc(parts[1..], sep, x);
    }
  }

  /** No element occurs twice. */
  predicate Distinct(xs: seq<string>)
  {
    forall i, j :: 0 <= i < j < |xs| ==> xs[i] != xs[j]
  }

  /** Each joined part is a slice of the joined string; `i` is where it starts. */
  lemma {:induction false} JoinPartIsSlice(parts: seq<string>, sep: string, k: nat) returns (i: nat)
    requires k < |parts|
    ensures i + |parts[k]| <= |Join(parts, sep)|
    ensures Join(parts, sep)[i..i + |parts[k]|] == parts[k]
  {
    if |parts| == 1 {
      i := 0;
    } else if k == 0 {
      i := 0;
      assert Join(parts, sep) == parts[0] + (sep + Join(parts[1..], sep));
    } else {
      var i' := JoinPartIsSlice(parts[1..], sep, k - 1);
      i := |parts[0]| + |sep| + i';
      var tail := Join(parts[1..], sep);
      assert Join(parts, sep) == (parts[0] + sep) + tail;
      assert Join(parts, sep)[i..i + |parts[k]|] == tail[i'..i' + |parts[k]|];
    }
  }

  // ---------------------------------------------------------- comma tokens

  /** Non-empty trimmed pieces of `parts`, in order. */
  function TrimNonEmpty(t: Trimmer, parts: seq<string>): (r: seq<string>)
    ensures |r| <= |parts|
    ensures forall x :: x in r ==> x != "" && Trimmed(t, x)
  {
    if |parts| == 0 then []
    else
      var x := Trim(t, parts[0]);
      (if x == "" then [] else [x]) + TrimNonEmpty(t, parts[1..])
  }

  lemma TrimNonEmptyStep(t: Trimmer, parts: seq<string>, k: nat)
    requires k < |parts|
    ensures TrimNonEmpty(t, parts[k..])
         == (if Trim(t, parts[k]) == "" then [] else [Trim(t, parts[k])]) + TrimNonEmpty(t, parts[k + 1..])
  {
    assert parts[k..][1..] == parts[k + 1..];
  }

  /** `s.split(",")`, each piece trimmed, empty pieces dropped. */
  function Tokens(t: Trimmer, s: string): seq<string>
  {
    TrimNonEmpty(t, Split(s, ','))
  }

  lemma {:induction false} TrimNonEmptyNoComma(t: Trimmer, parts: seq<string>)
    requires forall p :: p in parts ==> ',' !in p
    ensures forall x :: x in TrimNonEmpty(t, parts) ==> ',' !in x
  {
    if |parts| > 0 {
      TrimNonEmptyNoComma(t, parts[1..]);
      var x := Trim(t, parts[0]);
      var i := TrimIsSlice(t, parts[0]);
      forall k | 0 <= k < |x| ensures x[k] != ',' {
        assert x[k] == parts[0][i + k];
        assert parts[0] in parts;
        assert parts[0][i + k] in parts[0];
      }
    }
  }

  /** Every token is trimmed, non-empty and free of commas. */
  lemma TokensWellFormed(t: Trimmer, s: string)
    ensures forall x :: x in Tokens(t, s) ==> x != "" && Trimmed(t, x) && ',' !in x
  {
    TrimNonEmptyNoComma(t, Split(s, ','));
  }

  lemma {:induction false} TrimNonEmptyOfTrimmed(t: Trimmer, ts: seq<string>)
    requires forall x :: x in ts ==> x != "" && Trimmed(t, x)
    ensures TrimNonEmpty(t, ts) == ts
  {
    if |ts| > 0 {
      TrimOfTrimmed(t, ts[0]);
      assert forall x :: x in ts[1..] ==> x in ts;
      TrimNonEmptyOfTrimmed(t, ts[1..]);
      assert ts == [ts[0]] + ts[1..];
    }
  }

  /** Joining well-formed tokens with "," and splitting again gives them back. */
  lemma TokensOfJoin(t: Trimmer, ts: seq<string>)
    requires forall x :: x in ts ==> x != "" && Trimmed(t, x) && ',' !in x
    ensures Tokens(t, Join(ts, ",")) == ts
  {
    if |ts| == 0 {
      assert Split("", ',') == [""];
    } else {
      SplitJoin(ts, ',');
      TrimNonEmptyOfTrimmed(t, ts);
    }
  }

  lemma {:induction false} TrimNonEmptyFrom(t: Trimmer, parts: seq<string>, k: nat) returns (j: nat)
    requires k < |TrimNonEmpty(t, parts)|
    ensures j < |parts| && TrimNonEmpty(t, parts)[k] == Trim(t, parts[j])
  {
    var x := Trim(t, parts[0]);
    var rest := TrimNonEmpty(t, parts[1..]);
    var head := if x == "" then [] else [x];
    assert TrimNonEmpty(t, parts) == head + rest;
    if x != "" && k == 0 {
      j := 0;
    } else {
      var k' := k - |head|;
      assert TrimNonEmpty(t, parts)[k] == rest[k'];
      var j' := TrimNonEmptyFrom(t, parts[1..], k');
      j := j' + 1;
      assert parts[1..][j'] == parts[j];
    }
  }

  lemma {:induction false} SplitPartIsSlice(s: string, j: nat) returns (a: nat)
    requires j < |Split(s, ',')|
    ensures a + |Split(s, ',')[j]| <= |s| && s[a..a + |Split(s, ',')[j]|] == Split(s, ',')[j]
  {
    var parts := Split(s, ',');
    JoinSplit(s, ',');
    a := JoinPartIsSlice(parts, ",", j);
  }

  lemma SliceOfSlice(s: string, p: string, x: string, a: nat, b: nat)
    requires a + |p| <= |s| && s[a..a + |p|] == p
    requires b + |x| <= |p| && p[b..b + |x|] == x
    ensures a + b + |x| <= |s| && s[a + b..a + b + |x|] == x
  {
    forall k | 0 <= k < |x| ensures s[a + b + k] == x[k] {
      assert x[k] == p[b + k] == s[a + b + k];
    }
  }

  /** Every trimmed piece occurs in the list it was split from. */
  lemma PieceContained(t: Trimmer, s: string, j: nat)
    requires j < |Split(s, ',')|
    ensures Contains(s, Trim(t, Split(s, ',')[j]))
  {
    var p := Split(s, ',')[j];
    var a := SplitPartIsSlice(s, j);
    var b := TrimIsSlice(t, p);
    SliceOfSlice(s, p, Trim(t, p), a, b);
    ContainsSlice(s, Trim(t, p), a + b);
  }

  /** Every token occurs in the list it was split from. */
  lemma TokenContained(t: Trimmer, s: string, k: nat)
    requires k < |Tokens(t, s)|
    ensures Contains(s, Tokens(t, s)[k])
  {
    var j := TrimNonEmptyFrom(t, Split(s, ','), k);
    PieceContained(t, s, j);
  }

  // ------------------------------------------------------------- ordering

  /** The UTF-16 code units JavaScript stores for one character: the
      character itself below U+10000, otherwise its surrogate pair. */
  function CodeUnits(c: char): (u: seq<int>)
    ensures 1 <= |u| <= 2
    ensures |u| == 1 <==> c as int < 0x1_0000
    ensures forall k :: 0 <= k < |u| ==> 0 <= u[k] < 0x1_0000
    ensures |u| == 2 ==> 0xD800 <= u[0] < 0xDC00 && 0xDC00 <= u[1] < 0xE000
  {
    if c as int < 0x1_0000 then [c as int]
    else [0xD800 + (c as int - 0x1_0000) / 0x400, 0xDC00 + (c as int - 0x1_0000) % 0x400]
  }

  /** A string as JavaScript sees it: its sequence of UTF-16 code units. */
  function Utf16(s: string): (u: seq<int>)
    ensures |u| >= |s|
  {
    if |s| == 0 then [] else CodeUnits(s[0]) + Utf16(s[1..])
  }

  /** Lexicographic order on code-unit sequences. */
  predicate UnitLe(a: seq<int>, b: seq<int>)
  {
    |a| == 0 || (|b| > 0 && (a[0] < b[0] || (a[0] == b[0] && UnitLe(a[1..], b[1..]))))
  }

  /** The order of the default `Array.prototype.sort`: strings compared by
      their UTF-16 code units, not by their characters. */
  predicate LexLe(a: string, b: string)
  {
    UnitLe(Utf16(a), Utf16(b))
  }

  lemma {:induction false} UnitTotal(a: seq<int>, b: seq<int>)
    ensures UnitLe(a, b) || UnitLe(b, a)
  {
    if |a| > 0 && |b| > 0 && a[0] == b[0] {
      UnitTotal(a[1..], b[1..]);
    }
  }

  lemma {:induction false} UnitAntisymmetric(a: seq<int>, b: seq<int>)
    requires UnitLe(a, b) && UnitLe(b, a)
    ensures a == b
  {
    if |a| > 0 && |b| > 0 {
      UnitAntisymmetric(a[1..], b[1..]);
      assert a == [a[0]] + a[1..];
      assert b == [b[0]] + b[1..];
    }
  }

  lemma {:induction false} UnitTransitive(a: seq<int>, b: seq<int>, c: seq<int>)
    requires UnitLe(a, b) && UnitLe(b, c)
    ensures UnitLe(a, c)
  {
    if |a| > 0 && |b| > 0 && |c| > 0 && a[0] == b[0] == c[0] {
      UnitTransitive(a[1..], b[1..], c[1..]);
    }
  }

  /** The code units of one character determine it, and where the next
      character's units start. */
  lemma CodeUnitsPrefix(x: char, y: char, r1: seq<int>, r2: seq<int>)
    requires CodeUnits(x) + r1 == CodeUnits(y) + r2
    ensures x == y && r1 == r2
  {
    var u, v := CodeUnits(x), CodeUnits(y);
    assert u[0] == (u + r1)[0] == (v + r2)[0] == v[0];
    var n, m := x as int, y as int;
    if n < 0x1_0000 && m < 0x1_0000 {
      assert n == m;
    } else if n < 0x1_0000 || m < 0x1_0000 {
      // one first unit would be a char, the other a high surrogate
      assert false;
    } else {
      assert u[1] == (u + r1)[1] == (v + r2)[1] == v[1];
      assert (n - 0x1_0000) / 0x400 == (m - 0x1_0000) / 0x400;
      assert (n - 0x1_0000) % 0x400 == (m - 0x1_0000) % 0x400;
      assert n == m;
    }
    assert x == y;
    assert r1 == (u + r1)[|u|..] == (v + r2)[|v|..] == r2;
  }

  /** Distinct strings have distinct code units. */
  lemma {:induction false} Utf16Injective(a: string, b: string)
    requires Utf16(a) == Utf16(b)
    ensures a == b
    decreases |a|
  {
    if |a| > 0 && |b| > 0 {
      CodeUnitsPrefix(a[0], b[0], Utf16(a[1..]), Utf16(b[1..]));
      Utf16Injective(a[1..], b[1..]);
      assert a == [a[0]] + a[1..];
      assert b == [b[0]] + b[1..];
    }
  }

  lemma LexTotal(a: string, b: string)
    ensures LexLe(a, b) || LexLe(b, a)
  {
    UnitTotal(Utf16(a), Utf16(b));
  }

  lemma LexAntisymmetric(a: string, b: string)
    requires LexLe(a, b) && LexLe(b, a)
    ensures a == b
  {
    UnitAntisymmetric(Utf16(a), Utf16(b));
    Utf16Injective(a, b);
  }

  lemma LexTransitive(a: string, b: string, c: string)
    requires LexLe(a, b) && LexLe(b, c)
    ensures LexLe(a, c)
  {
    UnitTransitive(Utf16(a), Utf16(b), Utf16(c));
  }

  /** A character beyond U+FFFF sorts before U+FF01, since its first code
      unit is a high surrogate. */
  lemma SurrogatesSortFirst()
    ensures LexLe("\U{1F600}", "\U{FF01}") && !LexLe("\U{FF01}", "\U{1F600}")
  {
    assert CodeUnits('\U{1F600}') == [0xD83D, 0xDE00];
    assert Utf16("\U{1F600}") == [0xD83D, 0xDE00];
    assert Utf16("\U{FF01}") == [0xFF01];
  }
}
