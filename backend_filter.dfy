/** The filter predicates of backend/Backend.java: key aliases
    (`normalizeKey`), one cell against one wanted value (`matchesCell`) and a
    row against every filter (`matchesAll`). */
module BackendFilter {
  import opened Text
  import BackendCsv

  /** One `-key K -value V` pair; `value` is already URL-decoded. */
  datatype Filter = Filter(key: string, value: string)

  // ------------------------------------------------------------ normalizeKey

  /** Alias table of `normalizeKey`. */
  const Aliases: map<string, string> :=
    map["lang" := "languages", "language" := "languages",
        "cat" := "categories", "category" := "categories",
        "zipcode" := "postal_code", "zip" := "postal_code",
        "longitude" := "lng", "long" := "lng",
        "latitude" := "lat"]

  /** A key already in header form: trimmed and lower-case. */
  predicate Canonical(k: string) {
    Trimmed(Java, k) && Lower(k) == k
  }

  /** `normalizeKey`: trim, lower-case, then map an alias to its CSV header. */
  function NormalizeKey(key: string): string
  {
    var k := Lower(Trim(Java, key));
    if k == "lang" || k == "language" then "languages"
    else if k == "cat" || k == "category" then "categories"
    else if k == "zipcode" || k == "zip" then "postal_code"
    else if k == "longitude" || k == "long" then "lng"
    else if k == "latitude" then "lat"
    else k
  }

  lemma LowerOfNoUpper(s: string)
    requires forall i :: 0 <= i < |s| ==> !('A' <= s[i] <= 'Z')
    ensures Lower(s) == s
  {
  }

  predicate IsAliasTarget(v: string) {
    v == "languages" || v == "categories" || v == "postal_code" || v == "lng" || v == "lat"
  }

  /** A word of lower-case letters and `_` is already in header form. */
  lemma LowerWord(s: string)
    requires forall i :: 0 <= i < |s| ==> 'a' <= s[i] <= 'z' || s[i] == '_'
    ensures Canonical(s)
  {
    LowerOfNoUpper(s);
  }

  lemma TargetCanonical(v: string)
    requires IsAliasTarget(v)
    ensures Canonical(v)
  {
    if v == "languages" {
      LowerWord("languages");
    } else if v == "categories" {
      LowerWord("categories");
    } else if v == "postal_code" {
      LowerWord("postal_code");
    } else if v == "lng" {
      LowerWord("lng");
    } else {
      LowerWord("lat");
    }
  }

  /** The alias keys, as a predicate. */
  predicate IsAliasKey(k: string) {
    k == "lang" || k == "language" || k == "cat" || k == "category" || k == "zipcode"
    || k == "zip" || k == "longitude" || k == "long" || k == "latitude"
  }

  lemma AliasKeys(k: string)
    ensures k in Aliases <==> IsAliasKey(k)
  {
  }

  /** No alias target is itself an alias. */
  lemma TargetNotAlias(v: string)
    requires IsAliasTarget(v)
    ensures !IsAliasKey(v)
  {
    assert |v| == 9 || |v| == 10 || |v| == 11 || |v| == 3;
    if |v| == 3 {
      assert v[0] == 'l';
    }
  }

  /** Alias targets are canonical headers and are not aliases themselves. */
  lemma AliasTargets(k: string)
    requires k in Aliases
    ensures IsAliasTarget(Aliases[k]) && Aliases[k] !in Aliases && Canonical(Aliases[k])
  {
    AliasKeys(k);
    var v := Aliases[k];
    if k == "lang" || k == "language" {
      assert v == "languages";
    } else if k == "cat" || k == "category" {
      assert v == "categories";
    } else if k == "zipcode" || k == "zip" {
      assert v == "postal_code";
    } else if k == "longitude" || k == "long" {
      assert v == "lng";
    } else {
      assert v == "lat";
    }
    TargetCanonical(v);
    TargetNotAlias(v);
    AliasKeys(v);
  }

  /** `normalizeKey` is a lookup in the alias table, falling back to the
      trimmed lower-case key itself. */
  lemma NormalizeKeyTable(key: string)
    ensures var k := Lower(Trim(Java, key));
      NormalizeKey(key) == if k in Aliases then Aliases[k] else k
  {
    var k := Lower(Trim(Java, key));
    AliasKeys(k);
    if k == "lang" || k == "language" {
      assert Aliases[k] == "languages";
    } else if k == "cat" || k == "category" {
      assert Aliases[k] == "categories";
    } else if k == "zipcode" || k == "zip" {
      assert Aliases[k] == "postal_code";
    } else if k == "longitude" || k == "long" {
      assert Aliases[k] == "lng";
    } else if k == "latitude" {
      assert Aliases[k] == "lat";
    }
  }

  /** Every result of `normalizeKey` is already in header form. */
  lemma NormalizeKeyCanonical(key: string)
    ensures Canonical(NormalizeKey(key))
  {
    var t := Trim(Java, key);
    var k := Lower(t);
    NormalizeKeyTable(key);
    if k in Aliases {
      AliasTargets(k);
    } else {
      LowerKeepsTrimmed(Java, t);
      LowerIdempotent(t);
    }
  }

  /** Normalising a normalised key changes nothing. */
  lemma NormalizeKeyIdempotent(key: string)
    ensures NormalizeKey(NormalizeKey(key)) == NormalizeKey(key)
  {
    var k := Lower(Trim(Java, key));
    var r := NormalizeKey(key);
    NormalizeKeyTable(key);
    NormalizeKeyTable(r);
    NormalizeKeyCanonical(key);
    TrimOfTrimmed(Java, r);
    assert Lower(Trim(Java, r)) == r;
    if k in Aliases {
      AliasTargets(k);
    }
  }

  // ------------------------------------------------------------- matchesCell

  /** Keys whose cells hold comma-separated lists. */
  predicate IsListKey(key: string) {
    key == "languages" || key == "categories" || key == "tags"
  }

  /** Keys that are compared whole. */
  predicate IsExactKey(key: string) {
    key == "city" || key == "state" || key == "postal_code"
  }

  /** `equalsIgnoreCase` on ASCII letters. */
  predicate EqualsIgnoreCase(a: string, b: string) {
    Lower(a) == Lower(b)
  }

  /** What `matchesCell(key, cell, want)` decides. */
  predicate CellMatches(key: string, cell: string, want: string) {
    var c := Trim(Java, cell);
    var w := Trim(Java, want);
    if w == "" then true
    else if IsListKey(key) then
      (exists t :: t in Tokens(Java, c) && EqualsIgnoreCase(t, w)) || Contains(Lower(c), Lower(w))
    else if IsExactKey(key) then Lower(c) == Lower(w)
    else Contains(Lower(c), Lower(w))
  }

  method MatchesCell(key: string, cell: string, want: string) returns (b: bool)
    ensures b == CellMatches(key, cell, want)
  {
    var c := Trim(Java, cell);
    var w := Trim(Java, want);
    if w == "" {
      return true;
    }
    var cLow := Lower(c);
    var wLow := Lower(w);
    if IsListKey(key) {
      var tokens := BackendCsv.SplitCommaTokens(c);
      for i := 0 to |tokens|
        invariant forall j :: 0 <= j < i ==> !EqualsIgnoreCase(tokens[j], w)
      {
        if Lower(tokens[i]) == Lower(w) {
          assert tokens[i] in Tokens(Java, c);
          return true;
        }
      }
      return Contains(cLow, wLow);
    }
    if IsExactKey(key) {
      return cLow == wLow;
    }
    return Contains(cLow, wLow);
  }

  /** The token search of a list field adds nothing: a token equal to the
      wanted value ignoring case is a slice of the cell, so the containment
      fallback already accepts it. */
  lemma ListMatchIsContainment(key: string, cell: string, want: string)
    requires IsListKey(key)
    ensures CellMatches(key, cell, want)
        <==> Blank(Java, want) || Contains(Lower(Trim(Java, cell)), Lower(Trim(Java, want)))
  {
    var c := Trim(Java, cell);
    var w := Trim(Java, want);
    var toks := Tokens(Java, c);
    if w != "" && exists t :: t in toks && EqualsIgnoreCase(t, w) {
      var t :| t in toks && EqualsIgnoreCase(t, w);
      var k :| 0 <= k < |toks| && toks[k] == t;
      TokenContained(Java, c, k);
      ContainsLower(c, t);
    }
  }

  /** A blank wanted value matches any cell under any key. */
  lemma BlankWantMatches(key: string, cell: string, want: string)
    requires Blank(Java, want)
    ensures CellMatches(key, cell, want)
  {
  }

  // -------------------------------------------------------------- matchesAll

  /** One filter holds of a row: its normalised key is a column of the row and
      the cell matches the trimmed value. */
  predicate FilterHolds(row: map<string, string>, f: Filter) {
    var key := NormalizeKey(f.key);
    key in row && CellMatches(key, row[key], Trim(Java, f.value))
  }

  /** `matchesAll`, read as its early-return loop: the first failing filter decides. */
  predicate AllHold(row: map<string, string>, filters: seq<Filter>)
    decreases |filters|
  {
    |filters| == 0 || (FilterHolds(row, filters[0]) && AllHold(row, filters[1..]))
  }

  method MatchesAll(row: map<string, string>, filters: seq<Filter>) returns (b: bool)
    ensures b == AllHold(row, filters)
  {
    for i := 0 to |filters|
      invariant AllHold(row, filters[i..]) == AllHold(row, filters)
    {
      assert filters[i..][1..] == filters[i + 1..];
      var f := filters[i];
      var key := NormalizeKey(f.key);
      var val := Trim(Java, f.value);
      if key !in row {
        return false;
      }
      var cell := row[key];
      var ok := MatchesCell(key, cell, val);
      if !ok {
        return false;
      }
    }
    assert filters[|filters|..] == [];
    return true;
  }

  /** Filters are ANDed: the row passes exactly when every filter holds. */
  lemma {:induction false} AllHoldIsConjunction(row: map<string, string>, filters: seq<Filter>)
    ensures AllHold(row, filters) <==> forall f :: f in filters ==> FilterHolds(row, f)
  {
    if |filters| > 0 {
      AllHoldIsConjunction(row, filters[1..]);
      assert forall f :: f in filters <==> f == filters[0] || f in filters[1..];
    }
  }

  /** The order (and repetition) of the filters does not matter. */
  lemma AllHoldOrderIndependent(row: map<string, string>, fs: seq<Filter>, gs: seq<Filter>)
    requires forall f :: f in fs <==> f in gs
    ensures AllHold(row, fs) == AllHold(row, gs)
  {
    AllHoldIsConjunction(row, fs);
    AllHoldIsConjunction(row, gs);
  }

  /** A filter on a column the row does not have rejects the row. */
  lemma MissingKeyRejects(row: map<string, string>, filters: seq<Filter>, f: Filter)
    requires f in filters && NormalizeKey(f.key) !in row
    ensures !AllHold(row, filters)
  {
    AllHoldIsConjunction(row, filters);
  }
}
