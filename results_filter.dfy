/** The in-memory resource filter of app/api/results.tsx: the static resource
    list is narrowed by the optional `city`, `category` and `lang` query
    parameters, keeping the list's order. */
module ResultsFilter {
  import opened Wrappers
  import opened Text
  import opened Lists

  /** One entry of the static resource list; `languages` is one
      comma-separated string. */
  datatype Resource = Resource(name: string, category: string, languages: string, address: string,
                               city: string, phone: string, website: string, notes: string)

  /** The three query parameters; `None` is a parameter the URL lacks. */
  datatype Query = Query(city: Option<string>, category: Option<string>, lang: Option<string>)

  /** JavaScript `!v` on a `string | null`. */
  predicate Unset(v: Option<string>)
  {
    v.None? || v.value == ""
  }

  predicate CityMatch(q: Query, item: Resource)
  {
    Unset(q.city) || item.city == q.city.value
  }

  predicate CategoryMatch(q: Query, item: Resource)
  {
    Unset(q.category) || item.category == q.category.value
  }

  /** `item.languages.includes(lang)`: substring containment, not a token test. */
  predicate LangMatch(q: Query, item: Resource)
  {
    Unset(q.lang) || Contains(item.languages, q.lang.value)
  }

  predicate Matches(q: Query, item: Resource)
  {
    CityMatch(q, item) && CategoryMatch(q, item) && LangMatch(q, item)
  }

  /** `RESOURCES.filter(...)`. */
  function Select(items: seq<Resource>, q: Query): (r: seq<Resource>)
    ensures |r| <= |items|
  {
    if |items| == 0 then [] else Keep(q, items[0]) + Select(items[1..], q)
  }

  /** What one entry contributes to the selection. */
  function Keep(q: Query, x: Resource): (r: seq<Resource>)
    ensures r == [] || r == [x]
  {
    if Matches(q, x) then [x] else []
  }

  // ------------------------------------------------------------ properties

  /** An item is selected exactly when it is in the list and passes all
      three tests. */
  lemma {:induction false} SelectMembership(items: seq<Resource>, q: Query, x: Resource)
    ensures x in Select(items, q) <==> x in items && Matches(q, x)
    decreases |items|
  {
    if |items| > 0 {
      SelectMembership(items[1..], q, x);
      assert x in items <==> x == items[0] || x in items[1..];
    }
  }

  /** A matching entry is selected as often as it is listed, any other
      entry never. */
  lemma {:induction false} SelectCount(items: seq<Resource>, q: Query, x: Resource)
    ensures multiset(Select(items, q))[x] == if Matches(q, x) then multiset(items)[x] else 0
    decreases |items|
  {
    if |items| > 0 {
      SelectCount(items[1..], q, x);
      assert items == [items[0]] + items[1..];
      assert multiset(items) == multiset{items[0]} + multiset(items[1..]);
    }
  }

  /** The selection keeps the list's order. */
  lemma {:induction false} SelectIsSubsequence(items: seq<Resource>, q: Query)
    ensures Subsequence(Select(items, q), items)
    decreases |items|
  {
    if |items| > 0 {
      SelectIsSubsequence(items[1..], q);
      if Matches(q, items[0]) {
        assert Select(items, q) == [items[0]] + Select(items[1..], q);
        assert Select(items, q)[1..] == Select(items[1..], q);
      } else {
        assert Select(items, q) == Select(items[1..], q);
      }
    }
  }

  /** Missing or empty parameters constrain nothing: the whole list comes back. */
  lemma {:induction false} UnsetKeepsAll(items: seq<Resource>, q: Query)
    requires Unset(q.city) && Unset(q.category) && Unset(q.lang)
    ensures Select(items, q) == items
    decreases |items|
  {
    if |items| > 0 {
      UnsetKeepsAll(items[1..], q);
    }
  }

  /** Each set parameter is a conjunct on its own: a set city is compared
      exactly, a set category exactly, a set language by containment. */
  lemma SetParameters(q: Query, item: Resource)
    requires !Unset(q.city) && !Unset(q.category) && !Unset(q.lang)
    ensures Matches(q, item) <==>
      item.city == q.city.value && item.category == q.category.value
      && Contains(item.languages, q.lang.value)
  {
  }

  /** City matching is exact, so a differently cased city is another city. */
  lemma CityIsCaseSensitive()
    ensures !Matches(Query(Some("san jose"), None, None), SecondHarvest)
  {
    assert SecondHarvest.city[0] != "san jose"[0];
  }

  // -------------------------------------------------------------- fixtures

  const SecondHarvest := Resource("Second Harvest of Silicon Valley", "food", "English,Spanish,Vietnamese,Chinese",
    "750 Curtner Ave", "San Jose", "408-266-8866", "https://www.shfb.org",
    "Open to all residents experiencing food insecurity")
  const CypressCenter := Resource("Second Harvest \U{2013} Cypress Center", "food", "English,Spanish,Vietnamese,Chinese",
    "400 Brennan St", "San Jose", "408-266-8866", "https://www.shfb.org", "Food distribution center")
  const SacredHeart := Resource("Sacred Heart Community Service", "food", "English,Spanish,Vietnamese",
    "1381 S 1st St", "San Jose", "408-278-2160", "https://www.sacredheartcs.org",
    "Low-income individuals and families")
  const LoavesFishes := Resource("Loaves & Fishes Family Kitchen", "food", "English,Spanish",
    "1351 Fifth St", "San Jose", "408-922-9085", "https://www.loavesfishes.org", "Free hot meals")
  const CityTeam := Resource("CityTeam San Jose", "food", "English",
    "580 Charles St", "San Jose", "408-232-5600", "https://www.cityteam.org/sanjose",
    "Meals and transitional support")
  const WestValley := Resource("West Valley Community Services", "food", "English,Spanish",
    "10104 Vista Dr", "Cupertino", "408-255-8033", "https://www.wvcommunityservices.org",
    "Residents of West Valley area")

  /** The first six entries of the static list, in their list order. */
  const Sample := [SecondHarvest, CypressCenter, SacredHeart, LoavesFishes, CityTeam, WestValley]

  lemma {:induction false} SelectCons(x: Resource, rest: seq<Resource>, q: Query)
    ensures Select([x] + rest, q) == Keep(q, x) + Select(rest, q)
  {
    assert ([x] + rest)[1..] == rest;
  }

  /** Selection over a six-entry list, one entry at a time. */
  lemma SelectSix(a: Resource, b: Resource, c: Resource, d: Resource, e: Resource, g: Resource, q: Query)
    ensures Select([a, b, c, d, e, g], q)
         == Keep(q, a) + (Keep(q, b) + (Keep(q, c) + (Keep(q, d) + (Keep(q, e) + Keep(q, g)))))
  {
    var s1 := [g];
    var s2 := [e] + s1;
    var s3 := [d] + s2;
    var s4 := [c] + s3;
    var s5 := [b] + s4;
    var s6 := [a] + s5;
    SelectCons(g, [], q);
    assert [g] == [g] + [];
    assert Select(s1, q) == Keep(q, g);
    SelectCons(e, s1, q);
    SelectCons(d, s2, q);
    SelectCons(c, s3, q);
    SelectCons(b, s4, q);
    SelectCons(a, s5, q);
    assert s6 == [a, b, c, d, e, g];
  }

  /** The five San Jose food places, in list order; a missing `lang`
      constrains nothing. */
  lemma SampleSanJoseFood()
    ensures Select(Sample, Query(Some("San Jose"), Some("food"), None))
         == [SecondHarvest, CypressCenter, SacredHeart, LoavesFishes, CityTeam]
  {
    var q := Query(Some("San Jose"), Some("food"), None);
    assert "Cupertino" != "San Jose" by { assert "Cupertino"[0] != "San Jose"[0]; }
    SelectSix(SecondHarvest, CypressCenter, SacredHeart, LoavesFishes, CityTeam, WestValley, q);
  }

  /** Only the Cupertino entry is selected for Cupertino; an empty `lang`
      constrains nothing. */
  lemma SampleCupertino()
    ensures Select(Sample, Query(Some("Cupertino"), None, Some(""))) == [WestValley]
  {
    var q := Query(Some("Cupertino"), None, Some(""));
    assert "San Jose" != "Cupertino" by { assert "San Jose"[0] != "Cupertino"[0]; }
    SelectSix(SecondHarvest, CypressCenter, SacredHeart, LoavesFishes, CityTeam, WestValley, q);
  }
}
