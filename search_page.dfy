/** The selection logic of app/search/page.tsx: the `MultiSelect` option list
    filtered by the current selection and the typed query, adding and
    removing a selected value, and the search button that either reports a
    missing choice or navigates to the result page with the choices as
    query parameters. */
module SearchPage {
  import opened Wrappers
  import opened Text
  import opened Lists
  import opened UrlParams

  // ------------------------------------------------------------- available

  /** `o.toLowerCase().includes(q.trim().toLowerCase())`. */
  predicate MatchesQuery(o: string, q: string)
  {
    Contains(Lower(o), Lower(Trim(Js, q)))
  }

  /** The options still offered: not selected, and matching the query. */
  function Available(options: seq<string>, values: seq<string>, q: string): (r: seq<string>)
    ensures |r| <= |options|
  {
    if |options| == 0 then []
    else (if options[0] !in values && MatchesQuery(options[0], q) then [options[0]] else [])
         + Available(options[1..], values, q)
  }

  /** An option is offered exactly when it is unselected and matches the
      trimmed query, ignoring case. */
  lemma {:induction false} AvailableMembership(options: seq<string>, values: seq<string>, q: string, o: string)
    ensures o in Available(options, values, q) <==> o in options && o !in values && MatchesQuery(o, q)
    decreases |options|
  {
    if |options| > 0 {
      AvailableMembership(options[1..], values, q, o);
      assert o in options <==> o == options[0] || o in options[1..];
    }
  }

  /** An offered option is offered as often as it is listed. */
  lemma {:induction false} AvailableCount(options: seq<string>, values: seq<string>, q: string, o: string)
    ensures multiset(Available(options, values, q))[o]
         == if o !in values && MatchesQuery(o, q) then multiset(options)[o] else 0
    decreases |options|
  {
    if |options| > 0 {
      AvailableCount(options[1..], values, q, o);
      assert options == [options[0]] + options[1..];
      assert multiset(options) == multiset{options[0]} + multiset(options[1..]);
    }
  }

  /** The offered options keep the order of `options`. */
  lemma {:induction false} AvailableInOrder(options: seq<string>, values: seq<string>, q: string)
    ensures Subsequence(Available(options, values, q), options)
    decreases |options|
  {
    if |options| > 0 {
      AvailableInOrder(options[1..], values, q);
      var rest := Available(options[1..], values, q);
      if options[0] !in values && MatchesQuery(options[0], q) {
        assert Available(options, values, q) == [options[0]] + rest;
        assert Available(options, values, q)[1..] == rest;
      } else {
        assert Available(options, values, q) == rest;
      }
    }
  }

  lemma BlankQueryMatches(o: string, q: string)
    requires Blank(Js, q)
    ensures MatchesQuery(o, q)
  {
    assert Lower(Trim(Js, q)) == "";
  }

  /** A query of only spaces offers every unselected option. */
  lemma {:induction false} BlankQueryKeepsUnselected(options: seq<string>, values: seq<string>, q: string, o: string)
    requires Blank(Js, q)
    ensures o in Available(options, values, q) <==> o in options && o !in values
  {
    AvailableMembership(options, values, q, o);
    BlankQueryMatches(o, q);
  }

  // ------------------------------------------------------- add and remove

  /** The picker's state: the selected values, the typed query and whether
      the drop-down is open. */
  datatype Picker = Picker(values: seq<string>, query: string, open: bool)

  /** `add(opt)`: a selected option changes nothing; otherwise it is appended,
      and the query is cleared and the drop-down closed. */
  function Add(p: Picker, opt: string): Picker
  {
    if opt in p.values then p else Picker(p.values + [opt], "", false)
  }

  /** `values.filter(v => v !== opt)`. */
  function Without(values: seq<string>, opt: string): (r: seq<string>)
    ensures opt !in r
    ensures |r| <= |values|
  {
    if |values| == 0 then []
    else (if values[0] != opt then [values[0]] else []) + Without(values[1..], opt)
  }

  /** `remove(opt)`: only the selection changes. */
  function Remove(p: Picker, opt: string): Picker
  {
    p.(values := Without(p.values, opt))
  }

  /** Adding keeps the selection free of duplicates; the option is selected
      afterwards; a newly added one is last. */
  lemma AddKeepsDistinct(p: Picker, opt: string)
    requires Distinct(p.values)
    ensures Distinct(Add(p, opt).values)
    ensures opt in Add(p, opt).values
    ensures opt in p.values ==> Add(p, opt) == p
    ensures opt !in p.values ==>
      Add(p, opt).values == p.values + [opt] && Add(p, opt).query == "" && !Add(p, opt).open
  {
    if opt !in p.values {
      var v := p.values + [opt];
      forall i, j | 0 <= i < j < |v| ensures v[i] != v[j] {
        if j == |v| - 1 {
          assert v[i] == p.values[i];
        }
      }
    }
  }

  /** Removing drops every occurrence of the option and keeps the other
      values, in order. */
  lemma {:induction false} RemoveProperties(values: seq<string>, opt: string, x: string)
    ensures x in Without(values, opt) <==> x in values && x != opt
    ensures Subsequence(Without(values, opt), values)
    decreases |values|
  {
    if |values| > 0 {
      RemoveProperties(values[1..], opt, x);
      var rest := Without(values[1..], opt);
      assert x in values <==> x == values[0] || x in values[1..];
      if values[0] != opt {
        assert Without(values, opt) == [values[0]] + rest;
        assert Without(values, opt)[1..] == rest;
      } else {
        assert Without(values, opt) == rest;
      }
    }
  }

  /** Every other value keeps its number of occurrences. */
  lemma {:induction false} WithoutCount(values: seq<string>, opt: string, x: string)
    ensures multiset(Without(values, opt))[x] == if x == opt then 0 else multiset(values)[x]
    decreases |values|
  {
    if |values| > 0 {
      WithoutCount(values[1..], opt, x);
      assert values == [values[0]] + values[1..];
      assert multiset(values) == multiset{values[0]} + multiset(values[1..]);
    }
  }

  /** A value that is not selected is removed without effect. */
  lemma {:induction false} RemoveAbsent(values: seq<string>, opt: string)
    requires opt !in values
    ensures Without(values, opt) == values
    decreases |values|
  {
    if |values| > 0 {
      RemoveAbsent(values[1..], opt);
      assert values == [values[0]] + values[1..];
    }
  }

  lemma {:induction false} WithoutAppend(a: seq<string>, b: seq<string>, opt: string)
    ensures Without(a + b, opt) == Without(a, opt) + Without(b, opt)
    decreases |a|
  {
    if |a| == 0 {
      assert a + b == b;
    } else {
      assert (a + b)[1..] == a[1..] + b;
      WithoutAppend(a[1..], b, opt);
    }
  }

  /** Removing a value just added restores the previous selection. */
  lemma RemoveUndoesAdd(p: Picker, opt: string)
    requires opt !in p.values
    ensures Remove(Add(p, opt), opt).values == p.values
  {
    WithoutAppend(p.values, [opt], opt);
    RemoveAbsent(p.values, opt);
    assert Without([opt], opt) == [];
  }

  // -------------------------------------------------------------- onSearch

  const IncompleteError := "Please select a city, at least one category, and at least one language."
  const ResultPath := "/result"

  /** Where the router is sent: a path and its query parameters. */
  datatype Destination = Destination(path: string, query: Pairs)

  /** The three `params.set` calls on an empty `URLSearchParams`. */
  function SearchQuery(city: string, categories: seq<string>, languages: seq<string>): Pairs
  {
    SetPair(SetPair(SetPair([], "city", city), "category", Join(categories, ",")), "lang", Join(languages, ","))
  }

  /** What the search button does: the error message when a choice is
      missing, otherwise the destination. */
  function SearchOutcome(city: string, categories: seq<string>, languages: seq<string>): Result<Destination, string>
  {
    if city == "" || |categories| == 0 || |languages| == 0 then Err(IncompleteError)
    else Ok(Destination(ResultPath, SearchQuery(city, categories, languages)))
  }

  /** The button fails exactly when the city, the categories or the
      languages are missing; otherwise it goes to `/result` with `city`,
      `category` and `lang`, the selections joined by commas. */
  lemma SearchOutcomeCases(city: string, categories: seq<string>, languages: seq<string>)
    ensures SearchOutcome(city, categories, languages).Err?
        <==> city == "" || |categories| == 0 || |languages| == 0
    ensures SearchOutcome(city, categories, languages).Err? ==>
      SearchOutcome(city, categories, languages).error == IncompleteError
    ensures SearchOutcome(city, categories, languages).Ok? ==>
      var d := SearchOutcome(city, categories, languages).value;
      && d.path == ResultPath
      && d.query == [("city", city), ("category", Join(categories, ",")), ("lang", Join(languages, ","))]
  {
    SetThree("city", city, "category", Join(categories, ","), "lang", Join(languages, ","));
  }

  /** Selections that are trimmed, non-empty and free of commas are read
      back unchanged by splitting the parameter on commas. */
  lemma SearchQueryRoundTrip(city: string, categories: seq<string>, languages: seq<string>)
    requires SearchOutcome(city, categories, languages).Ok?
    requires forall x :: x in categories ==> x != "" && Trimmed(Js, x) && ',' !in x
    requires forall x :: x in languages ==> x != "" && Trimmed(Js, x) && ',' !in x
    ensures SearchOutcome(city, categories, languages).value.query[1].0 == "category"
      && Tokens(Js, SearchOutcome(city, categories, languages).value.query[1].1) == categories
    ensures SearchOutcome(city, categories, languages).value.query[2].0 == "lang"
      && Tokens(Js, SearchOutcome(city, categories, languages).value.query[2].1) == languages
  {
    SearchOutcomeCases(city, categories, languages);
    TokensOfJoin(Js, categories);
    TokensOfJoin(Js, languages);
  }

  /** The page state the search button reads and writes. */
  class SearchForm {
    var city: string
    var categories: seq<string>
    var languages: seq<string>
    var error: string
    var destination: Option<Destination>

    constructor (city: string, categories: seq<string>, languages: seq<string>)
      ensures this.city == city && this.categories == categories && this.languages == languages
      ensures error == "" && destination == None
    {
      this.city := city;
      this.categories := categories;
      this.languages := languages;
      error := "";
      destination := None;
    }

    /** `onSearch`: clear the error; then either set it and stay, or build the
        parameters one `set` at a time and navigate. */
    method OnSearch()
      modifies this
      ensures city == old(city) && categories == old(categories) && languages == old(languages)
      ensures SearchOutcome(city, categories, languages).Err? ==>
        error == SearchOutcome(city, categories, languages).error && destination == old(destination)
      ensures SearchOutcome(city, categories, languages).Ok? ==>
        error == "" && destination == Some(SearchOutcome(city, categories, languages).value)
    {
      error := "";
      if city == "" || |categories| == 0 || |languages| == 0 {
        error := IncompleteError;
        return;
      }
      var params := new SearchParams();
      params.Set("city", city);
      params.Set("category", Join(categories, ","));
      params.Set("lang", Join(languages, ","));
      destination := Some(Destination(ResultPath, params.pairs));
    }
  }
}
