/** The `URLSearchParams` operations the routes and pages use: `get` reads
    the first pair of a name, `set` leaves exactly one pair of that name. */
module UrlParams {
  import opened Wrappers

  /** A query string as its ordered list of name-value pairs. */
  type Pairs = seq<(string, string)>

  /** `searchParams.get(name)`: the value of the first pair with that name,
      or `None` (JavaScript `null`) when there is none. */
  function Lookup(q: Pairs, name: string): (r: Option<string>)
    ensures r.None? <==> forall i :: 0 <= i < |q| ==> q[i].0 != name
    ensures r.Some? ==> exists i :: 0 <= i < |q| && q[i] == (name, r.value)
                                   && forall j :: 0 <= j < i ==> q[j].0 != name
  {
    if |q| == 0 then None
    else if q[0].0 == name then Some(q[0].1)
    else
      var r := Lookup(q[1..], name);
      assert forall i :: 0 < i < |q| ==> q[i] == q[1..][i - 1];
      r
  }

  /** The pairs with a name other than `name`, in order. */
  function RemoveAll(q: Pairs, name: string): (r: Pairs)
    ensures forall i :: 0 <= i < |r| ==> r[i].0 != name
  {
    if |q| == 0 then []
    else if q[0].0 == name then RemoveAll(q[1..], name)
    else [q[0]] + RemoveAll(q[1..], name)
  }

  /** The first pair named `name` takes `value`, the later ones go. */
  function ReplaceFirst(q: Pairs, name: string, value: string): Pairs
  {
    if |q| == 0 then []
    else if q[0].0 == name then [(name, value)] + RemoveAll(q[1..], name)
    else [q[0]] + ReplaceFirst(q[1..], name, value)
  }

  /** `searchParams.set(name, value)`: replace the first pair of that name and
      drop the others, or append a new pair when there is none. */
  function SetPair(q: Pairs, name: string, value: string): Pairs
  {
    if Lookup(q, name).None? then q + [(name, value)] else ReplaceFirst(q, name, value)
  }

  /** Number of pairs named `name`. */
  function Count(q: Pairs, name: string): nat
  {
    if |q| == 0 then 0 else (if q[0].0 == name then 1 else 0) + Count(q[1..], name)
  }

  lemma {:induction false} LookupAppend(q: Pairs, k: string, v: string, name: string)
    ensures Lookup(q + [(k, v)], name)
         == if Lookup(q, name).Some? then Lookup(q, name) else if k == name then Some(v) else None
    decreases |q|
  {
    if |q| > 0 {
      assert (q + [(k, v)])[1..] == q[1..] + [(k, v)];
      LookupAppend(q[1..], k, v, name);
    }
  }

  lemma {:induction false} RemoveAllLookup(q: Pairs, name: string, other: string)
    requires other != name
    ensures Lookup(RemoveAll(q, name), other) == Lookup(q, other)
    ensures Count(RemoveAll(q, name), name) == 0
    decreases |q|
  {
    if |q| > 0 {
      RemoveAllLookup(q[1..], name, other);
    }
  }

  lemma {:induction false} ReplaceFirstLookup(q: Pairs, name: string, value: string, other: string)
    requires Lookup(q, name).Some? && other != name
    ensures Lookup(ReplaceFirst(q, name, value), name) == Some(value)
    ensures Lookup(ReplaceFirst(q, name, value), other) == Lookup(q, other)
    ensures Count(ReplaceFirst(q, name, value), name) == 1
    decreases |q|
  {
    if q[0].0 == name {
      RemoveAllLookup(q[1..], name, other);
    } else {
      ReplaceFirstLookup(q[1..], name, value, other);
    }
  }

  lemma {:induction false} CountAppend(q: Pairs, k: string, v: string, name: string)
    ensures Count(q + [(k, v)], name) == Count(q, name) + if k == name then 1 else 0
    decreases |q|
  {
    if |q| > 0 {
      assert (q + [(k, v)])[1..] == q[1..] + [(k, v)];
      CountAppend(q[1..], k, v, name);
    }
  }

  lemma {:induction false} CountZero(q: Pairs, name: string)
    requires Lookup(q, name).None?
    ensures Count(q, name) == 0
    decreases |q|
  {
    if |q| > 0 {
      CountZero(q[1..], name);
    }
  }

  /** After `set`, `get(name)` answers the new value, the name occurs once,
      and no other name's answer changes. */
  lemma SetPairProperties(q: Pairs, name: string, value: string, other: string)
    requires other != name
    ensures Lookup(SetPair(q, name, value), name) == Some(value)
    ensures Count(SetPair(q, name, value), name) == 1
    ensures Lookup(SetPair(q, name, value), other) == Lookup(q, other)
  {
    if Lookup(q, name).None? {
      LookupAppend(q, name, value, name);
      LookupAppend(q, name, value, other);
      CountAppend(q, name, value, name);
      CountZero(q, name);
    } else {
      ReplaceFirstLookup(q, name, value, other);
    }
  }

  /** Three `set` calls with distinct names on an empty query leave the three
      pairs in call order. */
  lemma SetThree(a: string, va: string, b: string, vb: string, c: string, vc: string)
    requires a != b && a != c && b != c
    ensures SetPair(SetPair(SetPair([], a, va), b, vb), c, vc) == [(a, va), (b, vb), (c, vc)]
  {
    var q1 := [(a, va)];
    assert SetPair([], a, va) == [] + q1;
    assert Lookup(q1, b).None?;
    var q2 := q1 + [(b, vb)];
    assert Lookup(q2, c).None?;
    assert q2 + [(c, vc)] == [(a, va), (b, vb), (c, vc)];
  }

  /** A `URLSearchParams` object: its pair list changes in place. */
  class SearchParams {
    var pairs: Pairs

    constructor ()
      ensures pairs == []
    {
      pairs := [];
    }

    method Set(name: string, value: string)
      modifies this
      ensures pairs == SetPair(old(pairs), name, value)
    {
      pairs := SetPair(pairs, name, value);
    }
  }
}
