/** app/api/search/route.ts: the query validation of `GET` and the ranking
    chain over the candidates the store returns (drop rows without numeric
    coordinates, attach the distance, keep those within the radius, sort by
    distance with a stable sort). `Number` and the haversine distance are
    parameters; the store query is a parameter too. */
module SearchRoute {
  import opened Wrappers
  import opened Text
  import opened UrlParams

  /** A candidate row: its other columns, and `lat` / `lng`, `None` where the
      value is not a number. */
  datatype Candidate = Candidate(columns: map<string, Option<string>>, lat: Option<real>, lng: Option<real>)

  /** `{ ...r, distance_km: d }`. */
  datatype Ranked = Ranked(row: Candidate, distanceKm: real)

  /** What is asked of the store: the centre, the radius (for the bounding
      box), the row limit and the category. */
  datatype StoreQuery = StoreQuery(lat: real, lng: real, radiusKm: real, limit: real, category: string)

  datatype SearchResponse =
    | BadRequest(error: string)          // status 400
    | ServerError(error: string)         // status 500, the store's message
    | Found(lat: real, lng: real, radiusKm: real, category: Option<string>, count: nat, results: seq<Ranked>)

  const LatLngError := "Missing or invalid lat/lng. Example: /api/search?lat=37.33&lng=-121.88&category=food&radius_km=5"
  const RadiusError := "radius_km must be between 0 and 50"

  // ------------------------------------------------------------ parameters

  /** `url.searchParams.get(name)`: the first value of `name`, if any. */
  function Param(params: Pairs, name: string): Option<string>
  {
    Lookup(params, name)
  }

  /** `toNumber`: `null` stays `null`; otherwise `Number(v)` when it is
      finite. `number` stands for `Number` restricted to finite results. */
  function ToNumber(v: Option<string>, number: string -> Option<real>): Option<real>
  {
    match v
    case None => None
    case Some(s) => number(s)
  }

  /** `(get("category") || "").trim().toLowerCase()`. */
  function CategoryOf(params: Pairs): (c: string)
    ensures Trimmed(Js, c) && Lower(c) == c
  {
    var c := Lower(Trim(Js, Param(params, "category").GetOr("")));
    LowerKeepsTrimmed(Js, Trim(Js, Param(params, "category").GetOr("")));
    LowerIdempotent(Trim(Js, Param(params, "category").GetOr("")));
    c
  }

  /** `toNumber(radius_km) ?? 5`. */
  function RadiusOf(params: Pairs, number: string -> Option<real>): real
  {
    ToNumber(Param(params, "radius_km"), number).GetOr(5.0)
  }

  /** `toNumber(limit) ?? 50`. */
  function LimitOf(params: Pairs, number: string -> Option<real>): real
  {
    ToNumber(Param(params, "limit"), number).GetOr(50.0)
  }

  /** The checks made before the store is asked: the query to send, or the
      400 message. */
  function Validate(params: Pairs, number: string -> Option<real>): Result<StoreQuery, string>
  {
    var lat := ToNumber(Param(params, "lat"), number);
    var lng := ToNumber(Param(params, "lng"), number);
    var radius := RadiusOf(params, number);
    if lat.None? || lng.None? then Err(LatLngError)
    else if radius <= 0.0 || radius > 50.0 then Err(RadiusError)
    else Ok(StoreQuery(lat.value, lng.value, radius, LimitOf(params, number), CategoryOf(params)))
  }

  // --------------------------------------------------------------- ranking

  /** `filter((r) => typeof r.lat === "number" && typeof r.lng === "number")`. */
  function Numeric(rows: seq<Candidate>): (r: seq<Candidate>)
    ensures |r| <= |rows|
  {
    if |rows| == 0 then []
    else
      var front := Numeric(rows[..|rows| - 1]);
      var last := rows[|rows| - 1];
      if last.lat.Some? && last.lng.Some? then front + [last] else front
  }

  /** `map` attaching the distance from the centre. */
  function Attach(rows: seq<Candidate>, lat: real, lng: real, dist: (real, real, real, real) -> real): (r: seq<Ranked>)
    requires forall i :: 0 <= i < |rows| ==> rows[i].lat.Some? && rows[i].lng.Some?
    ensures |r| == |rows|
  {
    seq(|rows|, i requires 0 <= i < |rows| => Ranked(rows[i], dist(lat, lng, rows[i].lat.value, rows[i].lng.value)))
  }

  /** `filter((r) => r.distance_km <= radiusKm)`. */
  function Within(rs: seq<Ranked>, radius: real): (r: seq<Ranked>)
    ensures |r| <= |rs|
  {
    if |rs| == 0 then []
    else
      var front := Within(rs[..|rs| - 1], radius);
      var last := rs[|rs| - 1];
      if last.distanceKm <= radius then front + [last] else front
  }

  /** Placing `x` after every element whose distance is not greater. */
  function InsertLast(s: seq<Ranked>, x: Ranked): (r: seq<Ranked>)
    ensures multiset(r) == multiset(s) + multiset{x}
    decreases |s|
  {
    if |s| == 0 then [x]
    else if s[|s| - 1].distanceKm <= x.distanceKm then s + [x]
    else
      var front := s[..|s| - 1];
      assert s == front + [s[|s| - 1]];
      InsertLast(front, x) + [s[|s| - 1]]
  }

  /** `sort((a, b) => a.distance_km - b.distance_km)`; the sort is stable. */
  function SortByDistance(rs: seq<Ranked>): (r: seq<Ranked>)
    ensures multiset(r) == multiset(rs)
  {
    if |rs| == 0 then []
    else
      var front := rs[..|rs| - 1];
      assert rs == front + [rs[|rs| - 1]];
      InsertLast(SortByDistance(front), rs[|rs| - 1])
  }

  /** The result list of `GET` for the candidates `rows`. */
  function Rank(rows: seq<Candidate>, lat: real, lng: real, radius: real,
                dist: (real, real, real, real) -> real): seq<Ranked>
  {
    var numeric := Numeric(rows);
    NumericHasCoordinates(rows);
    SortByDistance(Within(Attach(numeric, lat, lng, dist), radius))
  }

  /** `GET`. */
  function Search(params: Pairs, number: string -> Option<real>,
                  store: StoreQuery -> Result<seq<Candidate>, string>,
                  dist: (real, real, real, real) -> real): SearchResponse
  {
    match Validate(params, number)
    case Err(msg) => BadRequest(msg)
    case Ok(q) =>
      match store(q)
      case Err(msg) => ServerError(msg)
      case Ok(rows) =>
        var results := Rank(rows, q.lat, q.lng, q.radiusKm, dist);
        Found(q.lat, q.lng, q.radiusKm, if q.category == "" then None else Some(q.category), |results|, results)
  }

  // ------------------------------------------------------------ properties

  lemma {:induction false} NumericHasCoordinates(rows: seq<Candidate>)
    ensures forall i :: 0 <= i < |Numeric(rows)| ==> Numeric(rows)[i].lat.Some? && Numeric(rows)[i].lng.Some?
    ensures forall c :: c in Numeric(rows) <==> c in rows && c.lat.Some? && c.lng.Some?
  {
    if |rows| > 0 {
      var front := rows[..|rows| - 1];
      NumericHasCoordinates(front);
      assert forall c :: c in rows <==> c in front || c == rows[|rows| - 1];
    }
  }

  lemma {:induction false} WithinBound(rs: seq<Ranked>, radius: real)
    ensures forall x :: x in Within(rs, radius) <==> x in rs && x.distanceKm <= radius
  {
    if |rs| > 0 {
      var front := rs[..|rs| - 1];
      WithinBound(front, radius);
      assert forall x :: x in rs <==> x in front || x == rs[|rs| - 1];
    }
  }

  predicate SortedByDistance(rs: seq<Ranked>)
  {
    forall i, j :: 0 <= i < j < |rs| ==> rs[i].distanceKm <= rs[j].distanceKm
  }

  lemma {:induction false} InsertLastSorted(s: seq<Ranked>, x: Ranked)
    requires SortedByDistance(s)
    ensures SortedByDistance(InsertLast(s, x))
    decreases |s|
  {
    if |s| > 0 && s[|s| - 1].distanceKm > x.distanceKm {
      var front := s[..|s| - 1];
      var l := s[|s| - 1];
      InsertLastSorted(front, x);
      var ins := InsertLast(front, x);
      forall y | y in ins ensures y.distanceKm <= l.distanceKm {
        assert y in multiset(ins);
        if y != x {
          assert y in multiset(front);
          var k :| 0 <= k < |front| && front[k] == y;
          assert s[k] == y;
        }
      }
      var r := ins + [l];
      forall i, j | 0 <= i < j < |r| ensures r[i].distanceKm <= r[j].distanceKm {
        if j == |r| - 1 {
          assert r[i] in ins;
        } else {
          assert r[i] == ins[i] && r[j] == ins[j];
        }
      }
    }
  }

  /** The sorted list is ordered by distance and is a permutation. */
  lemma {:induction false} SortSorted(rs: seq<Ranked>)
    ensures SortedByDistance(SortByDistance(rs))
    decreases |rs|
  {
    if |rs| > 0 {
      SortSorted(rs[..|rs| - 1]);
      InsertLastSorted(SortByDistance(rs[..|rs| - 1]), rs[|rs| - 1]);
    }
  }

  /** The elements at distance `d`, in order. */
  function AtDistance(rs: seq<Ranked>, d: real): seq<Ranked>
  {
    if |rs| == 0 then []
    else AtDistance(rs[..|rs| - 1], d) + (if rs[|rs| - 1].distanceKm == d then [rs[|rs| - 1]] else [])
  }

  lemma AtDistanceAppend(a: seq<Ranked>, b: seq<Ranked>, d: real)
    ensures AtDistance(a + b, d) == AtDistance(a, d) + AtDistance(b, d)
    decreases |b|
  {
    if |b| == 0 {
      assert a + b == a;
    } else {
      assert (a + b)[..|a + b| - 1] == a + b[..|b| - 1];
      AtDistanceAppend(a, b[..|b| - 1], d);
    }
  }

  lemma {:induction false} InsertLastStable(s: seq<Ranked>, x: Ranked, d: real)
    ensures AtDistance(InsertLast(s, x), d) == AtDistance(s, d) + AtDistance([x], d)
    decreases |s|
  {
    if |s| == 0 {
      assert [] + [x] == [x];
    } else if s[|s| - 1].distanceKm <= x.distanceKm {
      AtDistanceAppend(s, [x], d);
    } else {
      var front := s[..|s| - 1];
      var l := s[|s| - 1];
      var ins := InsertLast(front, x);
      assert InsertLast(s, x) == ins + [l];
      assert s == front + [l];
      InsertLastStable(front, x, d);
      AtDistanceAppend(ins, [l], d);
      AtDistanceAppend(front, [l], d);
      var a := AtDistance(front, d);
      var xs := AtDistance([x], d);
      var ls := AtDistance([l], d);
      assert xs == [] || ls == [] by {
        assert [] + [x] == [x] && [] + [l] == [l];
      }
      assert a + xs + ls == a + ls + xs;
    }
  }

  /** Stability: for every distance, the elements at that distance keep their
      relative order. */
  lemma {:induction false} SortStable(rs: seq<Ranked>, d: real)
    ensures AtDistance(SortByDistance(rs), d) == AtDistance(rs, d)
    decreases |rs|
  {
    if |rs| > 0 {
      var front := rs[..|rs| - 1];
      var l := rs[|rs| - 1];
      SortStable(front, d);
      InsertLastStable(SortByDistance(front), l, d);
      assert [] + [l] == [l];
      assert rs == front + [l];
      AtDistanceAppend(front, [l], d);
    }
  }

  /** A missing or non-numeric `lat` / `lng` (or a radius out of range) is
      answered with 400 whatever the store would return: it is not asked. */
  lemma ValidationFirst(params: Pairs, number: string -> Option<real>,
                        store1: StoreQuery -> Result<seq<Candidate>, string>,
                        store2: StoreQuery -> Result<seq<Candidate>, string>,
                        dist: (real, real, real, real) -> real)
    requires Validate(params, number).Err?
    ensures Search(params, number, store1, dist) == Search(params, number, store2, dist)
    ensures Search(params, number, store1, dist).BadRequest?
  {
  }

  /** The exact 400 conditions: `lat` or `lng` absent or not a finite number,
      otherwise a radius (5 when absent or not a number) outside (0, 50]. */
  lemma ValidateCases(params: Pairs, number: string -> Option<real>)
    ensures var lat := ToNumber(Param(params, "lat"), number);
      var lng := ToNumber(Param(params, "lng"), number);
      var radius := RadiusOf(params, number);
      && (Validate(params, number) == Err(LatLngError) <==> lat.None? || lng.None?)
      && (Validate(params, number) == Err(RadiusError) <==> lat.Some? && lng.Some? && (radius <= 0.0 || radius > 50.0))
      && (Validate(params, number).Ok? <==> lat.Some? && lng.Some? && 0.0 < radius <= 50.0)
  {
    assert LatLngError != RadiusError by {
      assert |LatLngError| != |RadiusError|;
    }
  }

  /** With an absent or non-numeric `radius_km` the radius is 5, with an
      absent or non-numeric `limit` the limit is 50. */
  lemma Defaults(params: Pairs, number: string -> Option<real>)
    requires ToNumber(Param(params, "radius_km"), number).None? && ToNumber(Param(params, "limit"), number).None?
    requires ToNumber(Param(params, "lat"), number).Some? && ToNumber(Param(params, "lng"), number).Some?
    ensures Validate(params, number).Ok?
    ensures Validate(params, number).value.radiusKm == 5.0 && Validate(params, number).value.limit == 50.0
  {
  }

  lemma RadiusFiftyAccepted(params: Pairs, number: string -> Option<real>)
    requires RadiusOf(params, number) == 50.0
    requires ToNumber(Param(params, "lat"), number).Some? && ToNumber(Param(params, "lng"), number).Some?
    ensures Validate(params, number).Ok? && Validate(params, number).value.radiusKm == 50.0
  {
  }

  /** Every result is a numeric candidate within the radius, its row plus
      its distance from the centre. */
  lemma RankSound(rows: seq<Candidate>, lat: real, lng: real, radius: real,
                  dist: (real, real, real, real) -> real)
    ensures forall x :: x in Rank(rows, lat, lng, radius, dist) ==>
      x.row in rows && x.row.lat.Some? && x.row.lng.Some?
      && x.distanceKm == dist(lat, lng, x.row.lat.value, x.row.lng.value) && x.distanceKm <= radius
  {
    var numeric := Numeric(rows);
    NumericHasCoordinates(rows);
    var attached := Attach(numeric, lat, lng, dist);
    var within := Within(attached, radius);
    WithinBound(attached, radius);
    var results := SortByDistance(within);
    assert Rank(rows, lat, lng, radius, dist) == results;
    forall x | x in results
      ensures x.row in rows && x.row.lat.Some? && x.row.lng.Some?
        && x.distanceKm == dist(lat, lng, x.row.lat.value, x.row.lng.value) && x.distanceKm <= radius
    {
      assert x in multiset(within);
      var i :| 0 <= i < |attached| && attached[i] == x;
      assert numeric[i] in numeric;
    }
  }

  /** Every numeric candidate within the radius is among the results. */
  lemma RankComplete(rows: seq<Candidate>, lat: real, lng: real, radius: real,
                     dist: (real, real, real, real) -> real, c: Candidate)
    requires c in rows && c.lat.Some? && c.lng.Some?
    requires dist(lat, lng, c.lat.value, c.lng.value) <= radius
    ensures Ranked(c, dist(lat, lng, c.lat.value, c.lng.value)) in Rank(rows, lat, lng, radius, dist)
  {
    var numeric := Numeric(rows);
    NumericHasCoordinates(rows);
    var attached := Attach(numeric, lat, lng, dist);
    var within := Within(attached, radius);
    WithinBound(attached, radius);
    var results := SortByDistance(within);
    assert Rank(rows, lat, lng, radius, dist) == results;
    var i :| 0 <= i < |numeric| && numeric[i] == c;
    assert attached[i] == Ranked(c, dist(lat, lng, c.lat.value, c.lng.value));
    assert attached[i] in attached;
    assert attached[i] in multiset(results);
  }

  /** What a successful search answers: the results are exactly the numeric
      candidates within the radius, each its row plus its distance from the
      centre, sorted by distance, and `count` is their number; an empty
      category is reported as `null`. */
  lemma SearchResults(params: Pairs, number: string -> Option<real>,
                      store: StoreQuery -> Result<seq<Candidate>, string>,
                      dist: (real, real, real, real) -> real)
    requires Validate(params, number).Ok?
    requires store(Validate(params, number).value).Ok?
    ensures var q := Validate(params, number).value;
      var rows := store(q).value;
      var r := Search(params, number, store, dist);
      && r.Found?
      && r.results == Rank(rows, q.lat, q.lng, q.radiusKm, dist)
      && r.count == |r.results|
      && (r.category.None? <==> q.category == "")
      && SortedByDistance(r.results)
      && (forall x :: x in r.results ==>
            x.row in rows && x.row.lat.Some? && x.row.lng.Some?
            && x.distanceKm == dist(q.lat, q.lng, x.row.lat.value, x.row.lng.value)
            && x.distanceKm <= q.radiusKm)
      && (forall c :: c in rows && c.lat.Some? && c.lng.Some?
            && dist(q.lat, q.lng, c.lat.value, c.lng.value) <= q.radiusKm
            ==> Ranked(c, dist(q.lat, q.lng, c.lat.value, c.lng.value)) in r.results)
  {
    var q := Validate(params, number).value;
    var rows := store(q).value;
    NumericHasCoordinates(rows);
    SortSorted(Within(Attach(Numeric(rows), q.lat, q.lng, dist), q.radiusKm));
    RankSound(rows, q.lat, q.lng, q.radiusKm, dist);
    forall c | c in rows && c.lat.Some? && c.lng.Some? && dist(q.lat, q.lng, c.lat.value, c.lng.value) <= q.radiusKm
      ensures Ranked(c, dist(q.lat, q.lng, c.lat.value, c.lng.value)) in Rank(rows, q.lat, q.lng, q.radiusKm, dist)
    {
      RankComplete(rows, q.lat, q.lng, q.radiusKm, dist, c);
    }
  }

  /** A store error is answered with 500 and the store's message. */
  lemma StoreErrorIsServerError(params: Pairs, number: string -> Option<real>,
                                store: StoreQuery -> Result<seq<Candidate>, string>,
                                dist: (real, real, real, real) -> real)
    requires Validate(params, number).Ok?
    requires store(Validate(params, number).value).Err?
    ensures Search(params, number, store, dist) == ServerError(store(Validate(params, number).value).error)
  {
  }
}
