/** The proxy route of app/api/route.ts: it resolves the city, category and
    language filters from aliased query parameters, answers an empty result
    at once when no filter is given, forwards the non-empty filters to the
    upstream CGI endpoint, and turns every upstream failure into an empty
    result with debugging details. */
module ProxyRoute {
  import opened Wrappers
  import opened UrlParams

  const Upstream := "https://uglydog.io/cgi-bin/hack.cgi"
  const NoFiltersNote := "No filters provided. Add ?city=...&category=...&lang=..."
  const BadJsonNote := "Upstream response was not valid JSON. See preview."
  const NetworkNote := "Failed to reach upstream (network issue or blocked)."
  const PreviewLength := 1200

  // ------------------------------------------------------------ resolution

  /** The three filters the route understands. */
  datatype Filters = Filters(city: string, category: string, lang: string)

  /** JavaScript `a ?? b`: `b` only when `a` is `null`. */
  function Coalesce(a: Option<string>, b: Option<string>): Option<string>
  {
    if a.Some? then a else b
  }

  /** The alias resolution: `category` before `categories`, and `language`
      before `languages` before `lang`; an absent filter is "". */
  function Resolve(q: Pairs): Filters
  {
    Filters(
      Lookup(q, "city").GetOr(""),
      Coalesce(Lookup(q, "category"), Lookup(q, "categories")).GetOr(""),
      Coalesce(Lookup(q, "language"), Coalesce(Lookup(q, "languages"), Lookup(q, "lang"))).GetOr(""))
  }

  /** `!city && !category && !lang`. */
  predicate NoFilters(f: Filters)
  {
    f.city == "" && f.category == "" && f.lang == ""
  }

  /** A present `category`, even an empty one, hides `categories`; only an
      absent `category` lets `categories` through. */
  lemma CategoryPrecedence(q: Pairs)
    ensures Lookup(q, "category").Some? ==> Resolve(q).category == Lookup(q, "category").value
    ensures Lookup(q, "category").None? && Lookup(q, "categories").Some?
            ==> Resolve(q).category == Lookup(q, "categories").value
    ensures Lookup(q, "category").None? && Lookup(q, "categories").None? ==> Resolve(q).category == ""
  {
  }

  /** `language` wins over `languages`, which wins over `lang`, and a later
      alias is read only when every earlier one is absent. */
  lemma LangPrecedence(q: Pairs)
    ensures Lookup(q, "language").Some? ==> Resolve(q).lang == Lookup(q, "language").value
    ensures Lookup(q, "language").None? && Lookup(q, "languages").Some?
            ==> Resolve(q).lang == Lookup(q, "languages").value
    ensures Lookup(q, "language").None? && Lookup(q, "languages").None? && Lookup(q, "lang").Some?
            ==> Resolve(q).lang == Lookup(q, "lang").value
    ensures Lookup(q, "language").None? && Lookup(q, "languages").None? && Lookup(q, "lang").None?
            ==> Resolve(q).lang == ""
  {
  }

  /** Appending an alias pair never overrides a filter already present: the
      fallback is taken only for an absent parameter, not for an empty one. */
  lemma {:induction false} AliasAfterPresent(q: Pairs, v: string)
    requires Lookup(q, "category").Some?
    ensures Resolve(q + [("categories", v)]).category == Lookup(q, "category").value
  {
    LookupAppend(q, "categories", v, "category");
  }

  /** With `category` absent, an appended `categories` pair is the category. */
  lemma {:induction false} AliasWhenAbsent(q: Pairs, v: string)
    requires Lookup(q, "category").None? && Lookup(q, "categories").None?
    ensures Resolve(q + [("categories", v)]).category == v
  {
    LookupAppend(q, "categories", v, "category");
    LookupAppend(q, "categories", v, "categories");
  }

  // -------------------------------------------------------- upstream query

  /** `if (v) upstream.searchParams.set(name, v)`. */
  function SetIfPresent(q: Pairs, name: string, v: string): Pairs
  {
    if v != "" then SetPair(q, name, v) else q
  }

  /** The upstream query after the three conditional `set` calls. */
  function UpstreamPairs(f: Filters): Pairs
  {
    SetIfPresent(SetIfPresent(SetIfPresent([], "city", f.city), "category", f.category), "language", f.lang)
  }

  /** The pair a non-empty filter contributes. */
  function Forward(name: string, v: string): Pairs
  {
    if v != "" then [(name, v)] else []
  }

  lemma {:induction false} SetIfFresh(q: Pairs, name: string, v: string)
    requires forall i :: 0 <= i < |q| ==> q[i].0 != name
    ensures SetIfPresent(q, name, v) == q + Forward(name, v)
  {
  }

  /** Exactly the non-empty filters are sent, in the order city, category,
      language, and the language filter travels under the name `language`. */
  lemma UpstreamForwarded(f: Filters)
    ensures UpstreamPairs(f) == Forward("city", f.city) + Forward("category", f.category) + Forward("language", f.lang)
    ensures forall i :: 0 <= i < |UpstreamPairs(f)| ==> UpstreamPairs(f)[i].1 != ""
    ensures Lookup(UpstreamPairs(f), "lang").None?
  {
    var a := Forward("city", f.city);
    SetIfFresh([], "city", f.city);
    assert [] + a == a;
    var b := Forward("category", f.category);
    SetIfFresh(a, "category", f.category);
    SetIfFresh(a + b, "language", f.lang);
  }

  /** The upstream URL is built on a fresh `URLSearchParams` by the three
      conditional `set` calls. */
  method BuildUpstream(f: Filters) returns (u: SearchParams)
    ensures fresh(u)
    ensures u.pairs == UpstreamPairs(f)
  {
    u := new SearchParams();
    if f.city != "" {
      u.Set("city", f.city);
    }
    if f.category != "" {
      u.Set("category", f.category);
    }
    if f.lang != "" {
      u.Set("language", f.lang);
    }
  }

  /** `upstream.toString()`; percent-encoding of names and values is given
      by `encode`. */
  function Href(q: Pairs, encode: string -> string): string
  {
    if |q| == 0 then Upstream else Upstream + "?" + Serialized(q, encode)
  }

  function Serialized(q: Pairs, encode: string -> string): string
    decreases |q|
  {
    if |q| == 0 then ""
    else if |q| == 1 then encode(q[0].0) + "=" + encode(q[0].1)
    else Serialized(q[..|q| - 1], encode) + "&" + encode(q[|q| - 1].0) + "=" + encode(q[|q| - 1].1)
  }

  // -------------------------------------------------------------- response

  /** What `fetch` produced: a thrown error with its message, or a reply
      with status, `content-type` header and body. */
  datatype Reply = NetworkError(message: string) | Reply(status: int, contentType: Option<string>, text: string)

  /** The `meta` object of a locally built answer. */
  datatype Meta = Meta(count: nat, upstreamUrl: Option<string>, upstreamStatus: Option<int>,
                       upstreamContentType: Option<string>, note: string)

  /** The JSON body: the parsed upstream body forwarded unchanged, or a local
      report with its `meta`, `results` and optional preview or error. */
  datatype Body<J> =
    | Forwarded(json: J)
    | Report(meta: Meta, results: seq<J>, preview: Option<string>, error: Option<string>)

  datatype Response<J> = Response(status: int, body: Body<J>)

  /** `text.slice(0, 1200)`. */
  function Preview(text: string): (p: string)
    ensures |p| <= PreviewLength
    ensures p <= text
    ensures |text| <= PreviewLength ==> p == text
    ensures |text| > PreviewLength ==> |p| == PreviewLength
  {
    if |text| <= PreviewLength then text else text[..PreviewLength]
  }

  /** `r.headers.get("content-type") || ""`. */
  function ContentType(h: Option<string>): string
  {
    h.GetOr("")
  }

  /** The route on the incoming query, with `fetch` answering the upstream
      URL and `parse` standing for `JSON.parse`. */
  function Proxy<J>(q: Pairs, fetch: string -> Reply, parse: string -> Option<J>,
                    encode: string -> string): (r: Response<J>)
    ensures r.status == 200
    ensures r.body.Report? ==> r.body.meta.count == 0 && r.body.results == []
    ensures r.body.Report? && r.body.meta.upstreamUrl.Some? ==>
      r.body.meta.upstreamUrl.value == Href(UpstreamPairs(Resolve(q)), encode)
  {
    var f := Resolve(q);
    if NoFilters(f) then
      Response(200, Report(Meta(0, None, None, None, NoFiltersNote), [], None, None))
    else
      var url := Href(UpstreamPairs(f), encode);
      match fetch(url)
      case NetworkError(m) =>
        Response(200, Report(Meta(0, Some(url), Some(0), Some("none"), NetworkNote), [], None, Some(m)))
      case Reply(st, ct, text) =>
        match parse(text)
        case Some(j) => Response(200, Forwarded(j))
        case None =>
          Response(200, Report(Meta(0, Some(url), Some(st), Some(ContentType(ct)), BadJsonNote),
                               [], Some(Preview(text)), None))
  }

  // ------------------------------------------------------------ properties

  /** Without filters the answer is the fixed empty result, whatever the
      upstream would have said: the upstream is not consulted. */
  lemma NoFiltersShortCircuit<J>(q: Pairs, fetch1: string -> Reply, fetch2: string -> Reply,
                                 parse: string -> Option<J>, encode: string -> string)
    requires NoFilters(Resolve(q))
    ensures Proxy(q, fetch1, parse, encode) == Proxy(q, fetch2, parse, encode)
    ensures Proxy(q, fetch1, parse, encode)
         == Response(200, Report(Meta(0, None, None, None, NoFiltersNote), [], None, None))
  {
  }

  /** With a filter, the upstream is asked at the URL of the forwarded
      filters, and a body that parses is passed on unchanged. */
  lemma ParsedIsForwarded<J>(q: Pairs, fetch: string -> Reply, parse: string -> Option<J>,
                             encode: string -> string)
    requires !NoFilters(Resolve(q))
    requires fetch(Href(UpstreamPairs(Resolve(q)), encode)).Reply?
    requires parse(fetch(Href(UpstreamPairs(Resolve(q)), encode)).text).Some?
    ensures Proxy(q, fetch, parse, encode)
         == Response(200, Forwarded(parse(fetch(Href(UpstreamPairs(Resolve(q)), encode)).text).value))
  {
  }

  /** Every answer has status 200; every locally built answer has count 0
      and no results; the body is forwarded exactly when a filter was given
      and the upstream body parsed. */
  lemma NeverAnError<J>(q: Pairs, fetch: string -> Reply, parse: string -> Option<J>,
                        encode: string -> string)
    ensures Proxy(q, fetch, parse, encode).status == 200
    ensures Proxy(q, fetch, parse, encode).body.Report? ==>
      Proxy(q, fetch, parse, encode).body.meta.count == 0 && Proxy(q, fetch, parse, encode).body.results == []
    ensures Proxy(q, fetch, parse, encode).body.Forwarded? <==>
      !NoFilters(Resolve(q))
      && fetch(Href(UpstreamPairs(Resolve(q)), encode)).Reply?
      && parse(fetch(Href(UpstreamPairs(Resolve(q)), encode)).text).Some?
  {
    if !NoFilters(Resolve(q)) {
      var reply := fetch(Href(UpstreamPairs(Resolve(q)), encode));
      if reply.Reply? && parse(reply.text).Some? {
        ParsedIsForwarded(q, fetch, parse, encode);
      }
    }
  }

  /** A body that does not parse is reported with the upstream status and
      content type and its first 1200 characters (all of it when shorter). */
  lemma BadJsonReport<J>(q: Pairs, fetch: string -> Reply, parse: string -> Option<J>,
                         encode: string -> string)
    requires !NoFilters(Resolve(q))
    requires fetch(Href(UpstreamPairs(Resolve(q)), encode)).Reply?
    requires parse(fetch(Href(UpstreamPairs(Resolve(q)), encode)).text).None?
    ensures var reply := fetch(Href(UpstreamPairs(Resolve(q)), encode));
      var b := Proxy(q, fetch, parse, encode).body;
      && b.Report? && b.meta.note == BadJsonNote
      && b.meta.upstreamStatus == Some(reply.status)
      && b.meta.upstreamContentType == Some(ContentType(reply.contentType))
      && b.preview.Some? && b.preview.value <= reply.text
      && |b.preview.value| == (if |reply.text| <= PreviewLength then |reply.text| else PreviewLength)
  {
  }

  /** A network failure is reported with status 0, content type "none" and
      the failure's message. */
  lemma NetworkFailureReport<J>(q: Pairs, fetch: string -> Reply, parse: string -> Option<J>,
                                encode: string -> string)
    requires !NoFilters(Resolve(q))
    requires fetch(Href(UpstreamPairs(Resolve(q)), encode)).NetworkError?
    ensures var b := Proxy(q, fetch, parse, encode).body;
      && b.Report? && b.meta.note == NetworkNote
      && b.meta.upstreamStatus == Some(0) && b.meta.upstreamContentType == Some("none")
      && b.error == Some(fetch(Href(UpstreamPairs(Resolve(q)), encode)).message)
  {
  }
}
