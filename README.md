# Community resource finder — a Dafny model

This project is a model of the data path of a small community-resource finder for Santa
Clara County. The model covers six parts of the program:

- `backend/Backend.java`, a command-line filter over a CSV file of resources. It reads
  `-f <file>` and `-key K -value V` pairs, keeps the rows whose cells match every filter and
  prints `{"meta":…,"results":[…]}`, or `{"error":"…"}` when something goes wrong.
- `app/api/meta/route.ts`, which parses the same CSV (with quotes) and returns the sorted,
  distinct cities, categories and languages found in it.
- `app/api/search/route.ts`, which validates `lat`, `lng` and `radius_km`, asks a store for
  candidates, and returns those within the radius, nearest first.
- `app/api/route.ts`, a proxy. It resolves `city`, `category` and `language` from query
  parameters under their aliases, forwards them upstream, and always answers with status 200.
- `app/api/results.tsx`, which filters the static resource list by `city`, `category` and
  `lang`.
- `app/search/page.tsx`, the picker logic (the options offered, adding, removing) and the
  search button that validates the choices and builds the `/result` URL.

Each component is one module:

- `BackendCsv`, `BackendFilter`, `BackendRows`, `BackendJson` and `BackendMain` model the Java
  program.
- `MetaRoute`, `SearchRoute`, `ProxyRoute`, `ResultsFilter` and `SearchPage` model the web
  code.
- `Text`, `Lists`, `UrlParams` and `Wrappers` are shared:
  - `Text` holds the two trims (Java's and ECMAScript's), ASCII lower-casing, substring
    search, split, join and the UTF-16 code-unit order of the default sort.
  - `Lists` holds the subsequence relation.
  - `UrlParams` models `URLSearchParams` as an ordered list of pairs.
  - `Wrappers` holds `Option` and `Result`.

Where the Java program builds its output with loops it is modelled by methods with loop
invariants. Each such method is proved equal to a recursive specification function, and the
properties are proved about those functions. The recursive, expression-style TypeScript
becomes functions and lemmas. Two objects updated in place become classes:
`URLSearchParams` (`UrlParams.SearchParams`) and the search page's state
(`SearchPage.SearchForm`).

Library routines the program calls are parameters of the model:

- `URLDecoder.decode`, `Double.parseDouble`/`Double.toString`, JavaScript `Number`.
- `JSON.parse`, `fetch`, URL percent-encoding.
- The haversine distance and the database query.
- The file system: a file is an `Option` of its lines or text.

Two behaviours of the code a reader might expect otherwise:

- The search route keeps a candidate only when its `lat` and `lng` are numbers. A
  string-typed coordinate is dropped, not converted (`SearchRoute.Numeric`).
- The meta route indexes `rows[0]`, so an empty or blank file is modelled as a failure
  (`MetaRoute.BlankTextFails`).

## Model

| member | source | states |
|---|---|---|
| BackendCsv.CsvFields | backend/Backend.java:204-228 | a line splits into exactly one more field than it has commas outside quotes |
| BackendCsv.ParseCsvLine | backend/Backend.java:204-228 | the character loop computes the quote-aware field split, with one field per unquoted comma plus one |
| BackendCsv.NoQuoteFields | backend/Backend.java:204-228 | on a line without quotes the parser is a plain split on commas |
| BackendCsv.NoQuoteRoundTrip | backend/Backend.java:204-228 | joining the fields of a quote-free line with commas gives the line back |
| BackendCsv.QuotedRoundTrip | backend/Backend.java:210-222 | fully quoted fields, embedded quotes doubled, parse back to exactly the original fields, commas and quotes included |
| BackendCsv.QuotesCopied | backend/Backend.java:212-219 | for every line, the fields hold exactly as many quote characters as the line has doubled quotes inside quotes; every other quote only toggles the quote state |
| BackendCsv.QuotesOnlyFromDoubled | backend/Backend.java:212-219 | a line with no doubled quote inside quotes, such as `a,"",b` or `a""b`, yields fields without any quote character |
| BackendCsv.EmptyQuotedField | backend/Backend.java:212-220 | `a,"",b` splits into `a`, an empty field and `b` |
| BackendCsv.MidFieldQuotes | backend/Backend.java:212-219 | `a""b` outside quotes is the single field `ab` |
| BackendCsv.SplitCommaTokens | backend/Backend.java:136-143 | the tokens are the trimmed non-empty comma-separated pieces; none is empty, untrimmed or holds a comma |
| Text.SplitJoin | backend/Backend.java:138 | splitting a comma-free list joined by commas recovers the list |
| Text.JoinSplit | backend/Backend.java:138 | joining the split pieces with the separator restores the string |
| Text.TokensOfJoin | app/search/page.tsx:216-217 | trimmed, non-empty, comma-free selections joined by commas are split back into the same list |
| Text.TokenContained | app/api/meta/route.ts:70-80 | every token of a comma list occurs as a substring of that list |
| Text.TrimIdempotent | backend/Backend.java:107-108 | trimming an already trimmed string changes nothing |
| BackendFilter.NormalizeKeyTable | backend/Backend.java:146-159 | a key is trimmed and lower-cased, then mapped through the alias table, or kept when it is no alias |
| BackendFilter.AliasKeys | backend/Backend.java:150-156 | the alias table has exactly the nine aliases the code lists |
| BackendFilter.AliasTargets | backend/Backend.java:150-156 | each alias maps to a canonical header name that is not itself an alias |
| BackendFilter.NormalizeKeyCanonical | backend/Backend.java:146-159 | a normalized key is always trimmed lower-case text |
| BackendFilter.NormalizeKeyIdempotent | backend/Backend.java:146-159 | normalizing twice is the same as normalizing once |
| BackendFilter.MatchesCell | backend/Backend.java:106-134 | the method decides the cell test: a blank want matches; list keys match a token ignoring case, or else a substring; exact keys compare ignoring case; others test substring |
| BackendFilter.ListMatchIsContainment | backend/Backend.java:118-125 | for list keys the token test adds nothing: a match is exactly a blank want or case-insensitive containment |
| BackendFilter.BlankWantMatches | backend/Backend.java:110 | an empty or all-space filter value matches every cell |
| BackendFilter.MatchesAll | backend/Backend.java:89-104 | the loop's answer is the conjunction of the filter tests over the normalized keys |
| BackendFilter.AllHoldIsConjunction | backend/Backend.java:89-104 | a row passes exactly when every filter holds |
| BackendFilter.AllHoldOrderIndependent | backend/Backend.java:89-104 | the order and repetition of filters do not change the verdict |
| BackendFilter.MissingKeyRejects | backend/Backend.java:95 | a filter on a column the row lacks rejects the row |
| BackendRows.NormalizeHeaders | backend/Backend.java:173-175 | header names come out trimmed and lower-case, one per raw header |
| BackendRows.RowKeys | backend/Backend.java:184-189 | a row's keys are exactly the header names |
| BackendRows.RowValue | backend/Backend.java:184-189 | under the last header of a name the row holds that column's cell, or "" when the line is short |
| BackendRows.ReadCsv | backend/Backend.java:163-198 | a missing file and an empty file give their error messages; otherwise the loop builds the specified row list |
| BackendRows.RowsSound | backend/Backend.java:179-196 | every row kept comes from a non-blank line, has all headers as keys and has non-blank lat and lng |
| BackendRows.RowsComplete | backend/Backend.java:179-196 | every non-blank line whose lat and lng are non-blank yields a row |
| BackendJson.EscapeJson | backend/Backend.java:322-341 | the loop produces the escaped form of the string |
| BackendJson.EscapeRoundTrip | backend/Backend.java:322-341 | unescaping the escaped string with JSON's rules gives back the original string |
| BackendJson.EscapeNoControl | backend/Backend.java:332-337 | no control character survives escaping |
| BackendJson.EscapeAppend | backend/Backend.java:322-341 | escaping distributes over concatenation |
| BackendJson.PlainCopied | backend/Backend.java:336 | a character that needs no escape is copied into the output unchanged |
| BackendJson.StringLiteralRoundTrip | backend/Backend.java:303-312 | a quoted string value is a JSON string literal that decodes to the original |
| BackendJson.ListToJsonArray | backend/Backend.java:303-312 | the loop writes the JSON array of the items as string literals |
| BackendJson.RowToJson | backend/Backend.java:261-301 | the loop writes the serialization of the row's JSON object |
| BackendJson.RowObjectShape | backend/Backend.java:261-301 | the object has exactly the known fields the row holds non-blank, with no key repeated; category and language lists are arrays of trimmed, non-empty strings |
| BackendJson.HexRoundTrip | backend/Backend.java:334 | each four-digit hex escape digit reads back as its value |
| BackendJson.DecimalRoundTrip | backend/Backend.java:236 | the decimal text of the count reads back as the count |
| BackendJson.PrintJson | backend/Backend.java:233-259 | the output is the serialization of `{"meta":{"count":…,"filters":{…}},"results":[…]}` |
| BackendJson.SerializeDocument | backend/Backend.java:233-259 | the document text has the count, the filter object and the result rows in the order the code writes them |
| BackendJson.ErrorTextIsJson | backend/Backend.java:343-351 | the error output is the JSON object with one `error` string, null becoming "" |
| BackendMain.ParseArgs | backend/Backend.java:39-65 | the argument loop computes the specified configuration or the first error message |
| BackendMain.ArgsRoundTrip | backend/Backend.java:39-61 | `-f file` followed by rendered `-key/-value` pairs parses back to that file and the decoded filters, in order |
| BackendMain.MissingFile | backend/Backend.java:63-65 | well-formed `-key/-value` arguments with no `-f` end with "Missing -f <csvfile>" |
| BackendMain.BlankFile | backend/Backend.java:63-65 | `-f` with a blank path, whatever filters follow, also ends with "Missing -f <csvfile>" |
| BackendMain.ParsedFile | backend/Backend.java:39-65 | for every argument list, an accepted configuration has a non-blank path that is the argument after some `-f` or `-file`; with no such flag, or only blank paths, the arguments are refused |
| BackendMain.LastFileWins | backend/Backend.java:42-44 | a later `-f` replaces an earlier one |
| BackendMain.UnknownArgument | backend/Backend.java:57-60 | any other argument is an error naming it |
| BackendMain.KeyWithoutValue | backend/Backend.java:49-56 | `-key K` not followed by `-value` is an error naming K |
| BackendMain.FilterRows | backend/Backend.java:71-76 | the loop keeps exactly the specified matched rows |
| BackendMain.MatchedMembers | backend/Backend.java:71-76 | a row is output exactly when it is a CSV row that passes every filter |
| BackendMain.MatchedSubsequence | backend/Backend.java:71-76 | the output keeps the file's row order |
| BackendMain.MatchedCount | backend/Backend.java:71-76 | a passing row is output as many times as it occurs in the file, a failing row never |
| BackendMain.NoFiltersKeepsAll | backend/Backend.java:71-76 | with no filters every row is output |
| BackendMain.Run | backend/Backend.java:33-85 | the program prints the document for the matched rows, or the error text of the first failure |
| BackendMain.ArgumentErrorIgnoresFiles | backend/Backend.java:39-65 | a bad command line fails before any file is consulted |
| MetaRoute.ScanRecords | app/api/meta/route.ts:6-40 | the character loop computes the specified record list |
| MetaRoute.RecordsNonBlank | app/api/meta/route.ts:32-40 | only records with a non-blank cell are kept |
| MetaRoute.QuotedRoundTrip | app/api/meta/route.ts:6-40 | records of quoted fields, each ended by a line break, parse back to those that have a non-blank cell |
| MetaRoute.UnterminatedLastRecord | app/api/meta/route.ts:39-40 | a last record without a trailing line break is still kept |
| MetaRoute.ParseCsv | app/api/meta/route.ts:6-48 | the parser yields the specified objects, or a failure when there is no header record |
| MetaRoute.ObjectsShape | app/api/meta/route.ts:42-47 | one object per data record; its keys are the trimmed headers; each value is trimmed and is the cell under the last header of that name, "" when missing |
| MetaRoute.BlankTextFails | app/api/meta/route.ts:20-42 | a file made only of JavaScript white space and line breaks (space, tab, CR, LF, CRLF, NBSP and the rest of what `trim` removes) has no header record |
| MetaRoute.CitySet | app/api/meta/route.ts:68 | the cities are distinct and are exactly the non-empty city values |
| MetaRoute.TokenSet | app/api/meta/route.ts:70-80 | the tokens are distinct and are exactly the trimmed non-empty pieces of the column |
| MetaRoute.CollectFacets | app/api/meta/route.ts:63-81 | the loop gathers exactly the specified city, category and language sets |
| MetaRoute.SortStringsCorrect | app/api/meta/route.ts:84-86 | sorting yields lexicographic order and keeps distinctness |
| MetaRoute.SortStrings | app/api/meta/route.ts:84-86 | sorting is a permutation: the same elements, each as often |
| MetaRoute.MetaGet | app/api/meta/route.ts:50-88 | the handler answers with the specified missing-file error or facet lists |
| MetaRoute.FacetsCorrect | app/api/meta/route.ts:63-87 | the three lists are sorted and distinct, each holds exactly the values or tokens of its column, and tokens are trimmed, non-empty and comma-free |
| Text.CodeUnits | app/api/meta/route.ts:84-86 | a character is one code unit below U+10000 and above it a surrogate pair: a high surrogate in D800-DBFF followed by a low surrogate in DC00-DFFF |
| Text.Utf16Injective | app/api/meta/route.ts:84-86 | different strings have different UTF-16 code units |
| Text.LexTotal | app/api/meta/route.ts:84-86 | the code-unit order of the default sort compares any two strings |
| Text.LexTransitive | app/api/meta/route.ts:84-86 | the code-unit order is transitive |
| Text.LexAntisymmetric | app/api/meta/route.ts:84-86 | two strings each at most the other are equal |
| Text.SurrogatesSortFirst | app/api/meta/route.ts:84-86 | a character above U+FFFF sorts before U+FF01, because the order compares code units, not code points |
| SearchRoute.CategoryOf | app/api/search/route.ts:59 | the category parameter is used trimmed and lower-case |
| SearchRoute.ValidateCases | app/api/search/route.ts:57-71 | missing or non-finite lat/lng gives the lat/lng error; otherwise a radius outside (0, 50] gives the radius error; otherwise the query is valid |
| SearchRoute.NumericHasCoordinates | app/api/search/route.ts:103 | exactly the candidates with numeric coordinates go on |
| SearchRoute.WithinBound | app/api/search/route.ts:108 | exactly the candidates within the radius are kept |
| SearchRoute.SortSorted | app/api/search/route.ts:109 | results are in non-decreasing distance |
| SearchRoute.SortByDistance | app/api/search/route.ts:109 | sorting is a permutation |
| SearchRoute.SortStable | app/api/search/route.ts:109 | results at the same distance keep the store's order |
| SearchRoute.RankSound | app/api/search/route.ts:102-109 | every result is a store row with coordinates, carries its computed distance and lies within the radius |
| SearchRoute.RankComplete | app/api/search/route.ts:102-109 | every store row with coordinates within the radius is among the results |
| SearchRoute.SearchResults | app/api/search/route.ts:99-117 | a valid query the store answers gives the sorted, sound and complete result list, its length as count, and a null category exactly when none was given |
| SearchRoute.StoreErrorIsServerError | app/api/search/route.ts:94-97 | a store error is reported as a server error with its message |
| SearchRoute.ValidationFirst | app/api/search/route.ts:63-71 | a query that fails validation is answered with 400 whatever the store holds: the store is not consulted |
| SearchRoute.Defaults | app/api/search/route.ts:60-61 | with an absent or non-numeric `radius_km` and `limit` the radius is 5 and the limit 50, and numeric coordinates are accepted |
| SearchRoute.RadiusFiftyAccepted | app/api/search/route.ts:69 | a radius of exactly 50 is accepted, since only a radius above 50 is refused |
| UrlParams.Lookup | app/api/route.ts:8-19 | `get` finds nothing exactly when the name is absent, and otherwise returns the first pair's value |
| UrlParams.SetPairProperties | app/api/route.ts:29-32 | after `set` the name has the new value and occurs once; other names read as before |
| UrlParams.LookupAppend | app/api/route.ts:10-13 | an appended pair is seen by `get` only when the name was absent, so a repeated parameter reads as its first value |
| UrlParams.SearchParams.Set | app/search/page.tsx:213-217 | `set` on the parameter object replaces its pairs by those of the pair-list `set`, whose properties `SetPairProperties` states |
| ProxyRoute.AliasAfterPresent | app/api/route.ts:10-13 | a `categories` parameter is ignored once `category` is present |
| ProxyRoute.AliasWhenAbsent | app/api/route.ts:10-13 | a `categories` parameter is used when `category` is absent |
| ProxyRoute.UpstreamForwarded | app/api/route.ts:29-32 | the upstream query holds city, category and language, in that order, each only when non-empty, and never `lang` |
| ProxyRoute.BuildUpstream | app/api/route.ts:29-32 | the three conditional `set` calls on a fresh parameter list build the upstream query |
| ProxyRoute.CategoryPrecedence | app/api/route.ts:10-13 | `category`, even empty, takes precedence over `categories`; with neither the category is "" |
| ProxyRoute.LangPrecedence | app/api/route.ts:15-19 | `language` takes precedence over `languages`, which takes precedence over `lang`; with none the language is "" |
| ProxyRoute.Proxy | app/api/route.ts:5-78 | every answer has status 200; a locally built answer has count 0 and no results, and the upstream URL it reports is the one built from the resolved filters |
| ProxyRoute.NoFiltersShortCircuit | app/api/route.ts:22-27 | without filters the answer is the fixed empty result with its note, the same whatever the upstream would answer |
| ProxyRoute.ParsedIsForwarded | app/api/route.ts:34-49 | with a filter, a reply whose body parses is forwarded unchanged |
| ProxyRoute.NeverAnError | app/api/route.ts:22-77 | status 200 in every case; the body is forwarded exactly when a filter was given, the upstream replied and its body parsed |
| ProxyRoute.BadJsonReport | app/api/route.ts:50-63 | a body that does not parse is reported with the upstream status, the content type ("" when absent), the note and a preview that is the first 1200 characters of the body, or all of it when shorter |
| ProxyRoute.NetworkFailureReport | app/api/route.ts:64-77 | a failed fetch is reported with status 0, content type "none", the note and the failure's message |
| ProxyRoute.Preview | app/api/route.ts:61 | the preview is the prefix of the body of length min(length, 1200): exactly 1200 characters for a longer body, the whole body when shorter |
| ResultsFilter.Select | app/api/results.tsx:16-21 | the filter never adds entries |
| ResultsFilter.SelectMembership | app/api/results.tsx:16-21 | an entry is selected exactly when it is in the list and passes the city, category and language tests |
| ResultsFilter.SelectCount | app/api/results.tsx:16-21 | a matching entry is selected as many times as it is listed, any other entry never |
| ResultsFilter.SelectIsSubsequence | app/api/results.tsx:16-21 | the selection keeps the list's order |
| ResultsFilter.UnsetKeepsAll | app/api/results.tsx:11-21 | missing or empty parameters select the whole list |
| ResultsFilter.SetParameters | app/api/results.tsx:17-20 | with all three parameters set, an entry passes exactly when its city and category are equal to them and its languages contain the language |
| ResultsFilter.CityIsCaseSensitive | app/api/results.tsx:17 | city comparison is exact, so "san jose" does not select a "San Jose" entry |
| ResultsFilter.SampleSanJoseFood | app/csvdata.js:8-67 | on the first six list entries, San Jose food with no language selects the five San Jose entries, in order |
| ResultsFilter.SampleCupertino | app/csvdata.js:8-67 | on the first six list entries, Cupertino with an empty language selects only the Cupertino entry |
| SearchPage.AvailableMembership | app/search/page.tsx:29-34 | an option is offered exactly when it is unselected and case-insensitively contains the trimmed query |
| SearchPage.AvailableCount | app/search/page.tsx:29-34 | an unselected option containing the query is offered as many times as it is listed, any other option never |
| SearchPage.AvailableInOrder | app/search/page.tsx:29-34 | the offered options keep the option order |
| SearchPage.BlankQueryKeepsUnselected | app/search/page.tsx:29-34 | an all-space query offers every unselected option |
| SearchPage.AddKeepsDistinct | app/search/page.tsx:36-41 | adding keeps the selection duplicate-free and selects the option; a present option changes nothing, a new one is appended and clears the query and closes the list |
| SearchPage.RemoveProperties | app/search/page.tsx:43-45 | removing keeps exactly the other values, in order |
| SearchPage.WithoutCount | app/search/page.tsx:43-45 | removing drops every occurrence of the value and keeps every other value as many times as it occurred |
| SearchPage.RemoveAbsent | app/search/page.tsx:43-45 | removing an unselected value changes nothing |
| SearchPage.RemoveUndoesAdd | app/search/page.tsx:36-45 | removing a just added value restores the selection |
| SearchPage.SearchOutcomeCases | app/search/page.tsx:205-219 | the search fails with the fixed message exactly when the city, categories or languages are missing; otherwise it goes to `/result` with `city`, `category` and `lang`, the lists comma-joined |
| SearchPage.SearchQueryRoundTrip | app/search/page.tsx:213-218 | selections that are trimmed, non-empty and comma-free are read back unchanged by splitting the parameters on commas |
| SearchPage.SearchForm.OnSearch | app/search/page.tsx:205-219 | the error is cleared and then set with no navigation, or left empty with the destination set, as the outcome decides |

## Left out

- `haversineKm` and `boundingBox` (search route): floating-point trigonometry. The distance is
  a parameter. The bounding box only narrows the store query, so it is part of the abstract
  store, together with the `limit` and the `ilike` category filter.
- The database client, `fetch`, `JSON.parse`, `Number`, `URLDecoder.decode`,
  `Double.parseDouble` and `Double.toString`, URL percent-encoding and `String(e?.message || e)`
  are parameters of the functions that use them, taken as given.
- ProxyRoute.Preview: counts characters, not UTF-16 code units. Characters outside the Basic
  Multilingual Plane would count once here and twice in JavaScript.
- ProxyRoute.Proxy: the response function uses the pair-list definition that
  `ProxyRoute.BuildUpstream`'s contract equates with the `URLSearchParams` calls.
- File I/O, line splitting by `readLine`, `process.cwd()`, printing to standard output and
  `System.exit`: a file is its lines (Java) or its text (meta route), and the printed text is
  the result.
- The `catch (Exception e)` branch of `main` ("Server error: …"): no modelled step throws, apart
  from the abstract routines, whose failures are folded into their results.
- BackendJson.RowToJson: a number is written with the abstract `Double.toString`, including
  Java's `NaN` and `Infinity`, which are not JSON.
- Text.Lower: lower-cases ASCII letters only; Java's `toLowerCase`/`equalsIgnoreCase` and
  JavaScript's `toLowerCase` also fold other letters.
- BackendJson.EscapeRoundTrip: unescaping works on whole characters, so surrogate pairs written
  as two escapes are not modelled.
- MetaRoute.ObjectOf: a header named `__proto__` or `constructor`, which JavaScript objects
  treat specially, is an ordinary key here.
- ResultsFilter.SampleSanJoseFood: uses the first six entries of the static list; the later
  entries are not part of the sample.
- The React rendering, the click-outside listener, `useEffect` loading of the metadata and
  the result page with its map are user interface, not data logic.
- ResultsFilter.Query: holds what `searchParams.get` returned (`Some(v)` or `None`) rather than
  the pair list. Which of several repeated parameters is read is stated once, by
  `UrlParams.Lookup`, which the search route and the proxy use.
