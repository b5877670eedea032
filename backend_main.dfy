/** `main` of backend/Backend.java: the `-f` / `-key K -value V` argument
    loop, then load, filter and print. `dieJson` ends the program, so each
    of its calls is an `Err` carrying the message. */
module BackendMain {
  import opened Wrappers
  import opened Text
  import opened Lists
  import BackendRows
  import BackendFilter
  import BackendJson

  /** What the argument loop collects: the CSV path and the filters in
      command-line order, values already URL-decoded. */
  datatype Config = Config(file: string, filters: seq<BackendFilter.Filter>)

  /** The argument loop from index `i` on, having seen the path `file` (if
      any) and the filters `filters`; `decode` stands for
      `URLDecoder.decode`, which falls back to its input on failure. */
  function ParseFrom(args: seq<string>, i: nat, file: Option<string>, filters: seq<BackendFilter.Filter>,
                     decode: string -> string): Result<Config, string>
    requires i <= |args|
    decreases |args| - i
  {
    if i == |args| then
      if file.None? || Blank(Java, file.value) then Err("Missing -f <csvfile>")
      else Ok(Config(file.value, filters))
    else
      var a := args[i];
      if a == "-f" || a == "-file" then
        if i + 1 >= |args| then Err("Missing value after " + a)
        else ParseFrom(args, i + 2, Some(args[i + 1]), filters, decode)
      else if a == "-key" then
        if i + 1 >= |args| then Err("Missing value after -key")
        else
          var key := args[i + 1];
          if i + 2 < |args| && args[i + 2] == "-value" then
            if i + 3 >= |args| then Err("Missing value after -value")
            else ParseFrom(args, i + 4, file, filters + [BackendFilter.Filter(key, decode(args[i + 3]))], decode)
          else Err("Expected -value after -key " + key)
      else Err("Unknown argument: " + a)
  }

  function ParseArgsSpec(args: seq<string>, decode: string -> string): Result<Config, string>
  {
    ParseFrom(args, 0, None, [], decode)
  }

  method ParseArgs(args: seq<string>, decode: string -> string) returns (res: Result<Config, string>)
    ensures res == ParseArgsSpec(args, decode)
  {
    var filters: seq<BackendFilter.Filter> := [];
    var file: Option<string> := None;
    var i := 0;
    while i < |args|
      invariant 0 <= i <= |args|
      invariant ParseFrom(args, i, file, filters, decode) == ParseArgsSpec(args, decode)
      decreases |args| - i
    {
      var a := args[i];
      if a == "-f" || a == "-file" {
        if i + 1 >= |args| {
          return Err("Missing value after " + a);
        }
        i := i + 1;
        file := Some(args[i]);
      } else if a == "-key" {
        if i + 1 >= |args| {
          return Err("Missing value after -key");
        }
        i := i + 1;
        var key := args[i];
        if i + 1 < |args| && args[i + 1] == "-value" {
          i := i + 1;
          if i + 1 >= |args| {
            return Err("Missing value after -value");
          }
          i := i + 1;
          var value := args[i];
          filters := filters + [BackendFilter.Filter(key, decode(value))];
        } else {
          return Err("Expected -value after -key " + key);
        }
      } else {
        return Err("Unknown argument: " + a);
      }
      i := i + 1;
    }
    if file.None? || Trim(Java, file.value) == "" {
      return Err("Missing -f <csvfile>");
    }
    return Ok(Config(file.value, filters));
  }

  // ------------------------------------------------------- argument round trip

  /** The arguments `-key k -value v` for each pair, in order. */
  function RenderFilters(pairs: seq<(string, string)>): seq<string>
  {
    if |pairs| == 0 then []
    else ["-key", pairs[0].0, "-value", pairs[0].1] + RenderFilters(pairs[1..])
  }

  function Decoded(pairs: seq<(string, string)>, decode: string -> string): seq<BackendFilter.Filter>
  {
    seq(|pairs|, i requires 0 <= i < |pairs| => BackendFilter.Filter(pairs[i].0, decode(pairs[i].1)))
  }

  lemma {:induction false} ParseRendered(pre: seq<string>, pairs: seq<(string, string)>, file: Option<string>,
                                         done: seq<BackendFilter.Filter>, decode: string -> string)
    ensures ParseFrom(pre + RenderFilters(pairs), |pre|, file, done, decode)
         == ParseFrom(pre + RenderFilters(pairs), |pre + RenderFilters(pairs)|, file, done + Decoded(pairs, decode), decode)
    decreases |pairs|
  {
    var args := pre + RenderFilters(pairs);
    if |pairs| == 0 {
      assert args == pre;
      assert done + Decoded(pairs, decode) == done;
    } else {
      var p := pairs[0];
      var pre' := pre + ["-key", p.0, "-value", p.1];
      assert args == pre' + RenderFilters(pairs[1..]);
      var f := BackendFilter.Filter(p.0, decode(p.1));
      assert args[|pre|] == "-key" && args[|pre| + 1] == p.0 && args[|pre| + 2] == "-value" && args[|pre| + 3] == p.1;
      ParseRendered(pre', pairs[1..], file, done + [f], decode);
      assert Decoded(pairs, decode) == [f] + Decoded(pairs[1..], decode);
      assert done + [f] + Decoded(pairs[1..], decode) == done + Decoded(pairs, decode);
    }
  }

  /** `-f path` followed by `-key k -value v` pairs parses back to the path
      and the pairs with decoded values, in order, whatever the keys and
      values hold. */
  lemma ArgsRoundTrip(file: string, pairs: seq<(string, string)>, decode: string -> string)
    requires !Blank(Java, file)
    ensures ParseArgsSpec(["-f", file] + RenderFilters(pairs), decode) == Ok(Config(file, Decoded(pairs, decode)))
  {
    var args := ["-f", file] + RenderFilters(pairs);
    assert args[0] == "-f" && args[1] == file;
    ParseRendered(["-f", file], pairs, Some(file), [], decode);
    assert [] + Decoded(pairs, decode) == Decoded(pairs, decode);
  }

  /** Without `-f`, well-formed filter arguments still fail, at the end. */
  lemma MissingFile(pairs: seq<(string, string)>, decode: string -> string)
    ensures ParseArgsSpec(RenderFilters(pairs), decode) == Err("Missing -f <csvfile>")
  {
    var args := RenderFilters(pairs);
    assert [] + args == args;
    ParseRendered([], pairs, None, [], decode);
    assert ParseFrom(args, |args|, None, [] + Decoded(pairs, decode), decode) == Err("Missing -f <csvfile>");
  }

  /** `-f` followed by a blank path is refused as a missing file. */
  lemma BlankFile(file: string, pairs: seq<(string, string)>, decode: string -> string)
    requires Blank(Java, file)
    ensures ParseArgsSpec(["-f", file] + RenderFilters(pairs), decode) == Err("Missing -f <csvfile>")
  {
    var args := ["-f", file] + RenderFilters(pairs);
    assert args[0] == "-f" && args[1] == file;
    ParseRendered(["-f", file], pairs, Some(file), [], decode);
  }

  /** A flag `-f` or `-file` at index `j`, followed by `file`. */
  predicate FileFlagAt(args: seq<string>, j: int, file: string)
  {
    0 <= j < |args| - 1 && (args[j] == "-f" || args[j] == "-file") && args[j + 1] == file
  }

  lemma {:induction false} ParsedFileFrom(args: seq<string>, i: nat, file: Option<string>,
                                          filters: seq<BackendFilter.Filter>, decode: string -> string)
    requires i <= |args|
    requires ParseFrom(args, i, file, filters, decode).Ok?
    ensures var c := ParseFrom(args, i, file, filters, decode).value;
      !Blank(Java, c.file) && (file == Some(c.file) || exists j :: i <= j && FileFlagAt(args, j, c.file))
    decreases |args| - i
  {
    if i < |args| {
      var a := args[i];
      var c := ParseFrom(args, i, file, filters, decode).value;
      if a == "-f" || a == "-file" {
        ParsedFileFrom(args, i + 2, Some(args[i + 1]), filters, decode);
        if args[i + 1] == c.file {
          assert FileFlagAt(args, i, c.file);
        }
      } else {
        var f := BackendFilter.Filter(args[i + 1], decode(args[i + 3]));
        ParsedFileFrom(args, i + 4, file, filters + [f], decode);
      }
    }
  }

  /** Whenever the arguments are accepted, the path is not blank and is the
      argument after some `-f` or `-file`: without one, or with only blank
      paths, the program stops with an error. */
  lemma ParsedFile(args: seq<string>, decode: string -> string)
    ensures ParseArgsSpec(args, decode).Ok? ==>
      !Blank(Java, ParseArgsSpec(args, decode).value.file)
      && exists j :: FileFlagAt(args, j, ParseArgsSpec(args, decode).value.file)
  {
    if ParseArgsSpec(args, decode).Ok? {
      ParsedFileFrom(args, 0, None, [], decode);
    }
  }

  /** A later `-f` replaces an earlier one. */
  lemma LastFileWins(first: string, file: string, rest: seq<string>, decode: string -> string)
    ensures ParseArgsSpec(["-f", first, "-f", file] + rest, decode)
         == ParseFrom(["-f", first, "-f", file] + rest, 4, Some(file), [], decode)
  {
    var args := ["-f", first, "-f", file] + rest;
    assert args[0] == "-f" && args[1] == first && args[2] == "-f" && args[3] == file;
    assert ParseFrom(args, 0, None, [], decode) == ParseFrom(args, 2, Some(first), [], decode);
  }

  /** An argument that is neither `-f`, `-file` nor `-key` stops the loop. */
  lemma UnknownArgument(a: string, rest: seq<string>, decode: string -> string)
    requires a != "-f" && a != "-file" && a != "-key"
    ensures ParseArgsSpec([a] + rest, decode) == Err("Unknown argument: " + a)
  {
    assert ([a] + rest)[0] == a;
  }

  /** `-key k` not followed by `-value` is refused. */
  lemma KeyWithoutValue(k: string, next: string, rest: seq<string>, decode: string -> string)
    requires next != "-value"
    ensures ParseArgsSpec(["-key", k, next] + rest, decode) == Err("Expected -value after -key " + k)
  {
    var args := ["-key", k, next] + rest;
    assert args[0] == "-key" && args[1] == k && args[2] == next;
  }

  // ---------------------------------------------- filtering and output

  /** The rows every filter accepts, in file order. */
  function Matched(rows: seq<BackendRows.Row>, filters: seq<BackendFilter.Filter>): seq<BackendRows.Row>
  {
    if |rows| == 0 then []
    else
      var front := Matched(rows[..|rows| - 1], filters);
      if BackendFilter.AllHold(rows[|rows| - 1], filters) then front + [rows[|rows| - 1]] else front
  }

  method FilterRows(rows: seq<BackendRows.Row>, filters: seq<BackendFilter.Filter>) returns (matched: seq<BackendRows.Row>)
    ensures matched == Matched(rows, filters)
  {
    matched := [];
    for k := 0 to |rows|
      invariant matched == Matched(rows[..k], filters)
    {
      assert rows[..k + 1][..k] == rows[..k];
      var ok := BackendFilter.MatchesAll(rows[k], filters);
      if ok {
        matched := matched + [rows[k]];
      }
    }
    assert rows[..|rows|] == rows;
  }

  /** A row is matched exactly when it is a row of the file and every filter
      holds of it. */
  lemma {:induction false} MatchedMembers(rows: seq<BackendRows.Row>, filters: seq<BackendFilter.Filter>, r: BackendRows.Row)
    ensures r in Matched(rows, filters) <==> r in rows && BackendFilter.AllHold(r, filters)
    decreases |rows|
  {
    if |rows| > 0 {
      var front := rows[..|rows| - 1];
      MatchedMembers(front, filters, r);
      assert rows == front + [rows[|rows| - 1]];
      assert r in rows <==> r in front || r == rows[|rows| - 1];
    }
  }

  /** Each passing row is printed as often as it occurs in the file, and a
      failing one never. */
  lemma {:induction false} MatchedCount(rows: seq<BackendRows.Row>, filters: seq<BackendFilter.Filter>, r: BackendRows.Row)
    ensures multiset(Matched(rows, filters))[r]
         == if BackendFilter.AllHold(r, filters) then multiset(rows)[r] else 0
    decreases |rows|
  {
    if |rows| > 0 {
      var front := rows[..|rows| - 1];
      var last := rows[|rows| - 1];
      MatchedCount(front, filters, r);
      assert rows == front + [last];
      assert multiset(rows) == multiset(front) + multiset{last};
      if BackendFilter.AllHold(last, filters) {
        assert multiset(Matched(rows, filters)) == multiset(Matched(front, filters)) + multiset{last};
      }
    }
  }

  /** Matching keeps file order: the result is a subsequence of the rows. */
  lemma {:induction false} MatchedSubsequence(rows: seq<BackendRows.Row>, filters: seq<BackendFilter.Filter>)
    ensures Subsequence(Matched(rows, filters), rows)
    decreases |rows|
  {
    if |rows| > 0 {
      var front := rows[..|rows| - 1];
      var last := rows[|rows| - 1];
      MatchedSubsequence(front, filters);
      assert rows == front + [last];
      if BackendFilter.AllHold(last, filters) {
        SubsequenceSnoc(Matched(front, filters), front, last);
      } else {
        SubsequenceExtend(Matched(front, filters), front, last);
      }
    }
  }

  /** With no filters every row is printed. */
  lemma {:induction false} NoFiltersKeepsAll(rows: seq<BackendRows.Row>)
    ensures Matched(rows, []) == rows
    decreases |rows|
  {
    if |rows| > 0 {
      NoFiltersKeepsAll(rows[..|rows| - 1]);
      assert rows[..|rows| - 1] + [rows[|rows| - 1]] == rows;
    }
  }

  /** What the program prints: the error document of the first failure, or
      the result document of the matched rows. `files` stands for the file
      system (the lines of a file, `None` if it does not exist). */
  function Output(args: seq<string>, files: string -> Option<seq<string>>, decode: string -> string,
                  number: string -> Option<string>): string
  {
    match ParseArgsSpec(args, decode)
    case Err(m) => BackendJson.ErrorText(Some(m))
    case Ok(cfg) =>
      match BackendRows.ReadCsvSpec(files(cfg.file), cfg.file)
      case Err(m) => BackendJson.ErrorText(Some(m))
      case Ok(rows) =>
        BackendJson.Serialize(BackendJson.Document(Matched(rows, cfg.filters), cfg.filters, number))
  }

  method Run(args: seq<string>, files: string -> Option<seq<string>>, decode: string -> string,
             number: string -> Option<string>) returns (out: string)
    ensures out == Output(args, files, decode, number)
  {
    var parsed := ParseArgs(args, decode);
    if parsed.Err? {
      return BackendJson.ErrorText(Some(parsed.error));
    }
    var cfg := parsed.value;
    var loaded := BackendRows.ReadCsv(files(cfg.file), cfg.file);
    if loaded.Err? {
      return BackendJson.ErrorText(Some(loaded.error));
    }
    var matched := FilterRows(loaded.value, cfg.filters);
    out := BackendJson.PrintJson(matched, cfg.filters, number);
  }

  /** An argument error is reported before any file is looked at. */
  lemma ArgumentErrorIgnoresFiles(args: seq<string>, files1: string -> Option<seq<string>>,
                                  files2: string -> Option<seq<string>>, decode: string -> string,
                                  number: string -> Option<string>)
    requires ParseArgsSpec(args, decode).Err?
    ensures Output(args, files1, decode, number) == Output(args, files2, decode, number)
  {
  }
}
