/** The replica overlay: a flat `service: count` file read by `_load_simple_yaml`
    (socialNetwork/resilience-demo/simulate.py). The file arrives here as its sequence of lines. */
module Overlay {
  import opened Wrappers
  import opened Text

  /** The three fatal conditions of the loader, each a `ValueError` in the source. */
  datatype OverlayError =
    | InvalidLine(line: string)    // a non-blank line without ':'; carries the raw line
    | MissingValue(key: string)    // nothing but whitespace after the ':'
    | NonInteger(key: string)      // the value is not a decimal integer

  /** What a single line contributes to the mapping. */
  datatype LineResult =
    | Blank                                 // empty, whitespace or comment only
    | Entry(key: string, count: int)
    | Bad(error: OverlayError)

  /** The part of a line that is not comment, stripped. */
  function Content(raw: string): string
  {
    Strip(BeforeFirst(raw, '#'))
  }

  /** One line of the overlay: the text from the first '#' on is dropped and the rest stripped; a
      blank remainder is skipped; otherwise it must hold a ':', the key is what precedes the first
      ':' and the value what follows it, both stripped, and the value must be a non-empty integer. */
  function ParseLine(raw: string): LineResult
  {
    var line := Content(raw);
    if line == "" then Blank else ParseContent(raw, line)
  }

  /** A non-blank line: without ':' it is invalid, with one it is a field. */
  function ParseContent(raw: string, line: string): (r: LineResult)
    ensures r != Blank
    ensures ':' in line ==> r == ParseField(line)
  {
    if ':' !in line then Bad(InvalidLine(raw)) else ParseField(line)
  }

  /** `key, value = line.split(":", 1)`, both stripped; the value must not be empty. */
  function ParseField(line: string): (r: LineResult)
    requires ':' in line
    ensures r != Blank && !(r.Bad? && r.error.InvalidLine?)
  {
    var key := Strip(BeforeFirst(line, ':'));
    var value := Strip(AfterFirst(line, ':'));
    if value == "" then Bad(MissingValue(key)) else ParseCount(key, value)
  }

  /** `int(value)` for the key's replica count. */
  function ParseCount(key: string, value: string): (r: LineResult)
    ensures r != Blank && (r.Bad? ==> r.error == NonInteger(key))
    ensures ParseInt(value).None? <==> r == Bad(NonInteger(key))
    ensures ParseInt(value).Some? ==> r == Entry(key, ParseInt(value).value)
  {
    match ParseInt(value)
    case None => Bad(NonInteger(key))
    case Some(n) => Entry(key, n)
  }

  /** Each line through `parse`, in order. */
  function MapLines(lines: seq<string>, parse: string -> LineResult): (results: seq<LineResult>)
    ensures |results| == |lines|
    ensures forall i :: 0 <= i < |lines| ==> results[i] == parse(lines[i])
  {
    seq(|lines|, i requires 0 <= i < |lines| => parse(lines[i]))
  }

  /** The lines of a file, each parsed on its own. */
  function ParseLines(lines: seq<string>): (results: seq<LineResult>)
    ensures |results| == |lines|
    ensures forall i :: 0 <= i < |lines| ==> results[i] == ParseLine(lines[i])
  {
    MapLines(lines, ParseLine)
  }

  /** The loader's outcome over parsed lines, taken in order: the first bad line aborts, a later
      entry for a key replaces an earlier one, blank lines change nothing. */
  function Fold(results: seq<LineResult>): Result<map<string, int>, OverlayError>
  {
    if results == [] then Success(map[])
    else
      match Fold(results[..|results| - 1])
      case Failure(e) => Failure(e)
      case Success(m) =>
        match results[|results| - 1]
        case Blank => Success(m)
        case Entry(k, n) => Success(m[k := n])
        case Bad(e) => Failure(e)
  }

  /** The loader's outcome for the lines of a file. */
  function Load(lines: seq<string>): Result<map<string, int>, OverlayError>
  {
    Fold(ParseLines(lines))
  }

  lemma {:induction false} FoldFailureSticks(results: seq<LineResult>, i: nat)
    requires i <= |results| && Fold(results[..i]).Failure?
    ensures Fold(results) == Fold(results[..i])
    decreases |results| - i
  {
    if i < |results| {
      assert results[..i + 1][..i] == results[..i];
      FoldFailureSticks(results, i + 1);
    } else {
      assert results[..i] == results;
    }
  }

  /** One more parsed line on top of an outcome. */
  lemma FoldAppend(results: seq<LineResult>, last: LineResult)
    ensures Fold(results + [last]) ==
              match Fold(results)
              case Failure(e) => Failure(e)
              case Success(m) =>
                match last
                case Blank => Success(m)
                case Entry(k, n) => Success(m[k := n])
                case Bad(e) => Failure(e)
  {
    assert (results + [last])[..|results|] == results;
  }

  /** Parsing one more line extends the parsed prefix by that line's result. */
  lemma MapLinesAppend(lines: seq<string>, i: nat, parse: string -> LineResult)
    requires i < |lines|
    ensures MapLines(lines[..i + 1], parse) == MapLines(lines[..i], parse) + [parse(lines[i])]
    ensures MapLines(lines, parse)[..i + 1] == MapLines(lines[..i + 1], parse)
  {
  }

  /** The body of the loader's loop for one raw line: drop the comment and strip; skip a blank
      line; reject a line without ':'; split at the first ':' and strip both sides; reject an
      empty value; read the count. */
  method ReadLine(raw: string) returns (res: LineResult)
    ensures res == ParseLine(raw)
  {
    var line := Strip(BeforeFirst(raw, '#'));
    if line == "" {
      return Blank;
    }
    if ':' !in line {
      return Bad(InvalidLine(raw));
    }
    var key := Strip(BeforeFirst(line, ':'));
    var value := Strip(AfterFirst(line, ':'));
    if value == "" {
      return Bad(MissingValue(key));
    }
    var count := ParseInt(value);
    if count.None? {
      return Bad(NonInteger(key));
    }
    return Entry(key, count.value);
  }

  /** One step of the loader over a successfully loaded prefix: a blank line keeps the map, an entry
      sets its key, and a bad line decides the outcome of the whole file. */
  lemma LoadStep(lines: seq<string>, i: nat, data: map<string, int>)
    requires i < |lines| && Fold(ParseLines(lines[..i])) == Success(data)
    ensures var res := ParseLine(lines[i]);
            && (res.Blank? ==> Fold(ParseLines(lines[..i + 1])) == Success(data))
            && (res.Entry? ==> Fold(ParseLines(lines[..i + 1])) == Success(data[res.key := res.count]))
            && (res.Bad? ==> Load(lines) == Failure(res.error))
  {
    MapLinesAppend(lines, i, ParseLine);
    FoldAppend(ParseLines(lines[..i]), ParseLine(lines[i]));
    if ParseLine(lines[i]).Bad? {
      FoldFailureSticks(ParseLines(lines), i + 1);
    }
  }

  /** `_load_simple_yaml`: fills `data` line by line and stops at the first bad line. */
  method LoadSimpleYaml(lines: seq<string>) returns (r: Result<map<string, int>, OverlayError>)
    ensures r == Load(lines)
  {
    var data: map<string, int> := map[];
    var i := 0;
    while i < |lines|
      invariant 0 <= i <= |lines|
      invariant Fold(ParseLines(lines[..i])) == Success(data)
    {
      var res := ReadLine(lines[i]);
      LoadStep(lines, i, data);
      match res {
        case Blank =>
        case Entry(key, count) =>
          data := data[key := count];
        case Bad(error) =>
          return Failure(error);
      }
      i := i + 1;
    }
    assert lines[..i] == lines;
    r := Success(data);
  }

  // ---------------------------------------------------------------------------------------------
  // Properties of a single line

  /** Only the text before the first '#' matters: appending a comment changes nothing, except the
      raw line an "invalid line" error reports. */
  lemma CommentIgnored(raw: string, comment: string)
    requires '#' !in raw
    ensures var withComment := raw + ['#'] + comment;
            ParseLine(withComment) == ParseLine(raw) ||
            (ParseLine(raw) == Bad(InvalidLine(raw)) && ParseLine(withComment) == Bad(InvalidLine(withComment)))
  {
    FirstIndexOfJoin(raw, '#', comment);
    assert (raw + ['#'] + comment)[..|raw|] == raw;
    assert FirstIndex(raw, '#') == |raw|;
    assert raw[..|raw|] == raw;
  }

  /** A line is skipped exactly when everything before its first '#' is whitespace. */
  lemma BlankLines(raw: string)
    ensures ParseLine(raw) == Blank <==> AllSpace(BeforeFirst(raw, '#'))
  {
  }

  /** The first `ValueError`: a non-blank line without ':' is invalid, and nothing else is. */
  lemma InvalidLineExactly(raw: string)
    ensures var line := Content(raw);
            && ((ParseLine(raw).Bad? && ParseLine(raw).error.InvalidLine?) <==> line != "" && ':' !in line)
            && (line != "" && ':' !in line ==> ParseLine(raw) == Bad(InvalidLine(raw)))
  {
    var line := Content(raw);
    if line != "" && ':' in line {
      assert ParseLine(raw) == ParseField(line);
    }
  }

  /** The second `ValueError`: a line with ':' whose value strips to nothing is missing its value,
      reported under its stripped key, and nothing else is. */
  lemma MissingValueExactly(raw: string)
    ensures var line := Content(raw);
            && ((ParseLine(raw).Bad? && ParseLine(raw).error.MissingValue?) <==>
                line != "" && ':' in line && Strip(AfterFirst(line, ':')) == "")
            && (line != "" && ':' in line && Strip(AfterFirst(line, ':')) == "" ==>
                ParseLine(raw) == Bad(MissingValue(Strip(BeforeFirst(line, ':')))))
  {
    var line := Content(raw);
    if line != "" && ':' in line {
      assert ParseLine(raw) == ParseField(line);
      var key, value := Strip(BeforeFirst(line, ':')), Strip(AfterFirst(line, ':'));
      assert ParseField(line) == if value == "" then Bad(MissingValue(key)) else ParseCount(key, value);
    }
  }

  /** The third `ValueError`: a line with ':' and a value that is not an integer, reported under its
      stripped key, and nothing else. */
  lemma NonIntegerExactly(raw: string)
    ensures var line := Content(raw);
            && ((ParseLine(raw).Bad? && ParseLine(raw).error.NonInteger?) <==>
                line != "" && ':' in line && Strip(AfterFirst(line, ':')) != "" && ParseInt(Strip(AfterFirst(line, ':'))).None?)
            && (line != "" && ':' in line && Strip(AfterFirst(line, ':')) != "" && ParseInt(Strip(AfterFirst(line, ':'))).None? ==>
                ParseLine(raw) == Bad(NonInteger(Strip(BeforeFirst(line, ':')))))
  {
    var line := Content(raw);
    if line != "" && ':' in line {
      assert ParseLine(raw) == ParseField(line);
      var key, value := Strip(BeforeFirst(line, ':')), Strip(AfterFirst(line, ':'));
      assert ParseField(line) == if value == "" then Bad(MissingValue(key)) else ParseCount(key, value);
    }
  }

  lemma NoMarkInDigits(s: string)
    requires |s| > 0 && (AllDigits(s) || (s[0] == '-' && AllDigits(s[1..])))
    ensures ':' !in s && '#' !in s && !IsSpace(s[0]) && !IsSpace(s[|s| - 1])
  {
    if s[0] == '-' {
      assert forall i :: 1 <= i < |s| ==> s[i] == s[1..][i - 1];
    }
  }

  lemma ContentOfPlainLine(line: string)
    requires '#' !in line && Stripped(line)
    ensures Content(line) == line
  {
    assert FirstIndex(line, '#') == |line|;
    assert line[..|line|] == line;
  }

  lemma SplitAtColon(key: string, rest: string)
    requires ':' !in key
    ensures ':' in key + [':'] + rest
    ensures BeforeFirst(key + [':'] + rest, ':') == key
    ensures AfterFirst(key + [':'] + rest, ':') == rest
  {
    var line := key + [':'] + rest;
    FirstIndexOfJoin(key, ':', rest);
    assert line[|key|] == ':';
    assert line[..|key|] == key;
    assert line[|key| + 1..] == rest;
  }

  lemma PlainLineShape(key: string, value: string)
    requires ':' !in key && '#' !in key && Stripped(key)
    requires value != [] && '#' !in value && Stripped(value)
    ensures var line := key + ": " + value;
            '#' !in line && Stripped(line) && line == key + [':'] + (" " + value)
  {
    var line := key + ": " + value;
    assert line[|line| - 1] == value[|value| - 1];
    assert key == [] ==> line[0] == ':';
    assert key != [] ==> line[0] == key[0];
  }

  /** `key: value` with a plain key and a plain value is a field whose count is read from `value`. */
  lemma PlainLine(key: string, value: string)
    requires ':' !in key && '#' !in key && Stripped(key)
    requires value != [] && '#' !in value && Stripped(value)
    ensures ParseLine(key + ": " + value) == ParseCount(key, value)
  {
    PlainLineContent(key, value);
    PlainLineField(key, value);
    ParseLineOfField(key + ": " + value, ParseCount(key, value));
  }

  lemma PlainLineContent(key: string, value: string)
    requires ':' !in key && '#' !in key && Stripped(key)
    requires value != [] && '#' !in value && Stripped(value)
    ensures var line := key + ": " + value;
            Content(line) == line && line != ""
  {
    var line := key + ": " + value;
    PlainLineShape(key, value);
    ContentOfPlainLine(line);
  }

  lemma PlainLineField(key: string, value: string)
    requires ':' !in key && '#' !in key && Stripped(key)
    requires value != [] && '#' !in value && Stripped(value)
    ensures var line := key + ": " + value;
            ':' in line && ParseField(line) == ParseCount(key, value)
  {
    PlainLineShape(key, value);
    SplitAtColon(key, " " + value);
    StripLeadingSpace(value);
  }

  /** A line that is its own non-blank content and holds a ':' reads as its field. */
  lemma ParseLineOfField(line: string, r: LineResult)
    requires Content(line) == line && line != "" && ':' in line && ParseField(line) == r
    ensures ParseLine(line) == r
  {
  }

  /** A line written as `key: count` reads back as that entry, for a key without ':', '#' or
      surrounding whitespace. */
  lemma EntryRoundTrip(key: string, count: int)
    requires ':' !in key && '#' !in key && Stripped(key)
    ensures ParseLine(key + ": " + ShowInt(count)) == Entry(key, count)
  {
    var digits := ShowInt(count);
    assert AllDigits(digits) || (digits[0] == '-' && AllDigits(digits[1..]));
    NoMarkInDigits(digits);
    PlainLine(key, digits);
    ParseShowInt(count);
  }

  // ---------------------------------------------------------------------------------------------
  // Properties of the whole file

  predicate DefinesKey(results: seq<LineResult>, i: int, k: string)
    requires 0 <= i < |results|
  {
    results[i].Entry? && results[i].key == k
  }

  /** Loading fails exactly when some line is bad, and then with the error of the first bad line. */
  lemma {:induction false} FailsAtFirstBadLine(results: seq<LineResult>)
    ensures Fold(results).Failure? <==> exists i :: 0 <= i < |results| && results[i].Bad?
    ensures Fold(results).Failure? ==>
              exists i :: 0 <= i < |results| && results[i] == Bad(Fold(results).error) &&
                          forall j :: 0 <= j < i ==> !results[j].Bad?
  {
    if results != [] {
      var init := results[..|results| - 1];
      FailsAtFirstBadLine(init);
      assert forall i :: 0 <= i < |init| ==> init[i] == results[i];
      if Fold(init).Failure? {
        var i :| 0 <= i < |init| && init[i] == Bad(Fold(init).error) &&
                 forall j :: 0 <= j < i ==> !init[j].Bad?;
        assert results[i] == Bad(Fold(results).error);
      } else if results[|results| - 1].Bad? {
        assert forall j :: 0 <= j < |init| ==> !init[j].Bad?;
      }
    }
  }

  /** A successful load maps exactly the keys some line defines. */
  lemma {:induction false} LoadedKeys(results: seq<LineResult>)
    requires Fold(results).Success?
    ensures forall k :: k in Fold(results).value <==> exists i :: 0 <= i < |results| && DefinesKey(results, i, k)
  {
    if results != [] {
      var init := results[..|results| - 1];
      var last := |results| - 1;
      LoadedKeys(init);
      assert forall i :: 0 <= i < |init| ==> init[i] == results[i];
      var m := Fold(results).value;
      var m0 := Fold(init).value;
      assert m.Keys == if results[last].Entry? then m0.Keys + {results[last].key} else m0.Keys;
      forall k ensures k in m <==> exists i :: 0 <= i < |results| && DefinesKey(results, i, k) {
        if k in m {
          if k in m0 {
            var i :| 0 <= i < |init| && DefinesKey(init, i, k);
            assert DefinesKey(results, i, k);
          } else {
            assert DefinesKey(results, last, k);
          }
        }
        if exists i :: 0 <= i < |results| && DefinesKey(results, i, k) {
          var i :| 0 <= i < |results| && DefinesKey(results, i, k);
          if i < last {
            assert DefinesKey(init, i, k);
          }
        }
      }
    }
  }

  /** A repeated key keeps the count of the last line that defines it. */
  lemma {:induction false} LastValueWins(results: seq<LineResult>, i: nat)
    requires Fold(results).Success?
    requires i < |results| && results[i].Entry?
    requires forall j :: i < j < |results| ==> !DefinesKey(results, j, results[i].key)
    ensures results[i].key in Fold(results).value
    ensures Fold(results).value[results[i].key] == results[i].count
  {
    var init := results[..|results| - 1];
    var last := |results| - 1;
    if i < last {
      assert !DefinesKey(results, last, results[i].key);
      assert forall j :: 0 <= j < |init| ==> init[j] == results[j];
      assert Fold(init).Success?;
      forall j | i < j < |init| ensures !DefinesKey(init, j, init[i].key) {
        assert !DefinesKey(results, j, results[i].key);
      }
      LastValueWins(init, i);
    }
  }
}
