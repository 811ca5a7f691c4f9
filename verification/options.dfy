/** Resolution of the two run options, `internals.readConfig` and
    `internals.readIgnore`. Both absorb every failure into a fallback value,
    so neither ever hands an error to its callback. The file-system and
    engine reads they perform are inputs here: their outcomes are passed in. */
module Options {

  import opened Outcomes
  import opened Text
  import opened Sequences

  /** A rule setting of the engine's configuration; the driver never looks
      inside one, it only forwards the configuration. */
  datatype Setting = Enabled(on: bool) | Settings(json: string)

  /** The engine configuration: rule name (or `default`) to its setting. */
  type Config = map<string, Setting>

  /** `{ default: true }`: every rule enabled with its default settings. */
  const DefaultConfig: Config := map["default" := Enabled(true)]

  /** What the engine's own config reader hands back: an error, or a value
      that may be falsy in the JavaScript sense (`None`). Any object, even an
      empty one, is truthy. */
  datatype ConfigRead = ConfigFailed(message: string) | ConfigLoaded(value: Option<Config>)

  /** What `fs.readFile(file, 'utf8')` hands back. */
  datatype FileRead = ReadFailed(code: string) | ReadOk(data: string)

  /** The options the pipeline runs with. */
  datatype RunOptions = RunOptions(config: Config, ignore: seq<string>)

  /** `readConfig`: the engine's configuration when it was read and is
      truthy, `{ default: true }` otherwise; never an error. */
  function ReadConfig(read: ConfigRead): (r: Result<Config>)
    ensures r.Ok?
    ensures read.ConfigLoaded? && read.value.Some? ==> r.value == read.value.value
    ensures read.ConfigFailed? || read.value.None? ==> r.value == DefaultConfig
  {
    match read
    case ConfigLoaded(Some(config)) => Ok(config)
    case _ => Ok(DefaultConfig)
  }

  /** The parsing step of `readIgnore`: the whole content is trimmed, then
      split at every line feed; the lines themselves are not trimmed. */
  function ParseIgnore(data: string): (patterns: seq<string>)
    ensures |patterns| >= 1
    ensures Join(patterns, '\n') == Trim(data)
    ensures forall k :: 0 <= k < |patterns| ==> '\n' !in patterns[k]
  {
    JoinSplit(Trim(data), '\n');
    SplitParts(Trim(data), '\n');
    Split(Trim(data), '\n')
  }

  /** `readIgnore`: a missing file and an unreadable file both give the
      empty list, a readable one gives its parsed lines; never an error. */
  function ReadIgnore(present: bool, read: FileRead): (r: Result<seq<string>>)
    ensures r.Ok?
    ensures r.value == [] <==> !present || read.ReadFailed?
    ensures present && read.ReadOk? ==> Join(r.value, '\n') == Trim(read.data)
    ensures forall k :: 0 <= k < |r.value| ==> '\n' !in r.value[k]
  {
    if !present then Ok([])
    else match read
      case ReadFailed(_) => Ok([])
      case ReadOk(data) => Ok(ParseIgnore(data))
  }

  /** The contract of `ParseIgnore` pins its result down: the only
      non-empty list of line-feed-free patterns whose lines rejoin to the
      trimmed content is the split of that content at its line feeds. */
  lemma ParseIgnoreUnique(data: string, patterns: seq<string>)
    requires |patterns| >= 1
    requires forall k :: 0 <= k < |patterns| ==> '\n' !in patterns[k]
    requires Join(patterns, '\n') == Trim(data)
    ensures patterns == ParseIgnore(data)
  {
    SplitJoin(patterns, '\n');
  }

  /** Only the whole content is trimmed, so whitespace around it changes
      nothing: a file and its trimmed content give the same patterns. */
  lemma OuterWhitespaceIgnored(data: string)
    ensures ParseIgnore(Trim(data)) == ParseIgnore(data)
  {
    TrimIdempotent(data);
  }

  /** A file holding only whitespace still gives one pattern: the empty one. */
  lemma WhitespaceOnlyIgnoreFile(data: string)
    requires forall k :: 0 <= k < |data| ==> IsWhitespace(data[k])
    ensures ParseIgnore(data) == [""]
  {
  }

  /** Parsing recovers any list of patterns written one per line, provided
      no pattern holds a line feed and the text has no outer whitespace. */
  lemma IgnoreRoundTrip(patterns: seq<string>)
    requires |patterns| >= 1
    requires forall k :: 0 <= k < |patterns| ==> '\n' !in patterns[k]
    requires IsTrimmed(Join(patterns, '\n'))
    ensures ParseIgnore(Join(patterns, '\n')) == patterns
  {
    SplitJoin(patterns, '\n');
  }

  /** A file written with CRLF line ends: every pattern followed by a
      carriage return and a line feed. */
  function CrlfFile(patterns: seq<string>): string
  {
    if patterns == [] then "" else patterns[0] + "\r\n" + CrlfFile(patterns[1..])
  }

  /** The patterns as `split('\n')` leaves them in such a file: all but the
      last keep their carriage return. */
  function WithCarriageReturns(patterns: seq<string>): (lines: seq<string>)
    ensures |lines| == |patterns|
    ensures forall k :: 0 <= k < |patterns| - 1 ==> lines[k] == patterns[k] + "\r"
    ensures |patterns| >= 1 ==> lines[|patterns| - 1] == patterns[|patterns| - 1]
  {
    if |patterns| <= 1 then patterns else [patterns[0] + "\r"] + WithCarriageReturns(patterns[1..])
  }

  /** A CRLF file is the carriage-returned lines joined with line feeds,
      followed by the final CRLF. */
  lemma {:induction false} CrlfFileJoin(patterns: seq<string>)
    requires |patterns| >= 1
    ensures CrlfFile(patterns) == Join(WithCarriageReturns(patterns), '\n') + "\r\n"
    decreases |patterns|
  {
    if |patterns| == 1 {
      assert CrlfFile(patterns[1..]) == "";
    } else {
      var first, lines := patterns[0], WithCarriageReturns(patterns);
      var rest := Join(WithCarriageReturns(patterns[1..]), '\n');
      CrlfFileJoin(patterns[1..]);
      assert lines == [first + "\r"] + WithCarriageReturns(patterns[1..]);
      assert Join(lines, '\n') == (first + "\r") + ['\n'] + rest by {
        assert lines[1..] == WithCarriageReturns(patterns[1..]);
      }
      assert (first + "\r") + ['\n'] == first + "\r\n";
      AppendAssociative(first + "\r\n", rest, "\r\n");
    }
  }

  /** Lines are not trimmed one by one: in a file with CRLF line ends every
      pattern but the last keeps its carriage return. Only the file's outer
      whitespace, here the final CRLF, is removed. */
  lemma CarriageReturnKept(patterns: seq<string>)
    requires |patterns| >= 1
    requires forall k :: 0 <= k < |patterns| ==> '\n' !in patterns[k]
    requires patterns[0] != [] && !IsWhitespace(patterns[0][0])
    requires var last := patterns[|patterns| - 1]; last != [] && !IsWhitespace(last[|last| - 1])
    ensures ParseIgnore(CrlfFile(patterns)) == WithCarriageReturns(patterns)
  {
    var lines := WithCarriageReturns(patterns);
    var body := Join(lines, '\n');
    CrlfFileJoin(patterns);
    assert forall k :: 0 <= k < |lines| ==> '\n' !in lines[k] by {
      forall k | 0 <= k < |lines|
        ensures '\n' !in lines[k]
      {
        if k < |lines| - 1 {
          assert lines[k] == patterns[k] + "\r";
        }
      }
    }
    JoinLast(lines, '\n');
    assert body != [] && body[0] == patterns[0][0] by {
      if |lines| > 1 {
        assert body == lines[0] + ['\n'] + Join(lines[1..], '\n');
        assert lines[0] == patterns[0] + "\r";
      }
    }
    TrimTrailingWhitespace(body, "\r\n");
    SplitJoin(lines, '\n');
  }
}
