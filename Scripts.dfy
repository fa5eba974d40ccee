/** Running bash scripts: the capture mode chosen for `subprocess.run`
    (`get_subprocess_run_extra_args`), the argument vector of
    `execute_bash_script` and `execute_bash_script_async`, and the single
    quoted command line the asynchronous variant hands to the shell.
    Spawning processes and collecting their output is not modelled. */
module Scripts {
  import opened Wrappers
  import opened Errors
  import opened Strings
  import opened Paths
  import opened Locator
  import opened Releases

  /** The two sets of keyword arguments for `subprocess.run`: decoded text
      through `capture_output=True, text=True`, or raw bytes through
      `stdout=PIPE, stderr=PIPE` on interpreters that lack the former. */
  datatype CaptureMode = CaptureOutputText | PipeBytes

  /** The first Python release whose `subprocess.run` has
      `capture_output`. */
  const TextCaptureMajor: int := 3
  const TextCaptureMinor: int := 7

  /** `get_subprocess_run_extra_args` for the running interpreter's
      version: text capture from Python 3.7 on, pipes before. */
  function RunExtraArgs(major: int, minor: int): (mode: CaptureMode)
    ensures mode == CaptureOutputText <==> NotBefore(major, minor, TextCaptureMajor, TextCaptureMinor)
    ensures mode == PipeBytes <==> !NotBefore(major, minor, TextCaptureMajor, TextCaptureMinor)
  {
    if (major == 3 && minor > 6) || major > 3 then CaptureOutputText else PipeBytes
  }

  /** The shell interpreter: `bash` from the PATH on Linux, otherwise the
      `bin\bash.exe` inside the git install directory. */
  function Interpreter(platformName: string, gitFolder: seq<string>, f: PathFlavour): (interpreter: string)
    ensures IsLinux(platformName) ==> interpreter == "bash"
    ensures !IsLinux(platformName) && (forall i :: 0 <= i < |gitFolder| ==> IsSegment(gitFolder[i], f)) ==>
      Parts(interpreter, f) == gitFolder + ["bin", "bash.exe"]
  {
    if IsLinux(platformName) then "bash"
    else
      BashSegments(gitFolder, f);
      PathString(gitFolder + ["bin", "bash.exe"], f)
  }

  lemma BashSegments(gitFolder: seq<string>, f: PathFlavour)
    ensures (forall i :: 0 <= i < |gitFolder| ==> IsSegment(gitFolder[i], f)) ==>
      forall i :: 0 <= i < |gitFolder + ["bin", "bash.exe"]| ==> IsSegment((gitFolder + ["bin", "bash.exe"])[i], f)
  {
    assert IsSegment("bin", f) && IsSegment("bash.exe", f);
  }

  /** `[interpreter, script] + arguments`, the argument vector of both
      script executors; off Linux it needs `where_git`, whose failure it
      propagates. */
  function ScriptArgv(platformName: string, whereOutput: string, defaultIsDir: bool, f: PathFlavour,
                      script: string, args: seq<string>): (r: Result<seq<string>, UtilError>)
    ensures r.Success? ==> |r.value| == 2 + |args| && r.value[1] == script && r.value[2..] == args
    ensures IsLinux(platformName) ==> r.Success? && r.value[0] == "bash"
    ensures !IsLinux(platformName) ==> (r.Failure? <==> WhereGit(whereOutput, defaultIsDir, f).Failure?)
    ensures !IsLinux(platformName) && r.Success? ==>
      r.value[0] == PathString(WhereGit(whereOutput, defaultIsDir, f).value + ["bin", "bash.exe"], f)
    ensures r.Failure? ==> r.error == GitNotFound
  {
    if IsLinux(platformName) then Success([Interpreter(platformName, [], f), script] + args)
    else
      match WhereGit(whereOutput, defaultIsDir, f)
      case Failure(e) => Failure(e)
      case Success(folder) => Success([Interpreter(platformName, folder, f), script] + args)
  }

  /** `f'"{arg}"'`: the token between two double quotes. */
  function Quote(token: string): (quoted: string)
    ensures |quoted| == |token| + 2
    ensures quoted[0] == '"' && quoted[|quoted| - 1] == '"'
    ensures quoted[1..|quoted| - 1] == token
  {
    "\"" + token + "\""
  }

  function QuoteEach(tokens: seq<string>): (quoted: seq<string>)
    ensures |quoted| == |tokens|
    ensures forall i :: 0 <= i < |tokens| ==> quoted[i] == Quote(tokens[i])
  {
    if |tokens| == 0 then [] else [Quote(tokens[0])] + QuoteEach(tokens[1..])
  }

  /** `" ".join(f'"{arg}"' for arg in tokens)`: a line of at least one
      token starts with the first quoted token and ends with the last. */
  function CommandLine(tokens: seq<string>): (line: string)
    ensures |tokens| >= 1 ==> Quote(tokens[0]) <= line
    ensures |tokens| >= 1 ==> (|Quote(tokens[|tokens| - 1])| <= |line|
      && line[|line| - |Quote(tokens[|tokens| - 1])|..] == Quote(tokens[|tokens| - 1]))
    ensures |tokens| == 0 ==> line == ""
  {
    var quoted := QuoteEach(tokens);
    if |tokens| == 0 then ""
    else
      JoinStartsWithFirst(quoted, ' ');
      JoinEndsWithLast(quoted, ' ');
      Join(quoted, ' ')
  }

  /** The command string of `execute_bash_script_async`. */
  function AsyncCommand(platformName: string, whereOutput: string, defaultIsDir: bool, f: PathFlavour,
                        script: string, args: seq<string>): (r: Result<string, UtilError>)
    ensures r.Success? <==> ScriptArgv(platformName, whereOutput, defaultIsDir, f, script, args).Success?
    ensures r.Success? ==> r.value == CommandLine(ScriptArgv(platformName, whereOutput, defaultIsDir, f, script, args).value)
    ensures r.Failure? ==> r.error == GitNotFound
  {
    match ScriptArgv(platformName, whereOutput, defaultIsDir, f, script, args)
    case Failure(e) => Failure(e)
    case Success(argv) => Success(CommandLine(argv))
  }

  /** How a shell splits a line of double-quoted words separated by single
      spaces: each word is the text between a `"` and the next `"`. Any
      other shape is not such a line. */
  function ReadWords(line: string): (words: Option<seq<string>>)
    ensures words.Some? ==> |words.value| >= 1
    ensures words.Some? ==> forall i :: 0 <= i < |words.value| ==> '"' !in words.value[i]
    decreases |line|
  {
    if |line| < 2 || line[0] != '"' then None
    else
      var body := line[1..];
      SplitHead(body, '"');
      var word := Split(body, '"')[0];
      if |word| == |body| then None
      else
        var after := body[|word| + 1..];
        if after == "" then Some([word])
        else if after[0] != ' ' then None
        else
          match ReadWords(after[1..])
          case None => None
          case Some(rest) => Some([word] + rest)
  }

  // ----- Lemmas -----

  lemma CommandLineCons(token: string, rest: seq<string>)
    requires |rest| >= 1
    ensures CommandLine([token] + rest) == Quote(token) + (" " + CommandLine(rest))
  {
    QuoteEachCons(token, rest);
    JoinSpaced(Quote(token), QuoteEach(rest));
  }

  lemma QuoteEachCons(token: string, rest: seq<string>)
    ensures QuoteEach([token] + rest) == [Quote(token)] + QuoteEach(rest)
  {
    assert ([token] + rest)[1..] == rest;
  }

  lemma JoinSpaced(head: string, rest: seq<string>)
    requires |rest| >= 1
    ensures Join([head] + rest, ' ') == head + (" " + Join(rest, ' '))
  {
    JoinCons(head, rest, ' ');
    SpaceAssoc(head, Join(rest, ' '));
  }

  lemma SpaceAssoc(a: string, b: string)
    ensures a + [' '] + b == a + (" " + b)
  {
    assert " " == [' '];
  }

  lemma ReadFirstWord(token: string, after: string)
    requires '"' !in token
    ensures ReadWords(Quote(token) + after) ==
      if after == "" then Some([token])
      else if after[0] != ' ' then None
      else match ReadWords(after[1..]) case None => None case Some(rest) => Some([token] + rest)
  {
    QuotedBody(token, after);
  }

  /** Inside `"token"after`, the first word is `token` and `after` follows
      its closing quote. */
  lemma QuotedBody(token: string, after: string)
    requires '"' !in token
    ensures var line := Quote(token) + after;
      && |line| >= 2 && line[0] == '"'
      && Split(line[1..], '"')[0] == token
      && |token| < |line[1..]|
      && line[1..][|token| + 1..] == after
  {
    var line := Quote(token) + after;
    assert line[1..] == token + ['"'] + after;
    SplitAt(token, after, '"');
    SplitHead(after, '"');
  }

  /** The quoting round trip: a shell reading the command line gets back
      every token whole and in order, spaces inside a token included, as
      long as no token holds a `"`. */
  lemma {:induction false} ReadWordsOfCommandLine(tokens: seq<string>)
    requires |tokens| >= 1
    requires forall i :: 0 <= i < |tokens| ==> '"' !in tokens[i]
    ensures ReadWords(CommandLine(tokens)) == Some(tokens)
    decreases |tokens|
  {
    if |tokens| == 1 {
      assert tokens == [tokens[0]];
      ReadWordsOfOne(tokens[0]);
    } else {
      var rest := tokens[1..];
      assert tokens == [tokens[0]] + rest;
      ReadWordsOfCommandLine(rest);
      ReadWordsOfCons(tokens[0], rest);
    }
  }

  lemma ReadWordsOfOne(token: string)
    requires '"' !in token
    ensures ReadWords(CommandLine([token])) == Some([token])
  {
    assert Quote(token) + "" == Quote(token);
    assert CommandLine([token]) == Quote(token);
    ReadFirstWord(token, "");
  }

  lemma ReadWordsOfCons(token: string, rest: seq<string>)
    requires '"' !in token && |rest| >= 1
    requires ReadWords(CommandLine(rest)) == Some(rest)
    ensures ReadWords(CommandLine([token] + rest)) == Some([token] + rest)
  {
    CommandLineCons(token, rest);
    ReadFirstWord(token, " " + CommandLine(rest));
    assert (" " + CommandLine(rest))[1..] == CommandLine(rest);
  }

  lemma JoinStartsWithFirst(parts: seq<string>, c: char)
    requires |parts| >= 1
    ensures parts[0] <= Join(parts, c)
  {
    if |parts| > 1 {
      JoinCons(parts[0], parts[1..], c);
      assert [parts[0]] + parts[1..] == parts;
    }
  }

  /** What `execute_bash_script_async` hands to the shell reads back as
      the argument vector of the synchronous executor: `2 + |args|`
      words, interpreter and script first, then the arguments in order. */
  lemma AsyncCommandReadsAsArgv(platformName: string, whereOutput: string, defaultIsDir: bool, f: PathFlavour,
                                script: string, args: seq<string>)
    requires ScriptArgv(platformName, whereOutput, defaultIsDir, f, script, args).Success?
    requires forall i :: 0 <= i < |ScriptArgv(platformName, whereOutput, defaultIsDir, f, script, args).value| ==>
      '"' !in ScriptArgv(platformName, whereOutput, defaultIsDir, f, script, args).value[i]
    ensures var argv := ScriptArgv(platformName, whereOutput, defaultIsDir, f, script, args).value;
      && ReadWords(AsyncCommand(platformName, whereOutput, defaultIsDir, f, script, args).value) == Some(argv)
      && |argv| == 2 + |args| && argv[1] == script && argv[2..] == args
  {
    ReadWordsOfCommandLine(ScriptArgv(platformName, whereOutput, defaultIsDir, f, script, args).value);
  }

  /** An argument with a space in it stays one argument. */
  lemma SpacedArgumentStaysWhole()
    ensures ReadWords(CommandLine(["bash", "fetch.sh", "my docs"])) == Some(["bash", "fetch.sh", "my docs"])
  {
    var tokens := ["bash", "fetch.sh", "my docs"];
    assert forall i :: 0 <= i < |tokens| ==> '"' !in tokens[i];
    ReadWordsOfCommandLine(tokens);
  }

  /** The capture-mode test is monotone: an interpreter not older than one
      that gets text capture gets it too. */
  lemma RunExtraArgsMonotone(major: int, minor: int, laterMajor: int, laterMinor: int)
    requires NotBefore(laterMajor, laterMinor, major, minor)
    requires RunExtraArgs(major, minor) == CaptureOutputText
    ensures RunExtraArgs(laterMajor, laterMinor) == CaptureOutputText
  {
    NotBeforeTransitive(laterMajor, laterMinor, major, minor, TextCaptureMajor, TextCaptureMinor);
  }

  /** The two branches of the capture-mode test split the versions between
      them: pipes exactly for the releases strictly before 3.7. */
  lemma RunExtraArgsPipesBefore(major: int, minor: int)
    ensures RunExtraArgs(major, minor) == PipeBytes <==>
      NotBefore(TextCaptureMajor, TextCaptureMinor, major, minor) && (major, minor) != (TextCaptureMajor, TextCaptureMinor)
  {
    NotBeforeTotal(major, minor, TextCaptureMajor, TextCaptureMinor);
  }

  /** The capture-mode boundary: 3.6 uses pipes, 3.7 and 4.0 text capture. */
  lemma RunExtraArgsBoundary()
    ensures RunExtraArgs(3, 6) == PipeBytes
    ensures RunExtraArgs(3, 7) == CaptureOutputText
    ensures RunExtraArgs(4, 0) == CaptureOutputText
    ensures RunExtraArgs(2, 7) == PipeBytes
  {
  }
}
