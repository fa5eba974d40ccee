/** `git_version` and `git_supports_sparse_clone`: reading (major, minor)
    out of the banner `git --version` prints, and the version test that
    decides whether a sparse clone can be used. Running git is not
    modelled: its standard output is a parameter. */
module GitVersions {
  import opened Wrappers
  import opened Errors
  import opened Strings
  import opened Paths
  import opened Locator
  import opened Releases

  /** The `GitVersion` named tuple: `int()` of digit strings, so never
      negative. */
  datatype GitVersion = GitVersion(major: nat, minor: nat)

  predicate IsDigit(c: char) {
    '0' <= c <= '9'
  }

  /** The character class `[\d.]` of the search pattern. */
  predicate IsVersionChar(c: char) {
    IsDigit(c) || c == '.'
  }

  predicate AllDigits(s: string) {
    forall i :: 0 <= i < |s| ==> IsDigit(s[i])
  }

  predicate AllVersionChars(s: string) {
    forall i :: 0 <= i < |s| ==> IsVersionChar(s[i])
  }

  predicate NoVersionChars(s: string) {
    forall i :: 0 <= i < |s| ==> !IsVersionChar(s[i])
  }

  /** The longest prefix of `s` made of version characters. */
  function LeadingRun(s: string): (run: string)
    ensures run <= s
    ensures AllVersionChars(run)
    ensures |run| < |s| ==> !IsVersionChar(s[|run|])
  {
    if |s| == 0 || !IsVersionChar(s[0]) then ""
    else
      assert [s[0]] + s[1..] == s;
      [s[0]] + LeadingRun(s[1..])
  }

  /** Where the first version character of `s` is, or `|s|` if none. */
  function RunStart(s: string): (i: nat)
    ensures i <= |s|
    ensures NoVersionChars(s[..i])
    ensures i < |s| ==> IsVersionChar(s[i])
  {
    if |s| == 0 || IsVersionChar(s[0]) then 0
    else
      var j := RunStart(s[1..]);
      assert s[..j + 1] == [s[0]] + s[1..][..j];
      j + 1
  }

  /** `search(r'([\d.]+)', s)`: the first maximal run of version
      characters, or nothing when `s` has no version character. */
  function FirstRun(s: string): (run: Option<string>)
    ensures run.None? <==> NoVersionChars(s)
    ensures run.Some? ==> run.value != [] && AllVersionChars(run.value)
  {
    var i := RunStart(s);
    if i == |s| then
      assert s[..i] == s;
      None
    else
      Some(LeadingRun(s[i..]))
  }

  /** The value of a string of decimal digits. */
  function DigitsValue(s: string): nat
    requires AllDigits(s)
  {
    if |s| == 0 then 0
    else
      assert IsDigit(s[|s| - 1]);
      10 * DigitsValue(s[..|s| - 1]) + (s[|s| - 1] as int - '0' as int)
  }

  /** `int(s)` for a piece of a version run: defined exactly when the
      piece is a non-empty string of digits. */
  function ParseNat(s: string): (n: Option<nat>)
    ensures n.Some? <==> s != [] && AllDigits(s)
  {
    if s != [] && AllDigits(s) then Some(DigitsValue(s)) else None
  }

  /** The decimal digits of `n`, without leading zeros. */
  function ShowNat(n: nat): (s: string)
    ensures s != [] && AllDigits(s)
  {
    var d := ['0' + (n % 10) as char];
    if n < 10 then d else ShowNat(n / 10) + d
  }

  /** The version-parsing step of `git_version`: the first run of `[\d.]`
      in the banner, split on `.`, its first two pieces read as numbers.
      No run, a run without `.`, and an empty first or second piece are
      the three ways Python fails here. */
  function ParseGitVersion(stdout: string): (r: Result<GitVersion, UtilError>)
    ensures r == Failure(NoVersionNumber) <==> NoVersionChars(stdout)
    ensures r == Failure(MissingMinor) <==> FirstRun(stdout).Some? && '.' !in FirstRun(stdout).value
    ensures r == Failure(EmptyComponent) <==> FirstRun(stdout).Some? && EmptyLeadingPiece(FirstRun(stdout).value)
    ensures r.Failure? ==> r.error in {NoVersionNumber, MissingMinor, EmptyComponent}
    ensures r.Success? ==> (FirstRun(stdout).Some? &&
      var pieces := Split(FirstRun(stdout).value, '.');
      && |pieces| >= 2 && pieces[0] != [] && pieces[1] != []
      && AllDigits(pieces[0]) && AllDigits(pieces[1])
      && r.value == GitVersion(DigitsValue(pieces[0]), DigitsValue(pieces[1])))
  {
    match FirstRun(stdout)
    case None => Failure(NoVersionNumber)
    case Some(run) =>
      var pieces := Split(run, '.');
      SplitCount(run, '.');
      VersionPiecesAreDigits(run);
      if |pieces| < 2 then Failure(MissingMinor)
      else
        match (ParseNat(pieces[0]), ParseNat(pieces[1]))
        case (Some(major), Some(minor)) => Success(GitVersion(major, minor))
        case _ => Failure(EmptyComponent)
  }

  /** A run has at least two `.`-pieces and one of the first two is empty,
      so that `int()` of it fails. */
  predicate EmptyLeadingPiece(run: string) {
    var pieces := Split(run, '.');
    |pieces| >= 2 && (pieces[0] == [] || pieces[1] == [])
  }

  /** The release order on versions: `v` is `w` or later. */
  predicate AtLeast(v: GitVersion, w: GitVersion) {
    NotBefore(v.major, v.minor, w.major, w.minor)
  }

  /** The first git release with `clone --sparse`. */
  const SparseCloneRelease: GitVersion := GitVersion(2, 25)

  /** The test of `git_supports_sparse_clone`: refused for 1.x and for
      2.x before 2.25, accepted otherwise; that is, exactly the versions
      from 2.25 on. */
  function SupportsSparseClone(v: GitVersion): (supported: bool)
    ensures supported <==> AtLeast(v, SparseCloneRelease)
  {
    if (v.major == 2 && v.minor < 25) || v.major < 2 then false else true
  }

  /** `git_version` on a host: on Linux git is run directly; elsewhere it is
      run from the directory `where_git` finds, whose failure comes first. */
  function HostGitVersion(platformName: string, whereOutput: string, defaultIsDir: bool,
                          f: PathFlavour, stdout: string): (r: Result<GitVersion, UtilError>)
    ensures IsLinux(platformName) ==> r == ParseGitVersion(stdout)
    ensures !IsLinux(platformName) && WhereGit(whereOutput, defaultIsDir, f).Failure? ==> r == Failure(GitNotFound)
    ensures !IsLinux(platformName) && WhereGit(whereOutput, defaultIsDir, f).Success? ==> r == ParseGitVersion(stdout)
  {
    if IsLinux(platformName) then ParseGitVersion(stdout)
    else
      match WhereGit(whereOutput, defaultIsDir, f)
      case Failure(e) => Failure(e)
      case Success(_) => ParseGitVersion(stdout)
  }

  /** `git_supports_sparse_clone`: the gate applied to the detected version;
      a failed detection propagates. */
  function HostSupportsSparseClone(platformName: string, whereOutput: string, defaultIsDir: bool,
                                   f: PathFlavour, stdout: string): (r: Result<bool, UtilError>)
    ensures r.Success? <==> HostGitVersion(platformName, whereOutput, defaultIsDir, f, stdout).Success?
    ensures r.Success? ==> r.value == AtLeast(HostGitVersion(platformName, whereOutput, defaultIsDir, f, stdout).value, SparseCloneRelease)
    ensures r.Failure? ==> r.error == HostGitVersion(platformName, whereOutput, defaultIsDir, f, stdout).error
  {
    match HostGitVersion(platformName, whereOutput, defaultIsDir, f, stdout)
    case Failure(e) => Failure(e)
    case Success(v) => Success(SupportsSparseClone(v))
  }

  // ----- Lemmas -----

  /** The `.`-pieces of a version run are digit strings. */
  lemma {:induction false} VersionPiecesAreDigits(run: string)
    requires AllVersionChars(run)
    ensures forall i :: 0 <= i < |Split(run, '.')| ==> AllDigits(Split(run, '.')[i])
    decreases |run|
  {
    if |run| > 0 {
      var rest := Split(run[1..], '.');
      assert AllVersionChars(run[1..]) by {
        forall i | 0 <= i < |run[1..]| ensures IsVersionChar(run[1..][i]) {
          assert run[1..][i] == run[i + 1];
        }
      }
      VersionPiecesAreDigits(run[1..]);
      if run[0] != '.' {
        assert IsDigit(run[0]);
        var head := [run[0]] + rest[0];
        assert AllDigits(rest[0]);
        assert AllDigits(head) by {
          forall i | 0 <= i < |head| ensures IsDigit(head[i]) {
            if i > 0 { assert head[i] == rest[0][i - 1]; }
          }
        }
      }
    }
  }

  lemma {:induction false} RunStartAfter(pre: string, rest: string)
    requires NoVersionChars(pre)
    requires rest != [] && IsVersionChar(rest[0])
    ensures RunStart(pre + rest) == |pre|
    decreases |pre|
  {
    if |pre| > 0 {
      assert (pre + rest)[1..] == pre[1..] + rest;
      RunStartAfter(pre[1..], rest);
    }
  }

  lemma {:induction false} LeadingRunOf(run: string, post: string)
    requires AllVersionChars(run)
    requires post == [] || !IsVersionChar(post[0])
    ensures LeadingRun(run + post) == run
    decreases |run|
  {
    if |run| == 0 {
      assert run + post == post;
    } else {
      assert (run + post)[1..] == run[1..] + post;
      LeadingRunOf(run[1..], post);
      assert [run[0]] + run[1..] == run;
    }
  }

  /** The run the search finds is the one that any split of the text into
      non-version text, a non-empty run, and text not continuing the run
      exhibits: the first maximal `[\d.]` run is unique. */
  lemma FirstRunOf(pre: string, run: string, post: string)
    requires NoVersionChars(pre)
    requires run != [] && AllVersionChars(run)
    requires post == [] || !IsVersionChar(post[0])
    ensures FirstRun(pre + run + post) == Some(run)
  {
    var s := pre + run + post;
    assert s == pre + (run + post);
    RunStartAfter(pre, run + post);
    assert s[|pre|..] == run + post;
    LeadingRunOf(run, post);
  }

  /** Reading back the digits of `n` gives `n`. */
  lemma {:induction false} ParseShowNat(n: nat)
    ensures ParseNat(ShowNat(n)) == Some(n)
  {
    DigitsShowNat(n);
  }

  lemma {:induction false} DigitsShowNat(n: nat)
    ensures DigitsValue(ShowNat(n)) == n
  {
    var d := ['0' + (n % 10) as char];
    if n >= 10 {
      DigitsShowNat(n / 10);
      var s := ShowNat(n / 10) + d;
      assert s[..|s| - 1] == ShowNat(n / 10);
    }
  }

  lemma ShowNatHasNoDot(n: nat)
    ensures '.' !in ShowNat(n) && AllVersionChars(ShowNat(n))
  {
    var s := ShowNat(n);
    assert forall i :: 0 <= i < |s| ==> IsDigit(s[i]);
  }

  /** `major.minor` followed by an optional `.`-led patch level is a run
      of version characters. */
  lemma VersionRunChars(a: string, b: string, patch: string)
    requires AllVersionChars(a) && AllVersionChars(b) && AllVersionChars(patch)
    ensures AllVersionChars(a + "." + b + patch)
  {
    var run := a + "." + b + patch;
    forall i | 0 <= i < |run| ensures IsVersionChar(run[i]) {
      if i < |a| { assert run[i] == a[i]; }
      else if i == |a| { assert run[i] == '.'; }
      else if i < |a| + 1 + |b| { assert run[i] == b[i - |a| - 1]; }
      else { assert run[i] == patch[i - |a| - 1 - |b|]; }
    }
  }

  /** The first two `.`-pieces of `a.b` + patch are `a` and `b`. */
  lemma VersionRunPieces(a: string, b: string, patch: string)
    requires '.' !in a && '.' !in b
    requires patch == [] || patch[0] == '.'
    ensures |Split(a + "." + b + patch, '.')| >= 2
    ensures Split(a + "." + b + patch, '.')[0] == a
    ensures Split(a + "." + b + patch, '.')[1] == b
  {
    assert a + "." + b + patch == a + ['.'] + (b + patch);
    SplitAt(a, b + patch, '.');
    if patch == [] {
      assert b + patch == b;
      SplitHead(b, '.');
    } else {
      assert b + patch == b + ['.'] + patch[1..];
      SplitAt(b, patch[1..], '.');
    }
  }

  /** The banner round trip: text without version characters, then
      `major.minor`, optionally more `.`-led version characters (the patch
      level), then text that does not continue the run, parses to
      (major, minor). */
  lemma ParseGitVersionOfBanner(pre: string, major: nat, minor: nat, patch: string, post: string)
    requires NoVersionChars(pre)
    requires patch == [] || (patch[0] == '.' && AllVersionChars(patch))
    requires post == [] || !IsVersionChar(post[0])
    ensures ParseGitVersion(pre + ShowNat(major) + "." + ShowNat(minor) + patch + post)
         == Success(GitVersion(major, minor))
  {
    var run := ShowNat(major) + "." + ShowNat(minor) + patch;
    BannerRun(pre, major, minor, patch, post);
    BannerPieces(major, minor, patch);
    ParseShowNat(major);
    ParseShowNat(minor);
    ParseOfRun(pre + ShowNat(major) + "." + ShowNat(minor) + patch + post, run, major, minor);
  }

  lemma BannerRun(pre: string, major: nat, minor: nat, patch: string, post: string)
    requires NoVersionChars(pre)
    requires patch == [] || (patch[0] == '.' && AllVersionChars(patch))
    requires post == [] || !IsVersionChar(post[0])
    ensures FirstRun(pre + ShowNat(major) + "." + ShowNat(minor) + patch + post)
         == Some(ShowNat(major) + "." + ShowNat(minor) + patch)
  {
    var a, b := ShowNat(major), ShowNat(minor);
    var run := a + "." + b + patch;
    ShowNatHasNoDot(major);
    ShowNatHasNoDot(minor);
    VersionRunChars(a, b, patch);
    ConcatRun(pre, a, b, patch, post);
    FirstRunOf(pre, run, post);
  }

  lemma ConcatRun(pre: string, a: string, b: string, patch: string, post: string)
    ensures pre + a + "." + b + patch + post == pre + (a + "." + b + patch) + post
  {
  }

  lemma BannerPieces(major: nat, minor: nat, patch: string)
    requires patch == [] || patch[0] == '.'
    ensures var pieces := Split(ShowNat(major) + "." + ShowNat(minor) + patch, '.');
      |pieces| >= 2 && pieces[0] == ShowNat(major) && pieces[1] == ShowNat(minor)
  {
    ShowNatHasNoDot(major);
    ShowNatHasNoDot(minor);
    VersionRunPieces(ShowNat(major), ShowNat(minor), patch);
  }

  /** Parsing succeeds with the values of the first two pieces of the run. */
  lemma ParseOfRun(s: string, run: string, major: nat, minor: nat)
    requires FirstRun(s) == Some(run)
    requires |Split(run, '.')| >= 2
    requires ParseNat(Split(run, '.')[0]) == Some(major)
    requires ParseNat(Split(run, '.')[1]) == Some(minor)
    ensures ParseGitVersion(s) == Success(GitVersion(major, minor))
  {
  }

  /** Version 2.39.2, as a Linux git prints it. */
  lemma ParsesLinuxBanner()
    ensures ParseGitVersion("git version 2.39.2") == Success(GitVersion(2, 39))
  {
    LinuxBannerParts();
    ParseGitVersionOfBanner(BannerPrefix, 2, 39, ".2", "");
  }

  lemma LinuxBannerParts()
    ensures NoVersionChars(BannerPrefix) && AllVersionChars(".2")
    ensures BannerPrefix + ShowNat(2) + "." + ShowNat(39) + ".2" + "" == "git version 2.39.2"
  {
    ShowExamples();
    assert AllVersionChars(".2");
  }

  /** Git for Windows appends `.windows.N`; the run stops at the `w`. */
  lemma ParsesWindowsBanner()
    ensures ParseGitVersion("git version 2.41.0.windows.1") == Success(GitVersion(2, 41))
  {
    WindowsBannerParts();
    ParseGitVersionOfBanner(BannerPrefix, 2, 41, ".0.", "windows.1");
  }

  lemma WindowsBannerParts()
    ensures NoVersionChars(BannerPrefix) && AllVersionChars(".0.") && !IsVersionChar("windows.1"[0])
    ensures BannerPrefix + ShowNat(2) + "." + ShowNat(41) + ".0." + "windows.1" == "git version 2.41.0.windows.1"
  {
    ShowExamples();
    assert AllVersionChars(".0.");
  }

  /** The text git prints before its version number. */
  const BannerPrefix: string := "git version "

  lemma ShowExamples()
    ensures ShowNat(2) == "2" && ShowNat(39) == "39" && ShowNat(41) == "41"
    ensures NoVersionChars(BannerPrefix)
  {
    assert ShowNat(3) == "3";
    assert ShowNat(4) == "4";
  }

  /** Banners the Python code crashes on are failures here: no number at
      all (`AttributeError`), no minor part (`IndexError`), an empty major
      part (`ValueError`). */
  lemma ParseFailsWithoutNumber()
    ensures ParseGitVersion("git version") == Failure(NoVersionNumber)
  {
    assert NoVersionChars("git version");
  }

  lemma ParseFailsWithoutMinor()
    ensures ParseGitVersion("git version 2") == Failure(MissingMinor)
  {
    ShowExamples();
    assert BannerPrefix + "2" + "" == "git version 2";
    FirstRunOf(BannerPrefix, "2", "");
  }

  lemma ParseFailsOnEmptyMajor()
    ensures ParseGitVersion("git version .5") == Failure(EmptyComponent)
  {
    ShowExamples();
    assert BannerPrefix + ".5" + "" == "git version .5";
    FirstRunOf(BannerPrefix, ".5", "");
    SplitAt("", "5", '.');
    assert "" + ['.'] + "5" == ".5";
  }

  /** The gate is monotone: a later version than one that supports sparse
      clones supports them too. */
  lemma SparseCloneMonotone(v: GitVersion, w: GitVersion)
    requires AtLeast(w, v)
    requires SupportsSparseClone(v)
    ensures SupportsSparseClone(w)
  {
    NotBeforeTransitive(w.major, w.minor, v.major, v.minor, SparseCloneRelease.major, SparseCloneRelease.minor);
  }

  /** The two branches of the gate split the versions between them: the
      refused ones are exactly those strictly before 2.25. */
  lemma SparseCloneRefusedBefore(v: GitVersion)
    ensures !SupportsSparseClone(v) <==> NotBefore(SparseCloneRelease.major, SparseCloneRelease.minor, v.major, v.minor) && v != SparseCloneRelease
  {
    NotBeforeTotal(v.major, v.minor, SparseCloneRelease.major, SparseCloneRelease.minor);
  }

  /** The boundary: 2.24 is refused, 2.25 and 3.0 accepted, all of 1.x refused. */
  lemma SparseCloneBoundary(minor: nat)
    ensures !SupportsSparseClone(GitVersion(1, minor))
    ensures !SupportsSparseClone(GitVersion(2, 24))
    ensures SupportsSparseClone(GitVersion(2, 25))
    ensures SupportsSparseClone(GitVersion(3, 0))
  {
  }
}
