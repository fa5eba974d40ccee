/** `where_git`: where git is installed, decided from the text the host's
    `where git` lookup printed. The lookup itself is not modelled: its
    output is a parameter, and so is whether the default install
    directory exists. */
module Locator {
  import opened Wrappers
  import opened Errors
  import opened Strings
  import opened Paths

  /** The `sys.platform` names for which util.py takes its Linux branch;
      on every other host it locates git with `where_git`. */
  function IsLinux(platformName: string): (linux: bool)
    ensures linux <==> "linux" <= platformName && (|platformName| == 5 || platformName[5..] == "2")
  {
    platformName == "linux" || platformName == "linux2"
  }

  /** macOS, Windows and Cygwin hosts all go through `where_git`. */
  lemma OtherPlatformsAreNotLinux()
    ensures !IsLinux("darwin") && !IsLinux("win32") && !IsLinux("cygwin")
  {
  }

  /** Where git is installed when it is not on the PATH. */
  const DefaultGitLocation: string := "C:/Program Files/Git"

  /** The text `where` prints when it finds nothing starts with this. */
  const NotFoundMarker: string := "INFO"

  /** The line of the lookup output that is examined: carriage returns
      removed, then everything from the first line feed on dropped. */
  function FirstLine(output: string): (line: string)
    ensures '\r' !in line && '\n' !in line
    ensures line <= Delete(output, '\r')
    ensures '\n' in Delete(output, '\r') ==> Delete(output, '\r')[|line|] == '\n'
    ensures '\n' !in Delete(output, '\r') ==> line == Delete(output, '\r')
  {
    SplitHead(Delete(output, '\r'), '\n');
    Split(Delete(output, '\r'), '\n')[0]
  }

  /** `where_git`: if the first line of the lookup says nothing was found,
      the default install directory when it exists and `GitNotFound`
      otherwise; else the directory two levels above the executable the
      line names (`...\Git\cmd\git.exe` gives `...\Git`). */
  function WhereGit(output: string, defaultIsDir: bool, f: PathFlavour): (r: Result<seq<string>, UtilError>)
    ensures Contains(FirstLine(output), NotFoundMarker) && defaultIsDir ==> r == Success(Parts(DefaultGitLocation, f))
    ensures Contains(FirstLine(output), NotFoundMarker) && !defaultIsDir ==> r == Failure(GitNotFound)
    ensures r.Failure? ==> r.error == GitNotFound
    ensures !Contains(FirstLine(output), NotFoundMarker) ==>
      r.Success? && |r.value| == (if |Parts(FirstLine(output), f)| < 2 then 0 else |Parts(FirstLine(output), f)| - 2)
      && r.value <= Parts(FirstLine(output), f)
  {
    var line := FirstLine(output);
    if Contains(line, NotFoundMarker) then
      if defaultIsDir then Success(Parts(DefaultGitLocation, f)) else Failure(GitNotFound)
    else
      Success(Parent(Parent(Parts(line, f))))
  }

  /** Only the first line counts: whatever follows the first line feed
      leaves the decision unchanged. */
  lemma WhereGitReadsFirstLine(line: string, rest: string, defaultIsDir: bool, f: PathFlavour)
    requires '\n' !in line
    ensures WhereGit(line + "\n" + rest, defaultIsDir, f) == WhereGit(line, defaultIsDir, f)
  {
    FirstLineBeforeNewline(line, rest);
    FirstLineOfOneLine(line);
  }

  /** The first line of `line\n...` is `line` without its carriage returns. */
  lemma FirstLineBeforeNewline(line: string, rest: string)
    requires '\n' !in line
    ensures FirstLine(line + "\n" + rest) == Delete(line, '\r')
  {
    DeleteAroundNewline(line, rest);
    DeleteAvoids(line, '\r', '\n');
    SplitAt(Delete(line, '\r'), Delete(rest, '\r'), '\n');
  }

  lemma DeleteAroundNewline(line: string, rest: string)
    ensures Delete(line + "\n" + rest, '\r') == Delete(line, '\r') + "\n" + Delete(rest, '\r')
  {
    assert line + "\n" + rest == line + ("\n" + rest);
    DeleteAppend(line, "\n" + rest, '\r');
    DeleteAfterNewline(rest);
  }

  lemma FirstLineOfOneLine(line: string)
    requires '\n' !in line
    ensures FirstLine(line) == Delete(line, '\r')
  {
    DeleteAvoids(line, '\r', '\n');
    SplitHead(Delete(line, '\r'), '\n');
  }

  lemma DeleteAfterNewline(rest: string)
    ensures Delete("\n" + rest, '\r') == "\n" + Delete(rest, '\r')
  {
    assert ("\n" + rest)[1..] == rest;
  }

  /** Carriage returns never matter (Windows ends lines with `\r\n`). */
  lemma WhereGitIgnoresCarriageReturns(output: string, defaultIsDir: bool, f: PathFlavour)
    ensures WhereGit(Delete(output, '\r'), defaultIsDir, f) == WhereGit(output, defaultIsDir, f)
  {
  }

  /** The first line of `line\r\n...` is `line`. */
  lemma FirstLineOfCrlf(line: string, rest: string)
    requires '\r' !in line && '\n' !in line
    ensures FirstLine(line + "\r\n" + rest) == line
  {
    assert line + "\r\n" + rest == (line + "\r") + "\n" + rest;
    FirstLineBeforeNewline(line + "\r", rest);
    DeleteAppend(line, "\r", '\r');
    assert Delete("\r", '\r') == "";
  }

  /** Installed git: when the lookup names `dir\cmd\git.exe` (or any other
      two trailing segments) on its first line, the install directory is
      `dir`. */
  lemma {:induction false} WhereGitFindsInstallDir(dir: seq<string>, bin: string, exe: string, sep: char,
                                                   rest: string, defaultIsDir: bool, f: PathFlavour)
    requires forall i :: 0 <= i < |dir| ==> IsSegment(dir[i], f) && '\r' !in dir[i] && '\n' !in dir[i]
    requires IsSegment(bin, f) && '\r' !in bin && '\n' !in bin
    requires IsSegment(exe, f) && '\r' !in exe && '\n' !in exe
    requires IsSeparator(sep, f)
    requires !Contains(Join(dir + [bin, exe], sep), NotFoundMarker)
    ensures WhereGit(Join(dir + [bin, exe], sep) + "\r\n" + rest, defaultIsDir, f) == Success(dir)
  {
    var segments := dir + [bin, exe];
    var line := Join(segments, sep);
    assert forall i :: 0 <= i < |segments| ==> IsSegment(segments[i], f) && '\r' !in segments[i] && '\n' !in segments[i];
    JoinAvoids(segments, sep, '\r');
    JoinAvoids(segments, sep, '\n');
    WhereGitOfLine(line, rest, defaultIsDir, f);
    PartsOfJoin(segments, sep, f);
    assert Parent(Parent(segments)) == dir;
  }

  lemma WhereGitOfLine(line: string, rest: string, defaultIsDir: bool, f: PathFlavour)
    requires '\r' !in line && '\n' !in line
    requires !Contains(line, NotFoundMarker)
    ensures WhereGit(line + "\r\n" + rest, defaultIsDir, f) == Success(Parent(Parent(Parts(line, f))))
  {
    FirstLineOfCrlf(line, rest);
  }

  /** The default install directory is `C:`, `Program Files`, `Git`. */
  lemma DefaultGitLocationParts()
    ensures Parts(DefaultGitLocation, Windows) == ["C:", "Program Files", "Git"]
  {
    assert DefaultGitLocation == Join(["C:", "Program Files", "Git"], '/');
    PartsOfJoin(["C:", "Program Files", "Git"], '/', Windows);
  }
}
