/** The path helpers of util.py: `get_src_path_root` and `remove_parents`,
    together with the small piece of pathlib they stand on. A pathlib path
    is seen as its sequence of segments (`Path(p).parts`): the non-empty
    pieces between separators. */
module Paths {
  import opened Wrappers
  import opened Errors
  import opened Strings

  /** The two pathlib flavours: POSIX paths separate on `/` only, Windows
      paths on both `/` and `\`, and print with `\`. */
  datatype PathFlavour = Posix | Windows

  function Separator(f: PathFlavour): char {
    if f == Posix then '/' else '\\'
  }

  predicate IsSeparator(c: char, f: PathFlavour) {
    c == '/' || (f == Windows && c == '\\')
  }

  /** One element of `Path(p).parts`: non-empty, no separator of its flavour. */
  predicate IsSegment(s: string, f: PathFlavour) {
    s != "" && '/' !in s && (f == Windows ==> '\\' !in s)
  }

  /** The pieces that are not empty, in order. */
  function NonEmpty(pieces: seq<string>): (r: seq<string>)
    ensures |r| <= |pieces|
    ensures forall i :: 0 <= i < |r| ==> r[i] != ""
    ensures forall i :: 0 <= i < |r| ==> r[i] in pieces
    ensures (forall i :: 0 <= i < |pieces| ==> pieces[i] != "") ==> r == pieces
  {
    if |pieces| == 0 then []
    else
      assert [pieces[0]] + pieces[1..] == pieces;
      (if pieces[0] == "" then [] else [pieces[0]]) + NonEmpty(pieces[1..])
  }

  /** `Path(p).parts`, without the anchor: the text between separators,
      repeated separators collapsed. */
  function Parts(p: string, f: PathFlavour): (parts: seq<string>)
    ensures forall i :: 0 <= i < |parts| ==> IsSegment(parts[i], f)
  {
    var normal := if f == Windows then Replace(p, '\\', '/') else p;
    var pieces := Split(normal, '/');
    assert f == Windows ==> forall i :: 0 <= i < |pieces| ==> '\\' !in pieces[i] by {
      if f == Windows {
        SplitAvoids(normal, '/', '\\');
      }
    }
    SplitPiecesAvoid(normal, '/');
    NonEmpty(pieces)
  }

  /** `str(Path(*parts))`: the parts joined with the flavour's separator;
      a path of no parts prints as `.`. Printed segments read back as
      the same segments. */
  function PathString(parts: seq<string>, f: PathFlavour): (p: string)
    ensures parts != [] && (forall i :: 0 <= i < |parts| ==> IsSegment(parts[i], f)) ==> Parts(p, f) == parts
  {
    if parts == [] then "."
    else if forall i :: 0 <= i < |parts| ==> IsSegment(parts[i], f) then
      PartsOfJoin(parts, Separator(f), f);
      Join(parts, Separator(f))
    else
      Join(parts, Separator(f))
  }

  /** `Path(p).parent`: the path without its last part. The parent of
      `.` (no parts) is `.` again. */
  function Parent(parts: seq<string>): (r: seq<string>)
    ensures |parts| > 0 ==> r + [parts[|parts| - 1]] == parts
    ensures |parts| == 0 ==> r == []
  {
    if |parts| == 0 then [] else parts[..|parts| - 1]
  }

  /** Python's slice `s[n:]`, where a negative `n` counts from the end. */
  function SliceFrom<T>(s: seq<T>, n: int): (r: seq<T>)
    ensures 0 <= n <= |s| ==> r == s[n..]
    ensures n < 0 ==> r == s[if |s| + n < 0 then 0 else |s| + n..]
    ensures n > |s| ==> r == []
  {
    if n > |s| then []
    else if n >= 0 then s[n..]
    else if |s| + n < 0 then s
    else s[|s| + n..]
  }

  /** `get_src_path_root`: the text before the first `\` if there is one,
      otherwise the text before the first `/`, otherwise the whole path. */
  function SrcPathRoot(p: string): (root: string)
    ensures root <= p
    ensures '\\' in p ==> '\\' !in root && p[|root|] == '\\'
    ensures '\\' !in p && '/' in p ==> '/' !in root && p[|root|] == '/'
    ensures '\\' !in p && '/' !in p ==> root == p
  {
    SplitHead(p, '\\');
    SplitHead(p, '/');
    if '\\' in p then Split(p, '\\')[0]
    else if '/' in p then Split(p, '/')[0]
    else p
  }

  /** `remove_parents`: drop the first `n` parts of the path and return the
      rest as a `/`-prefixed path with forward slashes. A count that is not
      below the number of parts is refused. */
  function RemoveParents(p: string, n: int, f: PathFlavour): (r: Result<string, UtilError>)
    ensures r.Failure? <==> n >= |Parts(p, f)|
    ensures r.Failure? ==> r.error == TooManyParents(n, |Parts(p, f)|)
    ensures r.Success? ==> |r.value| >= 2 && r.value[0] == '/' && '\\' !in r.value
  {
    var parts := Parts(p, f);
    if n >= |parts| then Failure(TooManyParents(n, |parts|))
    else Success("/" + Replace(PathString(SliceFrom(parts, n), f), '\\', '/'))
  }

  /** The parts of a path written with the separators of its flavour are
      the segments it was written from. */
  lemma PartsOfJoin(segments: seq<string>, sep: char, f: PathFlavour)
    requires forall i :: 0 <= i < |segments| ==> IsSegment(segments[i], f)
    requires IsSeparator(sep, f)
    ensures Parts(Join(segments, sep), f) == segments
  {
    if segments == [] {
      assert Join(segments, sep) == "";
      assert Parts("", f) == [];
      return;
    }
    if f == Windows {
      ReplaceSeparator(segments, sep, '/');
      if sep == '\\' {
        assert Replace(Join(segments, sep), '\\', '/') == Join(segments, '/');
      } else {
        JoinAvoids(segments, sep, '\\');
        ReplaceAbsent(Join(segments, sep), '\\', '/');
      }
    }
    SplitJoin(segments, '/');
  }

  /** A negative count on a path with no parts (the empty path, say)
      keeps nothing, and pathlib prints the empty path as `.`. */
  lemma RemoveParentsOfNoParts(p: string, n: int, f: PathFlavour)
    requires Parts(p, f) == [] && n < 0
    ensures RemoveParents(p, n, f) == Success("/.")
  {
    var parts := Parts(p, f);
    assert SliceFrom(parts, n) == [];
    assert PathString([], f) == ".";
    ReplaceAbsent(".", '\\', '/');
    assert Replace(".", '\\', '/') == ".";
    assert "/" + "." == "/.";
  }

  /** Three parts, and a count of three: refused. */
  lemma RemoveParentsCountTooLarge()
    ensures RemoveParents("docs/api/index.md", 3, Posix) == Failure(TooManyParents(3, 3))
  {
    ExamplePathParts();
  }

  lemma ExamplePathParts()
    ensures Parts("docs/api/index.md", Posix) == ["docs", "api", "index.md"]
  {
    assert "docs/api/index.md" == Join(["docs", "api", "index.md"], '/');
    PartsOfJoin(["docs", "api", "index.md"], '/', Posix);
  }

  /** A path without `\` has the same parts in both flavours. */
  lemma PartsWithoutBackslash(p: string)
    requires '\\' !in p
    ensures Parts(p, Posix) == Parts(p, Windows)
  {
    ReplaceAbsent(p, '\\', '/');
  }

  /** What `remove_parents` keeps: for a count below the number of parts,
      and a path whose parts hold no `\` (always so for Windows paths),
      the result is `/` followed by the parts from index `n` on joined with
      `/`, so splitting it after the leading `/` gives exactly those
      `|parts| - n` segments back. A negative count keeps the last `-n`
      parts (all of them if there are fewer), as a Python slice does. */
  lemma RemoveParentsKeepsTail(p: string, n: int, f: PathFlavour)
    requires n < |Parts(p, f)| && |Parts(p, f)| >= 1
    requires f == Windows || '\\' !in p
    ensures RemoveParents(p, n, f) == Success("/" + Join(SliceFrom(Parts(p, f), n), '/'))
    ensures Split(RemoveParents(p, n, f).value[1..], '/') == SliceFrom(Parts(p, f), n)
    ensures n >= 0 ==> |SliceFrom(Parts(p, f), n)| == |Parts(p, f)| - n
    ensures n < 0 ==> |SliceFrom(Parts(p, f), n)| == (if -n < |Parts(p, f)| then -n else |Parts(p, f)|)
  {
    var parts := Parts(p, f);
    var kept := SliceFrom(parts, n);
    assert kept != [];
    assert forall i :: 0 <= i < |kept| ==> '\\' !in kept[i] by {
      if f == Posix {
        PartsWithoutBackslash(p);
      }
    }
    assert PathString(kept, f) == Join(kept, Separator(f));
    if f == Windows {
      ReplaceSeparator(kept, '\\', '/');
    } else {
      JoinAvoids(kept, '/', '\\');
      ReplaceAbsent(Join(kept, '/'), '\\', '/');
    }
    var r := "/" + Join(kept, '/');
    assert r[1..] == Join(kept, '/');
    SplitJoin(kept, '/');
  }
}
