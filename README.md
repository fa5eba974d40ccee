# mkdocs-multirepo-plugin: the pure core of `util.py`, in Dafny

`mkdocs_multirepo_plugin/util.py` sits between the plugin and the external
`git` and `bash` processes. Most of it is process plumbing. The rest is pure
logic, and that is what this project models and proves things about:

- path reshaping: `get_src_path_root` and `remove_parents`, with pathlib's
  `Path(p).parts` seen as a sequence of segments;
- `where_git`: how the text printed by the host's `where git` lookup becomes
  an install directory, the default directory, or a `GitException`;
- `git_version`: reading `(major, minor)` out of the `git --version` banner,
  where every Python crash becomes an explicit failure;
- `git_supports_sparse_clone`: the version gate for sparse clones;
- `get_subprocess_run_extra_args`: the capture mode chosen from the Python
  version;
- `execute_bash_script` / `execute_bash_script_async`: the argument vector
  `[interpreter, script] + arguments`, and the quoted, space-joined command
  string the asynchronous variant hands to the shell.

Everything the code reads from the host becomes a parameter:
- `sys.platform` is `platformName`;
- `version_info` is `(major, minor)`;
- the stdout of `where git` and of `git --version` are strings;
- whether `C:/Program Files/Git` is a directory is `defaultIsDir`;
- pathlib's flavour (POSIX or Windows) is a `PathFlavour`.

Modules, one per component of the file:

| file | module | contents |
|---|---|---|
| Wrappers.dfy | `Wrappers` | `Option`, `Result` |
| Errors.dfy | `Errors` | `UtilError`: one constructor per exception the modelled code raises |
| Releases.dfy | `Releases` | the lexicographic order on `(major, minor)` release numbers |
| Strings.dfy | `Strings` | `str.split`, `str.join`, `str.replace`, `in` on strings, with their round-trip lemmas |
| Paths.dfy | `Paths` | segments of a path, `get_src_path_root`, `remove_parents` |
| Locator.dfy | `Locator` | `where_git`, the Linux platform test |
| GitVersions.dfy | `GitVersions` | `GitVersion`, banner parsing, the sparse-clone gate |
| Scripts.dfy | `Scripts` | capture mode, script argument vector, async command line and a reader for it |

Behaviour of `util.py` the model keeps:
- `get_src_path_root` tests for a backslash first. A backslash anywhere in
  the path decides the root, even when a `/` comes earlier.
- The version search is `[\d.]+`, so a lone `.` is a run.
- Version detection has three failure cases:
  - the banner has no run at all (`AttributeError` on `None.group`);
  - the run has no `.` (`IndexError`);
  - the first or second piece of the run is empty (`ValueError` from `int("")`).

  Newer interpreters have a fourth, which the model leaves out (see
  "Left out"): `int()` of more than 4300 digits.
- `where_git` tests for the substring `INFO` on the first line only. When
  the default directory is missing too, it raises `GitException`
  (`GitNotFound`).
- Only `linux` and `linux2` take the Linux branch. Every other platform,
  macOS included, goes through `where_git`.
- `remove_parents` accepts a negative count, as a Python slice does. On a
  path with no parts the result is `/.`, because pathlib prints the empty
  path as `.`.
- `get_subprocess_run_extra_args` and `git_supports_sparse_clone` both
  compare `(major, minor)` pairs lexicographically, against (3, 7) and
  (2, 25).

## Model

| member | source | states |
|---|---|---|
| `Paths.SrcPathRoot` | mkdocs_multirepo_plugin/util.py:26-32 | the result is a prefix of the path; with a `\` in the path it is the text before the first `\`, even when a `/` comes earlier; else with a `/` it is the text before the first `/`; else it is the whole path |
| `Paths.Parts` | mkdocs_multirepo_plugin/util.py:42 | every part of `Path(p).parts` is non-empty and holds no separator of its flavour |
| `Paths.PartsOfJoin` | mkdocs_multirepo_plugin/util.py:42 | a path written from any sequence of separator-free segments has exactly those segments as its parts (none for the empty path) |
| `Paths.SliceFrom` | mkdocs_multirepo_plugin/util.py:45 | `parts[n:]` with Python slice semantics: the suffix from `n`; for negative `n` the last `-n` elements; empty past the end |
| `Paths.PathString` | mkdocs_multirepo_plugin/util.py:46 | `str(Path(*parts))` of one or more segments reads back as the same segments |
| `Paths.RemoveParents` | mkdocs_multirepo_plugin/util.py:41-46 | fails with `TooManyParents` exactly when the count is at least the number of segments (pathlib's parts without the anchor); on success the result starts with `/`, is at least two characters long and holds no `\` |
| `Paths.RemoveParentsKeepsTail` | mkdocs_multirepo_plugin/util.py:45-46 | on success the result is `/` plus the kept parts joined with `/`; splitting it after the `/` gives back exactly the kept parts, n fewer than there are parts (the last `-n` for negative `n`) |
| `Paths.RemoveParentsOfNoParts` | mkdocs_multirepo_plugin/util.py:42-46 | a negative count on a path with no parts yields `/.` |
| `Paths.RemoveParentsCountTooLarge` | mkdocs_multirepo_plugin/util.py:43-44 | `docs/api/index.md` with count 3 is refused |
| `Paths.Parent` | mkdocs_multirepo_plugin/util.py:67 | `.parent` drops exactly the last part; the parent of the empty path is empty |
| `Locator.IsLinux` | mkdocs_multirepo_plugin/util.py:72 | the Linux branch is taken exactly for `linux` itself and for `linux` followed by `2` |
| `Locator.OtherPlatformsAreNotLinux` | mkdocs_multirepo_plugin/util.py:96-103 | `darwin`, `win32` and `cygwin` take the `where_git` branch |
| `Locator.FirstLine` | mkdocs_multirepo_plugin/util.py:51-56 | the examined line has no `\r` and no `\n`; it is the prefix of the `\r`-free output up to its first line feed, or all of it when there is none |
| `Locator.WhereGit` | mkdocs_multirepo_plugin/util.py:49-67 | `INFO` on the first line gives the default location when it is a directory and `GitNotFound` otherwise; any other line gives a prefix of its path's parts, two parts shorter (empty for fewer than two) |
| `Locator.WhereGitReadsFirstLine` | mkdocs_multirepo_plugin/util.py:55 | text after the first line feed never changes the outcome |
| `Locator.FirstLineOfCrlf` | mkdocs_multirepo_plugin/util.py:54-55 | the first line of `line\r\n...` is `line` |
| `Locator.WhereGitIgnoresCarriageReturns` | mkdocs_multirepo_plugin/util.py:54 | deleting the carriage returns first changes nothing |
| `Locator.WhereGitFindsInstallDir` | mkdocs_multirepo_plugin/util.py:66-67 | a first line naming `dir\cmd\git.exe` (any two trailing segments, either separator) yields `dir` |
| `Locator.DefaultGitLocationParts` | mkdocs_multirepo_plugin/util.py:59 | the default location splits into `C:`, `Program Files`, `Git` |
| `GitVersions.RunStart` | mkdocs_multirepo_plugin/util.py:82 | the search starts at the first `[0-9.]` character: none comes before it |
| `GitVersions.LeadingRun` | mkdocs_multirepo_plugin/util.py:82 | the match is greedy: a prefix made of `[0-9.]` characters, followed by a character outside the class or by the end |
| `GitVersions.FirstRun` | mkdocs_multirepo_plugin/util.py:82 | the search finds nothing exactly when the text has no `[0-9.]` character; what it finds is non-empty and made of `[0-9.]` |
| `GitVersions.FirstRunOf` | mkdocs_multirepo_plugin/util.py:82 | for any split of the text into non-version text, a non-empty run, and text that does not continue the run, the search returns that run: the first maximal run is unique |
| `GitVersions.ParseNat` | mkdocs_multirepo_plugin/util.py:83 | `int()` of a piece succeeds exactly when the piece is a non-empty digit string |
| `GitVersions.ParseShowNat` | mkdocs_multirepo_plugin/util.py:83 | reading back the decimal digits of `n` gives `n` |
| `GitVersions.ParseGitVersion` | mkdocs_multirepo_plugin/util.py:79-83 | `NoVersionNumber` exactly when the banner has no `[0-9.]` character; `MissingMinor` exactly when the first run has no `.`; `EmptyComponent` exactly when the run has a `.` and its first or second `.`-piece is empty; no other failure; on success the first two pieces are non-empty digit strings and the version is their decimal values |
| `GitVersions.VersionPiecesAreDigits` | mkdocs_multirepo_plugin/util.py:82-83 | every `.`-piece of a `[0-9.]` run is a digit string, so `int()` fails on it only when it is empty |
| `GitVersions.ParseGitVersionOfBanner` | mkdocs_multirepo_plugin/util.py:82-83 | banner round trip: non-version text, then `major.minor`, then an optional `.`-led patch, then text that does not continue the run, parses to `(major, minor)` |
| `GitVersions.ParsesLinuxBanner` | mkdocs_multirepo_plugin/util.py:82-83 | `git version 2.39.2` gives (2, 39) |
| `GitVersions.ParsesWindowsBanner` | mkdocs_multirepo_plugin/util.py:82-83 | `git version 2.41.0.windows.1` gives (2, 41) |
| `GitVersions.ParseFailsWithoutNumber` | mkdocs_multirepo_plugin/util.py:82 | a banner with no number fails with `NoVersionNumber` |
| `GitVersions.ParseFailsWithoutMinor` | mkdocs_multirepo_plugin/util.py:82-83 | `git version 2` fails with `MissingMinor` |
| `GitVersions.ParseFailsOnEmptyMajor` | mkdocs_multirepo_plugin/util.py:83 | `git version .5` fails with `EmptyComponent` |
| `GitVersions.HostGitVersion` | mkdocs_multirepo_plugin/util.py:70-83 | on Linux, the parse of git's stdout; elsewhere a `where_git` failure comes first, and otherwise the same parse |
| `Releases.NotBeforeTransitive` | mkdocs_multirepo_plugin/util.py:36 | the lexicographic release order is transitive |
| `Releases.NotBeforeTotal` | mkdocs_multirepo_plugin/util.py:88 | any two releases are comparable, and only equal ones are comparable both ways |
| `GitVersions.SparseCloneRefusedBefore` | mkdocs_multirepo_plugin/util.py:88-90 | the refusing branch holds exactly for the versions strictly before 2.25, so the two branches split the versions |
| `GitVersions.SupportsSparseClone` | mkdocs_multirepo_plugin/util.py:86-90 | true exactly for versions not before 2.25 in the lexicographic release order |
| `GitVersions.SparseCloneMonotone` | mkdocs_multirepo_plugin/util.py:88-90 | a version later than a supporting one also supports sparse clones |
| `GitVersions.SparseCloneBoundary` | mkdocs_multirepo_plugin/util.py:88-90 | every 1.x and 2.24 are refused; 2.25 and 3.0 are accepted |
| `GitVersions.HostSupportsSparseClone` | mkdocs_multirepo_plugin/util.py:86-90 | succeeds exactly when version detection succeeds, with the gate's answer; a detection failure propagates unchanged |
| `Scripts.RunExtraArgs` | mkdocs_multirepo_plugin/util.py:35-38 | text capture exactly for interpreters not before 3.7 in the lexicographic release order; pipes exactly for the earlier ones |
| `Scripts.RunExtraArgsMonotone` | mkdocs_multirepo_plugin/util.py:36 | an interpreter not older than one that gets text capture gets it too |
| `Scripts.RunExtraArgsPipesBefore` | mkdocs_multirepo_plugin/util.py:36-38 | pipes exactly for the interpreters strictly before 3.7, so the two branches split the versions |
| `Scripts.RunExtraArgsBoundary` | mkdocs_multirepo_plugin/util.py:36-38 | 3.6 and 2.7 use pipes; 3.7 and 4.0 use text capture |
| `Scripts.ScriptArgv` | mkdocs_multirepo_plugin/util.py:96-104 | two more entries than arguments, script second, the arguments after it in order; `bash` first on Linux; elsewhere `bin\bash.exe` under the `where_git` directory, failing exactly when `where_git` fails |
| `Scripts.Interpreter` | mkdocs_multirepo_plugin/util.py:96-103 | `bash` on Linux; elsewhere a path whose segments are the git folder's followed by `bin`, `bash.exe` |
| `Scripts.Quote` | mkdocs_multirepo_plugin/util.py:110 | the token between two `"`, nothing added or lost |
| `Scripts.QuoteEach` | mkdocs_multirepo_plugin/util.py:110 | every token is wrapped in double quotes, in order |
| `Scripts.AsyncCommand` | mkdocs_multirepo_plugin/util.py:107-116 | succeeds exactly when the argument vector can be built; the command is the quoted, space-joined argument vector |
| `Scripts.ReadWords` | mkdocs_multirepo_plugin/util.py:110 | a line of double-quoted words read back gives at least one word, and no word holds `"` |
| `Scripts.ReadWordsOfCommandLine` | mkdocs_multirepo_plugin/util.py:110 | quoting round trip: reading the command line gives back every token whole and in order, spaces included, when no token holds `"` |
| `Scripts.CommandLine` | mkdocs_multirepo_plugin/util.py:110 | the line of no tokens is empty; otherwise it starts with the first quoted token and ends with the last |
| `Scripts.AsyncCommandReadsAsArgv` | mkdocs_multirepo_plugin/util.py:109-116 | the async command string reads back as the synchronous executor's argument vector: two more words than arguments, interpreter and script first |
| `Scripts.SpacedArgumentStaysWhole` | mkdocs_multirepo_plugin/util.py:110 | the argument `my docs` arrives as one word |
| `Strings.Split` | mkdocs_multirepo_plugin/util.py:29-31 | `s.split(c)` always has at least one piece |
| `Strings.SplitPiecesAvoid` | mkdocs_multirepo_plugin/util.py:55 | no piece of a split holds the separator |
| `Strings.SplitCount` | mkdocs_multirepo_plugin/util.py:82-83 | a split has more than one piece exactly when the separator occurs |
| `Strings.Join` | mkdocs_multirepo_plugin/util.py:110 | `c.join(parts)` is at least as long as its separators |
| `Strings.Replace` | mkdocs_multirepo_plugin/util.py:46 | `s.replace(a, b)` has the same length, each `a` becomes `b` and every other character stays; no `a` is left |
| `Strings.Delete` | mkdocs_multirepo_plugin/util.py:54 | `s.replace(c, "")` leaves no `c`, is shorter by exactly the number of `c`s in `s`, and changes nothing when there is none |
| `Strings.DeleteAppend` | mkdocs_multirepo_plugin/util.py:54 | deleting a character distributes over concatenation |
| `Strings.Contains` | mkdocs_multirepo_plugin/util.py:57 | `t in s` exactly when `t` occurs in `s` at some offset |
| `Strings.SplitHead` | mkdocs_multirepo_plugin/util.py:29-31 | `s.split(c)[0]` is the prefix of `s` before the first `c`, or all of `s` |
| `Strings.JoinSplit` | mkdocs_multirepo_plugin/util.py:55 | joining the pieces of a split gives back the string |
| `Strings.SplitJoin` | mkdocs_multirepo_plugin/util.py:46 | splitting a join of separator-free parts gives back the parts |

## Left out

- Spawning processes is not modelled: `subprocess.run` (util.py:52, 73, 76-78, 97-104) and `asyncio.create_subprocess_shell` / `communicate` (util.py:111-120) are OS I/O. So are the returned `CompletedProcess` / `Process` objects, the `cwd` argument and the concurrency of the async executor. The model stops at the argument vector and the command string.
- The argument vector handed to `git --version` (util.py:73, 76-78) is not modelled. Git's stdout is a parameter, so only the `where_git` failure that comes before it is kept.
- Reading `sys.platform`, `version_info` and `Path.is_dir()` (util.py:3, 36, 60) is host inspection. These are parameters.
- The `bytes.decode()` branch (util.py:80-81) is a foreign encoding call. Stdout is taken as already-decoded text.
- `GitVersions.ParseNat`: since Python 3.11 (and the 3.7.14, 3.8.14, 3.9.14 and 3.10.7 security releases), `int()` raises `ValueError` on a digit string longer than `sys.get_int_max_str_digits()`, 4300 by default. The model reads digit strings of any length, so "succeeds exactly on non-empty digit strings" holds only up to that limit.
- `GitVersions.ParseGitVersion`: for the same reason, a banner whose first or second version piece has more than 4300 digits (`"git version " + "1" * 4301 + ".0"`) raises at util.py:83. The model returns a version for it, so its "no other failure" leaves out this fourth failure case. The limit depends on the interpreter and on a runtime setting.
- `Locator.WhereGit`: below Python 3.7 the capture mode is `stdout=PIPE` (util.py:38), so the `where` output is bytes and `.replace("\r", "")` at util.py:54 raises `TypeError`. The model takes the output as text on every interpreter, so that crash is not modelled.
- Python's `\d` and `int()` also accept non-ASCII Unicode digits. The model's version characters are ASCII `0`-`9` and `.`.
- The logger and `warning_filter` (util.py:14-15) are not modelled. Of the exception classes (util.py:18-23), only the outcomes they name are kept, as `UtilError`.
- `Paths.Parts`: pathlib's anchor (the root `/` of a POSIX absolute path, a Windows drive such as `C:\`) is not modelled. So are `.` components and the special double-slash root. A path is its segments between separators. Hence the grandparent of `/usr/bin/git` is `usr` rather than `/usr`. Also, `remove_parents("/a/b", 0)` returns `//a/b` in Python (`'/' + str(Path('/', 'a', 'b'))`) but `/a/b` in the model.
- `Paths.RemoveParents`: because the anchor is not a part here, the refusal boundary of an absolute path is one lower than in Python. Python sees `Path("/a/b").parts` as `('/', 'a', 'b')`, so `remove_parents("/a/b", 2)` returns `/b`. The model counts two parts and refuses with `TooManyParents(2, 2)`. For relative paths the two agree.
- `Paths.RemoveParentsKeepsTail`: on a POSIX path, a part may itself hold `\`. The `replace` then turns it into `/` and adds segments. The lemma says nothing about that case beyond `Paths.RemoveParents`'s own "no `\`" guarantee.
- `Scripts.ReadWordsOfCommandLine`: the round trip holds only for tokens without `"`. The source does not escape quotes, so such a token breaks the command apart. `asyncio.create_subprocess_shell` hands the line to the platform shell: `/bin/sh` on POSIX, `cmd.exe` on Windows. `ReadWords` models only the splitting of double-quoted words. On POSIX it does not capture the expansions `/bin/sh` still performs inside double quotes (`$`, backquote, `\`). On Windows it does not capture `cmd.exe`'s `%VAR%` expansion inside quotes, nor how `bash.exe` itself turns its command line into arguments, for instance a `\` before a `"`.
- `Locator.WhereGit`: it returns a path as its segments, not as a pathlib object. Printing it back (`str(...)`) is `Paths.PathString`.
