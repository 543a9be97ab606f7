# pytest-git-diff in Dafny

This project models the logic of the pytest plugin `pytest-git-diff`. With
`--only-affected-by FROM..TO` or `--only-affected-last-commit`, the plugin
keeps only the collected tests whose file is *affected* by a git revision
range. A file is affected when it changed in the range, or when it depends on
a changed file directly or through a chain of imports.

The model has one module per source file, plus four helper modules:

- `Results` holds the `Option`, `Result` and error types. Python's `KeyError`,
  `ValueError` and `RuntimeError` become `Err` values.
- `Text` models the Python string operations the code uses: `sub in s`,
  `s.split(sep)`, `s.split()` and `s.splitlines()`.
- `Paths` models `PurePosixPath` as its `parts`: parsing a string, equality
  and `relative_to`.
- `Pydeps` is the JSON dict that pydeps writes, kept as its ordered
  `(key, entry)` items.
- `ChangedFiles` (`pytest_git_diff/changed_files.py`) turns
  `git diff --name-status` output into the added and modified paths, in
  output order. A line that does not split into exactly two tab-separated
  fields raises.
- `GitUtilsChangedFiles` (`pytest_git_diff/git_utils/changed_files.py`) is
  the older variant. It cuts the command at whitespace and passes the
  revisions in the other order.
- `Dependencies` (`pytest_git_diff/dependencies.py`) maps module names to
  root-relative paths, then re-keys the pydeps dict by path.
- `DependencyGraph` (`pytest_git_diff/dependency_graph/dependencies.py`) is
  the older, name-keyed graph.
- `AffectedFiles` (`pytest_git_diff/affected_files.py`) is the work-list
  closure. It is an imperative method with a loop. It is proved to return
  exactly the set of paths reachable from the changed files along
  `dependents` links, on cyclic graphs too.
- `Plugin` (`pytest_git_diff/plugin.py`) parses the range and filters the
  caller's item list in place. The list is a class field that the method
  rewrites.

Git and pydeps are parameters. The git call is a function from the command to
`Ok(stdout)` or `Err(GitError(..))`. The pydeps output is the parsed dict.

The code departs from its own documentation in four places. The model
follows the code each time:

- The module docstring of `affected_files.py` (lines 4-5) says a file is
  affected if it was changed. The loop looks up every popped path unguarded
  (`dependency_infos[file]`, line 49). So a changed file that is not a module
  of the graph raises `KeyError`, for example a changed README.
  `AffectedFiles.Closure` returns `Err(PathKeyError(p))` there.
  `AffectedFiles.UntrackedChangedFails` and `AffectedFiles.PydepsGraphTracked`
  state exactly when this happens.
- The docstrings of `get_changed_files` promise a list of the changed files
  (`changed_files.py:43-44`). A rename or copy line of
  `git diff --name-status` carries two tab-separated paths. The two-way
  unpacking at line 55 raises `ValueError` on it instead of skipping it.
  `ChangedFiles.RenameLineRaises` states this.
- `get_dependencies` resolves `imports` without a guard
  (`dependencies.py:87`), so an unknown name raises `KeyError`. It filters
  `imported_by` (lines 88-90), so an unknown name there is dropped.
  `Dependencies.ResolveAll` and `Dependencies.ResolveKnown` state the two
  behaviours.
- The docstrings say a `to_rev` of `None` compares with the working
  directory (`changed_files.py:41`, `affected_files.py:26`,
  `git_utils/changed_files.py:39`), and so do the comments at
  `changed_files.py:46` and `git_utils/changed_files.py:44`. The code
  compares with `HEAD` instead (`changed_files.py:47-48`,
  `git_utils/changed_files.py:45-46`).
  `ChangedFiles.DefaultToRev` states this.

## Model

| member | source | states |
|---|---|---|
| AffectedFiles.Closure | pytest_git_diff/affected_files.py:40-51 | The loop succeeds exactly when every path reachable from the changed files is a graph key. It then returns exactly the reachable set. Otherwise it fails with a `KeyError` for a reachable path that is not a key. It terminates on any graph, cyclic or not. |
| AffectedFiles.LoopStart | pytest_git_diff/affected_files.py:40-41 | The loop invariant holds with an empty result and the changed files on the stack. |
| AffectedFiles.PopSeen | pytest_git_diff/affected_files.py:44-46 | Popping an already-seen path and skipping it keeps the invariant. |
| AffectedFiles.PopNew | pytest_git_diff/affected_files.py:44-49 | Popping a new path, adding it and pushing its dependents keeps the invariant. |
| AffectedFiles.LoopEnd | pytest_git_diff/affected_files.py:43-51 | When the stack is empty, the seen set is exactly the reachable set, and every reachable path is a key. |
| AffectedFiles.ReachableStep | pytest_git_diff/affected_files.py:48-49 | A dependent of a reachable path is reachable. |
| AffectedFiles.ChangedReachable | pytest_git_diff/affected_files.py:41 | Every changed file is reachable. |
| AffectedFiles.ClosedHoldsChain | pytest_git_diff/affected_files.py:48-49 | A set of keys that holds the changed files and is closed under `dependents` holds the end of every walk from a changed file. |
| AffectedFiles.AffectedLeast | pytest_git_diff/affected_files.py:40-51 | The result lies inside every such closed set, so it is the least one. |
| AffectedFiles.AffectedIff | pytest_git_diff/affected_files.py:40-51 | A path is affected if and only if it is reachable from a changed file. |
| AffectedFiles.ChangedAreAffected | pytest_git_diff/affected_files.py:41-48 | Every changed file is in the result. |
| AffectedFiles.AffectedClosed | pytest_git_diff/affected_files.py:48-49 | Every dependent of an affected path is affected. |
| AffectedFiles.UntrackedChangedFails | pytest_git_diff/affected_files.py:49 | A changed file that is not a graph key makes the loop fail; it is not treated as a leaf. |
| AffectedFiles.ClosedGraphTracked | pytest_git_diff/affected_files.py:49 | In a graph whose dependents are all keys, the loop fails if and only if some changed file is not a key. |
| AffectedFiles.ReachableSameSet | pytest_git_diff/affected_files.py:41 | Reachability depends on the changed files only as a set. |
| AffectedFiles.OrderIndependent | pytest_git_diff/affected_files.py:41 | The result and the success of the loop do not depend on the order of the changed files or on repeats among them. |
| AffectedFiles.Idempotent | pytest_git_diff/affected_files.py:40-51 | Closing the result again gives the same set. |
| AffectedFiles.CycleExample | pytest_git_diff/affected_files.py:43-49 | Two modules that import each other are both affected by a change to one, and the loop stops. |
| AffectedFiles.ChainExample | pytest_git_diff/affected_files.py:40-51 | In an import chain a → b → c, changing `a` affects all three, and changing `c` affects `c` alone. |
| AffectedFiles.PydepsGraphTracked | pytest_git_diff/affected_files.py:49 | On a graph built from a pydeps dict keyed by module name, the loop fails exactly when a changed file is not a module path. |
| AffectedFiles.GetAffectedFiles | pytest_git_diff/affected_files.py:15-51 | A dependency-graph error comes first, then a git or parsing error. After that the result is the closure's: the reachable set, or a `KeyError`. |
| ChangedFiles.DiffCommand | pytest_git_diff/changed_files.py:51 | For one-word revisions, the command's words are `diff`, `--name-status`, the source revision, then the target one. |
| ChangedFiles.DiffWords | pytest_git_diff/changed_files.py:51 | `diff --name-status x y` is cut into exactly its four words. |
| ChangedFiles.ParseLine | pytest_git_diff/changed_files.py:55-56 | A line unpacks exactly when it splits into two tab fields, and otherwise raises with the number of fields. It yields a path exactly when the status field is `A` or `M`, and the path is in normal form. |
| ChangedFiles.ParseNameStatus | pytest_git_diff/changed_files.py:53-57 | The output parses exactly when each of its lines unpacks. A failure is an unpacking error with a count other than two. The result has no more paths than the output has characters, all in normal form. |
| ChangedFiles.ParseLinesNormal | pytest_git_diff/changed_files.py:54 | Every returned path is in normal form. |
| ChangedFiles.GetChangedFiles | pytest_git_diff/changed_files.py:34-57 | The only failures are git's own error on the diff command and an unpacking error; every returned path is in normal form. |
| ChangedFiles.DefaultToRev | pytest_git_diff/changed_files.py:46-48 | A missing target revision is replaced by `HEAD`; a given one is kept. |
| ChangedFiles.KeptPaths | pytest_git_diff/changed_files.py:56 | A parsed line contributes at most one path: exactly the path it carries, if kept. |
| ChangedFiles.Collect | pytest_git_diff/changed_files.py:53-57 | The comprehension returns no more paths than there are lines. |
| ChangedFiles.CollectOkIff | pytest_git_diff/changed_files.py:53-57 | The comprehension succeeds if and only if every line unpacks. |
| ChangedFiles.CollectFirstError | pytest_git_diff/changed_files.py:53-55 | The error raised is the first failing line's. |
| ChangedFiles.CollectAppend | pytest_git_diff/changed_files.py:53-55 | Line order is kept: the paths of a concatenation are the first part's, then the second's. |
| ChangedFiles.CollectMembers | pytest_git_diff/changed_files.py:53-56 | A path is returned if and only if some line parsed to it. |
| ChangedFiles.ParseLines | pytest_git_diff/changed_files.py:52-57 | The result has at most as many paths as the output has lines. |
| ChangedFiles.ParseLinesOkIff | pytest_git_diff/changed_files.py:55 | The output parses if and only if every line splits into exactly two fields. |
| ChangedFiles.ParseLinesFirstError | pytest_git_diff/changed_files.py:55 | A failure is the failure of the first line that does not unpack; every earlier line unpacks. |
| ChangedFiles.ParseLinesAppend | pytest_git_diff/changed_files.py:53-55 | Paths come out in the order of the output lines. |
| ChangedFiles.ParseLinesMembers | pytest_git_diff/changed_files.py:53-56 | A path is returned if and only if some line has status `A` or `M` and that path. |
| ChangedFiles.ParseLineOf | pytest_git_diff/changed_files.py:55-56 | A `status<TAB>path` line yields its path when the status is exactly `A` or `M`, and nothing for any other status. |
| ChangedFiles.ParseLineOkIff | pytest_git_diff/changed_files.py:55 | A line unpacks if and only if it is a tab-free status, one tab and a tab-free path. |
| ChangedFiles.RenameLineRaises | pytest_git_diff/changed_files.py:55 | A line with two tabs, such as a rename line with old and new path, raises "too many values to unpack" (3 fields). |
| ChangedFiles.ParseOneLine | pytest_git_diff/changed_files.py:53-56 | A single well-formed line gives `[path]` for `A` or `M`, and `[]` otherwise. |
| ChangedFiles.ParsePrepend | pytest_git_diff/changed_files.py:53-56 | A well-formed line in front of parsable lines puts its kept path first. |
| ChangedFiles.StatusFilterDeletedTypeChanged | pytest_git_diff/changed_files.py:56 | `D` and `T` (type change) lines, one path each, contribute nothing. |
| ChangedFiles.StatusFilterModified | pytest_git_diff/changed_files.py:53-56 | An `M` line before them contributes its path alone. |
| ChangedFiles.StatusFilterLines | pytest_git_diff/changed_files.py:53-56 | `A`, `M`, `D`, `T` lines give the added path, then the modified one. |
| ChangedFiles.StatusFilterText | pytest_git_diff/changed_files.py:55 | `splitlines` cuts newline-terminated git output into its lines. |
| ChangedFiles.StatusFilterExample | pytest_git_diff/changed_files.py:51-57 | On that whole output text, only the added and the modified file are reported, in that order. Rename lines, which carry two paths, are covered by `ChangedFiles.RenameLineRaises`. |
| GitUtilsChangedFiles.CallGitCommand | pytest_git_diff/git_utils/changed_files.py:6-29 | Git is run with `git -C <repo>` followed by exactly the command's whitespace-separated words. |
| GitUtilsChangedFiles.DiffCommand | pytest_git_diff/git_utils/changed_files.py:49 | For one-word revisions, the command's words are `diff`, `--name-status`, the target revision, then the source one. |
| GitUtilsChangedFiles.GetChangedFiles | pytest_git_diff/git_utils/changed_files.py:32-55 | The only failures are git's own error and an unpacking error; every returned path is in normal form. |
| GitUtilsChangedFiles.GitArgv | pytest_git_diff/git_utils/changed_files.py:23 | The argument vector is `git -C <repo>` followed by the command's words, none of them empty or holding whitespace. |
| GitUtilsChangedFiles.SwappedAgainstTopLevel | pytest_git_diff/git_utils/changed_files.py:49 | The older command names the target revision before the source, where the top-level one names the source first. |
| GitUtilsChangedFiles.DiffArgv | pytest_git_diff/git_utils/changed_files.py:21-49 | With one-word revisions, git receives `git -C repo diff --name-status TO FROM`. |
| GitUtilsChangedFiles.SpacedRevisionWords | pytest_git_diff/git_utils/changed_files.py:23 | A revision holding a space is cut into two words, with no quoting. |
| GitUtilsChangedFiles.SpacedRevisionSplits | pytest_git_diff/git_utils/changed_files.py:10-23 | Such a revision therefore reaches git as two separate arguments. |
| GitUtilsChangedFiles.GetChangedFilesRuns | pytest_git_diff/git_utils/changed_files.py:32-55 | The older `get_changed_files` runs `diff --name-status` with the target (default `HEAD`) first, and parses the output as the top-level one does. |
| Dependencies.EntryPath | pytest_git_diff/dependencies.py:81 | An entry's path is its parsed `path` with the root prefix removed; it fails when the path is not under the root. |
| Dependencies.NameToPath | pytest_git_diff/dependencies.py:80-83 | `name_to_path` builds if and only if every entry's path is under the root. |
| Dependencies.NameToPathKeys | pytest_git_diff/dependencies.py:80-83 | Its keys are exactly the entries' names. |
| Dependencies.NameToPathLast | pytest_git_diff/dependencies.py:80-83 | Each name maps to the root-relative path of the last entry that bears it. |
| Dependencies.ResolveAll | pytest_git_diff/dependencies.py:87 | `imports` are resolved one to one and in order; the first unknown name raises `KeyError`. |
| Dependencies.ResolveKnown | pytest_git_diff/dependencies.py:88-90 | The dependents are exactly the paths of the known `imported_by` names, and there are no more of them than names. |
| Dependencies.ResolveKnownAppend | pytest_git_diff/dependencies.py:88-90 | Dropping unknown names keeps the order of the others. |
| Dependencies.EntryInfo | pytest_git_diff/dependencies.py:86-91 | A record builds if and only if every import is known. Its dependencies are the resolved `imports`, one to one and in order. Its dependents are the known `imported_by` names, no more of them than names. A missing list counts as empty. |
| Dependencies.Rekey | pytest_git_diff/dependencies.py:85-93 | The path-keyed graph builds if and only if every dict key is a module name and every record builds. |
| Dependencies.RekeyKeys | pytest_git_diff/dependencies.py:85-93 | The graph's keys are exactly the paths of the dict's keys. |
| Dependencies.RekeyFrom | pytest_git_diff/dependencies.py:85-93 | Every record in the graph is the record of some entry whose key has that path. |
| Dependencies.RekeyLast | pytest_git_diff/dependencies.py:85-93 | The last entry whose key resolves to a path supplies that path's record. |
| Dependencies.GetDependencies | pytest_git_diff/dependencies.py:66-95 | The graph builds exactly when every entry's path is under the root, every key is a module name and every import is known. It fails only with a `relative_to` error or a `KeyError`. Its keys are the paths of the dict's keys. |
| Dependencies.GraphClosed | pytest_git_diff/dependencies.py:80-93 | When each dict key is its entry's name, every dependent in the graph is itself a key. |
| DependencyGraph.FromPydepsDictEntry | pytest_git_diff/dependency_graph/dependencies.py:87-93 | The name is copied unchanged, and the path is the entry path with the root prefix removed; it fails when the path is not under the root. `imports` and `imported_by` are copied raw, a missing one as `[]`. |
| DependencyGraph.GetDependencies | pytest_git_diff/dependency_graph/dependencies.py:107-113 | The name-keyed graph builds if and only if every entry's path is under the root. |
| DependencyGraph.GetDependenciesKeys | pytest_git_diff/dependency_graph/dependencies.py:107-113 | The result has exactly the keys of the pydeps dict. |
| DependencyGraph.GetDependenciesEntry | pytest_git_diff/dependency_graph/dependencies.py:107-113 | Each key holds the record built from its own entry. |
| Paths.Parse | pytest_git_diff/changed_files.py:54 | `Path(s)` always gives parts in normal form: an optional anchor, then components that are not empty, not `.` and free of `/`. The path is absolute exactly when the string starts with `/`. |
| Paths.ParseJoin | pytest_git_diff/changed_files.py:54 | Parsing `a/b/c` built from normal components gives those components back. |
| Paths.RelativeTo | pytest_git_diff/dependencies.py:81 | On success, the root followed by the result is the path. On failure the root is not a prefix, or it is empty and the path is absolute. |
| Paths.RelativeToPrefix | pytest_git_diff/dependencies.py:81 | `relative_to` strips exactly the root it is given. |
| Text.Find | pytest_git_diff/plugin.py:41 | The index found is the first occurrence at or after the start, or the end when there is none. |
| Text.ContainsIff | pytest_git_diff/plugin.py:41 | `".." in s` holds if and only if `..` occurs at some index of `s`. |
| Text.Split | pytest_git_diff/changed_files.py:55 | `s.split(sep)` always gives at least one piece. |
| Text.JoinSplit | pytest_git_diff/changed_files.py:55 | Joining the pieces of a split with the separator gives back the string. |
| Text.SplitFieldsAvoidSeparator | pytest_git_diff/changed_files.py:55 | No piece of a split contains the separator. |
| Text.SplitSingleIff | pytest_git_diff/plugin.py:41-45 | A split gives one piece if and only if the separator does not occur. |
| Text.SplitJoinChar | pytest_git_diff/changed_files.py:55 | For a one-character separator, splitting undoes joining pieces that do not contain it. |
| Text.SplitLines | pytest_git_diff/changed_files.py:55 | `splitlines` yields lines free of line breaks, no more lines than characters. |
| Text.SplitLinesTerminated | pytest_git_diff/changed_files.py:55 | Newline-terminated lines without line breaks are split back into exactly those lines. |
| Text.SplitWhitespace | pytest_git_diff/git_utils/changed_files.py:23 | `s.split()` yields only non-empty words with no whitespace. |
| Text.SplitWhitespaceJoin | pytest_git_diff/git_utils/changed_files.py:23 | Splitting on whitespace undoes joining such words with single spaces. |
| Plugin.ParseRange | pytest_git_diff/plugin.py:32-47 | The result is "no filter" if and only if neither option is set (an empty string counts as unset). The target revision is never empty. A failure is an unpacking error with three or more parts. |
| Plugin.LastCommitOverrides | pytest_git_diff/plugin.py:38-39 | The last-commit flag gives `HEAD~1..HEAD`, whatever `--only-affected-by` holds. |
| Plugin.LastCommitIsRange | pytest_git_diff/plugin.py:39-47 | `HEAD~1..HEAD` is read as the range from `HEAD~1` to `HEAD`. |
| Plugin.SingleRevision | pytest_git_diff/plugin.py:41-43 | A value without `..` is the source revision, compared with `HEAD`. |
| Plugin.RangeRoundTrip | pytest_git_diff/plugin.py:44-47 | `FROM..TO` gives back both revisions, and an empty `TO` becomes `HEAD`. |
| Plugin.TwoSeparatorsRaise | pytest_git_diff/plugin.py:45 | A value with two separators fails the two-way unpacking with three parts. |
| Plugin.KeepAffected | pytest_git_diff/plugin.py:51-55 | The comprehension succeeds if and only if every item's file is under the start path. Otherwise it raises for one of them. It keeps no more items than it is given. |
| Plugin.KeepAffectedMembers | pytest_git_diff/plugin.py:51-55 | An item is kept if and only if it was collected and its relative path is affected. |
| Plugin.KeepAffectedSingle | pytest_git_diff/plugin.py:51-55 | A single item under the start path is kept exactly when its relative path is affected. |
| Plugin.KeepAffectedAppend | pytest_git_diff/plugin.py:51-55 | Filtering a concatenation filters each part, so every occurrence of an item is judged on its own and the order is kept. With `KeepAffectedSingle` this fixes the result exactly. |
| Plugin.KeepAffectedSubsequence | pytest_git_diff/plugin.py:51-55 | The kept items are a subsequence of the collected ones, in the same order. |
| Plugin.KeepAffectedIdempotent | pytest_git_diff/plugin.py:51-55 | Filtering the kept items again changes nothing. |
| Plugin.ItemList.KeepOnlyAffected | pytest_git_diff/plugin.py:51-55 | The list is replaced in place by the kept items. When an item raises, the list is left as it was. |
| Plugin.CollectionModifyItems | pytest_git_diff/plugin.py:27-55 | With no option set, or when the range fails to parse, the items are untouched. With a range, the hook passes exactly when the graph builds, git succeeds, every reachable path is a key and every item's file is under the start path. The list then holds the items whose path is in the affected set. |

## Left out

- Running git (`call_git_command`) is a parameter of the model. Its failure, a `RuntimeError` carrying git's error stream, is the `GitError` value the parameter returns.
- ChangedFiles.GetChangedFiles: the top-level variant tokenises the command with `shlex.split`, and quoting rules are not modelled. The git parameter receives the command string itself. `ChangedFiles.DiffCommand` gives its words as `str.split` reads them. `shlex.split` reads them the same way only for revisions without quotes or backslashes. That equivalence is not proved, because `shlex` is not modelled.
- Running pydeps, its temporary file and the JSON loading (`pydeps_dependency_dict`) are left out. The parsed dict is an input, and its `bacon` field and any field other than `name`, `path`, `imports` and `imported_by` are ignored.
- An entry missing `name` or `path`, and JSON values of the wrong type, are not modelled: every entry has both fields as strings.
- `Path.resolve()` of the project root and `item.reportinfo()` depend on the file system and on pytest. The root and each item's path come in already resolved, as parts.
- Paths.Parse follows `PurePosixPath` only: Windows paths are not modelled. `..` components are kept as written, as `pathlib` does.
- Text.SplitLines and Text.SplitWhitespace use Python's line-break and whitespace character sets. Strings are sequences of code points, with no encoding.
- `pytest_addoption` only registers the two options and is not modelled. The option values are parameters of `Plugin.CollectionModifyItems`.
- The debug `print(dependency_infos)` in `get_affected_files` has no effect on the result and is not modelled.
- AffectedFiles.Closure returns a set, so the order in which Python's set was filled is not modelled; the source's callers only test membership.
- The test files and their fixture repositories are not part of this model.
