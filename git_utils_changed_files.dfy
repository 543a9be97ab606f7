/** The older `get_changed_files` of pytest_git_diff/git_utils/changed_files.py:
    the same output parsing as the top-level one, but the command string is
    cut at whitespace and the two revisions are passed the other way round. */
module GitUtilsChangedFiles {
  import opened Results
  import opened Text
  import opened Paths
  import ChangedFiles

  /** The git subprocess, given its whole argument vector: `Ok(stdout)` on a
      zero exit, `Err(GitError(..))` carrying the error stream otherwise. */
  type GitRunner = seq<string> -> Result<string>

  /** The argument vector of `call_git_command`: `git -C <repo>` followed by
      the command's whitespace-separated words, with no quoting or escaping. */
  function GitArgv(repoPath: string, command: string): (argv: seq<string>)
    ensures |argv| >= 3 && argv[..3] == ["git", "-C", repoPath]
    ensures forall i :: 3 <= i < |argv| ==> IsWord(argv[i])
  {
    ["git", "-C", repoPath] + SplitWhitespace(command)
  }

  /** `call_git_command(repo_path, command)`: git is run in the repository
      on the command's words, each passed as one argument. */
  function CallGitCommand(run: GitRunner, repoPath: string, command: string): (r: Result<string>)
    ensures exists argv ::
        && |argv| >= 3 && argv[..3] == ["git", "-C", repoPath]
        && argv[3..] == SplitWhitespace(command)
        && r == run(argv)
  {
    run(GitArgv(repoPath, command))
  }

  /** The command string `diff --name-status {to_rev} {from_rev}`: read as
      words, the target revision comes first here. */
  function DiffCommand(fromRev: string, toRev: string): (command: string)
    ensures IsWord(fromRev) && IsWord(toRev) ==>
      SplitWhitespace(command) == ["diff", "--name-status", toRev, fromRev]
  {
    var command := "diff --name-status " + toRev + " " + fromRev;
    assert IsWord(fromRev) && IsWord(toRev) ==>
      SplitWhitespace(command) == ["diff", "--name-status", toRev, fromRev] by {
      if IsWord(fromRev) && IsWord(toRev) {
        ChangedFiles.DiffWords(toRev, fromRev);
      }
    }
    command
  }

  /** `get_changed_files(repo_path, from_rev, to_rev)` of the older module. */
  function GetChangedFiles(run: GitRunner, repoPath: string, fromRev: string, toRev: Option<string>): (r: Result<seq<Path>>)
    ensures r.Err? ==>
      || (r.error.UnpackError? && r.error.got != 2)
      || CallGitCommand(run, repoPath, DiffCommand(fromRev, ChangedFiles.DefaultToRev(toRev))) == Err(r.error)
    ensures r.Ok? ==> forall p :: p in r.value ==> IsNormal(p)
  {
    var output := CallGitCommand(run, repoPath, DiffCommand(fromRev, ChangedFiles.DefaultToRev(toRev)));
    if output.Err? then Err(output.error) else ChangedFiles.ParseNameStatus(output.value)
  }

  /** The words of the top-level command are the same with the revisions in
      the other order: `from_rev` before `to_rev`. */
  lemma SwappedAgainstTopLevel(fromRev: string, toRev: string)
    requires IsWord(fromRev) && IsWord(toRev)
    ensures SplitWhitespace(ChangedFiles.DiffCommand(fromRev, toRev)) == ["diff", "--name-status", fromRev, toRev]
    ensures SplitWhitespace(DiffCommand(fromRev, toRev)) == ["diff", "--name-status", toRev, fromRev]
  {
    ChangedFiles.DiffWords(fromRev, toRev);
    ChangedFiles.DiffWords(toRev, fromRev);
  }

  /** With revisions that are single words, git receives `diff`,
      `--name-status`, the target revision and then the source revision. */
  lemma DiffArgv(repoPath: string, fromRev: string, toRev: string)
    requires IsWord(fromRev) && IsWord(toRev)
    ensures GitArgv(repoPath, DiffCommand(fromRev, toRev)) ==
      ["git", "-C", repoPath, "diff", "--name-status", toRev, fromRev]
  {
    SwappedAgainstTopLevel(fromRev, toRev);
  }

  /** A revision holding a space is not quoted: it reaches git as two arguments. */
  lemma SpacedRevisionSplits(repoPath: string, fromRev: string, toFirst: string, toSecond: string)
    requires IsWord(fromRev) && IsWord(toFirst) && IsWord(toSecond)
    ensures GitArgv(repoPath, DiffCommand(fromRev, toFirst + " " + toSecond)) ==
      ["git", "-C", repoPath, "diff", "--name-status", toFirst, toSecond, fromRev]
  {
    SpacedRevisionWords(fromRev, toFirst, toSecond);
  }

  /** The words of a diff command whose target revision holds a space. */
  lemma SpacedRevisionWords(fromRev: string, toFirst: string, toSecond: string)
    requires IsWord(fromRev) && IsWord(toFirst) && IsWord(toSecond)
    ensures SplitWhitespace(DiffCommand(fromRev, toFirst + " " + toSecond)) ==
      ["diff", "--name-status", toFirst, toSecond, fromRev]
  {
    SpacedCommandText(fromRev, toFirst, toSecond);
    ChangedFiles.DiffCommandWords();
    FiveWords("diff", "--name-status", toFirst, toSecond, fromRev);
  }

  /** The text of that command, cut before its second word. */
  lemma SpacedCommandText(fromRev: string, toFirst: string, toSecond: string)
    ensures DiffCommand(fromRev, toFirst + " " + toSecond) ==
      "diff" + " " + ("--name-status" + " " + toFirst + " " + toSecond + " " + fromRev)
  {
    var command := "diff --name-status " + toFirst + " " + toSecond + " " + fromRev;
    assert DiffCommand(fromRev, toFirst + " " + toSecond) == command;
    ChangedFiles.DiffCommandWords();
  }

  /** Five words separated by single spaces are read back as those words. */
  lemma FiveWords(a: string, b: string, c: string, d: string, e: string)
    requires IsWord(a) && IsWord(b) && IsWord(c) && IsWord(d) && IsWord(e)
    ensures SplitWhitespace(a + " " + (b + " " + c + " " + d + " " + e)) == [a, b, c, d, e]
  {
    FourWords(b, c, d, e);
    WordInFront(a, b + " " + c + " " + d + " " + e);
    assert [a] + [b, c, d, e] == [a, b, c, d, e];
  }

  /** The older `get_changed_files` runs `git -C <repo> diff --name-status
      <to> <from>`, with `"HEAD"` for a missing target, and parses its output
      as the top-level one does. */
  lemma GetChangedFilesRuns(run: GitRunner, repoPath: string, fromRev: string, toRev: Option<string>)
    requires IsWord(fromRev) && (toRev.None? || IsWord(toRev.value))
    ensures GetChangedFiles(run, repoPath, fromRev, toRev) ==
      var output := run(["git", "-C", repoPath, "diff", "--name-status", ChangedFiles.DefaultToRev(toRev), fromRev]);
      if output.Err? then Err(output.error) else ChangedFiles.ParseNameStatus(output.value)
  {
    assert IsWord(ChangedFiles.Head);
    DiffArgv(repoPath, fromRev, ChangedFiles.DefaultToRev(toRev));
  }
}
