/** `get_changed_files` of pytest_git_diff/changed_files.py: the files that
    `git diff --name-status` reports as added or modified, in output order. */
module ChangedFiles {
  import opened Results
  import opened Text
  import opened Paths

  /** `git -C repo <command>` as the subprocess runs it, the command already
      tokenised: `Ok(stdout)` on a zero exit, `Err(GitError(..))` carrying the
      error stream otherwise. */
  type GitCommand = string -> Result<string>

  /** The revision compared against when none is given. */
  const Head: string := "HEAD"

  /** `to_rev`, or `"HEAD"` when it is `None`. */
  function DefaultToRev(toRev: Option<string>): (r: string)
    ensures toRev.Some? ==> r == toRev.value
    ensures toRev.None? ==> r == Head
  {
    toRev.GetOr(Head)
  }

  /** The two fixed words of the diff command. */
  lemma DiffCommandWords()
    ensures IsWord("diff") && IsWord("--name-status")
    ensures "diff --name-status " == "diff" + " " + "--name-status" + " "
  {
    PrintableIsWord("diff");
    PrintableIsWord("--name-status");
  }

  /** `diff --name-status x y` is read back as its four words. */
  lemma DiffWords(x: string, y: string)
    requires IsWord(x) && IsWord(y)
    ensures SplitWhitespace("diff --name-status " + x + " " + y) == ["diff", "--name-status", x, y]
  {
    DiffCommandWords();
    FourWords("diff", "--name-status", x, y);
  }

  /** The command string `diff --name-status {from_rev} {to_rev}`: read as
      words, the source revision comes before the target one. */
  function DiffCommand(fromRev: string, toRev: string): (command: string)
    ensures IsWord(fromRev) && IsWord(toRev) ==>
      SplitWhitespace(command) == ["diff", "--name-status", fromRev, toRev]
  {
    var command := "diff --name-status " + fromRev + " " + toRev;
    assert IsWord(fromRev) && IsWord(toRev) ==>
      SplitWhitespace(command) == ["diff", "--name-status", fromRev, toRev] by {
      if IsWord(fromRev) && IsWord(toRev) {
        DiffWords(fromRev, toRev);
      }
    }
    command
  }

  /** The statuses whose lines are kept: added and modified. */
  predicate IsKeptStatus(status: string) {
    status == "A" || status == "M"
  }

  /** One output line unpacked as `status, path_str = line.split("\t")`: the
      path when the status is kept, nothing for any other status, and a
      `ValueError` when the line does not hold exactly two fields. */
  function ParseLine(line: string): (r: Result<Option<Path>>)
    ensures r.Ok? <==> |Split(line, "\t")| == 2
    ensures r.Err? ==> r.error == UnpackError(|Split(line, "\t")|)
    ensures r.Ok? ==> (r.value.Some? <==> IsKeptStatus(Split(line, "\t")[0]))
    ensures r.Ok? && r.value.Some? ==> IsNormal(r.value.value)
  {
    var fields := Split(line, "\t");
    if |fields| != 2 then Err(UnpackError(|fields|))
    else if IsKeptStatus(fields[0]) then Ok(Some(Parse(fields[1])))
    else Ok(None)
  }

  /** The paths a parsed line contributes: its path, or none. */
  function KeptPaths(parsed: Option<Path>): (ps: seq<Path>)
    ensures |ps| <= 1
    ensures forall p :: p in ps <==> parsed == Some(p)
  {
    if parsed.Some? then [parsed.value] else []
  }

  /** The comprehension over the parsed lines, in order: the kept paths, or
      the error of the first line that raised. */
  function Collect(parsed: seq<Result<Option<Path>>>): (r: Result<seq<Path>>)
    ensures r.Ok? ==> |r.value| <= |parsed|
  {
    if parsed == [] then Ok([])
    else
      var rest := Collect(parsed[1..]);
      if parsed[0].Err? then Err(parsed[0].error)
      else if rest.Err? then rest
      else Ok(KeptPaths(parsed[0].value) + rest.value)
  }

  /** `map(lambda line: line.split("\t"), lines)` with each line unpacked. */
  function ParseAll(lines: seq<string>): (parsed: seq<Result<Option<Path>>>)
    ensures |parsed| == |lines|
  {
    seq(|lines|, i requires 0 <= i < |lines| => ParseLine(lines[i]))
  }

  /** The list comprehension over the output lines: the kept paths in line
      order; the first line that does not unpack raises. */
  function ParseLines(lines: seq<string>): (r: Result<seq<Path>>)
    ensures r.Ok? ==> |r.value| <= |lines|
  {
    Collect(ParseAll(lines))
  }

  /** One step of the comprehension: the first line, then the rest. */
  lemma CollectCons(head: Result<Option<Path>>, rest: seq<Result<Option<Path>>>)
    ensures Collect([head] + rest) ==
      if head.Err? then Err(head.error)
      else if Collect(rest).Err? then Collect(rest)
      else Ok(KeptPaths(head.value) + Collect(rest).value)
  {
    assert ([head] + rest)[0] == head && ([head] + rest)[1..] == rest;
  }

  /** The comprehension succeeds exactly when every line unpacks. */
  lemma {:induction false} CollectOkIff(parsed: seq<Result<Option<Path>>>)
    ensures Collect(parsed).Ok? <==> forall i :: 0 <= i < |parsed| ==> parsed[i].Ok?
    decreases |parsed|
  {
    if parsed != [] {
      CollectOkIff(parsed[1..]);
      assert forall j :: 0 <= j < |parsed| - 1 ==> parsed[1..][j] == parsed[j + 1];
    }
  }

  /** The error raised is that of the first line that does not unpack. */
  lemma {:induction false} CollectFirstError(parsed: seq<Result<Option<Path>>>)
    requires Collect(parsed).Err?
    ensures exists i ::
        && 0 <= i < |parsed| && parsed[i] == Err(Collect(parsed).error)
        && forall j :: 0 <= j < i ==> parsed[j].Ok?
    decreases |parsed|
  {
    if parsed[0].Ok? {
      var rest := parsed[1..];
      CollectFirstError(rest);
      var i :| 0 <= i < |rest| && rest[i] == Err(Collect(rest).error) && forall j :: 0 <= j < i ==> rest[j].Ok?;
      assert parsed[i + 1] == rest[i];
      forall j | 0 <= j < i + 1 ensures parsed[j].Ok? {
        if j > 0 {
          assert parsed[j] == rest[j - 1];
        }
      }
    }
  }

  /** Parsing keeps the order of the lines: the paths of a concatenation are
      the paths of its first part followed by those of its second. */
  lemma {:induction false} CollectAppend(a: seq<Result<Option<Path>>>, b: seq<Result<Option<Path>>>)
    requires Collect(a).Ok? && Collect(b).Ok?
    ensures Collect(a + b) == Ok(Collect(a).value + Collect(b).value)
    decreases |a|
  {
    if a == [] {
      assert a + b == b;
      assert [] + Collect(b).value == Collect(b).value;
    } else {
      var head, tail := a[0], a[1..];
      assert a == [head] + tail;
      assert a + b == [head] + (tail + b);
      CollectCons(head, tail);
      CollectAppend(tail, b);
      CollectCons(head, tail + b);
      var first := KeptPaths(head.value);
      assert first + (Collect(tail).value + Collect(b).value) == (first + Collect(tail).value) + Collect(b).value;
    }
  }

  /** The paths returned are exactly those of the lines with a kept status. */
  lemma {:induction false} CollectMembers(parsed: seq<Result<Option<Path>>>, p: Path)
    requires Collect(parsed).Ok?
    ensures p in Collect(parsed).value <==> exists i :: 0 <= i < |parsed| && parsed[i] == Ok(Some(p))
    decreases |parsed|
  {
    if parsed != [] {
      var rest := parsed[1..];
      CollectMembers(rest, p);
      if i :| 0 <= i < |rest| && rest[i] == Ok(Some(p)) {
        assert parsed[i + 1] == rest[i];
      }
      if i :| 0 <= i < |parsed| && parsed[i] == Ok(Some(p)) {
        if i > 0 {
          assert rest[i - 1] == parsed[i];
        }
      }
    }
  }

  /** Mapping the parser over a concatenation maps it over each part. */
  lemma ParseAllAppend(a: seq<string>, b: seq<string>)
    ensures ParseAll(a + b) == ParseAll(a) + ParseAll(b)
  {
    assert forall i :: 0 <= i < |a| ==> (a + b)[i] == a[i];
    assert forall i :: |a| <= i < |a| + |b| ==> (a + b)[i] == b[i - |a|];
  }

  /** Each entry of the mapped lines is the parse of the line at the same index. */
  lemma ParseAllAt(lines: seq<string>)
    ensures forall i :: 0 <= i < |lines| ==> ParseAll(lines)[i] == ParseLine(lines[i])
  {
  }

  /** The output parses exactly when every line unpacks into two fields. */
  lemma ParseLinesOkIff(lines: seq<string>)
    ensures ParseLines(lines).Ok? <==> forall i :: 0 <= i < |lines| ==> ParseLine(lines[i]).Ok?
  {
    ParseAllAt(lines);
    CollectOkIff(ParseAll(lines));
  }

  /** The error raised is that of the first line that does not unpack. */
  lemma ParseLinesFirstError(lines: seq<string>)
    requires ParseLines(lines).Err?
    ensures exists i ::
        && 0 <= i < |lines| && ParseLine(lines[i]) == Err(ParseLines(lines).error)
        && forall j :: 0 <= j < i ==> ParseLine(lines[j]).Ok?
  {
    var parsed := ParseAll(lines);
    ParseAllAt(lines);
    CollectFirstError(parsed);
    var i :| 0 <= i < |parsed| && parsed[i] == Err(Collect(parsed).error) && forall j :: 0 <= j < i ==> parsed[j].Ok?;
    assert ParseLine(lines[i]) == Err(ParseLines(lines).error);
  }

  /** Parsing keeps the order of the lines. */
  lemma ParseLinesAppend(a: seq<string>, b: seq<string>)
    requires ParseLines(a).Ok? && ParseLines(b).Ok?
    ensures ParseLines(a + b) == Ok(ParseLines(a).value + ParseLines(b).value)
  {
    ParseAllAppend(a, b);
    CollectAppend(ParseAll(a), ParseAll(b));
  }

  /** The paths returned are exactly those of the lines with a kept status. */
  lemma ParseLinesMembers(lines: seq<string>, p: Path)
    requires ParseLines(lines).Ok?
    ensures p in ParseLines(lines).value <==>
      exists i :: 0 <= i < |lines| && ParseLine(lines[i]) == Ok(Some(p))
  {
    var parsed := ParseAll(lines);
    ParseAllAt(lines);
    CollectMembers(parsed, p);
    if i :| 0 <= i < |parsed| && parsed[i] == Ok(Some(p)) {
      assert ParseLine(lines[i]) == Ok(Some(p));
    }
  }

  /** Every path returned is in normal form. */
  lemma ParseLinesNormal(lines: seq<string>)
    requires ParseLines(lines).Ok?
    ensures forall p :: p in ParseLines(lines).value ==> IsNormal(p)
  {
    forall p | p in ParseLines(lines).value ensures IsNormal(p) {
      ParseLinesMembers(lines, p);
    }
  }

  /** The paths of a `--name-status` output: it parses exactly when each of
      its lines unpacks, and otherwise fails with the unpacking error of a
      line that does not hold two fields. */
  function ParseNameStatus(output: string): (r: Result<seq<Path>>)
    ensures r.Ok? <==> forall l :: l in SplitLines(output) ==> ParseLine(l).Ok?
    ensures r.Err? ==> r.error.UnpackError? && r.error.got != 2
    ensures r.Ok? ==> |r.value| <= |output| && forall p :: p in r.value ==> IsNormal(p)
  {
    var lines := SplitLines(output);
    var r := ParseLines(lines);
    assert (forall l :: l in lines ==> ParseLine(l).Ok?) <==> forall i :: 0 <= i < |lines| ==> ParseLine(lines[i]).Ok? by {
      ParseLinesOkIff(lines);
    }
    ParseLinesOkIff(lines);
    assert r.Err? ==> r.error.UnpackError? && r.error.got != 2 by {
      if r.Err? {
        ParseLinesFirstError(lines);
      }
    }
    assert r.Ok? ==> forall p :: p in r.value ==> IsNormal(p) by {
      if r.Ok? {
        ParseLinesNormal(lines);
      }
    }
    r
  }

  /** `get_changed_files(repo, from_rev, to_rev)`, with `git` running commands in `repo`. */
  function GetChangedFiles(git: GitCommand, fromRev: string, toRev: Option<string>): (r: Result<seq<Path>>)
    ensures r.Err? ==>
      || (r.error.UnpackError? && r.error.got != 2)
      || git(DiffCommand(fromRev, DefaultToRev(toRev))) == Err(r.error)
    ensures r.Ok? ==> forall p :: p in r.value ==> IsNormal(p)
  {
    var output := git(DiffCommand(fromRev, DefaultToRev(toRev)));
    if output.Err? then Err(output.error) else ParseNameStatus(output.value)
  }

  /** A line is a tab-free status, a tab and a tab-free path. */
  predicate HasNoTab(s: string) {
    '\t' !in s
  }

  /** A well-formed line parses to its path exactly when its status is `A` or
      `M`, and to nothing otherwise. */
  lemma ParseLineOf(status: string, path: string)
    requires HasNoTab(status) && HasNoTab(path)
    ensures ParseLine(status + "\t" + path) ==
      if IsKeptStatus(status) then Ok(Some(Parse(path))) else Ok(None)
  {
    SplitTwo(status, path);
  }

  /** A line parses exactly when it holds a single tab. */
  lemma ParseLineOkIff(line: string)
    ensures ParseLine(line).Ok? <==>
      exists status, path :: HasNoTab(status) && HasNoTab(path) && line == status + "\t" + path
  {
    var fields := Split(line, "\t");
    if |fields| == 2 {
      JoinSplit(line, "\t");
      SplitFieldsAvoidSeparator(line, "\t");
      assert fields[0] in fields && fields[1] in fields;
      NotContainedChar(fields[0], "\t");
      NotContainedChar(fields[1], "\t");
      assert fields[1..] == [fields[1]];
      assert line == fields[0] + "\t" + fields[1];
      assert HasNoTab(fields[0]) && HasNoTab(fields[1]);
    } else if status, path :| HasNoTab(status) && HasNoTab(path) && line == status + "\t" + path {
      ParseLineOf(status, path);
      assert false;
    }
  }

  /** A rename line, which carries both the old and the new path, raises. */
  lemma RenameLineRaises(status: string, oldPath: string, newPath: string)
    requires HasNoTab(status) && HasNoTab(oldPath) && HasNoTab(newPath)
    ensures ParseLine(status + "\t" + oldPath + "\t" + newPath) == Err(UnpackError(3))
  {
    var line := status + "\t" + oldPath + "\t" + newPath;
    SplitThree(status, oldPath, newPath);
    assert |Split(line, "\t")| == 3;
  }

  /** A line with two tabs splits into three fields. */
  lemma SplitThree(status: string, oldPath: string, newPath: string)
    requires HasNoTab(status) && HasNoTab(oldPath) && HasNoTab(newPath)
    ensures Split(status + "\t" + oldPath + "\t" + newPath, "\t") == [status, oldPath, newPath]
  {
    var tail := oldPath + "\t" + newPath;
    assert status + "\t" + oldPath + "\t" + newPath == status + "\t" + tail;
    SplitTwo(oldPath, newPath);
    FindCharAfter(status, "\t", tail);
    SplitAtFirst(status, "\t", tail);
    assert [status] + [oldPath, newPath] == [status, oldPath, newPath];
  }

  /** A line with one tab splits into two fields. */
  lemma SplitTwo(status: string, path: string)
    requires HasNoTab(status) && HasNoTab(path)
    ensures Split(status + "\t" + path, "\t") == [status, path]
  {
    SplitJoinChar([status, path], "\t");
    assert Join([status, path], "\t") == status + "\t" + path by {
      assert [status, path][1..] == [path];
    }
  }

  /** A path field as git writes it on one line: no tab, no line break. */
  predicate IsPathField(s: string) {
    HasNoTab(s) && forall c :: c in s ==> !IsLineBreak(c)
  }

  /** A single well-formed status line parsed on its own. */
  lemma ParseOneLine(status: string, path: string)
    requires HasNoTab(status) && HasNoTab(path)
    ensures ParseLines([status + "\t" + path]) == Ok(if IsKeptStatus(status) then [Parse(path)] else [])
  {
    var line := status + "\t" + path;
    ParseLineOf(status, path);
    var parsed := ParseAll([line]);
    ParseAllAt([line]);
    assert parsed == [parsed[0]] + [];
    CollectCons(parsed[0], []);
    assert KeptPaths(parsed[0].value) + [] == KeptPaths(parsed[0].value);
  }

  /** A line with two fields in front of lines that parse: its path, if kept,
      comes first. */
  lemma ParsePrepend(status: string, path: string, rest: seq<string>)
    requires HasNoTab(status) && HasNoTab(path) && ParseLines(rest).Ok?
    ensures ParseLines([status + "\t" + path] + rest) ==
      Ok((if IsKeptStatus(status) then [Parse(path)] else []) + ParseLines(rest).value)
  {
    ParseOneLine(status, path);
    ParseLinesAppend([status + "\t" + path], rest);
  }

  /** The last two status lines of the example below: nothing is kept. */
  lemma StatusFilterDeletedTypeChanged(deleted: string, typeChanged: string)
    requires HasNoTab(deleted) && HasNoTab(typeChanged)
    ensures ParseLines(["D\t" + deleted, "T\t" + typeChanged]) == Ok([])
  {
    assert "D\t" + deleted == "D" + "\t" + deleted;
    assert "T\t" + typeChanged == "T" + "\t" + typeChanged;
    ParseOneLine("T", typeChanged);
    ParsePrepend("D", deleted, ["T" + "\t" + typeChanged]);
    assert !IsKeptStatus("D") && !IsKeptStatus("T");
    assert ["D" + "\t" + deleted] + ["T" + "\t" + typeChanged] == ["D\t" + deleted, "T\t" + typeChanged];
  }

  /** The last three status lines of the example below: the modified path only. */
  lemma StatusFilterModified(modified: string, deleted: string, typeChanged: string)
    requires HasNoTab(modified) && HasNoTab(deleted) && HasNoTab(typeChanged)
    ensures ParseLines(["M\t" + modified, "D\t" + deleted, "T\t" + typeChanged]) == Ok([Parse(modified)])
  {
    var rest := ["D\t" + deleted, "T\t" + typeChanged];
    StatusFilterDeletedTypeChanged(deleted, typeChanged);
    assert "M\t" + modified == "M" + "\t" + modified;
    ParsePrepend("M", modified, rest);
    assert IsKeptStatus("M") && [Parse(modified)] + [] == [Parse(modified)];
    assert ["M" + "\t" + modified] + rest == ["M\t" + modified, "D\t" + deleted, "T\t" + typeChanged];
  }

  /** The four status lines of the example below, parsed. */
  lemma StatusFilterLines(added: string, modified: string, deleted: string, typeChanged: string)
    requires HasNoTab(added) && HasNoTab(modified) && HasNoTab(deleted) && HasNoTab(typeChanged)
    ensures ParseLines(["A\t" + added, "M\t" + modified, "D\t" + deleted, "T\t" + typeChanged])
      == Ok([Parse(added), Parse(modified)])
  {
    var rest := ["M\t" + modified, "D\t" + deleted, "T\t" + typeChanged];
    StatusFilterModified(modified, deleted, typeChanged);
    assert "A\t" + added == "A" + "\t" + added;
    ParsePrepend("A", added, rest);
    assert IsKeptStatus("A") && [Parse(added)] + [Parse(modified)] == [Parse(added), Parse(modified)];
    assert ["A" + "\t" + added] + rest == ["A\t" + added, "M\t" + modified, "D\t" + deleted, "T\t" + typeChanged];
  }

  /** The text of the example below is its four status lines, each ended by a newline. */
  lemma StatusFilterTerminated(a: string, m: string, d: string, r: string)
    ensures Terminated([a, m, d, r]) == a + "\n" + m + "\n" + d + "\n" + r + "\n"
  {
    assert Terminated([r]) == r + "\n";
    assert Terminated([d, r]) == d + "\n" + (r + "\n") by { assert [d, r][1..] == [r]; }
    assert Terminated([m, d, r]) == m + "\n" + (d + "\n" + (r + "\n")) by { assert [m, d, r][1..] == [d, r]; }
    assert Terminated([a, m, d, r]) == a + "\n" + (m + "\n" + (d + "\n" + (r + "\n"))) by {
      assert [a, m, d, r][1..] == [m, d, r];
    }
  }

  /** The text of the example below splits into its four status lines. */
  lemma StatusFilterText(added: string, modified: string, deleted: string, typeChanged: string)
    requires IsPathField(added) && IsPathField(modified) && IsPathField(deleted) && IsPathField(typeChanged)
    ensures SplitLines("A\t" + added + "\nM\t" + modified + "\nD\t" + deleted + "\nT\t" + typeChanged + "\n")
      == ["A\t" + added, "M\t" + modified, "D\t" + deleted, "T\t" + typeChanged]
  {
    var a, m, d, r := "A\t" + added, "M\t" + modified, "D\t" + deleted, "T\t" + typeChanged;
    var lines := [a, m, d, r];
    StatusFilterTerminated(a, m, d, r);
    assert a + "\n" + m + "\n" + d + "\n" + r + "\n" ==
      "A\t" + added + "\nM\t" + modified + "\nD\t" + deleted + "\nT\t" + typeChanged + "\n";
    forall l, c | l in lines && c in l ensures !IsLineBreak(c) {
      if c in added || c in modified || c in deleted || c in typeChanged {
      }
    }
    SplitLinesTerminated(lines);
  }

  /** A diff with an added, a modified, a deleted and a type-changed file
      (status `T`, one path): only the added and the modified file are
      reported, in that order. A rename line carries two paths and raises
      instead (`RenameLineRaises`). */
  lemma StatusFilterExample(added: string, modified: string, deleted: string, typeChanged: string)
    requires IsPathField(added) && IsPathField(modified) && IsPathField(deleted) && IsPathField(typeChanged)
    ensures ParseNameStatus("A\t" + added + "\nM\t" + modified + "\nD\t" + deleted + "\nT\t" + typeChanged + "\n")
      == Ok([Parse(added), Parse(modified)])
  {
    StatusFilterText(added, modified, deleted, typeChanged);
    StatusFilterLines(added, modified, deleted, typeChanged);
  }
}
