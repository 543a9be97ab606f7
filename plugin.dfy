/** `pytest_collection_modifyitems` of pytest_git_diff/plugin.py: the two
    command-line options turned into a revision range, and the collected test
    items narrowed, in place, to those whose file is affected. */
module Plugin {
  import opened Results
  import opened Text
  import opened Paths
  import opened Pydeps
  import opened Dependencies
  import ChangedFiles
  import opened AffectedFiles

  /** The revisions `from_rev..to_rev` the tests are filtered by. */
  datatype RevRange = RevRange(fromRev: string, toRev: string)

  /** The range `--only-affected-last-commit` stands for. */
  const LastCommitRange: string := "HEAD~1..HEAD"

  /** The separator between the two revisions of a range. */
  const RangeSeparator: string := ".."

  /** Python truthiness of the `--only-affected-by` value: `None` and the
      empty string count as unset. */
  predicate IsSet(option: Option<string>) {
    option.Some? && option.value != ""
  }

  /** Lines 32-47: no range when neither option is set; otherwise the range
      text (`"HEAD~1..HEAD"` when the last-commit flag is on), read as a
      single revision compared with `HEAD` when it has no `..`, or unpacked
      into two revisions, an empty second one meaning `HEAD`. */
  function ParseRange(onlyAffectedBy: Option<string>, lastCommit: bool): (r: Result<Option<RevRange>>)
    ensures r == Ok(None) <==> !IsSet(onlyAffectedBy) && !lastCommit
    ensures r.Ok? && r.value.Some? ==> r.value.value.toRev != ""
    ensures r.Err? ==> r.error.UnpackError? && r.error.got >= 3
  {
    if !IsSet(onlyAffectedBy) && !lastCommit then Ok(None)
    else
      var range := if lastCommit then LastCommitRange else onlyAffectedBy.value;
      if !Contains(range, RangeSeparator) then Ok(Some(RevRange(range, ChangedFiles.Head)))
      else
        var parts := Split(range, RangeSeparator);
        SplitSingleIff(range, RangeSeparator);
        if |parts| != 2 then Err(UnpackError(|parts|))
        else Ok(Some(RevRange(parts[0], if parts[1] == "" then ChangedFiles.Head else parts[1])))
  }

  /** A revision that can stand before `..` without the separator being found
      inside or across it: no `..` in it, and no `.` at its end. */
  predicate IsRangeStart(f: string) {
    !Contains(f, RangeSeparator) && (f == "" || f[|f| - 1] != '.')
  }

  /** In `f + ".." + t` the separator is first found right after `f`. */
  lemma FindRangeSeparator(f: string, t: string)
    requires IsRangeStart(f)
    ensures Find(f + RangeSeparator + t, RangeSeparator, 0) == |f|
  {
    var s := f + RangeSeparator + t;
    assert OccursAt(s, RangeSeparator, |f|) by { assert s[|f|..|f| + 2] == RangeSeparator; }
    FindIsFirst(s, RangeSeparator, 0, |f|);
    assert Find(f, RangeSeparator, 0) == |f|;
    forall k | 0 <= k < |f| ensures !OccursAt(s, RangeSeparator, k) {
      if k + 2 <= |f| {
        assert s[k..k + 2] == f[k..k + 2];
        assert !OccursAt(f, RangeSeparator, k);
      } else {
        assert k == |f| - 1 && s[k] == f[|f| - 1];
        assert s[k..k + 2][0] != '.';
      }
    }
  }

  /** A revision without dots holds no separator and does not end in a dot. */
  lemma NoDots(rev: string)
    requires '.' !in rev
    ensures IsRangeStart(rev) && !Contains(rev, RangeSeparator)
  {
    forall k | 0 <= k < |rev| ensures !OccursAt(rev, RangeSeparator, k) {
      if k + 2 <= |rev| {
        assert rev[k] in rev;
        assert rev[k..k + 2][0] != '.';
      }
    }
    if rev != [] {
      assert rev[|rev| - 1] in rev;
    }
  }

  /** `"FROM..TO"` with a single separator gives back both revisions, an empty
      `TO` standing for `HEAD`. */
  lemma RangeRoundTrip(f: string, t: string)
    requires IsRangeStart(f) && !Contains(t, RangeSeparator)
    ensures ParseRange(Some(f + RangeSeparator + t), false) ==
      Ok(Some(RevRange(f, if t == "" then ChangedFiles.Head else t)))
  {
    FindRangeSeparator(f, t);
    SplitAtFirst(f, RangeSeparator, t);
    SplitSingleIff(t, RangeSeparator);
  }

  /** The last-commit flag wins over any `--only-affected-by` value. */
  lemma LastCommitOverrides(onlyAffectedBy: Option<string>)
    ensures ParseRange(onlyAffectedBy, true) == Ok(Some(RevRange("HEAD~1", "HEAD")))
  {
    LastCommitIsRange();
    assert ParseRange(onlyAffectedBy, true) == ParseRange(Some(LastCommitRange), false);
  }

  /** `"HEAD~1..HEAD"` is read as the range from `HEAD~1` to `HEAD`. */
  lemma LastCommitIsRange()
    ensures ParseRange(Some(LastCommitRange), false) == Ok(Some(RevRange("HEAD~1", "HEAD")))
  {
    assert LastCommitRange == "HEAD~1" + RangeSeparator + "HEAD";
    NoDots("HEAD~1");
    NoDots("HEAD");
    RangeRoundTrip("HEAD~1", "HEAD");
  }

  /** A value without `..` is the first revision, compared with `HEAD`. */
  lemma SingleRevision(rev: string)
    requires rev != "" && !Contains(rev, RangeSeparator)
    ensures ParseRange(Some(rev), false) == Ok(Some(RevRange(rev, "HEAD")))
  {
  }

  /** A value with two separators does not unpack into two revisions. */
  lemma TwoSeparatorsRaise(a: string, b: string, c: string)
    requires IsRangeStart(a) && IsRangeStart(b) && !Contains(c, RangeSeparator)
    ensures ParseRange(Some(a + RangeSeparator + b + RangeSeparator + c), false) == Err(UnpackError(3))
  {
    var tail := b + RangeSeparator + c;
    assert a + RangeSeparator + b + RangeSeparator + c == a + RangeSeparator + tail;
    FindRangeSeparator(a, tail);
    SplitAtFirst(a, RangeSeparator, tail);
    FindRangeSeparator(b, c);
    SplitAtFirst(b, RangeSeparator, c);
    SplitSingleIff(c, RangeSeparator);
  }

  /** A collected test item: its node id and the path of its file, as
      `item.reportinfo()[0]` gives it. */
  datatype Item = Item(nodeid: string, fspath: Path)

  /** The list comprehension of lines 51-55: the items, in order, whose file
      path relative to the session's start path is affected. The first item
      whose file is not under the start path raises. */
  function KeepAffected(items: seq<Item>, startPath: Path, affected: set<Path>): (r: Result<seq<Item>>)
    ensures r.Ok? <==> forall i :: 0 <= i < |items| ==> RelativeTo(items[i].fspath, startPath).Ok?
    ensures r.Ok? ==> |r.value| <= |items|
    ensures r.Err? ==>
      exists i :: 0 <= i < |items| && r.error == NotRelativeError(items[i].fspath, startPath)
  {
    if items == [] then Ok([])
    else
      var relative := RelativeTo(items[0].fspath, startPath);
      var rest := KeepAffected(items[1..], startPath, affected);
      assert forall j :: 0 <= j < |items| - 1 ==> items[1..][j] == items[j + 1];
      if relative.Err? then Err(relative.error)
      else if rest.Err? then rest
      else Ok((if relative.value in affected then [items[0]] else []) + rest.value)
  }

  /** The item is kept: its file is under the start path and, relative to
      it, affected. */
  predicate IsKept(item: Item, startPath: Path, affected: set<Path>) {
    var relative := RelativeTo(item.fspath, startPath);
    relative.Ok? && relative.value in affected
  }

  /** `a` is `b` with some elements left out, the rest in the same order. */
  predicate IsSubsequence<T(==)>(a: seq<T>, b: seq<T>)
    decreases |b|
  {
    if a == [] then true
    else if b == [] then false
    else (a[0] == b[0] && IsSubsequence(a[1..], b[1..])) || IsSubsequence(a, b[1..])
  }

  /** After filtering, an item is present exactly when it was collected and
      its relative path is affected. */
  lemma {:induction false} KeepAffectedMembers(items: seq<Item>, startPath: Path, affected: set<Path>, item: Item)
    requires KeepAffected(items, startPath, affected).Ok?
    ensures item in KeepAffected(items, startPath, affected).value <==>
      item in items && IsKept(item, startPath, affected)
    decreases |items|
  {
    if items != [] {
      KeepAffectedMembers(items[1..], startPath, affected, item);
      assert items == [items[0]] + items[1..];
    }
  }

  /** One step of the comprehension: the first item, then the rest. */
  lemma KeepAffectedCons(item: Item, rest: seq<Item>, startPath: Path, affected: set<Path>)
    requires RelativeTo(item.fspath, startPath).Ok? && KeepAffected(rest, startPath, affected).Ok?
    ensures KeepAffected([item] + rest, startPath, affected) ==
      Ok((if IsKept(item, startPath, affected) then [item] else []) + KeepAffected(rest, startPath, affected).value)
  {
    assert ([item] + rest)[0] == item && ([item] + rest)[1..] == rest;
  }

  /** The filter keeps the order of the items and each occurrence on its own
      merits: filtering a concatenation filters each part. */
  lemma {:induction false} KeepAffectedAppend(a: seq<Item>, b: seq<Item>, startPath: Path, affected: set<Path>)
    requires KeepAffected(a, startPath, affected).Ok? && KeepAffected(b, startPath, affected).Ok?
    ensures KeepAffected(a + b, startPath, affected) ==
      Ok(KeepAffected(a, startPath, affected).value + KeepAffected(b, startPath, affected).value)
    decreases |a|
  {
    if a == [] {
      assert a + b == b;
      assert [] + KeepAffected(b, startPath, affected).value == KeepAffected(b, startPath, affected).value;
    } else {
      var item, tail := a[0], a[1..];
      assert a == [item] + tail;
      assert a + b == [item] + (tail + b);
      assert RelativeTo(item.fspath, startPath).Ok? && KeepAffected(tail, startPath, affected).Ok?;
      KeepAffectedAppend(tail, b, startPath, affected);
      KeepAffectedCons(item, tail, startPath, affected);
      KeepAffectedCons(item, tail + b, startPath, affected);
      var head := if IsKept(item, startPath, affected) then [item] else [];
      ConcatAssoc(head, KeepAffected(tail, startPath, affected).value, KeepAffected(b, startPath, affected).value);
    }
  }

  lemma ConcatAssoc(x: seq<Item>, y: seq<Item>, z: seq<Item>)
    ensures x + (y + z) == (x + y) + z
  {
  }

  /** A single item is kept exactly when its relative path is affected. */
  lemma KeepAffectedSingle(item: Item, startPath: Path, affected: set<Path>)
    requires RelativeTo(item.fspath, startPath).Ok?
    ensures KeepAffected([item], startPath, affected) ==
      Ok(if IsKept(item, startPath, affected) then [item] else [])
  {
    KeepAffectedCons(item, [], startPath, affected);
    assert [item] + [] == [item];
    var head := if IsKept(item, startPath, affected) then [item] else [];
    assert head + [] == head;
  }

  /** The kept items are a subsequence of the collected ones. */
  lemma {:induction false} KeepAffectedSubsequence(items: seq<Item>, startPath: Path, affected: set<Path>)
    requires KeepAffected(items, startPath, affected).Ok?
    ensures IsSubsequence(KeepAffected(items, startPath, affected).value, items)
    decreases |items|
  {
    if items != [] {
      KeepAffectedSubsequence(items[1..], startPath, affected);
      var kept := KeepAffected(items, startPath, affected).value;
      var rest := KeepAffected(items[1..], startPath, affected).value;
      if IsKept(items[0], startPath, affected) {
        assert kept == [items[0]] + rest;
        assert kept[1..] == rest;
      } else {
        assert kept == [] + rest == rest;
      }
    }
  }

  /** Filtering the kept items again keeps them all. */
  lemma {:induction false} KeepAffectedIdempotent(items: seq<Item>, startPath: Path, affected: set<Path>)
    requires KeepAffected(items, startPath, affected).Ok?
    ensures KeepAffected(KeepAffected(items, startPath, affected).value, startPath, affected) ==
      KeepAffected(items, startPath, affected)
    decreases |items|
  {
    if items != [] {
      KeepAffectedIdempotent(items[1..], startPath, affected);
      var kept := KeepAffected(items, startPath, affected).value;
      var rest := KeepAffected(items[1..], startPath, affected).value;
      if IsKept(items[0], startPath, affected) {
        assert kept == [items[0]] + rest;
        assert kept[1..] == rest;
      } else {
        assert kept == [] + rest == rest;
      }
    }
  }

  /** The caller's list of collected items, which the hook rewrites in place. */
  class ItemList {
    var items: seq<Item>

    constructor (items: seq<Item>)
      ensures this.items == items
    {
      this.items := items;
    }

    /** `items[:] = [...]`: the whole comprehension is built before the slice
        assignment, so an item that raises leaves the list as it was. */
    method KeepOnlyAffected(startPath: Path, affected: set<Path>) returns (o: Outcome)
      modifies this
      ensures var kept := KeepAffected(old(items), startPath, affected);
        && (kept.Ok? ==> o == Pass && items == kept.value)
        && (kept.Err? ==> o == Fail(kept.error) && items == old(items))
    {
      var kept := KeepAffected(items, startPath, affected);
      if kept.Err? {
        return Fail(kept.error);
      }
      items := kept.value;
      o := Pass;
    }
  }

  /** `pytest_collection_modifyitems(session, config, items)`, with the two
      option values, the session's start path (already resolved), the pydeps
      dict of the project and the git runner as parameters. */
  method CollectionModifyItems(
    items: ItemList, startPath: Path, onlyAffectedBy: Option<string>, lastCommit: bool,
    d: DepsDict, git: ChangedFiles.GitCommand)
    returns (o: Outcome)
    modifies items
    ensures ParseRange(onlyAffectedBy, lastCommit) == Ok(None) ==> o == Pass && items.items == old(items.items)
    ensures ParseRange(onlyAffectedBy, lastCommit).Err? ==>
      o == Fail(ParseRange(onlyAffectedBy, lastCommit).error) && items.items == old(items.items)
    ensures o.Fail? ==> items.items == old(items.items)
    ensures ParseRange(onlyAffectedBy, lastCommit).Ok? && ParseRange(onlyAffectedBy, lastCommit).value.Some? ==>
      var range := ParseRange(onlyAffectedBy, lastCommit).value.value;
      var graph := GetDependencies(d, startPath);
      var changed := ChangedFiles.GetChangedFiles(git, range.fromRev, Some(range.toRev));
      && (o.Pass? ==>
        && graph.Ok? && changed.Ok? && Tracked(graph.value, changed.value)
        && KeepAffected(old(items.items), startPath, AffectedSet(graph.value, changed.value)) == Ok(items.items))
      && ((graph.Ok? && changed.Ok? && Tracked(graph.value, changed.value)
          && KeepAffected(old(items.items), startPath, AffectedSet(graph.value, changed.value)).Ok?) ==> o.Pass?)
  {
    var range := ParseRange(onlyAffectedBy, lastCommit);
    if range.Err? {
      return Fail(range.error);
    }
    if range.value.None? {
      return Pass;
    }
    var affected := GetAffectedFiles(d, startPath, git, range.value.value.fromRev, Some(range.value.value.toRev));
    if affected.Err? {
      return Fail(affected.error);
    }
    o := items.KeepOnlyAffected(startPath, affected.value);
  }
}
