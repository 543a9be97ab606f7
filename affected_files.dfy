/** `get_affected_files` of pytest_git_diff/affected_files.py: the changed
    files together with every file that depends on one of them, directly or
    through a chain of `dependents` links, found with a work list. */
module AffectedFiles {
  import opened Results
  import opened Paths
  import opened Pydeps
  import opened Dependencies
  import ChangedFiles

  /** A walk along `dependents` links: each step goes from a graph key to one
      of the paths listed as its dependents. */
  ghost predicate IsChain(g: Graph, chain: seq<Path>) {
    |chain| >= 1 &&
    forall i :: 0 <= i < |chain| - 1 ==> chain[i] in g && chain[i + 1] in g[chain[i]].dependents
  }

  /** `m` can be reached from a changed file in zero or more steps. */
  ghost predicate Reachable(g: Graph, changed: seq<Path>, m: Path) {
    exists chain :: IsChain(g, chain) && chain[0] in changed && chain[|chain| - 1] == m
  }

  /** Every reachable path is a key of the graph, so the loop never looks up a
      missing key. */
  ghost predicate Tracked(g: Graph, changed: seq<Path>) {
    forall m :: Reachable(g, changed, m) ==> m in g
  }

  /** Every path the loop can ever see: the changed files and every listed dependent. */
  ghost function Universe(g: Graph, changed: seq<Path>): set<Path> {
    (set c | c in changed) + (set p, q | p in g && q in g[p].dependents :: q)
  }

  /** The reverse-reachable set: the paths reachable from the changed files. */
  ghost function AffectedSet(g: Graph, changed: seq<Path>): set<Path> {
    set m | m in Universe(g, changed) && Reachable(g, changed, m)
  }

  /** A set of graph keys that holds the changed files and the dependents of
      each of its members. */
  ghost predicate ClosedOver(g: Graph, changed: seq<Path>, s: set<Path>) {
    (forall c :: c in changed ==> c in s) &&
    (forall p :: p in s ==> p in g) &&
    (forall p, q :: p in s && p in g && q in g[p].dependents ==> q in s)
  }

  /** One more step along a `dependents` link stays reachable. */
  lemma ReachableStep(g: Graph, changed: seq<Path>, p: Path, q: Path)
    requires Reachable(g, changed, p) && p in g && q in g[p].dependents
    ensures Reachable(g, changed, q)
  {
    var chain :| IsChain(g, chain) && chain[0] in changed && chain[|chain| - 1] == p;
    var longer := chain + [q];
    assert IsChain(g, longer) by {
      forall i | 0 <= i < |longer| - 1
        ensures longer[i] in g && longer[i + 1] in g[longer[i]].dependents
      {
        if i < |chain| - 1 {
          assert longer[i] == chain[i] && longer[i + 1] == chain[i + 1];
        }
      }
    }
    assert longer[0] == chain[0];
  }

  /** Reachable paths other than the changed files are listed dependents. */
  lemma ReachableInUniverse(g: Graph, changed: seq<Path>, m: Path)
    requires Reachable(g, changed, m)
    ensures m in Universe(g, changed)
  {
    var chain :| IsChain(g, chain) && chain[0] in changed && chain[|chain| - 1] == m;
    if |chain| > 1 {
      var p := chain[|chain| - 2];
      assert p in g && m in g[p].dependents;
    }
  }

  /** Every changed file is reachable, by the walk of length zero. */
  lemma ChangedReachable(g: Graph, changed: seq<Path>, c: Path)
    requires c in changed
    ensures Reachable(g, changed, c)
  {
    assert IsChain(g, [c]);
  }

  /** The affected set is the least closed set: any set of graph keys that
      holds the changed files and is closed under `dependents` holds every
      reachable path. */
  lemma {:induction false} ClosedHoldsChain(g: Graph, changed: seq<Path>, s: set<Path>, chain: seq<Path>)
    requires ClosedOver(g, changed, s)
    requires IsChain(g, chain) && chain[0] in changed
    ensures chain[|chain| - 1] in s
    decreases |chain|
  {
    if |chain| > 1 {
      var prefix := chain[..|chain| - 1];
      assert IsChain(g, prefix) by {
        forall i | 0 <= i < |prefix| - 1
          ensures prefix[i] in g && prefix[i + 1] in g[prefix[i]].dependents
        {
          assert prefix[i] == chain[i] && prefix[i + 1] == chain[i + 1];
        }
      }
      ClosedHoldsChain(g, changed, s, prefix);
      assert chain[|chain| - 2] in s;
    }
  }

  /** The affected set lies inside every closed set. */
  lemma AffectedLeast(g: Graph, changed: seq<Path>, s: set<Path>)
    requires ClosedOver(g, changed, s)
    ensures AffectedSet(g, changed) <= s
    ensures Tracked(g, changed)
  {
    forall m | Reachable(g, changed, m) ensures m in s {
      var chain :| IsChain(g, chain) && chain[0] in changed && chain[|chain| - 1] == m;
      ClosedHoldsChain(g, changed, s, chain);
    }
  }

  /** What the loop keeps true: every path seen so far and every path on the
      stack is reachable and inside the universe, the seen paths are keys,
      each changed file is seen or still on the stack, and each dependent of a
      seen path is seen or still on the stack. */
  ghost predicate LoopInvariant(g: Graph, changed: seq<Path>, affected: set<Path>, stack: seq<Path>) {
    && affected <= Universe(g, changed) && affected <= g.Keys
    && (forall p :: p in stack ==> p in Universe(g, changed) && Reachable(g, changed, p))
    && (forall p :: p in affected ==> Reachable(g, changed, p))
    && (forall c :: c in changed ==> c in affected || c in stack)
    && (forall p, q :: p in affected && p in g && q in g[p].dependents ==> q in affected || q in stack)
  }

  /** The invariant holds with nothing seen and the changed files on the stack. */
  lemma LoopStart(g: Graph, changed: seq<Path>)
    ensures LoopInvariant(g, changed, {}, changed)
  {
    forall c | c in changed ensures Reachable(g, changed, c) {
      ChangedReachable(g, changed, c);
    }
  }

  /** Popping a path that was already seen keeps the invariant. */
  lemma PopSeen(g: Graph, changed: seq<Path>, affected: set<Path>, stack: seq<Path>)
    requires stack != [] && LoopInvariant(g, changed, affected, stack)
    requires stack[|stack| - 1] in affected
    ensures LoopInvariant(g, changed, affected, stack[..|stack| - 1])
  {
    var file, rest := stack[|stack| - 1], stack[..|stack| - 1];
    assert stack == rest + [file];
    forall p | p in rest ensures p in stack {
    }
    forall p | p in stack ensures p in rest || p in affected {
    }
  }

  /** Popping a new path, adding it and pushing its dependents keeps the invariant. */
  lemma PopNew(g: Graph, changed: seq<Path>, affected: set<Path>, stack: seq<Path>)
    requires stack != [] && LoopInvariant(g, changed, affected, stack)
    requires stack[|stack| - 1] !in affected && stack[|stack| - 1] in g
    ensures var file := stack[|stack| - 1];
      LoopInvariant(g, changed, affected + {file}, stack[..|stack| - 1] + g[file].dependents)
  {
    var file, rest := stack[|stack| - 1], stack[..|stack| - 1];
    var dependents := g[file].dependents;
    var seen, next := affected + {file}, rest + dependents;
    assert stack == rest + [file];
    forall p | p in stack ensures p in rest || p == file {
    }
    forall p | p in next ensures p in rest || p in dependents {
    }
    forall p | p in rest || p in dependents ensures p in next {
    }
    forall q | q in dependents ensures q in Universe(g, changed) && Reachable(g, changed, q) {
      ReachableStep(g, changed, file, q);
    }
    assert file in Universe(g, changed) && Reachable(g, changed, file);
    forall p, q | p in seen && p in g && q in g[p].dependents ensures q in seen || q in next {
      if p != file {
        assert q in affected || q in stack;
      }
    }
  }

  /** A path left on an empty stack: the seen set is the affected set, and every
      reachable path is a key. */
  lemma LoopEnd(g: Graph, changed: seq<Path>, affected: set<Path>)
    requires LoopInvariant(g, changed, affected, [])
    ensures Tracked(g, changed) && affected == AffectedSet(g, changed)
  {
    assert ClosedOver(g, changed, affected);
    AffectedLeast(g, changed, affected);
  }

  /** `get_affected_files`' loop: pop the last path of the stack, skip it if
      already seen, otherwise add it and push its dependents. A popped path
      that is not a key of the graph raises `KeyError`. */
  method Closure(g: Graph, changed: seq<Path>) returns (r: Result<set<Path>>)
    ensures r.Ok? <==> Tracked(g, changed)
    ensures r.Ok? ==> r.value == AffectedSet(g, changed)
    ensures r.Err? ==>
      exists p :: r.error == PathKeyError(p) && Reachable(g, changed, p) && p !in g
  {
    var affected: set<Path> := {};
    var stack := changed;
    LoopStart(g, changed);
    while stack != []
      invariant LoopInvariant(g, changed, affected, stack)
      decreases |Universe(g, changed) - affected|, |stack|
    {
      ghost var before, seen := stack, affected;
      var file := stack[|stack| - 1];
      stack := stack[..|stack| - 1];
      if file in affected {
        PopSeen(g, changed, seen, before);
        continue;
      }
      affected := affected + {file};
      if file !in g {
        assert Reachable(g, changed, file);
        return Err(PathKeyError(file));
      }
      PopNew(g, changed, seen, before);
      assert Universe(g, changed) - affected < Universe(g, changed) - seen;
      stack := stack + g[file].dependents;
    }
    LoopEnd(g, changed, affected);
    r := Ok(affected);
  }

  /** A path is affected exactly when it is reachable from a changed file. */
  lemma AffectedIff(g: Graph, changed: seq<Path>, m: Path)
    ensures m in AffectedSet(g, changed) <==> Reachable(g, changed, m)
  {
    if Reachable(g, changed, m) {
      ReachableInUniverse(g, changed, m);
    }
  }

  /** Every changed file is affected. */
  lemma ChangedAreAffected(g: Graph, changed: seq<Path>, c: Path)
    requires c in changed
    ensures c in AffectedSet(g, changed)
  {
    ChangedReachable(g, changed, c);
    AffectedIff(g, changed, c);
  }

  /** The affected set is closed under `dependents`. */
  lemma AffectedClosed(g: Graph, changed: seq<Path>, p: Path, q: Path)
    requires p in AffectedSet(g, changed) && p in g && q in g[p].dependents
    ensures q in AffectedSet(g, changed)
  {
    AffectedIff(g, changed, p);
    ReachableStep(g, changed, p, q);
    AffectedIff(g, changed, q);
  }

  /** A changed file that is not a key of the graph makes the loop raise. */
  lemma UntrackedChangedFails(g: Graph, changed: seq<Path>, c: Path)
    requires c in changed && c !in g
    ensures !Tracked(g, changed)
  {
    ChangedReachable(g, changed, c);
  }

  /** In a graph whose dependents are all keys, the loop raises only for a
      changed file that is not a key. */
  lemma ClosedGraphTracked(g: Graph, changed: seq<Path>)
    requires forall p, q :: p in g && q in g[p].dependents ==> q in g
    ensures Tracked(g, changed) <==> forall c :: c in changed ==> c in g
  {
    if forall c :: c in changed ==> c in g {
      forall m | Reachable(g, changed, m) ensures m in g {
        var chain :| IsChain(g, chain) && chain[0] in changed && chain[|chain| - 1] == m;
        if |chain| > 1 {
          assert chain[|chain| - 2] in g;
        }
      }
    } else {
      var c :| c in changed && c !in g;
      UntrackedChangedFails(g, changed, c);
    }
  }

  /** Reachability depends on the changed files only as a set. */
  lemma ReachableSameSet(g: Graph, changed: seq<Path>, other: seq<Path>, m: Path)
    requires forall p :: p in changed <==> p in other
    ensures Reachable(g, changed, m) <==> Reachable(g, other, m)
  {
    if Reachable(g, changed, m) {
      var chain :| IsChain(g, chain) && chain[0] in changed && chain[|chain| - 1] == m;
      assert chain[0] in other;
    }
    if Reachable(g, other, m) {
      var chain :| IsChain(g, chain) && chain[0] in other && chain[|chain| - 1] == m;
      assert chain[0] in changed;
    }
  }

  /** The result does not depend on the order of the changed files or on
      repeats among them. */
  lemma OrderIndependent(g: Graph, changed: seq<Path>, other: seq<Path>)
    requires forall p :: p in changed <==> p in other
    ensures AffectedSet(g, changed) == AffectedSet(g, other)
    ensures Tracked(g, changed) <==> Tracked(g, other)
  {
    forall m ensures m in AffectedSet(g, changed) <==> m in AffectedSet(g, other) {
      ReachableSameSet(g, changed, other, m);
      AffectedIff(g, changed, m);
      AffectedIff(g, other, m);
    }
    forall m ensures Reachable(g, changed, m) <==> Reachable(g, other, m) {
      ReachableSameSet(g, changed, other, m);
    }
  }

  /** Two walks joined where the first ends and the second starts. */
  lemma ChainJoin(g: Graph, first: seq<Path>, second: seq<Path>)
    requires IsChain(g, first) && IsChain(g, second) && first[|first| - 1] == second[0]
    ensures IsChain(g, first + second[1..])
    ensures (first + second[1..])[0] == first[0]
    ensures (first + second[1..])[|first| + |second| - 2] == second[|second| - 1]
  {
    var joined := first + second[1..];
    forall i | 0 <= i < |joined| - 1
      ensures joined[i] in g && joined[i + 1] in g[joined[i]].dependents
    {
      if i < |first| - 1 {
        assert joined[i] == first[i] && joined[i + 1] == first[i + 1];
      } else {
        var k := i - |first| + 1;
        assert joined[i] == second[k] && joined[i + 1] == second[k + 1];
      }
    }
  }

  /** Closing the affected set again adds nothing. */
  lemma Idempotent(g: Graph, changed: seq<Path>, again: seq<Path>)
    requires forall p :: p in again <==> p in AffectedSet(g, changed)
    ensures AffectedSet(g, again) == AffectedSet(g, changed)
    ensures Tracked(g, again) <==> Tracked(g, changed)
  {
    forall m ensures Reachable(g, again, m) <==> Reachable(g, changed, m) {
      if Reachable(g, again, m) {
        var second :| IsChain(g, second) && second[0] in again && second[|second| - 1] == m;
        AffectedIff(g, changed, second[0]);
        var first :| IsChain(g, first) && first[0] in changed && first[|first| - 1] == second[0];
        ChainJoin(g, first, second);
        var joined := first + second[1..];
        assert joined[|joined| - 1] == m;
      }
      if Reachable(g, changed, m) {
        var chain :| IsChain(g, chain) && chain[0] in changed && chain[|chain| - 1] == m;
        ChangedAreAffected(g, changed, chain[0]);
        assert chain[0] in again;
      }
    }
    forall m ensures m in AffectedSet(g, again) <==> m in AffectedSet(g, changed) {
      AffectedIff(g, changed, m);
      AffectedIff(g, again, m);
    }
  }

  /** Two modules that import each other: changing one affects both, and the
      loop stops although the graph has a cycle. */
  lemma CycleExample(a: Path, b: Path)
    requires a != b
    ensures var g := map[a := ModuleDependencyInfo([b], [b]), b := ModuleDependencyInfo([a], [a])];
      Tracked(g, [a]) && AffectedSet(g, [a]) == {a, b}
  {
    var g := map[a := ModuleDependencyInfo([b], [b]), b := ModuleDependencyInfo([a], [a])];
    assert ClosedOver(g, [a], {a, b});
    AffectedLeast(g, [a], {a, b});
    ChangedAreAffected(g, [a], a);
    AffectedClosed(g, [a], a, b);
  }

  /** `c` imports `b`, which imports `a`: changing `a` affects all three,
      changing `c` affects `c` alone. */
  lemma ChainExample(a: Path, b: Path, c: Path)
    requires a != b && b != c && a != c
    ensures var g := map[
        a := ModuleDependencyInfo([], [b]),
        b := ModuleDependencyInfo([a], [c]),
        c := ModuleDependencyInfo([b], [])];
      AffectedSet(g, [a]) == {a, b, c} && AffectedSet(g, [c]) == {c}
  {
    var g := map[
      a := ModuleDependencyInfo([], [b]),
      b := ModuleDependencyInfo([a], [c]),
      c := ModuleDependencyInfo([b], [])];
    assert ClosedOver(g, [a], {a, b, c});
    AffectedLeast(g, [a], {a, b, c});
    ChangedAreAffected(g, [a], a);
    AffectedClosed(g, [a], a, b);
    AffectedClosed(g, [a], b, c);
    assert ClosedOver(g, [c], {c});
    AffectedLeast(g, [c], {c});
    ChangedAreAffected(g, [c], c);
  }

  /** On a graph built from a pydeps dict keyed by module name, the loop
      raises exactly when some changed file (a non-Python file, say) is not
      a module of the graph. */
  lemma PydepsGraphTracked(d: DepsDict, root: Path, changed: seq<Path>)
    requires KeyedByName(d) && GetDependencies(d, root).Ok?
    ensures Tracked(GetDependencies(d, root).value, changed) <==>
      forall c :: c in changed ==> c in GetDependencies(d, root).value
  {
    GraphClosed(d, root);
    ClosedGraphTracked(GetDependencies(d, root).value, changed);
  }

  /** `get_affected_files(repo_path, from_rev, to_rev)`: the dependency graph
      of the pydeps dict `d` for the resolved repository root, then the
      changed files, then their closure. An error in either of the first two
      steps is raised before the loop starts. */
  method GetAffectedFiles(d: DepsDict, repoRoot: Path, git: ChangedFiles.GitCommand, fromRev: string, toRev: Option<string>)
    returns (r: Result<set<Path>>)
    ensures GetDependencies(d, repoRoot).Err? ==> r == Err(GetDependencies(d, repoRoot).error)
    ensures GetDependencies(d, repoRoot).Ok? && ChangedFiles.GetChangedFiles(git, fromRev, toRev).Err? ==>
      r == Err(ChangedFiles.GetChangedFiles(git, fromRev, toRev).error)
    ensures GetDependencies(d, repoRoot).Ok? && ChangedFiles.GetChangedFiles(git, fromRev, toRev).Ok? ==>
      var g, changed := GetDependencies(d, repoRoot).value, ChangedFiles.GetChangedFiles(git, fromRev, toRev).value;
      && (r.Ok? <==> Tracked(g, changed))
      && (r.Ok? ==> r.value == AffectedSet(g, changed))
      && (r.Err? ==> exists p :: r.error == PathKeyError(p) && Reachable(g, changed, p) && p !in g)
  {
    var dependencyInfos := GetDependencies(d, repoRoot);
    if dependencyInfos.Err? {
      return Err(dependencyInfos.error);
    }
    var changedFiles := ChangedFiles.GetChangedFiles(git, fromRev, toRev);
    if changedFiles.Err? {
      return Err(changedFiles.error);
    }
    r := Closure(dependencyInfos.value, changedFiles.value);
  }
}
