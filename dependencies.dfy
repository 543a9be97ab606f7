/** `get_dependencies` of pytest_git_diff/dependencies.py: the pydeps dict
    re-keyed by root-relative module path, with module names resolved to
    paths. */
module Dependencies {
  import opened Results
  import opened Paths
  import opened Pydeps

  /** What the graph records for one module: the paths of the modules it
      imports and of the modules that import it. */
  datatype ModuleDependencyInfo = ModuleDependencyInfo(dependencies: seq<Path>, dependents: seq<Path>)

  type Graph = map<Path, ModuleDependencyInfo>

  /** `Path(entry["path"]).relative_to(root)`. */
  function EntryPath(e: Entry, root: Path): (r: Result<Path>)
    ensures r.Ok? ==> root + r.value == Parse(e.path)
    ensures r.Err? ==> r.error == NotRelativeError(Parse(e.path), root)
  {
    RelativeTo(Parse(e.path), root)
  }

  /** The entry at `i` is the last one in the dict whose `name` is its name. */
  predicate IsLastOfName(d: DepsDict, i: nat)
    requires i < |d|
  {
    forall j :: i < j < |d| ==> d[j].1.name != d[i].1.name
  }

  /** `name_to_path`: every entry's `name` mapped to its root-relative path; a
      later entry with the same name overrides an earlier one. It fails with
      the first entry whose path is not under the root. */
  function NameToPath(d: DepsDict, root: Path): (r: Result<map<string, Path>>)
    ensures r.Ok? <==> forall i :: 0 <= i < |d| ==> EntryPath(d[i].1, root).Ok?
    ensures r.Err? ==> r.error.NotRelativeError?
    decreases |d|
  {
    if d == [] then Ok(map[])
    else
      var init := NameToPath(d[..|d| - 1], root);
      var e := d[|d| - 1].1;
      var p := EntryPath(e, root);
      assert forall i :: 0 <= i < |d| - 1 ==> d[..|d| - 1][i] == d[i];
      if init.Err? then init
      else if p.Err? then Err(p.error)
      else Ok(init.value[e.name := p.value])
  }

  lemma NameToPathUnfold(d: DepsDict, root: Path)
    requires d != [] && NameToPath(d, root).Ok?
    ensures NameToPath(d[..|d| - 1], root).Ok?
    ensures NameToPath(d, root).value ==
      NameToPath(d[..|d| - 1], root).value[d[|d| - 1].1.name := EntryPath(d[|d| - 1].1, root).value]
  {
  }

  /** The names mapped are exactly the `name`s of the entries. */
  lemma {:induction false} NameToPathKeys(d: DepsDict, root: Path)
    requires NameToPath(d, root).Ok?
    ensures NameToPath(d, root).value.Keys == Names(d)
    decreases |d|
  {
    if d != [] {
      var init := d[..|d| - 1];
      NameToPathUnfold(d, root);
      NameToPathKeys(init, root);
      NamesSnoc(d);
    }
  }

  lemma NamesSnoc(d: DepsDict)
    requires d != []
    ensures Names(d) == Names(d[..|d| - 1]) + {d[|d| - 1].1.name}
  {
    var init := d[..|d| - 1];
    forall x | x in Names(d) ensures x in Names(init) + {d[|d| - 1].1.name} {
      var i :| 0 <= i < |d| && d[i].1.name == x;
      if i < |d| - 1 {
        assert init[i] == d[i];
      }
    }
    forall x | x in Names(init) ensures x in Names(d) {
      var i :| 0 <= i < |init| && init[i].1.name == x;
      assert d[i] == init[i];
    }
  }

  /** Each name maps to the path of the last entry that bears it. */
  lemma {:induction false} NameToPathLast(d: DepsDict, root: Path, i: nat)
    requires NameToPath(d, root).Ok?
    requires i < |d| && IsLastOfName(d, i)
    ensures d[i].1.name in NameToPath(d, root).value
    ensures NameToPath(d, root).value[d[i].1.name] == EntryPath(d[i].1, root).value
    decreases |d|
  {
    if i < |d| - 1 {
      var init := d[..|d| - 1];
      assert init[i] == d[i];
      assert forall j :: i < j < |init| ==> init[j] == d[j];
      NameToPathUnfold(d, root);
      NameToPathLast(init, root, i);
    }
  }

  /** `[name_to_path[dep] for dep in names]`: every name resolved, in order;
      a `KeyError` for the first name that is not a module. */
  function ResolveAll(names: seq<string>, nameToPath: map<string, Path>): (r: Result<seq<Path>>)
    ensures r.Ok? <==> forall n :: n in names ==> n in nameToPath
    ensures r.Ok? ==> (|r.value| == |names| &&
      forall i :: 0 <= i < |names| ==> r.value[i] == nameToPath[names[i]])
    ensures r.Err? ==>
      exists i :: 0 <= i < |names| && r.error == NameKeyError(names[i]) &&
        names[i] !in nameToPath && forall j :: 0 <= j < i ==> names[j] in nameToPath
  {
    if names == [] then Ok([])
    else if names[0] !in nameToPath then Err(NameKeyError(names[0]))
    else
      var rest := ResolveAll(names[1..], nameToPath);
      if rest.Err? then
        assert forall j :: 0 <= j < |names| - 1 ==> names[1..][j] == names[j + 1];
        rest
      else Ok([nameToPath[names[0]]] + rest.value)
  }

  /** `[name_to_path[dep] for dep in names if dep in name_to_path]`: the known
      names resolved, unknown ones dropped. */
  function ResolveKnown(names: seq<string>, nameToPath: map<string, Path>): (r: seq<Path>)
    ensures |r| <= |names|
    ensures forall p :: p in r <==> exists n :: n in names && n in nameToPath && nameToPath[n] == p
  {
    if names == [] then []
    else
      var rest := ResolveKnown(names[1..], nameToPath);
      assert forall n :: n in names <==> n == names[0] || n in names[1..];
      if names[0] in nameToPath then [nameToPath[names[0]]] + rest else rest
  }

  /** Dropping unknown names keeps the order of the others: resolving a
      concatenation resolves each part. */
  lemma {:induction false} ResolveKnownAppend(a: seq<string>, b: seq<string>, nameToPath: map<string, Path>)
    ensures ResolveKnown(a + b, nameToPath) == ResolveKnown(a, nameToPath) + ResolveKnown(b, nameToPath)
    decreases |a|
  {
    if a != [] {
      var ab := a + b;
      assert ab[0] == a[0];
      assert ab[1..] == a[1..] + b;
      ResolveKnownAppend(a[1..], b, nameToPath);
      var head := if a[0] in nameToPath then [nameToPath[a[0]]] else [];
      assert ResolveKnown(ab, nameToPath) == head + ResolveKnown(ab[1..], nameToPath);
      assert ResolveKnown(a, nameToPath) == head + ResolveKnown(a[1..], nameToPath);
      assert head + (ResolveKnown(a[1..], nameToPath) + ResolveKnown(b, nameToPath)) ==
        (head + ResolveKnown(a[1..], nameToPath)) + ResolveKnown(b, nameToPath);
    } else {
      assert a + b == b;
    }
  }

  /** The record of one entry: its `imports` resolved without filtering, its
      `imported_by` resolved with unknown names dropped; a missing list is empty. */
  function EntryInfo(e: Entry, nameToPath: map<string, Path>): (r: Result<ModuleDependencyInfo>)
    ensures r.Ok? <==> forall n :: n in e.imports.GetOr([]) ==> n in nameToPath
    ensures r.Err? ==> exists n :: n in e.imports.GetOr([]) && n !in nameToPath && r.error == NameKeyError(n)
    ensures r.Ok? ==> r.value.dependencies == ResolveAll(e.imports.GetOr([]), nameToPath).value
    ensures r.Ok? ==> |r.value.dependencies| == |e.imports.GetOr([])|
    ensures r.Ok? ==> |r.value.dependents| <= |e.importedBy.GetOr([])|
    ensures r.Ok? ==> forall p :: p in r.value.dependents <==>
      exists n :: n in e.importedBy.GetOr([]) && n in nameToPath && nameToPath[n] == p
    ensures e.imports.None? && e.importedBy.None? ==> r == Ok(ModuleDependencyInfo([], []))
  {
    var deps := ResolveAll(e.imports.GetOr([]), nameToPath);
    if deps.Err? then Err(deps.error)
    else Ok(ModuleDependencyInfo(deps.value, ResolveKnown(e.importedBy.GetOr([]), nameToPath)))
  }

  /** Every key of the dict is a module name and every entry's record builds. */
  predicate AllEntriesResolve(d: DepsDict, nameToPath: map<string, Path>) {
    forall i :: 0 <= i < |d| ==> d[i].0 in nameToPath && EntryInfo(d[i].1, nameToPath).Ok?
  }

  /** The entry at `i` is the last one whose key resolves to the same path. */
  predicate IsLastOfPath(d: DepsDict, nameToPath: map<string, Path>, i: nat)
    requires i < |d| && forall j :: 0 <= j < |d| ==> d[j].0 in nameToPath
  {
    forall j :: i < j < |d| ==> nameToPath[d[j].0] != nameToPath[d[i].0]
  }

  /** `dependency_info`: each entry's record keyed by the path of its dict key;
      a later entry whose key has the same path overrides an earlier one. The
      first key that is not a module name, or the first unknown import, raises
      a `KeyError`. */
  function Rekey(d: DepsDict, nameToPath: map<string, Path>): (r: Result<Graph>)
    ensures r.Ok? <==> AllEntriesResolve(d, nameToPath)
    ensures r.Err? ==> r.error.NameKeyError?
    decreases |d|
  {
    if d == [] then Ok(map[])
    else
      var init := Rekey(d[..|d| - 1], nameToPath);
      var (key, e) := d[|d| - 1];
      assert forall i :: 0 <= i < |d| - 1 ==> d[..|d| - 1][i] == d[i];
      if init.Err? then init
      else if key !in nameToPath then Err(NameKeyError(key))
      else
        var info := EntryInfo(e, nameToPath);
        if info.Err? then Err(info.error)
        else Ok(init.value[nameToPath[key] := info.value])
  }

  /** The paths of the graph are exactly the paths of the dict's keys. */
  lemma {:induction false} RekeyKeys(d: DepsDict, nameToPath: map<string, Path>)
    requires Rekey(d, nameToPath).Ok?
    ensures Rekey(d, nameToPath).value.Keys == set i | 0 <= i < |d| :: nameToPath[d[i].0]
    decreases |d|
  {
    if d != [] {
      var init := d[..|d| - 1];
      RekeyKeys(init, nameToPath);
      assert forall i :: 0 <= i < |d| - 1 ==> init[i] == d[i];
      assert (set i | 0 <= i < |d| :: nameToPath[d[i].0]) ==
        (set i | 0 <= i < |init| :: nameToPath[init[i].0]) + {nameToPath[d[|d| - 1].0]};
    }
  }

  /** Every record of the graph is the record of some entry whose key has its path. */
  lemma {:induction false} RekeyFrom(d: DepsDict, nameToPath: map<string, Path>, p: Path)
    requires Rekey(d, nameToPath).Ok? && p in Rekey(d, nameToPath).value
    ensures
      exists i :: 0 <= i < |d| && nameToPath[d[i].0] == p &&
        EntryInfo(d[i].1, nameToPath) == Ok(Rekey(d, nameToPath).value[p])
    decreases |d|
  {
    var init := d[..|d| - 1];
    var last := |d| - 1;
    if nameToPath[d[last].0] != p {
      RekeyFrom(init, nameToPath, p);
      var i :| 0 <= i < |init| && nameToPath[init[i].0] == p &&
        EntryInfo(init[i].1, nameToPath) == Ok(Rekey(init, nameToPath).value[p]);
      assert init[i] == d[i];
    }
  }

  /** The path of the last entry whose key resolves to it holds that entry's record. */
  lemma {:induction false} RekeyLast(d: DepsDict, nameToPath: map<string, Path>, i: nat)
    requires Rekey(d, nameToPath).Ok?
    requires i < |d| && IsLastOfPath(d, nameToPath, i)
    ensures nameToPath[d[i].0] in Rekey(d, nameToPath).value
    ensures Rekey(d, nameToPath).value[nameToPath[d[i].0]] == EntryInfo(d[i].1, nameToPath).value
    decreases |d|
  {
    RekeyKeys(d, nameToPath);
    if i < |d| - 1 {
      var init := d[..|d| - 1];
      assert init[i] == d[i];
      assert forall j :: i < j < |init| ==> init[j] == d[j];
      RekeyLast(init, nameToPath, i);
    }
  }

  /** `get_dependencies` on the dict pydeps produced for the resolved project
      root: it builds exactly when every entry's path is under the root, every
      key is a module name and every import is known; its keys are then the
      paths of the dict's keys. */
  function GetDependencies(d: DepsDict, root: Path): (r: Result<Graph>)
    ensures r.Ok? <==> NameToPath(d, root).Ok? && AllEntriesResolve(d, NameToPath(d, root).value)
    ensures r.Err? ==> r.error.NotRelativeError? || r.error.NameKeyError?
    ensures r.Ok? ==> r.value.Keys == set i | 0 <= i < |d| :: NameToPath(d, root).value[d[i].0]
  {
    var nameToPath := NameToPath(d, root);
    if nameToPath.Err? then Err(nameToPath.error)
    else
      var r := Rekey(d, nameToPath.value);
      assert r.Ok? ==> r.value.Keys == set i | 0 <= i < |d| :: nameToPath.value[d[i].0] by {
        if r.Ok? {
          RekeyKeys(d, nameToPath.value);
        }
      }
      r
  }

  /** When pydeps keys every entry by its own name, the graph is closed: every
      path in any `dependents` list is itself a key of the graph. */
  lemma GraphClosed(d: DepsDict, root: Path)
    requires KeyedByName(d)
    requires GetDependencies(d, root).Ok?
    ensures var g := GetDependencies(d, root).value;
      forall p, q :: p in g && q in g[p].dependents ==> q in g
  {
    var m := NameToPath(d, root).value;
    var g := GetDependencies(d, root).value;
    NameToPathKeys(d, root);
    RekeyKeys(d, m);
    forall p, q | p in g && q in g[p].dependents ensures q in g {
      RekeyFrom(d, m, p);
      var i :| 0 <= i < |d| && m[d[i].0] == p && EntryInfo(d[i].1, m) == Ok(g[p]);
      var n :| n in d[i].1.importedBy.GetOr([]) && n in m && m[n] == q;
      assert n in Names(d);
      var k :| 0 <= k < |d| && d[k].1.name == n;
      assert d[k].0 == n;
    }
  }
}
