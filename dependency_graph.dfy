/** The older `get_dependencies` of pytest_git_diff/dependency_graph/dependencies.py:
    one record per pydeps entry, keyed by module name, holding the raw module
    names that pydeps reports. */
module DependencyGraph {
  import opened Results
  import opened Paths
  import opened Pydeps

  /** A module's record: its name, its path relative to the project root, and
      the names it imports and is imported by, exactly as pydeps lists them. */
  datatype ModuleDependencyInfo = ModuleDependencyInfo(
    name: string,
    path: Path,
    dependencies: seq<string>,
    dependents: seq<string>)

  /** `ModuleDependencyInfo.from_pydeps_dict_entry(entry, project_root=root)`. */
  function FromPydepsDictEntry(e: Entry, projectRoot: Path): (r: Result<ModuleDependencyInfo>)
    ensures r.Ok? <==> RelativeTo(Parse(e.path), projectRoot).Ok?
    ensures r.Err? ==> r.error == NotRelativeError(Parse(e.path), projectRoot)
    ensures r.Ok? ==> r.value.name == e.name && projectRoot + r.value.path == Parse(e.path)
    ensures r.Ok? ==> r.value.dependencies == e.imports.GetOr([]) && r.value.dependents == e.importedBy.GetOr([])
  {
    var path := RelativeTo(Parse(e.path), projectRoot);
    if path.Err? then Err(path.error)
    else Ok(ModuleDependencyInfo(e.name, path.value, e.imports.GetOr([]), e.importedBy.GetOr([])))
  }

  /** `get_dependencies`: every entry's record under its dict key. The first
      entry whose path is not under the project root raises. */
  function GetDependencies(d: DepsDict, projectRoot: Path): (r: Result<map<string, ModuleDependencyInfo>>)
    ensures r.Ok? <==> forall i :: 0 <= i < |d| ==> FromPydepsDictEntry(d[i].1, projectRoot).Ok?
    decreases |d|
  {
    if d == [] then Ok(map[])
    else
      var init := GetDependencies(d[..|d| - 1], projectRoot);
      var (key, e) := d[|d| - 1];
      var info := FromPydepsDictEntry(e, projectRoot);
      assert forall i :: 0 <= i < |d| - 1 ==> d[..|d| - 1][i] == d[i];
      if init.Err? then init
      else if info.Err? then Err(info.error)
      else Ok(init.value[key := info.value])
  }

  lemma GetDependenciesUnfold(d: DepsDict, projectRoot: Path)
    requires d != [] && GetDependencies(d, projectRoot).Ok?
    ensures GetDependencies(d[..|d| - 1], projectRoot).Ok?
    ensures GetDependencies(d, projectRoot).value ==
      GetDependencies(d[..|d| - 1], projectRoot).value[d[|d| - 1].0 := FromPydepsDictEntry(d[|d| - 1].1, projectRoot).value]
  {
  }

  lemma KeysSnoc(d: DepsDict)
    requires d != []
    ensures Keys(d) == Keys(d[..|d| - 1]) + {d[|d| - 1].0}
  {
    var init := d[..|d| - 1];
    forall x | x in Keys(d) ensures x in Keys(init) + {d[|d| - 1].0} {
      var i :| 0 <= i < |d| && d[i].0 == x;
      if i < |d| - 1 {
        assert init[i] == d[i];
      }
    }
    forall x | x in Keys(init) ensures x in Keys(d) {
      var i :| 0 <= i < |init| && init[i].0 == x;
      assert d[i] == init[i];
    }
  }

  /** The result has exactly the keys of the pydeps dict. */
  lemma {:induction false} GetDependenciesKeys(d: DepsDict, projectRoot: Path)
    requires GetDependencies(d, projectRoot).Ok?
    ensures GetDependencies(d, projectRoot).value.Keys == Keys(d)
    decreases |d|
  {
    if d != [] {
      GetDependenciesUnfold(d, projectRoot);
      GetDependenciesKeys(d[..|d| - 1], projectRoot);
      KeysSnoc(d);
    }
  }

  /** Each key holds the record built from its own entry: one record per entry. */
  lemma {:induction false} GetDependenciesEntry(d: DepsDict, projectRoot: Path, i: nat)
    requires DistinctKeys(d) && GetDependencies(d, projectRoot).Ok?
    requires i < |d|
    ensures d[i].0 in GetDependencies(d, projectRoot).value
    ensures GetDependencies(d, projectRoot).value[d[i].0] == FromPydepsDictEntry(d[i].1, projectRoot).value
    decreases |d|
  {
    GetDependenciesUnfold(d, projectRoot);
    if i < |d| - 1 {
      var init := d[..|d| - 1];
      assert init[i] == d[i];
      assert DistinctKeys(init) by {
        forall a, b | 0 <= a < b < |init| ensures init[a].0 != init[b].0 {
          assert init[a] == d[a] && init[b] == d[b];
        }
      }
      GetDependenciesEntry(init, projectRoot, i);
    }
  }
}
