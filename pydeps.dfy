/** The JSON dict that pydeps writes with `--show-deps`, as the plugin reads it. */
module Pydeps {
  import opened Results

  /** One value of the dict: the module's `name`, its file `path`, and the
      optional `imports` and `imported_by` lists of module names. */
  datatype Entry = Entry(
    name: string,
    path: string,
    imports: Option<seq<string>>,
    importedBy: Option<seq<string>>)

  /** The dict as its `(key, entry)` items in insertion order, which is the
      order in which Python's comprehensions visit them. */
  type DepsDict = seq<(string, Entry)>

  /** The keys of a Python dict are distinct. */
  predicate DistinctKeys(d: DepsDict) {
    forall i, j :: 0 <= i < j < |d| ==> d[i].0 != d[j].0
  }

  function Keys(d: DepsDict): set<string> {
    set i | 0 <= i < |d| :: d[i].0
  }

  /** The `name` fields of the entries. */
  function Names(d: DepsDict): set<string> {
    set i | 0 <= i < |d| :: d[i].1.name
  }

  /** Each key is the name of its own entry, as pydeps writes the dict. */
  predicate KeyedByName(d: DepsDict) {
    forall i :: 0 <= i < |d| ==> d[i].0 == d[i].1.name
  }
}
