/** `pathlib.PurePosixPath` as far as the plugin uses it: building a path
    from a string, path equality, and `relative_to`. */
module Paths {
  import opened Text
  import opened Results

  /** A path as its `parts`: an optional anchor `"/"` or `"//"`, then its
      components. Two paths are equal exactly when their parts are. */
  type Path = seq<string>

  /** A component as `PurePosixPath` keeps it: not empty, not `"."`, no `/`. */
  predicate IsComponent(c: string) {
    c != "" && c != "." && '/' !in c
  }

  predicate IsAnchor(c: string) {
    c == "/" || c == "//"
  }

  predicate IsAbsolute(p: Path) {
    |p| > 0 && IsAnchor(p[0])
  }

  /** A path in the normal form that parsing produces. */
  predicate IsNormal(p: Path) {
    forall i :: 0 <= i < |p| ==> IsComponent(p[i]) || (i == 0 && IsAnchor(p[i]))
  }

  /** The anchor of a path string: `"//"` for exactly two leading slashes,
      `"/"` for one or three and more, nothing for a relative path. */
  function AnchorOf(s: string): (a: Path)
    ensures a == [] || (|a| == 1 && IsAnchor(a[0]))
  {
    if |s| >= 1 && s[0] == '/' then
      if |s| >= 2 && s[1] == '/' && (|s| == 2 || s[2] != '/') then ["//"] else ["/"]
    else []
  }

  /** The pieces between slashes that name something: empty pieces (from
      repeated or trailing slashes) and `"."` are dropped. */
  function Components(pieces: seq<string>): (cs: seq<string>)
    ensures |cs| <= |pieces|
    ensures forall c :: c in cs ==> c in pieces && c != "" && c != "."
  {
    if pieces == [] then []
    else if pieces[0] == "" || pieces[0] == "." then Components(pieces[1..])
    else [pieces[0]] + Components(pieces[1..])
  }

  /** `PurePosixPath(s).parts`: always in normal form, and absolute exactly
      when the string starts with a slash. */
  function Parse(s: string): (p: Path)
    ensures IsNormal(p)
    ensures IsAbsolute(p) <==> |s| > 0 && s[0] == '/'
  {
    PartsAreNormal(s);
    AnchorOf(s) + Components(Split(s, "/"))
  }

  /** A one-character separator that is not contained is not one of the characters. */
  lemma NotContainedChar(f: string, sep: string)
    requires |sep| == 1 && !Contains(f, sep)
    ensures sep[0] !in f
  {
    if k :| 0 <= k < |f| && f[k] == sep[0] {
      assert f[k..k + 1] == sep;
      FindIsFirst(f, sep, 0, k);
    }
  }

  /** The anchor followed by the components of the pieces is in normal
      form, and it starts with an anchor only when there is one. */
  lemma PartsAreNormal(s: string)
    ensures IsNormal(AnchorOf(s) + Components(Split(s, "/")))
    ensures IsAbsolute(AnchorOf(s) + Components(Split(s, "/"))) <==> AnchorOf(s) != []
  {
    var pieces := Split(s, "/");
    SplitFieldsAvoidSeparator(s, "/");
    forall f | f in pieces ensures '/' !in f {
      NotContainedChar(f, "/");
    }
    var a, cs := AnchorOf(s), Components(pieces);
    forall i | |a| <= i < |a| + |cs| ensures IsComponent((a + cs)[i]) {
      assert (a + cs)[i] == cs[i - |a|];
      assert cs[i - |a|] in cs;
    }
    if a == [] && cs != [] {
      assert cs[0] in cs && '/' in "/" && '/' in "//";
    }
  }

  /** Parsing the components of a relative path joined with `/` gives them back. */
  lemma ParseJoin(cs: seq<string>)
    requires |cs| >= 1 && forall c :: c in cs ==> IsComponent(c)
    ensures Parse(Join(cs, "/")) == cs
  {
    SplitJoinChar(cs, "/");
    ComponentsKeep(cs);
    var s := Join(cs, "/");
    assert cs[0] in cs;
    JoinStartsWithFirst(cs, "/");
    assert s[0] == cs[0][0];
    assert AnchorOf(s) == [];
  }

  lemma JoinStartsWithFirst(fields: seq<string>, sep: string)
    requires |fields| >= 1
    ensures fields[0] <= Join(fields, sep)
  {
  }

  lemma {:induction false} ComponentsKeep(cs: seq<string>)
    requires forall c :: c in cs ==> IsComponent(c)
    ensures Components(cs) == cs
  {
    if cs != [] {
      assert cs[0] in cs;
      assert forall c :: c in cs[1..] ==> c in cs;
      ComponentsKeep(cs[1..]);
      assert cs == [cs[0]] + cs[1..];
    }
  }

  /** `p.relative_to(root)`: the parts of `p` after those of `root`; a
      `ValueError` when `root` is not a prefix of `p`, and also when `root` is
      the empty path and `p` is absolute. */
  function RelativeTo(p: Path, root: Path): (r: Result<Path>)
    ensures r.Ok? ==> root + r.value == p
    ensures r.Err? ==> r.error == NotRelativeError(p, root)
    ensures r.Err? ==> !(root <= p) || (root == [] && IsAbsolute(p))
  {
    if root == [] then
      if IsAbsolute(p) then Err(NotRelativeError(p, root)) else Ok(p)
    else if root <= p then Ok(p[|root|..])
    else Err(NotRelativeError(p, root))
  }

  /** `relative_to` strips exactly the root it is given. */
  lemma RelativeToPrefix(root: Path, rest: Path)
    requires root != [] || !IsAbsolute(rest)
    ensures RelativeTo(root + rest, root) == Ok(rest)
  {
    assert root <= root + rest;
    assert (root + rest)[|root|..] == rest;
  }
}
