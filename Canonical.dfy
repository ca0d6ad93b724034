/**
 * Canonicalisation of the search root and of every skip entry: a leading `~`
 * component becomes the home directory, then the operating system resolves the path.
 * The home directory (`dirs::home_dir`) and the resolution (`fs::canonicalize`) are
 * inputs: `links` maps each path that resolves to its canonical form, and a path
 * missing from it does not exist.
 */
module Canonical {
  import opened Wrappers
  import opened Paths

  /** The home-directory shorthand, recognised only as a whole first component. */
  const HomeShorthand: Name := "~"

  /** The path with a leading `~` component replaced by the home directory, when one is known. */
  function ExpandHome(path: Path, home: Option<Path>): (r: Path)
    ensures StartsWith(path, [HomeShorthand]) && home.Some? ==>
      StartsWith(r, home.value) && r[|home.value|..] == path[1..]
    ensures !StartsWith(path, [HomeShorthand]) || home.None? ==> r == path
  {
    if StartsWith(path, [HomeShorthand]) && home.Some? then home.value + path[1..] else path
  }

  /** The result of `canonicalize`: the expanded path as the operating system resolves it. */
  function CanonicalPath(path: Path, home: Option<Path>, links: map<Path, Path>): Option<Path>
  {
    var expanded := ExpandHome(path, home);
    if expanded in links then Some(links[expanded]) else None
  }

  /** `canonicalize`: rebind the path to its home-expanded form, then resolve it. */
  method Canonicalize(path: Path, home: Option<Path>, links: map<Path, Path>) returns (r: Option<Path>)
    ensures r.Some? <==> ExpandHome(path, home) in links
    ensures r.Some? ==> r.value == links[ExpandHome(path, home)]
  {
    var p := path;
    if StartsWith(p, [HomeShorthand]) {
      if home.Some? {
        var withHome := home.value;
        withHome := withHome + p[1..];
        p := withHome;
      }
    }
    if p in links {
      r := Some(links[p]);
    } else {
      r := None;
    }
  }

  /** `skips[k]` is the first entry that does not resolve. */
  predicate FirstUnresolved(skips: seq<Path>, home: Option<Path>, links: map<Path, Path>, k: nat)
    requires k < |skips|
  {
    CanonicalPath(skips[k], home, links).None? &&
    forall i :: 0 <= i < k ==> CanonicalPath(skips[i], home, links).Some?
  }

  /**
   * Every skip entry canonicalised in order, or the first entry that does not resolve:
   * one unresolvable entry fails the whole run.
   */
  function ResolveAll(skips: seq<Path>, home: Option<Path>, links: map<Path, Path>): (r: Result<seq<Path>, Path>)
    ensures r.Ok? <==> forall i :: 0 <= i < |skips| ==> CanonicalPath(skips[i], home, links).Some?
    ensures r.Ok? ==> |r.value| == |skips|
    ensures r.Ok? ==>
      forall i :: 0 <= i < |skips| ==> Some(r.value[i]) == CanonicalPath(skips[i], home, links)
    ensures r.Err? ==>
      exists k :: 0 <= k < |skips| && r.error == skips[k] && FirstUnresolved(skips, home, links, k)
  {
    if skips == [] then Ok([])
    else match CanonicalPath(skips[0], home, links)
      case None =>
        assert FirstUnresolved(skips, home, links, 0);
        Err(skips[0])
      case Some(first) =>
        match ResolveAll(skips[1..], home, links)
        case Err(e) =>
          var k :| 0 <= k < |skips[1..]| && e == skips[1..][k] && FirstUnresolved(skips[1..], home, links, k);
          assert FirstUnresolved(skips, home, links, k + 1);
          Err(e)
        case Ok(rest) =>
          assert forall i :: 1 <= i < |skips| ==> skips[i] == skips[1..][i - 1];
          Ok([first] + rest)
  }

  /** The loop over the skip entries in `main`: canonicalise each in order, stopping at the first failure. */
  method CanonicalizeAll(skips: seq<Path>, home: Option<Path>, links: map<Path, Path>)
    returns (r: Result<seq<Path>, Path>)
    ensures r == ResolveAll(skips, home, links)
  {
    var resolved: seq<Path> := [];
    for k := 0 to |skips|
      invariant |resolved| == k
      invariant forall i :: 0 <= i < k ==> Some(resolved[i]) == CanonicalPath(skips[i], home, links)
    {
      var c := Canonicalize(skips[k], home, links);
      if c.None? {
        assert FirstUnresolved(skips, home, links, k);
        r := Err(skips[k]);
        ghost var spec := ResolveAll(skips, home, links);
        assert spec.Err?;
        return;
      }
      resolved := resolved + [c.value];
    }
    r := Ok(resolved);
    assert r.value == ResolveAll(skips, home, links).value;
  }

}
