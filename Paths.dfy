/**
 * Paths as sequences of components, the way Rust's `std::path::Path` compares them.
 * An absolute path starts with the root component "/"; every other component is a
 * plain file name.
 */
module Paths {

  type Name = string

  type Path = seq<Name>

  /** The root directory component of an absolute path. */
  const RootDir: Name := "/"

  /**
   * `Path::starts_with`: `base` is a prefix of `p` component by component. A path
   * starts with itself, and "/a/bc" does not start with "/a/b".
   */
  predicate StartsWith(p: Path, base: Path)
  {
    |base| <= |p| && p[..|base|] == base
  }

  /** The skip test of the walk's `filter_entry`: `p` lies in one of the skipped subtrees. */
  predicate IsSkipped(p: Path, skips: seq<Path>)
  {
    exists i :: 0 <= i < |skips| && StartsWith(p, skips[i])
  }

  /** A path lies inside its own subtree. */
  lemma StartsWithSelf(p: Path)
    ensures StartsWith(p, p)
  {
  }

  /** Being inside a subtree is transitive. */
  lemma StartsWithTrans(p: Path, q: Path, r: Path)
    requires StartsWith(p, q) && StartsWith(q, r)
    ensures StartsWith(p, r)
  {
    assert p[..|r|] == p[..|q|][..|r|];
  }

  /**
   * Skipping is closed under descent: a path below a skipped path is skipped. This is
   * why pruning a skipped directory before descent removes exactly the entries that a
   * plain filter would remove.
   */
  lemma SkippedDescendant(p: Path, ancestor: Path, skips: seq<Path>)
    requires IsSkipped(ancestor, skips) && StartsWith(p, ancestor)
    ensures IsSkipped(p, skips)
  {
    var i :| 0 <= i < |skips| && StartsWith(ancestor, skips[i]);
    StartsWithTrans(p, ancestor, skips[i]);
  }

  /** Components are compared whole: "/a/bc" does not start with "/a/b". */
  lemma ComponentWise()
    ensures !StartsWith([RootDir, "a", "bc"], [RootDir, "a", "b"])
    ensures StartsWith([RootDir, "a", "b", "c"], [RootDir, "a", "b"])
  {
    assert [RootDir, "a", "bc"][2] != [RootDir, "a", "b"][2];
  }

}
