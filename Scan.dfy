/**
 * The scan in `main`: a depth-limited pre-order walk from the canonical search root
 * (`WalkDir::new(root).max_depth(d)`), pruned before descent at every entry that lies in
 * a skipped subtree (`filter_entry`), followed by the project filter. Error entries
 * are dropped by the source (`filter_map(|entry| entry.ok())`); the only one the model
 * can produce is a search root that does not exist, which yields nothing.
 */
module Scan {
  import opened Wrappers
  import opened Paths
  import opened FileTree

  /** The marker file of a swim project. */
  const MarkerFile: Name := "swim.toml"

  /** The build directory swim writes, and the tool deletes. */
  const BuildDirectory: Name := "build"

  /** A walk entry: its path, its depth below the search root, and whether it is a directory. */
  datatype Entry = Entry(path: Path, depth: nat, isDir: bool)

  /**
   * The pre-order walk of the subtree `n` found at `path`, `depth` levels below the
   * search root. A skipped entry is pruned with everything below it; a directory at the
   * depth limit is not descended into.
   */
  function WalkNode(n: Node, path: Path, depth: nat, maxDepth: nat, skips: seq<Path>): seq<Entry>
  {
    if IsSkipped(path, skips) then []
    else
      [Entry(path, depth, n.Dir?)] +
      (if n.Dir? && depth < maxDepth then WalkChildren(n.children, path, depth + 1, maxDepth, skips) else [])
  }

  /** The walks of the entries of one directory, one after the other. */
  function WalkChildren(cs: seq<Node>, parent: Path, depth: nat, maxDepth: nat, skips: seq<Path>): seq<Entry>
  {
    if cs == [] then []
    else
      WalkNode(cs[0], parent + [cs[0].name], depth, maxDepth, skips) +
      WalkChildren(cs[1..], parent, depth, maxDepth, skips)
  }

  /** Every entry the walk yields, from the search root `root`; nothing if the root does not exist. */
  function Walk(fs: Node, root: Path, maxDepth: nat, skips: seq<Path>): seq<Entry>
  {
    match Lookup(fs, root)
    case None => []
    case Some(n) => WalkNode(n, root, 0, maxDepth, skips)
  }

  /**
   * The walk yields nothing when the search root does not exist or is skipped, and
   * otherwise yields the root itself first, before anything below it.
   */
  lemma WalkRootFirst(fs: Node, root: Path, maxDepth: nat, skips: seq<Path>)
    ensures var r := Walk(fs, root, maxDepth, skips);
      && (r == [] <==> !Exists(fs, root) || IsSkipped(root, skips))
      && (r != [] ==> r[0] == Entry(root, 0, IsDirAt(fs, root)))
  {
  }

  /**
   * Independent description of what the walk yields: every existing path at or below
   * an existing root, at most `maxDepth` levels down, that is not itself in a skipped
   * subtree.
   */
  predicate Visible(fs: Node, root: Path, maxDepth: nat, skips: seq<Path>, e: Entry)
  {
    && Exists(fs, root)
    && StartsWith(e.path, root)
    && e.depth == |e.path| - |root| <= maxDepth
    && Lookup(fs, e.path).Some?
    && e.isDir == Lookup(fs, e.path).value.Dir?
    && !IsSkipped(e.path, skips)
  }

  /** The project test of the walk's last `filter`: a directory holding both `swim.toml` and `build`. */
  predicate IsProject(fs: Node, e: Entry)
  {
    IsDirAt(fs, e.path) && Exists(fs, e.path + [MarkerFile]) && Exists(fs, e.path + [BuildDirectory])
  }

  /** The entries that pass the project test, in walk order. */
  function Projects(fs: Node, entries: seq<Entry>): (r: seq<Entry>)
    ensures forall e :: e in r <==> e in entries && IsProject(fs, e)
    ensures |r| <= |entries|
  {
    if entries == [] then []
    else if IsProject(fs, entries[0]) then [entries[0]] + Projects(fs, entries[1..])
    else Projects(fs, entries[1..])
  }

  /** The projects found by the scan. */
  function FindProjects(fs: Node, root: Path, maxDepth: nat, skips: seq<Path>): seq<Entry>
  {
    Projects(fs, Walk(fs, root, maxDepth, skips))
  }

  // ---------------------------------------------------------------------------
  // The walk yields exactly the visible entries

  lemma {:induction false} WalkChildrenMember(cs: seq<Node>, parent: Path, depth: nat, maxDepth: nat, skips: seq<Path>, e: Entry)
    requires e in WalkChildren(cs, parent, depth, maxDepth, skips)
    ensures exists i :: 0 <= i < |cs| && e in WalkNode(cs[i], parent + [cs[i].name], depth, maxDepth, skips)
  {
    if e !in WalkNode(cs[0], parent + [cs[0].name], depth, maxDepth, skips) {
      WalkChildrenMember(cs[1..], parent, depth, maxDepth, skips, e);
      var i :| 0 <= i < |cs[1..]| && e in WalkNode(cs[1..][i], parent + [cs[1..][i].name], depth, maxDepth, skips);
      assert cs[1..][i] == cs[i + 1];
    }
  }

  lemma {:induction false} WalkChildrenContains(cs: seq<Node>, i: nat, parent: Path, depth: nat, maxDepth: nat, skips: seq<Path>, e: Entry)
    requires i < |cs| && e in WalkNode(cs[i], parent + [cs[i].name], depth, maxDepth, skips)
    ensures e in WalkChildren(cs, parent, depth, maxDepth, skips)
  {
    if i > 0 {
      assert cs[1..][i - 1] == cs[i];
      WalkChildrenContains(cs[1..], i - 1, parent, depth, maxDepth, skips, e);
    }
  }

  /** Following `a` and then `b` is following `a + b`. */
  lemma {:induction false} FindConcat(n: Node, a: Path, b: Path)
    ensures Find(n, a + b) == match Find(n, a) case None => None case Some(m) => Find(m, b)
  {
    if a != [] {
      assert (a + b)[0] == a[0];
      assert (a + b)[1..] == a[1..] + b;
      match n
      case File(_, _) =>
      case Dir(_, cs) =>
        match ChildIndex(cs, a[0])
        case None =>
        case Some(i) => FindConcat(cs[i], a[1..], b);
    } else {
      assert a + b == b;
    }
  }

  /** Every entry of the walk of `n` lies below `path`, at its distance from `path` and within the depth limit. */
  lemma {:induction false} WalkNodeBelow(n: Node, path: Path, depth: nat, maxDepth: nat, skips: seq<Path>, e: Entry)
    requires depth <= maxDepth
    requires e in WalkNode(n, path, depth, maxDepth, skips)
    ensures StartsWith(e.path, path) && e.depth == depth + (|e.path| - |path|) <= maxDepth
  {
    if e != Entry(path, depth, n.Dir?) {
      var cs := n.children;
      WalkChildrenMember(cs, path, depth + 1, maxDepth, skips, e);
      var i :| 0 <= i < |cs| && e in WalkNode(cs[i], path + [cs[i].name], depth + 1, maxDepth, skips);
      var child := path + [cs[i].name];
      WalkNodeBelow(cs[i], child, depth + 1, maxDepth, skips, e);
      StartsWithTrans(e.path, child, path);
    }
  }

  /** Below `path`, the relative path of a descendant of a child starts with the child's name. */
  lemma RelativeStep(p: Path, path: Path, x: Name)
    requires StartsWith(p, path + [x])
    ensures |path| < |p| && p[|path|] == x && p[|path|..] == [x] + p[|path| + 1..]
  {
    assert p[..|path| + 1] == path + [x];
    assert p[|path|] == x;
  }

  /** Every entry of the walk of a well-formed `n` exists below `n` with the kind it is reported with. */
  lemma {:induction false} WalkNodeSound(n: Node, path: Path, depth: nat, maxDepth: nat, skips: seq<Path>, e: Entry)
    requires WellFormed(n) && depth <= maxDepth
    requires e in WalkNode(n, path, depth, maxDepth, skips)
    ensures StartsWith(e.path, path) && e.depth == depth + (|e.path| - |path|) <= maxDepth
    ensures Find(n, e.path[|path|..]).Some? && e.isDir == Find(n, e.path[|path|..]).value.Dir?
  {
    WalkNodeBelow(n, path, depth, maxDepth, skips, e);
    if e != Entry(path, depth, n.Dir?) {
      var cs := n.children;
      WalkChildrenMember(cs, path, depth + 1, maxDepth, skips, e);
      var i :| 0 <= i < |cs| && e in WalkNode(cs[i], path + [cs[i].name], depth + 1, maxDepth, skips);
      var child := path + [cs[i].name];
      WalkNodeSound(cs[i], child, depth + 1, maxDepth, skips, e);
      RelativeStep(e.path, path, cs[i].name);
      assert |child| == |path| + 1;
      UniqueChildIndex(cs, i);
      FindStep(n.name, cs, e.path[|path|..]);
    } else {
      assert e.path[|path|..] == [];
    }
  }

  /** Every existing path below `path` within the depth limit and outside the skipped subtrees is walked. */
  lemma {:induction false} WalkNodeComplete(n: Node, path: Path, depth: nat, maxDepth: nat, skips: seq<Path>, rel: Path)
    requires Find(n, rel).Some? && depth + |rel| <= maxDepth
    requires !IsSkipped(path + rel, skips)
    ensures Entry(path + rel, depth + |rel|, Find(n, rel).value.Dir?) in WalkNode(n, path, depth, maxDepth, skips)
  {
    if IsSkipped(path, skips) {
      SkippedDescendant(path + rel, path, skips);
    }
    if rel == [] {
      assert path + rel == path;
    } else {
      var cs := n.children;
      var i := ChildIndex(cs, rel[0]).value;
      var child := path + [rel[0]];
      var e := Entry(path + rel, depth + |rel|, Find(n, rel).value.Dir?);
      assert child + rel[1..] == path + rel;
      assert Find(n, rel) == Find(cs[i], rel[1..]);
      WalkNodeComplete(cs[i], child, depth + 1, maxDepth, skips, rel[1..]);
      assert e in WalkNode(cs[i], path + [cs[i].name], depth + 1, maxDepth, skips);
      WalkChildrenContains(cs, i, path, depth + 1, maxDepth, skips, e);
    }
  }

  /** Where the walk starts, the absolute lookup agrees with the lookup below the root node. */
  lemma LookupBelow(fs: Node, root: Path, rel: Path)
    requires Lookup(fs, root).Some?
    ensures Lookup(fs, root + rel) == Find(Lookup(fs, root).value, rel)
  {
    assert (root + rel)[0] == root[0];
    assert (root + rel)[1..] == root[1..] + rel;
    FindConcat(fs, root[1..], rel);
  }

  /** Everything the walk yields is visible. */
  lemma WalkSound(fs: Node, root: Path, maxDepth: nat, skips: seq<Path>, e: Entry)
    requires WellFormed(fs) && e in Walk(fs, root, maxDepth, skips)
    ensures Visible(fs, root, maxDepth, skips, e)
  {
    var n := Lookup(fs, root).value;
    FindWellFormed(fs, root[1..]);
    WalkNodeSound(n, root, 0, maxDepth, skips, e);
    NotSkippedInWalk(n, root, 0, maxDepth, skips, e);
    var rel := e.path[|root|..];
    assert root + rel == e.path;
    LookupBelow(fs, root, rel);
  }

  /** Everything visible is yielded by the walk. */
  lemma WalkComplete(fs: Node, root: Path, maxDepth: nat, skips: seq<Path>, e: Entry)
    requires Visible(fs, root, maxDepth, skips, e)
    ensures e in Walk(fs, root, maxDepth, skips)
  {
    var rel := e.path[|root|..];
    assert root + rel == e.path;
    LookupBelow(fs, root, rel);
    WalkNodeComplete(Lookup(fs, root).value, root, 0, maxDepth, skips, rel);
  }

  /**
   * The walk yields an entry if and only if it is visible: pruning skipped directories
   * before descent loses nothing that a plain filter on the skip list would keep.
   */
  lemma WalkExact(fs: Node, root: Path, maxDepth: nat, skips: seq<Path>, e: Entry)
    requires WellFormed(fs)
    ensures e in Walk(fs, root, maxDepth, skips) <==> Visible(fs, root, maxDepth, skips, e)
  {
    if e in Walk(fs, root, maxDepth, skips) {
      WalkSound(fs, root, maxDepth, skips, e);
    }
    if Visible(fs, root, maxDepth, skips, e) {
      WalkComplete(fs, root, maxDepth, skips, e);
    }
  }

  /** No entry inside a pruned subtree is ever yielded, however deep. */
  lemma PrunedSubtreeNotWalked(fs: Node, root: Path, maxDepth: nat, skips: seq<Path>, pruned: Path, e: Entry)
    requires WellFormed(fs) && IsSkipped(pruned, skips) && StartsWith(e.path, pruned)
    ensures e !in Walk(fs, root, maxDepth, skips)
  {
    SkippedDescendant(e.path, pruned, skips);
    WalkExact(fs, root, maxDepth, skips, e);
  }

  /** A skip entry equal to (or above) the search root leaves nothing to walk. */
  lemma SkippedRootWalksNothing(fs: Node, root: Path, maxDepth: nat, skips: seq<Path>)
    requires IsSkipped(root, skips)
    ensures Walk(fs, root, maxDepth, skips) == []
  {
  }

  /** With depth limit 0 the walk yields at most the search root itself. */
  lemma DepthZeroWalk(fs: Node, root: Path, skips: seq<Path>)
    ensures Walk(fs, root, 0, skips) ==
      if Exists(fs, root) && !IsSkipped(root, skips) then [Entry(root, 0, IsDirAt(fs, root))] else []
  {
  }

  // ---------------------------------------------------------------------------
  // Project detection

  /**
   * An entry is a project exactly when it is a directory with entries named `swim.toml`
   * and `build`; either may be a file or a directory.
   */
  lemma IsProjectIff(fs: Node, e: Entry)
    ensures IsProject(fs, e) <==>
      && Lookup(fs, e.path).Some?
      && Lookup(fs, e.path).value.Dir?
      && ChildNamed(Lookup(fs, e.path).value.children, MarkerFile).Some?
      && ChildNamed(Lookup(fs, e.path).value.children, BuildDirectory).Some?
  {
    if |e.path| > 0 && e.path[0] == fs.name {
      assert (e.path + [MarkerFile])[1..] == e.path[1..] + [MarkerFile];
      assert (e.path + [BuildDirectory])[1..] == e.path[1..] + [BuildDirectory];
      FindExtend(fs, e.path[1..], MarkerFile);
      FindExtend(fs, e.path[1..], BuildDirectory);
    }
  }

  /** The scan reports exactly the visible directories that are projects, wherever they are below the root. */
  lemma ScanExact(fs: Node, root: Path, maxDepth: nat, skips: seq<Path>, e: Entry)
    requires WellFormed(fs)
    ensures e in FindProjects(fs, root, maxDepth, skips) <==>
            Visible(fs, root, maxDepth, skips, e) && IsProject(fs, e)
  {
    WalkExact(fs, root, maxDepth, skips, e);
  }

  /** A reported project's `build` exists and `get_size` can measure it. */
  lemma ScanBuildExists(fs: Node, root: Path, maxDepth: nat, skips: seq<Path>, e: Entry)
    requires e in FindProjects(fs, root, maxDepth, skips)
    ensures Exists(fs, e.path + [BuildDirectory]) && !IsSkipped(e.path, skips)
  {
    if IsSkipped(e.path, skips) {
      var n := Lookup(fs, root).value;
      assert e in WalkNode(n, root, 0, maxDepth, skips);
      NotSkippedInWalk(n, root, 0, maxDepth, skips, e);
    }
  }

  lemma {:induction false} NotSkippedInWalk(n: Node, path: Path, depth: nat, maxDepth: nat, skips: seq<Path>, e: Entry)
    requires e in WalkNode(n, path, depth, maxDepth, skips)
    ensures !IsSkipped(e.path, skips)
  {
    if e != Entry(path, depth, n.Dir?) {
      WalkChildrenMember(n.children, path, depth + 1, maxDepth, skips, e);
      var i :| 0 <= i < |n.children| && e in WalkNode(n.children[i], path + [n.children[i].name], depth + 1, maxDepth, skips);
      NotSkippedInWalk(n.children[i], path + [n.children[i].name], depth + 1, maxDepth, skips, e);
    }
  }

  /** The project filter on one entry keeps it exactly when it is a project. */
  lemma ProjectsSingleton(fs: Node, e: Entry)
    ensures Projects(fs, [e]) == if IsProject(fs, e) then [e] else []
  {
    assert [e][1..] == [];
  }

  /**
   * Filtering a walk piece by piece is filtering it whole, so the filter keeps the walk's
   * order: with the singleton case this determines `Projects` completely.
   */
  lemma {:induction false} ProjectsConcat(fs: Node, a: seq<Entry>, b: seq<Entry>)
    ensures Projects(fs, a + b) == Projects(fs, a) + Projects(fs, b)
  {
    if a == [] {
      assert a + b == b;
    } else {
      assert (a + b)[0] == a[0];
      assert (a + b)[1..] == a[1..] + b;
      ProjectsConcat(fs, a[1..], b);
    }
  }

  // ---------------------------------------------------------------------------
  // No path is walked twice

  /** No two entries of `es` name the same path. */
  predicate DistinctPaths(es: seq<Entry>)
  {
    forall i, j :: 0 <= i < j < |es| ==> es[i].path != es[j].path
  }

  lemma DistinctConcat(a: seq<Entry>, b: seq<Entry>)
    requires DistinctPaths(a) && DistinctPaths(b)
    requires forall x, y :: x in a && y in b ==> x.path != y.path
    ensures DistinctPaths(a + b)
  {
    forall i, j | 0 <= i < j < |a + b|
      ensures (a + b)[i].path != (a + b)[j].path
    {
      if j < |a| {
      } else if i < |a| {
        assert (a + b)[i] in a && (a + b)[j] == b[j - |a|] && b[j - |a|] in b;
      } else {
        assert (a + b)[i] == b[i - |a|] && (a + b)[j] == b[j - |a|];
      }
    }
  }

  /** Every entry of the walk of a directory's entries lies inside one of them. */
  lemma WalkChildrenUnder(cs: seq<Node>, parent: Path, depth: nat, maxDepth: nat, skips: seq<Path>, e: Entry)
    requires depth <= maxDepth && e in WalkChildren(cs, parent, depth, maxDepth, skips)
    ensures |parent| < |e.path| && exists j :: 0 <= j < |cs| && e.path[|parent|] == cs[j].name
  {
    WalkChildrenMember(cs, parent, depth, maxDepth, skips, e);
    var j :| 0 <= j < |cs| && e in WalkNode(cs[j], parent + [cs[j].name], depth, maxDepth, skips);
    WalkNodeBelow(cs[j], parent + [cs[j].name], depth, maxDepth, skips, e);
    RelativeStep(e.path, parent, cs[j].name);
  }

  /** On a well-formed tree the walk of a node never yields one path twice. */
  lemma {:induction false} WalkNodeDistinct(n: Node, path: Path, depth: nat, maxDepth: nat, skips: seq<Path>)
    requires WellFormed(n) && depth <= maxDepth
    ensures DistinctPaths(WalkNode(n, path, depth, maxDepth, skips))
  {
    if !IsSkipped(path, skips) && n.Dir? && depth < maxDepth {
      var head := [Entry(path, depth, true)];
      var rest := WalkChildren(n.children, path, depth + 1, maxDepth, skips);
      WalkChildrenDistinct(n.children, path, depth + 1, maxDepth, skips);
      forall y | y in rest
        ensures y.path != path
      {
        WalkChildrenUnder(n.children, path, depth + 1, maxDepth, skips, y);
      }
      DistinctConcat(head, rest);
    }
  }

  /** The walks of uniquely named, well-formed entries never yield one path twice. */
  lemma {:induction false} WalkChildrenDistinct(cs: seq<Node>, parent: Path, depth: nat, maxDepth: nat, skips: seq<Path>)
    requires UniqueNames(cs) && (forall i :: 0 <= i < |cs| ==> WellFormed(cs[i])) && depth <= maxDepth
    ensures DistinctPaths(WalkChildren(cs, parent, depth, maxDepth, skips))
  {
    if cs != [] {
      var child := parent + [cs[0].name];
      var first := WalkNode(cs[0], child, depth, maxDepth, skips);
      var others := WalkChildren(cs[1..], parent, depth, maxDepth, skips);
      WalkNodeDistinct(cs[0], child, depth, maxDepth, skips);
      assert forall i :: 0 <= i < |cs[1..]| ==> cs[1..][i] == cs[i + 1];
      WalkChildrenDistinct(cs[1..], parent, depth, maxDepth, skips);
      forall x, y | x in first && y in others
        ensures x.path != y.path
      {
        WalkNodeBelow(cs[0], child, depth, maxDepth, skips, x);
        RelativeStep(x.path, parent, cs[0].name);
        WalkChildrenUnder(cs[1..], parent, depth, maxDepth, skips, y);
        var j :| 0 <= j < |cs[1..]| && y.path[|parent|] == cs[1..][j].name;
        assert cs[1..][j] == cs[j + 1];
      }
      DistinctConcat(first, others);
    }
  }

  /** On a well-formed file system the walk yields every path at most once. */
  lemma WalkDistinct(fs: Node, root: Path, maxDepth: nat, skips: seq<Path>)
    requires WellFormed(fs)
    ensures DistinctPaths(Walk(fs, root, maxDepth, skips))
  {
    if Lookup(fs, root).Some? {
      FindWellFormed(fs, root[1..]);
      WalkNodeDistinct(Lookup(fs, root).value, root, 0, maxDepth, skips);
    }
  }

  /** Filtering keeps distinct paths distinct. */
  lemma {:induction false} ProjectsDistinct(fs: Node, entries: seq<Entry>)
    requires DistinctPaths(entries)
    ensures DistinctPaths(Projects(fs, entries))
  {
    if entries != [] {
      var rest := entries[1..];
      assert DistinctPaths(rest) by {
        assert forall i :: 0 <= i < |rest| ==> rest[i] == entries[i + 1];
      }
      ProjectsDistinct(fs, rest);
      if IsProject(fs, entries[0]) {
        forall y | y in Projects(fs, rest)
          ensures entries[0].path != y.path
        {
          var j :| 0 <= j < |rest| && rest[j] == y;
          assert y == entries[j + 1];
        }
        DistinctConcat([entries[0]], Projects(fs, rest));
      }
    }
  }

  /** The scan never reports one directory twice, so no project is asked about twice. */
  lemma FindProjectsDistinct(fs: Node, root: Path, maxDepth: nat, skips: seq<Path>)
    requires WellFormed(fs)
    ensures DistinctPaths(FindProjects(fs, root, maxDepth, skips))
  {
    WalkDistinct(fs, root, maxDepth, skips);
    ProjectsDistinct(fs, Walk(fs, root, maxDepth, skips));
  }

  // ---------------------------------------------------------------------------
  // The progress label shown while scanning

  /** A component as shown: the root "/" as it is, any other component followed by "/". */
  function Decorated(c: Name): (r: string)
    ensures |r| > 0 && (r == c || r == c + "/")
  {
    if |c| > 0 && c[0] == '/' then c else c + "/"
  }

  /** The pieces written one after the other, as `collect::<String>()` does. */
  function Join(pieces: seq<string>): string
  {
    if pieces == [] then "" else pieces[0] + Join(pieces[1..])
  }

  /** Joining two runs of pieces is joining each and concatenating. */
  lemma {:induction false} JoinConcat(a: seq<string>, b: seq<string>)
    ensures Join(a + b) == Join(a) + Join(b)
  {
    if a == [] {
      assert a + b == b;
    } else {
      assert (a + b)[0] == a[0];
      assert (a + b)[1..] == a[1..] + b;
      JoinConcat(a[1..], b);
    }
  }

  /**
   * How many leading components the label shows: the root's components and two more,
   * but never more than the entry has, and for a file never its own name.
   */
  function ShownCount(path: Path, isDir: bool, rootLen: nat): (k: nat)
    requires isDir || |path| > 0
    ensures k <= (if isDir then |path| else |path| - 1)
    ensures k <= rootLen + 2
    ensures k == rootLen + 2 || k == (if isDir then |path| else |path| - 1)
  {
    var available := if isDir then |path| else |path| - 1;
    if rootLen + 2 < available then rootLen + 2 else available
  }

  /** The decorated components the label is made of. */
  function LabelPieces(path: Path, isDir: bool, rootLen: nat): (pieces: seq<string>)
    requires isDir || |path| > 0
    ensures |pieces| == ShownCount(path, isDir, rootLen)
    ensures forall i :: 0 <= i < |pieces| ==> pieces[i] == Decorated(path[i])
  {
    var k := ShownCount(path, isDir, rootLen);
    seq(k, i requires 0 <= i < k => Decorated(path[i]))
  }

  /** The directory shown in the spinner message while the walk is at `path`. */
  function ProgressLabel(path: Path, isDir: bool, rootLen: nat): string
    requires isDir || |path| > 0
  {
    Join(LabelPieces(path, isDir, rootLen))
  }

  /**
   * Descending into a directory within two levels of the root extends the label by the
   * directory's decorated name.
   */
  lemma LabelOfChildDir(p: Path, x: Name, rootLen: nat)
    requires |p| < rootLen + 2
    ensures ProgressLabel(p + [x], true, rootLen) == ProgressLabel(p, true, rootLen) + Decorated(x)
  {
    var lp := LabelPieces(p, true, rootLen);
    var lc := LabelPieces(p + [x], true, rootLen);
    assert lc == lp + [Decorated(x)];
    JoinConcat(lp, [Decorated(x)]);
    assert [Decorated(x)][1..] == [];
  }

  /** A file shows the label of the directory that holds it. */
  lemma LabelOfFile(p: Path, x: Name, rootLen: nat)
    ensures ProgressLabel(p + [x], false, rootLen) == ProgressLabel(p, true, rootLen)
  {
    assert LabelPieces(p + [x], false, rootLen) == LabelPieces(p, true, rootLen);
  }

  /**
   * For an entry `depth` levels below the root, the label shows the root and at most
   * two levels below it; a file's own name is never shown.
   */
  lemma ShownCountOfEntry(path: Path, isDir: bool, rootLen: nat, depth: nat)
    requires |path| == rootLen + depth && (isDir || |path| > 0)
    ensures isDir ==> ShownCount(path, isDir, rootLen) == rootLen + (if depth < 2 then depth else 2)
    ensures !isDir && depth >= 1 ==>
      ShownCount(path, isDir, rootLen) == rootLen + (if depth - 1 < 2 then depth - 1 else 2)
  {
  }

  /**
   * Everything inside one directory two levels below the root shows the same label, so
   * the spinner names the part of the tree being scanned rather than each entry.
   */
  lemma LabelStableBelowGrandchild(p: Path, pDir: bool, q: Path, qDir: bool, rootLen: nat)
    requires |p| > rootLen + 2 && |q| > rootLen + 2
    requires p[..rootLen + 2] == q[..rootLen + 2]
    ensures ProgressLabel(p, pDir, rootLen) == ProgressLabel(q, qDir, rootLen)
  {
    var lp := LabelPieces(p, pDir, rootLen);
    var lq := LabelPieces(q, qDir, rootLen);
    assert forall i :: 0 <= i < rootLen + 2 ==> p[i] == p[..rootLen + 2][i] == q[i];
    assert lp == lq;
  }

}
