/**
 * The file system the tool scans and cleans, as a tree of named nodes. The tree's root
 * is the directory "/" and an absolute path names the nodes on the way down from it.
 * Sizes are the byte lengths of regular files; symbolic links are not modelled.
 */
module FileTree {
  import opened Wrappers
  import opened Paths

  datatype Node = File(name: Name, size: nat) | Dir(name: Name, children: seq<Node>)

  /** What a path leads to, without its contents: a file of some size, or a directory. */
  datatype Kind = FileKind(size: nat) | DirKind

  function KindOf(n: Node): Kind
  {
    match n
    case File(_, size) => FileKind(size)
    case Dir(_, _) => DirKind
  }

  function KindOfOpt(n: Option<Node>): Option<Kind>
  {
    match n
    case None => None
    case Some(m) => Some(KindOf(m))
  }

  /** No two entries of one directory share a name. */
  predicate UniqueNames(cs: seq<Node>)
  {
    forall i, j :: 0 <= i < j < |cs| ==> cs[i].name != cs[j].name
  }

  /** Every directory in the tree has uniquely named entries, as on a real file system. */
  predicate WellFormed(n: Node)
  {
    match n
    case File(_, _) => true
    case Dir(_, cs) => UniqueNames(cs) && forall i :: 0 <= i < |cs| ==> WellFormed(cs[i])
  }

  /** The position of the entry called `name` in a directory listing, if there is one. */
  function ChildIndex(cs: seq<Node>, name: Name): (r: Option<nat>)
    ensures r.Some? ==> r.value < |cs| && cs[r.value].name == name
    ensures r.Some? ==> forall j :: 0 <= j < r.value ==> cs[j].name != name
    ensures r.None? ==> forall j :: 0 <= j < |cs| ==> cs[j].name != name
  {
    if cs == [] then None
    else if cs[0].name == name then Some(0)
    else match ChildIndex(cs[1..], name)
      case None => None
      case Some(k) => Some(k + 1)
  }

  /** The node reached from `n` by following the names in `rel`. */
  function Find(n: Node, rel: Path): Option<Node>
  {
    if rel == [] then Some(n)
    else match n
      case File(_, _) => None
      case Dir(_, cs) =>
        match ChildIndex(cs, rel[0])
        case None => None
        case Some(i) => Find(cs[i], rel[1..])
  }

  /** The node at absolute path `p` of the file system `fs`. */
  function Lookup(fs: Node, p: Path): Option<Node>
  {
    if |p| > 0 && p[0] == fs.name then Find(fs, p[1..]) else None
  }

  /** `Path::exists`. */
  predicate Exists(fs: Node, p: Path)
  {
    Lookup(fs, p).Some?
  }

  /** `Path::is_dir`. */
  predicate IsDirAt(fs: Node, p: Path)
  {
    Lookup(fs, p).Some? && Lookup(fs, p).value.Dir?
  }

  function KindAt(fs: Node, p: Path): Option<Kind>
  {
    KindOfOpt(Lookup(fs, p))
  }

  /** Total byte length of the regular files in a subtree; a file's own length for a file. */
  function Size(n: Node): nat
  {
    match n
    case File(_, size) => size
    case Dir(_, cs) => SizeOf(cs)
  }

  function SizeOf(cs: seq<Node>): nat
  {
    if cs == [] then 0 else Size(cs[0]) + SizeOf(cs[1..])
  }

  /** `n` without the subtree at the non-empty relative path `rel` (unchanged if there is none). */
  function RemoveAt(n: Node, rel: Path): (r: Node)
    requires |rel| > 0
    ensures r.name == n.name && r.Dir? == n.Dir?
  {
    match n
    case File(_, _) => n
    case Dir(name, cs) =>
      match ChildIndex(cs, rel[0])
      case None => n
      case Some(i) =>
        if |rel| == 1 then Dir(name, cs[..i] + cs[i + 1..])
        else Dir(name, cs[..i] + [RemoveAt(cs[i], rel[1..])] + cs[i + 1..])
  }

  /**
   * `fs::remove_dir_all(p)`: succeeds only on an existing directory (a regular file at
   * `p` is an error), and the root directory itself is never a target here.
   */
  function RemoveTree(fs: Node, p: Path): (r: Option<Node>)
    ensures r.Some? <==> |p| >= 2 && IsDirAt(fs, p)
    ensures r.Some? ==> r.value.name == fs.name
  {
    if |p| >= 2 && IsDirAt(fs, p) then Some(RemoveAt(fs, p[1..])) else None
  }

  /** The file system as the cleanup loop sees it: one mutable tree. */
  class FileSystem {
    var root: Node

    constructor (root: Node)
      ensures this.root == root
    {
      this.root := root;
    }

    /** Deletes the directory at `p` with everything below it, or fails and changes nothing. */
    method RemoveDirAll(p: Path) returns (ok: bool)
      modifies this
      ensures ok <==> |p| >= 2 && IsDirAt(old(root), p)
      ensures root == if ok then RemoveTree(old(root), p).value else old(root)
    {
      var r := RemoveTree(root, p);
      ok := r.Some?;
      if ok {
        root := r.value;
      }
    }
  }

  // ---------------------------------------------------------------------------
  // Lemmas

  lemma UniqueChildIndex(cs: seq<Node>, j: nat)
    requires UniqueNames(cs) && j < |cs|
    ensures ChildIndex(cs, cs[j].name) == Some(j)
  {
  }

  /** Following one more name is looking it up in the directory reached so far. */
  lemma {:induction false} FindExtend(n: Node, rel: Path, x: Name)
    ensures Find(n, rel + [x]) ==
      match Find(n, rel)
      case Some(Dir(_, cs)) => ChildNamed(cs, x)
      case _ => None
  {
    if rel == [] {
      assert [x][1..] == [];
    } else {
      assert (rel + [x])[0] == rel[0];
      assert (rel + [x])[1..] == rel[1..] + [x];
      match n
      case File(_, _) =>
      case Dir(_, cs) =>
        match ChildIndex(cs, rel[0])
        case None =>
        case Some(i) => FindExtend(cs[i], rel[1..], x);
    }
  }

  /** Every node of a well-formed tree is well formed. */
  lemma {:induction false} FindWellFormed(n: Node, rel: Path)
    requires WellFormed(n) && Find(n, rel).Some?
    ensures WellFormed(Find(n, rel).value)
  {
    if rel != [] {
      var i := ChildIndex(n.children, rel[0]).value;
      FindWellFormed(n.children[i], rel[1..]);
    }
  }

  /** Dropping one entry keeps the names unique and every remaining entry well-formed. */
  lemma DropWellFormed(name: Name, cs: seq<Node>, i: nat)
    requires WellFormed(Dir(name, cs)) && i < |cs|
    ensures WellFormed(Dir(name, cs[..i] + cs[i + 1..]))
  {
    var cs' := cs[..i] + cs[i + 1..];
    assert forall k :: 0 <= k < |cs'| ==> cs'[k] == cs[if k < i then k else k + 1];
  }

  /** Replacing one entry by a well-formed one of the same name keeps the directory well-formed. */
  lemma ReplaceWellFormed(name: Name, cs: seq<Node>, i: nat, c: Node)
    requires WellFormed(Dir(name, cs)) && i < |cs| && WellFormed(c) && c.name == cs[i].name
    ensures WellFormed(Dir(name, cs[..i] + [c] + cs[i + 1..]))
  {
    var cs' := cs[..i] + [c] + cs[i + 1..];
    assert forall k :: 0 <= k < |cs'| && k != i ==> cs'[k] == cs[k];
  }

  lemma {:induction false} RemoveAtWellFormed(n: Node, rel: Path)
    requires WellFormed(n) && |rel| > 0
    ensures WellFormed(RemoveAt(n, rel))
  {
    match n
    case File(_, _) =>
    case Dir(name, cs) =>
      match ChildIndex(cs, rel[0])
      case None =>
      case Some(i) =>
        if |rel| == 1 {
          DropWellFormed(name, cs, i);
        } else {
          RemoveAtWellFormed(cs[i], rel[1..]);
          ReplaceWellFormed(name, cs, i, RemoveAt(cs[i], rel[1..]));
        }
  }

  /** The entry called `x` in a directory listing. */
  function ChildNamed(cs: seq<Node>, x: Name): Option<Node>
  {
    match ChildIndex(cs, x)
    case None => None
    case Some(i) => Some(cs[i])
  }

  /** One step of `Find` below a directory. */
  lemma FindStep(name: Name, cs: seq<Node>, q: Path)
    requires q != []
    ensures Find(Dir(name, cs), q) ==
      match ChildNamed(cs, q[0]) case None => None case Some(c) => Find(c, q[1..])
  {
  }

  /** Dropping the entry at position `i` hides its name and nothing else. */
  lemma ChildNamedAfterDrop(cs: seq<Node>, i: nat, x: Name)
    requires UniqueNames(cs) && i < |cs|
    ensures ChildNamed(cs[..i] + cs[i + 1..], x) ==
            if x == cs[i].name then None else ChildNamed(cs, x)
  {
    var cs' := cs[..i] + cs[i + 1..];
    assert forall k :: 0 <= k < |cs'| ==> cs'[k] == cs[if k < i then k else k + 1];
    if x != cs[i].name {
      match ChildIndex(cs, x)
      case None =>
      case Some(j) =>
        var j' := if j < i then j else j - 1;
        assert cs'[j'] == cs[j];
        UniqueChildIndex(cs', j');
    }
  }

  /** Replacing the entry at position `i` by one of the same name changes only that entry. */
  lemma ChildNamedAfterReplace(cs: seq<Node>, i: nat, c: Node, x: Name)
    requires UniqueNames(cs) && i < |cs| && c.name == cs[i].name
    ensures ChildNamed(cs[..i] + [c] + cs[i + 1..], x) ==
            if x == cs[i].name then Some(c) else ChildNamed(cs, x)
  {
    var cs' := cs[..i] + [c] + cs[i + 1..];
    assert forall k :: 0 <= k < |cs'| && k != i ==> cs'[k] == cs[k];
    assert cs'[i] == c;
    assert UniqueNames(cs');
    if x == cs[i].name {
      UniqueChildIndex(cs', i);
    } else {
      match ChildIndex(cs, x)
      case None =>
      case Some(j) => UniqueChildIndex(cs', j);
    }
  }

  lemma StartsWithStep(q: Path, rel: Path)
    requires q != [] && rel != []
    ensures StartsWith(q, rel) <==> q[0] == rel[0] && StartsWith(q[1..], rel[1..])
  {
    if |rel| <= |q| {
      assert q[..|rel|] == [q[0]] + q[1..][..|rel| - 1];
      assert rel == [rel[0]] + rel[1..];
    }
  }

  /**
   * Removing the subtree at `rel` makes exactly the paths inside it disappear; every
   * other path keeps its kind and, for a file, its size.
   */
  lemma {:induction false} RemoveAtKinds(n: Node, rel: Path, q: Path)
    requires WellFormed(n) && |rel| > 0
    ensures KindOfOpt(Find(RemoveAt(n, rel), q)) ==
            if StartsWith(q, rel) then None else KindOfOpt(Find(n, q))
  {
    if q == [] || n.File? {
      return;
    }
    var cs := n.children;
    StartsWithStep(q, rel);
    FindStep(n.name, cs, q);
    match ChildIndex(cs, rel[0])
    case None =>
    case Some(i) =>
      if |rel| == 1 {
        ChildNamedAfterDrop(cs, i, q[0]);
        FindStep(n.name, cs[..i] + cs[i + 1..], q);
      } else {
        var c := RemoveAt(cs[i], rel[1..]);
        ChildNamedAfterReplace(cs, i, c, q[0]);
        FindStep(n.name, cs[..i] + [c] + cs[i + 1..], q);
        if q[0] == rel[0] {
          RemoveAtKinds(cs[i], rel[1..], q[1..]);
        }
      }
  }

  /** `remove_dir_all` deletes exactly the subtree at `p` and leaves every other path as it was. */
  lemma RemoveDirAllKinds(fs: Node, p: Path, q: Path)
    requires WellFormed(fs) && RemoveTree(fs, p).Some?
    ensures WellFormed(RemoveTree(fs, p).value)
    ensures KindAt(RemoveTree(fs, p).value, q) ==
            if StartsWith(q, p) then None else KindAt(fs, q)
  {
    RemoveAtWellFormed(fs, p[1..]);
    if |q| > 0 && q[0] == fs.name {
      RemoveAtKinds(fs, p[1..], q[1..]);
      StartsWithStep(q, p);
    } else if |p| <= |q| {
      assert q[..|p|][0] == q[0];
    }
  }

  lemma {:induction false} SizeOfConcat(a: seq<Node>, b: seq<Node>)
    ensures SizeOf(a + b) == SizeOf(a) + SizeOf(b)
  {
    if a == [] {
      assert a + b == b;
    } else {
      assert (a + b)[0] == a[0];
      assert (a + b)[1..] == a[1..] + b;
      SizeOfConcat(a[1..], b);
    }
  }

  /** Removing a subtree frees exactly the bytes that the subtree held. */
  lemma {:induction false} RemoveAtSize(n: Node, rel: Path)
    requires |rel| > 0 && Find(n, rel).Some?
    ensures Size(RemoveAt(n, rel)) + Size(Find(n, rel).value) == Size(n)
  {
    var cs := n.children;
    var i := ChildIndex(cs, rel[0]).value;
    assert cs == cs[..i] + ([cs[i]] + cs[i + 1..]);
    SizeOfConcat(cs[..i], [cs[i]] + cs[i + 1..]);
    SizeOfConcat([cs[i]], cs[i + 1..]);
    assert SizeOf([cs[i]]) == Size(cs[i]) by { assert [cs[i]][1..] == []; }
    assert Size(n) == SizeOf(cs[..i]) + Size(cs[i]) + SizeOf(cs[i + 1..]);
    if |rel| == 1 {
      assert rel[1..] == [];
      SizeOfConcat(cs[..i], cs[i + 1..]);
    } else {
      RemoveAtSize(cs[i], rel[1..]);
      var c' := RemoveAt(cs[i], rel[1..]);
      assert RemoveAt(n, rel) == Dir(n.name, cs[..i] + [c'] + cs[i + 1..]);
      assert Find(n, rel) == Find(cs[i], rel[1..]);
      assert cs[..i] + [c'] + cs[i + 1..] == cs[..i] + ([c'] + cs[i + 1..]);
      SizeOfConcat(cs[..i], [c'] + cs[i + 1..]);
      SizeOfConcat([c'], cs[i + 1..]);
      assert SizeOf([c']) == Size(c') by { assert [c'][1..] == []; }
    }
  }

  /** `remove_dir_all(p)` frees exactly `get_size(p)` bytes. */
  lemma RemoveDirAllSize(fs: Node, p: Path)
    requires RemoveTree(fs, p).Some?
    ensures Size(RemoveTree(fs, p).value) + Size(Lookup(fs, p).value) == Size(fs)
  {
    RemoveAtSize(fs, p[1..]);
  }

}
