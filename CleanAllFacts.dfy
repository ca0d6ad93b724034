/**
 * What a run of `main` promises: the transcript of the cleanup loop, the amount it
 * reports as saved, exactly which parts of the file system it removes, and the
 * early exit when no project is found.
 */
module CleanAllFacts {
  import opened Wrappers
  import opened Paths
  import opened FileTree
  import opened Canonical
  import opened Scan
  import opened Answers
  import opened CleanAll

  // ---------------------------------------------------------------------------
  // The cleanup loop

  /** The tree the loop continues on after the first answer, or `None` when that answer's removal fails. */
  function AfterFirst(fs: Node, todo: seq<Project>, answers: seq<string>): Option<Node>
    requires todo != [] && answers != []
  {
    if Accepted(answers[0]) then RemoveTree(fs, BuildPath(todo[0].path)) else Some(fs)
  }

  /** One turn of the loop: the first verdict is printed, its size is saved if accepted, and the loop goes on. */
  lemma SessionStep(fs: Node, todo: seq<Project>, answers: seq<string>)
    requires todo != [] && answers != [] && AfterFirst(fs, todo, answers).Some?
    ensures var rest := Session(AfterFirst(fs, todo, answers).value, todo[1..], answers[1..]);
      Session(fs, todo, answers) ==
        Outcome(rest.fs, AcceptedTotal([todo[0]], [answers[0]]) + rest.saved,
                [Verdict(todo[0], answers[0])] + rest.lines, rest.failure)
  {
    assert [todo[0]][1..] == [] && [answers[0]][1..] == [];
  }

  /** A loop that ends normally had an answer for every project and saved exactly the sizes of the accepted ones. */
  lemma {:induction false} SessionSaved(fs: Node, todo: seq<Project>, answers: seq<string>)
    ensures var s := Session(fs, todo, answers);
      s.failure.None? ==> |todo| <= |answers| && s.saved == AcceptedTotal(todo, answers)
    decreases |todo|
  {
    if todo != [] && answers != [] && AfterFirst(fs, todo, answers).Some? {
      SessionStep(fs, todo, answers);
      SessionSaved(AfterFirst(fs, todo, answers).value, todo[1..], answers[1..]);
      assert [todo[0]][1..] == [] && [answers[0]][1..] == [];
    }
  }

  /** The verdict lines for the projects that have an answer, in order. */
  function Verdicts(todo: seq<Project>, answers: seq<string>): seq<Line>
  {
    if todo == [] || answers == [] then []
    else [Verdict(todo[0], answers[0])] + Verdicts(todo[1..], answers[1..])
  }

  /** There is one verdict per answered project, the i-th for the i-th project and answer. */
  lemma {:induction false} VerdictsIndexed(todo: seq<Project>, answers: seq<string>)
    requires |todo| <= |answers|
    ensures |Verdicts(todo, answers)| == |todo|
    ensures forall i :: 0 <= i < |todo| ==> Verdicts(todo, answers)[i] == Verdict(todo[i], answers[i])
  {
    if todo != [] {
      VerdictsIndexed(todo[1..], answers[1..]);
      var v := Verdicts(todo, answers);
      forall i | 1 <= i < |todo|
        ensures v[i] == Verdict(todo[i], answers[i])
      {
        assert v[i] == Verdicts(todo[1..], answers[1..])[i - 1];
        assert todo[1..][i - 1] == todo[i] && answers[1..][i - 1] == answers[i];
      }
    }
  }

  /** A loop that ends normally printed one verdict per project, in order. */
  lemma {:induction false} SessionTranscript(fs: Node, todo: seq<Project>, answers: seq<string>)
    ensures var s := Session(fs, todo, answers);
      s.failure.None? ==> |todo| <= |answers| && s.lines == Verdicts(todo, answers)
    decreases |todo|
  {
    if todo != [] && answers != [] && AfterFirst(fs, todo, answers).Some? {
      SessionStep(fs, todo, answers);
      SessionTranscript(AfterFirst(fs, todo, answers).value, todo[1..], answers[1..]);
    }
  }

  lemma InAcceptedBuildStep(q: Path, todo: seq<Project>, answers: seq<string>)
    requires todo != [] && answers != []
    ensures InAcceptedBuild(q, todo, answers) <==>
      (Accepted(answers[0]) && StartsWith(q, BuildPath(todo[0].path))) ||
      InAcceptedBuild(q, todo[1..], answers[1..])
  {
    if InAcceptedBuild(q, todo[1..], answers[1..]) {
      var i :| 0 <= i < |todo[1..]| && i < |answers[1..]| && Accepted(answers[1..][i]) &&
        StartsWith(q, BuildPath(todo[1..][i].path));
      assert Accepted(answers[i + 1]) && StartsWith(q, BuildPath(todo[i + 1].path));
    }
    if InAcceptedBuild(q, todo, answers) {
      var i :| 0 <= i < |todo| && i < |answers| && Accepted(answers[i]) && StartsWith(q, BuildPath(todo[i].path));
      if i > 0 {
        assert todo[1..][i - 1] == todo[i] && answers[1..][i - 1] == answers[i];
      }
    }
  }

  /**
   * The loop only ever removes: a path keeps its kind, or it is gone and lies in the build
   * directory of an accepted project. A loop that ends normally removes exactly the build
   * directories of the accepted projects and leaves everything else, the marker files and
   * other siblings included, as it was.
   */
  lemma {:induction false} SessionKinds(fs: Node, todo: seq<Project>, answers: seq<string>, q: Path)
    requires WellFormed(fs)
    ensures var s := Session(fs, todo, answers);
      && WellFormed(s.fs)
      && (KindAt(s.fs, q) == KindAt(fs, q) || (KindAt(s.fs, q) == None && InAcceptedBuild(q, todo, answers)))
      && (s.failure.None? ==>
            KindAt(s.fs, q) == if InAcceptedBuild(q, todo, answers) then None else KindAt(fs, q))
    decreases |todo|
  {
    if todo != [] && answers != [] {
      InAcceptedBuildStep(q, todo, answers);
      if Accepted(answers[0]) {
        var removed := RemoveTree(fs, BuildPath(todo[0].path));
        if removed.Some? {
          RemoveDirAllKinds(fs, BuildPath(todo[0].path), q);
          SessionKinds(removed.value, todo[1..], answers[1..], q);
        }
      } else {
        SessionKinds(fs, todo[1..], answers[1..], q);
      }
    }
  }

  /**
   * Declining every prompt leaves the file system untouched and saves nothing; the loop
   * ends normally exactly when every project got an answer.
   */
  lemma {:induction false} SessionDeclined(fs: Node, todo: seq<Project>, answers: seq<string>)
    requires AllDeclined(todo, answers)
    ensures var s := Session(fs, todo, answers);
      && s.fs == fs && s.saved == 0
      && (s.failure.None? <==> |todo| <= |answers|)
  {
    if todo != [] && answers != [] {
      assert !Accepted(answers[0]);
      assert forall i :: 0 <= i < |todo[1..]| && i < |answers[1..]| ==> answers[1..][i] == answers[i + 1];
      SessionDeclined(fs, todo[1..], answers[1..]);
    }
  }

  /**
   * A loop that stops after `k` verdicts is the completed loop over the first `k`
   * projects followed by the failure at project `k`: standard input ran out, or the
   * answer was accepted and the removal failed. No later project is looked at.
   */
  predicate StoppedAt(fs: Node, todo: seq<Project>, answers: seq<string>, k: nat)
  {
    && k < |todo| && k <= |answers|
    && var done := Session(fs, todo[..k], answers[..k]);
       var s := Session(fs, todo, answers);
       && done.failure.None?
       && s.fs == done.fs && s.saved == done.saved && s.lines == done.lines
       && s.failure == (if k == |answers| then Some(StdinClosed) else Some(RemoveFailed(todo[k].path)))
       && (k < |answers| ==> Accepted(answers[k]) && RemoveTree(done.fs, BuildPath(todo[k].path)).None?)
  }

  /** A loop that stops `k` projects after its first turn stopped `k + 1` projects in. */
  lemma StoppedStep(fs: Node, todo: seq<Project>, answers: seq<string>, k: nat)
    requires todo != [] && answers != [] && AfterFirst(fs, todo, answers).Some?
    requires StoppedAt(AfterFirst(fs, todo, answers).value, todo[1..], answers[1..], k)
    ensures StoppedAt(fs, todo, answers, k + 1)
  {
    var t, a := todo[..k + 1], answers[..k + 1];
    assert t[0] == todo[0] && a[0] == answers[0];
    assert t[1..] == todo[1..][..k] && a[1..] == answers[1..][..k];
    assert AfterFirst(fs, t, a) == AfterFirst(fs, todo, answers);
    SessionStep(fs, todo, answers);
    SessionStep(fs, t, a);
    assert todo[1..][k] == todo[k + 1];
  }

  /** A loop that fails stopped at the project after its last verdict. */
  lemma {:induction false} SessionStopped(fs: Node, todo: seq<Project>, answers: seq<string>)
    requires Session(fs, todo, answers).failure.Some?
    ensures StoppedAt(fs, todo, answers, |Session(fs, todo, answers).lines|)
    decreases |todo|
  {
    if answers == [] || AfterFirst(fs, todo, answers).None? {
      StoppedFirst(fs, todo, answers);
    } else {
      var fs' := AfterFirst(fs, todo, answers).value;
      SessionStep(fs, todo, answers);
      SessionStopped(fs', todo[1..], answers[1..]);
      StoppedStep(fs, todo, answers, |Session(fs', todo[1..], answers[1..]).lines|);
    }
  }

  /** A loop that stops on its first project has printed nothing. */
  lemma StoppedFirst(fs: Node, todo: seq<Project>, answers: seq<string>)
    requires todo != [] && (answers == [] || AfterFirst(fs, todo, answers).None?)
    ensures |Session(fs, todo, answers).lines| == 0 && StoppedAt(fs, todo, answers, 0)
  {
    assert todo[..0] == [] && answers[..0] == [];
  }

  /**
   * What a failed loop did: it printed the verdicts of the first `k` projects, in order,
   * then stopped on project `k`, because standard input ended there or because that
   * project's answer was accepted and its removal failed. Exactly the accepted build
   * directories among the first `k` projects are gone; the projects after `k` are
   * untouched.
   */
  lemma SessionFailure(fs: Node, todo: seq<Project>, answers: seq<string>, q: Path)
    requires WellFormed(fs)
    ensures var s := Session(fs, todo, answers);
      var k := |s.lines|;
      s.failure.Some? ==>
        && k < |todo| && k <= |answers|
        && s.lines == Verdicts(todo[..k], answers[..k])
        && s.failure == (if k == |answers| then Some(StdinClosed) else Some(RemoveFailed(todo[k].path)))
        && (k < |answers| ==> Accepted(answers[k]))
        && KindAt(s.fs, q) == if InAcceptedBuild(q, todo[..k], answers[..k]) then None else KindAt(fs, q)
  {
    var s := Session(fs, todo, answers);
    if s.failure.Some? {
      var k := |s.lines|;
      SessionStopped(fs, todo, answers);
      SessionTranscript(fs, todo[..k], answers[..k]);
      SessionKinds(fs, todo[..k], answers[..k], q);
    }
  }

  // ---------------------------------------------------------------------------
  // The whole run

  /** Every project the scan reports has a `build` entry, so measuring the projects found never fails. */
  lemma FoundProjectsMeasurable(fs: Node, root: Path, maxDepth: nat, skips: seq<Path>)
    ensures Measure(fs, FindProjects(fs, root, maxDepth, skips)).Ok?
  {
    var found := FindProjects(fs, root, maxDepth, skips);
    forall i | 0 <= i < |found|
      ensures BuildSize(fs, found[i].path).Some?
    {
      ScanBuildExists(fs, root, maxDepth, skips, found[i]);
    }
  }

  /**
   * When the scan finds nothing the run prints only the "nothing found" line with the
   * search root as typed, changes nothing, and reads no answer: the report is the same
   * whatever standard input holds.
   */
  lemma NothingFoundReadsNoAnswer(fs: Node, opts: Opts, home: Option<Path>, links: map<Path, Path>,
                                  answers: seq<string>, others: seq<string>)
    requires Setup(opts, home, links).Ok?
    requires FindProjects(fs, Setup(opts, home, links).value.0, opts.maxDepth, Setup(opts, home, links).value.1) == []
    ensures Main(fs, opts, home, links, answers) == Main(fs, opts, home, links, others)
    ensures Main(fs, opts, home, links, answers).lines == [NothingFound(opts.searchRoot)]
    ensures Main(fs, opts, home, links, answers).fs == fs && Main(fs, opts, home, links, answers).failure.None?
  {
  }

  /**
   * The safety property of the tool: whatever the answers and however the run ends, the
   * only paths that change are removed ones, and each lies in the `build` directory of a
   * project the scan found: a directory below the canonical search root holding
   * `swim.toml`, outside every skipped directory.
   */
  lemma MainRemovesOnlyProjectBuilds(fs: Node, opts: Opts, home: Option<Path>, links: map<Path, Path>,
                                     answers: seq<string>, q: Path)
    requires WellFormed(fs)
    ensures var r := Main(fs, opts, home, links, answers);
      KindAt(r.fs, q) == KindAt(fs, q) ||
      (&& KindAt(r.fs, q) == None
       && Setup(opts, home, links).Ok?
       && exists p :: StartsWith(q, BuildPath(p)) && StartsWith(p, Setup(opts, home, links).value.0)
            && IsDirAt(fs, p) && Exists(fs, p + [MarkerFile]) && !IsSkipped(p, Setup(opts, home, links).value.1))
  {
    var r := Main(fs, opts, home, links, answers);
    if Setup(opts, home, links).Ok? {
      var (root, skips) := Setup(opts, home, links).value;
      var found := FindProjects(fs, root, opts.maxDepth, skips);
      if found != [] && Measure(fs, found).Ok? {
        var projects := Measure(fs, found).value;
        SessionKinds(fs, projects, answers, q);
        if KindAt(r.fs, q) != KindAt(fs, q) {
          var i :| 0 <= i < |projects| && i < |answers| && Accepted(answers[i]) &&
            StartsWith(q, BuildPath(projects[i].path));
          var e := found[i];
          assert projects[i].path == e.path;
          ScanExact(fs, root, opts.maxDepth, skips, e);
          ScanBuildExists(fs, root, opts.maxDepth, skips, e);
          assert StartsWith(q, BuildPath(e.path)) && StartsWith(e.path, root);
        }
      }
    }
  }

  /**
   * A run that ends normally after finding projects prints the header, one verdict per
   * project in scan order, and a summary that is "No projects cleaned" exactly when no
   * accepted project had a non-empty build directory, and otherwise the sum of the
   * accepted projects' sizes. Exactly the accepted build directories are gone.
   */
  lemma MainCompletedRun(fs: Node, opts: Opts, home: Option<Path>, links: map<Path, Path>,
                         answers: seq<string>, q: Path)
    requires WellFormed(fs)
    requires Setup(opts, home, links).Ok?
    requires FindProjects(fs, Setup(opts, home, links).value.0, opts.maxDepth, Setup(opts, home, links).value.1) != []
    requires Main(fs, opts, home, links, answers).failure.None?
    ensures var found := FindProjects(fs, Setup(opts, home, links).value.0, opts.maxDepth, Setup(opts, home, links).value.1);
      var projects := Measure(fs, found).value;
      var r := Main(fs, opts, home, links, answers);
      && Measure(fs, found).Ok?
      && |found| <= |answers|
      && (forall i, j :: 0 <= i < j < |projects| ==> projects[i].path != projects[j].path)
      && |r.lines| == |found| + 4
      && r.lines[0] == Found(|found|, Plural(|found|), TotalSize(projects))
      && r.lines[1] == Blank
      && (forall i :: 0 <= i < |found| ==> r.lines[i + 2] == Verdict(projects[i], answers[i]))
      && r.lines[|found| + 2] == Blank
      && r.lines[|found| + 3] == Summary(AcceptedTotal(projects, answers))
      && KindAt(r.fs, q) == if InAcceptedBuild(q, projects, answers) then None else KindAt(fs, q)
  {
    var (root, skips) := Setup(opts, home, links).value;
    var found := FindProjects(fs, root, opts.maxDepth, skips);
    FoundProjectsMeasurable(fs, root, opts.maxDepth, skips);
    var projects := Measure(fs, found).value;
    FindProjectsDistinct(fs, root, opts.maxDepth, skips);
    SessionTranscript(fs, projects, answers);
    SessionSaved(fs, projects, answers);
    if Main(fs, opts, home, links, answers).failure.None? {
      VerdictsIndexed(projects, answers);
    }
    SessionKinds(fs, projects, answers, q);
  }

  /**
   * A run that finds projects and then fails does so in the cleanup loop: after the
   * header it printed the verdicts of the first `k` projects and stopped on project
   * `k`, because standard input ended or because the accepted removal of its build
   * directory failed. Only the accepted build directories among the first `k` projects
   * are gone.
   */
  lemma MainFailedInLoop(fs: Node, opts: Opts, home: Option<Path>, links: map<Path, Path>,
                         answers: seq<string>, q: Path)
    requires WellFormed(fs)
    requires Setup(opts, home, links).Ok?
    requires FindProjects(fs, Setup(opts, home, links).value.0, opts.maxDepth, Setup(opts, home, links).value.1) != []
    requires Main(fs, opts, home, links, answers).failure.Some?
    ensures var found := FindProjects(fs, Setup(opts, home, links).value.0, opts.maxDepth, Setup(opts, home, links).value.1);
      var r := Main(fs, opts, home, links, answers);
      var k := |r.lines| - 2;
      && Measure(fs, found).Ok?
      && var projects := Measure(fs, found).value;
      && 0 <= k < |found| && k <= |answers|
      && r.lines == [Found(|found|, Plural(|found|), TotalSize(projects)), Blank] + Verdicts(projects[..k], answers[..k])
      && r.failure == (if k == |answers| then Some(StdinClosed) else Some(RemoveFailed(found[k].path)))
      && (k < |answers| ==> Accepted(answers[k]))
      && KindAt(r.fs, q) == if InAcceptedBuild(q, projects[..k], answers[..k]) then None else KindAt(fs, q)
  {
    var (root, skips) := Setup(opts, home, links).value;
    var found := FindProjects(fs, root, opts.maxDepth, skips);
    FoundProjectsMeasurable(fs, root, opts.maxDepth, skips);
    var projects := Measure(fs, found).value;
    SessionFailure(fs, projects, answers, q);
  }

  /**
   * Declining every prompt leaves the file system as it was; a successful run then ends
   * with "No projects cleaned", or with the "nothing found" line when there was nothing
   * to ask about.
   */
  lemma MainAllDeclined(fs: Node, opts: Opts, home: Option<Path>, links: map<Path, Path>, answers: seq<string>)
    requires forall i :: 0 <= i < |answers| ==> !Accepted(answers[i])
    ensures var r := Main(fs, opts, home, links, answers);
      && r.fs == fs
      && (r.failure.None? ==>
            && Setup(opts, home, links).Ok?
            && |r.lines| > 0
            && r.lines[|r.lines| - 1] ==
                 if FindProjects(fs, Setup(opts, home, links).value.0, opts.maxDepth, Setup(opts, home, links).value.1) == []
                 then NothingFound(opts.searchRoot) else NoneCleaned)
  {
    if Setup(opts, home, links).Ok? {
      var (root, skips) := Setup(opts, home, links).value;
      var found := FindProjects(fs, root, opts.maxDepth, skips);
      if found != [] && Measure(fs, found).Ok? {
        SessionDeclined(fs, Measure(fs, found).value, answers);
      }
    }
  }

  // ---------------------------------------------------------------------------
  // A worked example

  /** The files of the example project: `swim.toml`, `build/file.bin` of 1024 bytes and `src/main.x`. */
  function ExampleFiles(): seq<Node>
  {
    [File(MarkerFile, 0), Dir(BuildDirectory, [File("file.bin", 1024)]), Dir("src", [File("main.x", 0)])]
  }

  /** `/` holding only the project `/proj`. */
  function ExampleTree(): Node
  {
    Dir(RootDir, [Dir("proj", ExampleFiles())])
  }

  /** The same tree after `/proj/build` has been removed. */
  function ExampleCleaned(): Node
  {
    Dir(RootDir, [Dir("proj", [File(MarkerFile, 0), Dir("src", [File("main.x", 0)])])])
  }

  lemma WalkFile(name: Name, size: nat, path: Path, depth: nat, maxDepth: nat)
    ensures WalkNode(File(name, size), path, depth, maxDepth, []) == [Entry(path, depth, false)]
  {
    assert !IsSkipped(path, []);
  }

  lemma WalkOneFileDir(name: Name, f: Node, path: Path, depth: nat, maxDepth: nat)
    requires f.File? && depth < maxDepth
    ensures WalkNode(Dir(name, [f]), path, depth, maxDepth, []) ==
      [Entry(path, depth, true), Entry(path + [f.name], depth + 1, false)]
  {
    assert !IsSkipped(path, []);
    WalkFile(f.name, f.size, path + [f.name], depth + 1, maxDepth);
    assert [f][1..] == [];
    assert WalkChildren([f], path, depth + 1, maxDepth, []) == [Entry(path + [f.name], depth + 1, false)];
  }

  lemma ExampleWalk()
    ensures Walk(ExampleTree(), [RootDir], DefaultMaxDepth, []) ==
      [ Entry([RootDir], 0, true),
        Entry([RootDir, "proj"], 1, true),
        Entry([RootDir, "proj", MarkerFile], 2, false),
        Entry([RootDir, "proj", BuildDirectory], 2, true),
        Entry([RootDir, "proj", BuildDirectory, "file.bin"], 3, false),
        Entry([RootDir, "proj", "src"], 2, true),
        Entry([RootDir, "proj", "src", "main.x"], 3, false) ]
  {
    var fs := ExampleTree();
    var cs := ExampleFiles();
    var proj := Dir("proj", cs);
    var pp := [RootDir, "proj"];
    assert !IsSkipped([RootDir], []) && !IsSkipped(pp, []);
    var w0 := WalkNode(cs[0], pp + [MarkerFile], 2, DefaultMaxDepth, []);
    var w1 := WalkNode(cs[1], pp + [BuildDirectory], 2, DefaultMaxDepth, []);
    var w2 := WalkNode(cs[2], pp + ["src"], 2, DefaultMaxDepth, []);
    WalkFile(MarkerFile, 0, pp + [MarkerFile], 2, DefaultMaxDepth);
    WalkOneFileDir(BuildDirectory, File("file.bin", 1024), pp + [BuildDirectory], 2, DefaultMaxDepth);
    WalkOneFileDir("src", File("main.x", 0), pp + ["src"], 2, DefaultMaxDepth);
    assert pp + [MarkerFile] == [RootDir, "proj", MarkerFile];
    assert pp + [BuildDirectory] == [RootDir, "proj", BuildDirectory];
    assert pp + [BuildDirectory] + ["file.bin"] == [RootDir, "proj", BuildDirectory, "file.bin"];
    assert pp + ["src"] == [RootDir, "proj", "src"];
    assert pp + ["src"] + ["main.x"] == [RootDir, "proj", "src", "main.x"];
    assert cs[1..] == [cs[1], cs[2]] && cs[1..][1..] == [cs[2]] && cs[1..][1..][1..] == [];
    assert WalkChildren(cs[1..][1..], pp, 2, DefaultMaxDepth, []) == w2 + [];
    assert WalkChildren(cs[1..], pp, 2, DefaultMaxDepth, []) == w1 + w2;
    assert WalkChildren(cs, pp, 2, DefaultMaxDepth, []) == w0 + (w1 + w2);
    assert WalkNode(proj, pp, 1, DefaultMaxDepth, []) == [Entry(pp, 1, true)] + (w0 + (w1 + w2));
    assert [proj][1..] == [] && [RootDir] + [proj.name] == pp;
    assert WalkChildren([proj], [RootDir], 1, DefaultMaxDepth, []) == WalkNode(proj, pp, 1, DefaultMaxDepth, []) + [];
    assert Lookup(fs, [RootDir]) == Some(fs);
    assert Walk(fs, [RootDir], DefaultMaxDepth, []) == [Entry([RootDir], 0, true)] + ([Entry(pp, 1, true)] + (w0 + (w1 + w2)));
  }

  /** One step down the tree: the entry named `x` of the directory at `p`, if any. */
  lemma LookupChild(fs: Node, p: Path, x: Name)
    requires Lookup(fs, p).Some?
    ensures Lookup(fs, p + [x]) ==
      match Lookup(fs, p).value
      case Dir(_, cs) => ChildNamed(cs, x)
      case File(_, _) => None
  {
    assert (p + [x])[0] == p[0] && (p + [x])[1..] == p[1..] + [x];
    FindExtend(fs, p[1..], x);
  }

  lemma ExampleLookups()
    ensures Lookup(ExampleTree(), [RootDir, MarkerFile]).None?
    ensures Lookup(ExampleTree(), [RootDir, "proj"]) == Some(Dir("proj", ExampleFiles()))
    ensures Lookup(ExampleTree(), [RootDir, "proj", MarkerFile]) == Some(ExampleFiles()[0])
    ensures Lookup(ExampleTree(), [RootDir, "proj", BuildDirectory]) == Some(ExampleFiles()[1])
    ensures Lookup(ExampleTree(), [RootDir, "proj", "src"]) == Some(ExampleFiles()[2])
  {
    var fs := ExampleTree();
    var cs := ExampleFiles();
    var pp := [RootDir, "proj"];
    assert Lookup(fs, [RootDir]) == Some(fs);
    assert ChildIndex(fs.children, MarkerFile).None? && ChildIndex(fs.children, "proj") == Some(0);
    LookupChild(fs, [RootDir], MarkerFile);
    LookupChild(fs, [RootDir], "proj");
    assert [RootDir] + [MarkerFile] == [RootDir, MarkerFile] && [RootDir] + ["proj"] == pp;
    assert cs[1..] == [cs[1], cs[2]] && cs[1..][1..] == [cs[2]];
    assert ChildIndex(cs, MarkerFile) == Some(0);
    assert ChildIndex(cs, BuildDirectory) == Some(1);
    assert ChildIndex(cs, "src") == Some(2);
    LookupChild(fs, pp, MarkerFile);
    LookupChild(fs, pp, BuildDirectory);
    LookupChild(fs, pp, "src");
    assert pp + [MarkerFile] == [RootDir, "proj", MarkerFile];
    assert pp + [BuildDirectory] == [RootDir, "proj", BuildDirectory];
    assert pp + ["src"] == [RootDir, "proj", "src"];
  }

  /** None of the other entries of the example holds a `swim.toml`. */
  lemma ExampleNoMarkerBelow()
    ensures Lookup(ExampleTree(), [RootDir, "proj", BuildDirectory, MarkerFile]).None?
    ensures Lookup(ExampleTree(), [RootDir, "proj", "src", MarkerFile]).None?
    ensures !IsDirAt(ExampleTree(), [RootDir, "proj", MarkerFile])
    ensures !IsDirAt(ExampleTree(), [RootDir, "proj", BuildDirectory, "file.bin"])
    ensures !IsDirAt(ExampleTree(), [RootDir, "proj", "src", "main.x"])
  {
    var fs := ExampleTree();
    var cs := ExampleFiles();
    var pp := [RootDir, "proj"];
    ExampleLookups();
    var pb := [RootDir, "proj", BuildDirectory];
    var ps := [RootDir, "proj", "src"];
    assert ChildIndex(cs[1].children, MarkerFile).None? && ChildIndex(cs[1].children, "file.bin") == Some(0);
    assert ChildIndex(cs[2].children, MarkerFile).None? && ChildIndex(cs[2].children, "main.x") == Some(0);
    LookupChild(fs, pb, MarkerFile);
    LookupChild(fs, ps, MarkerFile);
    LookupChild(fs, pb, "file.bin");
    LookupChild(fs, ps, "main.x");
    assert pb + [MarkerFile] == [RootDir, "proj", BuildDirectory, MarkerFile];
    assert ps + [MarkerFile] == [RootDir, "proj", "src", MarkerFile];
    assert pb + ["file.bin"] == [RootDir, "proj", BuildDirectory, "file.bin"];
    assert ps + ["main.x"] == [RootDir, "proj", "src", "main.x"];
  }

  /** Of the example's entries only `/proj` passes the project test. */
  lemma ExampleProjectTests()
    ensures !IsProject(ExampleTree(), Entry([RootDir, "proj", "src", "main.x"], 3, false))
    ensures !IsProject(ExampleTree(), Entry([RootDir, "proj", "src"], 2, true))
    ensures !IsProject(ExampleTree(), Entry([RootDir, "proj", BuildDirectory, "file.bin"], 3, false))
    ensures !IsProject(ExampleTree(), Entry([RootDir, "proj", BuildDirectory], 2, true))
    ensures !IsProject(ExampleTree(), Entry([RootDir, "proj", MarkerFile], 2, false))
    ensures IsProject(ExampleTree(), Entry([RootDir, "proj"], 1, true))
    ensures !IsProject(ExampleTree(), Entry([RootDir], 0, true))
  {
    ExampleLookups();
    ExampleNoMarkerBelow();
    var pp := [RootDir, "proj"];
    assert [RootDir] + [MarkerFile] == [RootDir, MarkerFile];
    assert [RootDir, "proj", BuildDirectory] + [MarkerFile] == [RootDir, "proj", BuildDirectory, MarkerFile];
    assert [RootDir, "proj", "src"] + [MarkerFile] == [RootDir, "proj", "src", MarkerFile];
    assert pp + [MarkerFile] == [RootDir, "proj", MarkerFile];
    assert pp + [BuildDirectory] == [RootDir, "proj", BuildDirectory];
  }

  lemma ExampleScan()
    ensures FindProjects(ExampleTree(), [RootDir], DefaultMaxDepth, []) == [Entry([RootDir, "proj"], 1, true)]
  {
    var fs := ExampleTree();
    ExampleWalk();
    ExampleProjectTests();
    var w := Walk(fs, [RootDir], DefaultMaxDepth, []);
    assert Projects(fs, w[6..]) == [] && Projects(fs, w[5..]) == [] && Projects(fs, w[4..]) == [];
    assert Projects(fs, w[3..]) == [] && Projects(fs, w[2..]) == [];
    assert Projects(fs, w[1..]) == [w[1]];
  }

  /** A run that gets past the setup, the scan and the sizing ends with what its cleanup loop did. */
  lemma MainCompleted(fs: Node, opts: Opts, home: Option<Path>, links: map<Path, Path>, answers: seq<string>,
                      root: Path, skips: seq<Path>, found: seq<Entry>, projects: seq<Project>,
                      final: Node, saved: nat, lines: seq<Line>)
    requires Setup(opts, home, links) == Ok((root, skips))
    requires FindProjects(fs, root, opts.maxDepth, skips) == found && found != []
    requires Measure(fs, found) == Ok(projects)
    requires Session(fs, projects, answers) == Outcome(final, saved, lines, None)
    ensures Main(fs, opts, home, links, answers) ==
      Report(final, [Found(|projects|, Plural(|projects|), TotalSize(projects)), Blank] + lines + [Blank, Summary(saved)], None)
  {
  }

  lemma ExampleSetup()
    ensures Setup(Opts([], DefaultMaxDepth, [RootDir]), None, map[[RootDir] := [RootDir]]) == Ok(([RootDir], []))
  {
    assert !StartsWith([RootDir], [HomeShorthand]) by {
      assert RootDir[0] != HomeShorthand[0];
      assert [RootDir][..1] == [RootDir];
    }
  }

  lemma ExampleMeasure()
    ensures Measure(ExampleTree(), [Entry([RootDir, "proj"], 1, true)]) == Ok([Project([RootDir, "proj"], 1024)])
  {
    var fs := ExampleTree();
    var cs := ExampleFiles();
    var pp := [RootDir, "proj"];
    var found := [Entry(pp, 1, true)];
    ExampleLookups();
    assert pp + [BuildDirectory] == [RootDir, "proj", BuildDirectory];
    assert Size(cs[1]) == 1024 by {
      assert cs[1].children[1..] == [];
    }
    assert found[1..] == [] && [Project(pp, 1024)] + [] == [Project(pp, 1024)];
    assert BuildSize(fs, pp) == Some(1024);
  }

  lemma ExampleRemoval()
    ensures RemoveTree(ExampleTree(), BuildPath([RootDir, "proj"])) == Some(ExampleCleaned())
  {
    var fs := ExampleTree();
    var cs := ExampleFiles();
    var bp := BuildPath([RootDir, "proj"]);
    ExampleLookups();
    assert bp == [RootDir, "proj", BuildDirectory];
    assert bp[1..] == ["proj", BuildDirectory] && bp[1..][1..] == [BuildDirectory];
    assert ChildIndex([Dir("proj", cs)], "proj") == Some(0);
    assert ChildIndex(cs, BuildDirectory) == Some(1) by {
      assert cs[1..][0] == cs[1];
    }
    assert RemoveAt(Dir("proj", cs), [BuildDirectory]) == Dir("proj", [cs[0], cs[2]]) by {
      assert cs[..1] + cs[2..] == [cs[0], cs[2]];
    }
    assert [Dir("proj", cs)][..0] + [Dir("proj", [cs[0], cs[2]])] + [Dir("proj", cs)][1..] == [Dir("proj", [cs[0], cs[2]])];
  }

  lemma ExampleSession()
    ensures Session(ExampleTree(), [Project([RootDir, "proj"], 1024)], ["y"]) ==
      Outcome(ExampleCleaned(), 1024, [Cleaned([RootDir, "proj"], 1024)], None)
  {
    AcceptedIff("", "y", "");
    assert "" + "y" + "" == "y";
    ExampleRemoval();
    var todo := [Project([RootDir, "proj"], 1024)];
    assert todo[1..] == [] && ["y"][1..] == [];
  }

  lemma ExampleLines()
    ensures [Found(1, "", 1024), Blank] + [Cleaned([RootDir, "proj"], 1024)] + [Blank, SavedTotal(1024)] ==
      [Found(1, "", 1024), Blank, Cleaned([RootDir, "proj"], 1024), Blank, SavedTotal(1024)]
  {
  }

  /**
   * Scanning `/` finds the one project `/proj` with 1024 bytes to free; answering `y`
   * removes `/proj/build` only, leaving `swim.toml` and `src/main.x`, and reports 1024
   * bytes cleaned.
   */
  lemma ExampleRun()
    ensures Main(ExampleTree(), Opts([], DefaultMaxDepth, [RootDir]), None, map[[RootDir] := [RootDir]], ["y"]) ==
      Report(ExampleCleaned(),
             [Found(1, "", 1024), Blank, Cleaned([RootDir, "proj"], 1024), Blank, SavedTotal(1024)],
             None)
  {
    var pp := [RootDir, "proj"];
    var todo := [Project(pp, 1024)];
    ExampleSetup();
    ExampleScan();
    ExampleMeasure();
    ExampleSession();
    assert TotalSize(todo) == 1024 by {
      assert todo[1..] == [];
    }
    MainCompleted(ExampleTree(), Opts([], DefaultMaxDepth, [RootDir]), None, map[[RootDir] := [RootDir]], ["y"],
                  [RootDir], [], [Entry(pp, 1, true)], todo, ExampleCleaned(), 1024, [Cleaned(pp, 1024)]);
    assert |todo| == 1 && Plural(1) == "" && Summary(1024) == SavedTotal(1024);
    ExampleLines();
  }

}
