/**
 * The body of `main`: canonicalise the search root and the skip entries, scan for
 * projects, measure each project's build directory, then ask about each project in
 * turn, deleting the build directory of every accepted one, and print a summary.
 *
 * Standard input is the sequence `answers`, one line per prompt; the printed output is a
 * sequence of `Line`s whose byte counts stand for the `HumanBytes` text.
 */
module CleanAll {
  import opened Wrappers
  import opened Paths
  import opened FileTree
  import opened Canonical
  import opened Scan
  import opened Answers

  /** The parsed options that reach `main`: skip entries, depth limit and search root, as typed. */
  datatype Opts = Opts(skip: seq<Path>, maxDepth: nat, searchRoot: Path)

  /** The `--max-depth` default. */
  const DefaultMaxDepth: nat := 100

  /** A detected project with the size of its build directory. */
  datatype Project = Project(path: Path, size: nat)

  /** The lines the tool prints. */
  datatype Line =
    | NothingFound(searchRoot: Path)                 // "No cleanable swim projects found in <root as typed>"
    | Found(count: nat, plural: string, total: nat)  // "<n> cleanable swim project<s> found (totalling <total> potential savings)"
    | Blank
    | Cleaned(project: Path, size: nat)              // "Cleaned <project> (<size>)."
    | Skipped(project: Path, size: nat)              // "Skipped <project> (<size>)."
    | SavedTotal(size: nat)                          // "<size> successfully cleaned"
    | NoneCleaned                                    // "No projects cleaned"

  /** The errors that end a run with a non-zero status. */
  datatype Failure =
    | SearchRootUnresolved(path: Path)
    | SkipUnresolved(path: Path)
    | SizeUnavailable(project: Path)
    | StdinClosed
    | RemoveFailed(project: Path)

  /** The state after the cleanup loop: the file system, `size_saved`, what was printed, and how it ended. */
  datatype Outcome = Outcome(fs: Node, saved: nat, lines: seq<Line>, failure: Option<Failure>)

  /** The state after a whole run. */
  datatype Report = Report(fs: Node, lines: seq<Line>, failure: Option<Failure>)

  function BuildPath(project: Path): Path
  {
    project + [BuildDirectory]
  }

  // ---------------------------------------------------------------------------
  // Measuring the build directories

  /** `fs_extra::dir::get_size` of a project's build directory; it fails if there is none. */
  function BuildSize(fs: Node, project: Path): Option<nat>
  {
    match Lookup(fs, BuildPath(project))
    case None => None
    case Some(n) => Some(Size(n))
  }

  /** A project's build can be measured exactly when it exists, and its size is that of its subtree. */
  lemma BuildSizeIff(fs: Node, project: Path)
    ensures BuildSize(fs, project).Some? <==> Exists(fs, BuildPath(project))
    ensures BuildSize(fs, project).Some? ==> BuildSize(fs, project).value == Size(Lookup(fs, BuildPath(project)).value)
  {
  }

  /** Each project measured in order, or the first one whose size cannot be taken. */
  function Measure(fs: Node, found: seq<Entry>): (r: Result<seq<Project>, Failure>)
    ensures r.Ok? <==> forall i :: 0 <= i < |found| ==> BuildSize(fs, found[i].path).Some?
    ensures r.Ok? ==> |r.value| == |found|
    ensures r.Ok? ==> forall i :: 0 <= i < |found| ==>
      r.value[i] == Project(found[i].path, BuildSize(fs, found[i].path).value)
    ensures r.Err? ==>
      exists k :: 0 <= k < |found| && r.error == SizeUnavailable(found[k].path) && BuildSize(fs, found[k].path).None?
        && forall i :: 0 <= i < k ==> BuildSize(fs, found[i].path).Some?
  {
    if found == [] then Ok([])
    else match BuildSize(fs, found[0].path)
      case None => Err(SizeUnavailable(found[0].path))
      case Some(size) =>
        match Measure(fs, found[1..])
        case Err(f) =>
          assert forall k :: 0 <= k < |found[1..]| ==> found[1..][k] == found[k + 1];
          Err(f)
        case Ok(rest) =>
          assert forall i :: 1 <= i < |found| ==> found[i] == found[1..][i - 1];
          Ok([Project(found[0].path, size)] + rest)
  }

  /** `project_build_sizes.iter().sum()`. */
  function TotalSize(projects: seq<Project>): (r: nat)
    ensures forall i :: 0 <= i < |projects| ==> projects[i].size <= r
  {
    if projects == [] then 0 else projects[0].size + TotalSize(projects[1..])
  }

  /** The plural suffix of the summary line. */
  function Plural(count: nat): (r: string)
    ensures r == "" <==> count == 1
    ensures r == "" || r == "s"
  {
    if count == 1 then "" else "s"
  }

  // ---------------------------------------------------------------------------
  // The cleanup loop

  /** The line printed for one project, given the operator's answer. */
  function Verdict(p: Project, answer: string): Line
  {
    if Accepted(answer) then Cleaned(p.path, p.size) else Skipped(p.path, p.size)
  }

  /** The line closing a successful run. */
  function Summary(saved: nat): Line
  {
    if saved > 0 then SavedTotal(saved) else NoneCleaned
  }

  /**
   * The cleanup loop over the remaining projects and the remaining input lines. An
   * accepted project's build directory is removed and its size added to `size_saved`;
   * a declined one changes nothing. The run stops at the first failed removal, or when
   * standard input ends before every project was answered.
   */
  function Session(fs: Node, todo: seq<Project>, answers: seq<string>): (r: Outcome)
    ensures r.saved <= TotalSize(todo)
    ensures |r.lines| <= |todo|
    ensures r.failure.None? ==> |r.lines| == |todo|
    decreases |todo|
  {
    if todo == [] then Outcome(fs, 0, [], None)
    else if answers == [] then Outcome(fs, 0, [], Some(StdinClosed))
    else if Accepted(answers[0]) then
      match RemoveTree(fs, BuildPath(todo[0].path))
      case None => Outcome(fs, 0, [], Some(RemoveFailed(todo[0].path)))
      case Some(fs') =>
        var rest := Session(fs', todo[1..], answers[1..]);
        Outcome(rest.fs, todo[0].size + rest.saved, [Verdict(todo[0], answers[0])] + rest.lines, rest.failure)
    else
      var rest := Session(fs, todo[1..], answers[1..]);
      Outcome(rest.fs, rest.saved, [Verdict(todo[0], answers[0])] + rest.lines, rest.failure)
  }

  /** The sizes of the projects whose answer accepts them. */
  function AcceptedTotal(todo: seq<Project>, answers: seq<string>): nat
  {
    if todo == [] || answers == [] then 0
    else (if Accepted(answers[0]) then todo[0].size else 0) + AcceptedTotal(todo[1..], answers[1..])
  }

  /** `q` lies in the build directory of a project whose answer accepts it. */
  predicate InAcceptedBuild(q: Path, todo: seq<Project>, answers: seq<string>)
  {
    exists i :: 0 <= i < |todo| && i < |answers| && Accepted(answers[i]) && StartsWith(q, BuildPath(todo[i].path))
  }

  /** Every answer given for the projects declines. */
  predicate AllDeclined(todo: seq<Project>, answers: seq<string>)
  {
    forall i :: 0 <= i < |todo| && i < |answers| ==> !Accepted(answers[i])
  }

  /** The loop's state so far followed by the rest of the loop. */
  function Then(saved: nat, lines: seq<Line>, rest: Outcome): Outcome
  {
    Outcome(rest.fs, saved + rest.saved, lines + rest.lines, rest.failure)
  }

  /** An accepted answer whose removal succeeds: one `Cleaned` line and its size saved. */
  lemma ThenCleaned(saved: nat, lines: seq<Line>, fs: Node, todo: seq<Project>, answers: seq<string>, fs': Node)
    requires todo != [] && answers != [] && Accepted(answers[0])
    requires RemoveTree(fs, BuildPath(todo[0].path)) == Some(fs')
    ensures Then(saved, lines, Session(fs, todo, answers)) ==
            Then(saved + todo[0].size, lines + [Cleaned(todo[0].path, todo[0].size)], Session(fs', todo[1..], answers[1..]))
  {
    var rest := Session(fs', todo[1..], answers[1..]);
    var line := Cleaned(todo[0].path, todo[0].size);
    assert Session(fs, todo, answers) == Outcome(rest.fs, todo[0].size + rest.saved, [line] + rest.lines, rest.failure);
    assert lines + ([line] + rest.lines) == (lines + [line]) + rest.lines;
  }

  /** A declined answer: one `Skipped` line and nothing else changes. */
  lemma ThenSkipped(saved: nat, lines: seq<Line>, fs: Node, todo: seq<Project>, answers: seq<string>)
    requires todo != [] && answers != [] && !Accepted(answers[0])
    ensures Then(saved, lines, Session(fs, todo, answers)) ==
            Then(saved, lines + [Skipped(todo[0].path, todo[0].size)], Session(fs, todo[1..], answers[1..]))
  {
    var rest := Session(fs, todo[1..], answers[1..]);
    var line := Skipped(todo[0].path, todo[0].size);
    assert Session(fs, todo, answers) == Outcome(rest.fs, rest.saved, [line] + rest.lines, rest.failure);
    assert lines + ([line] + rest.lines) == (lines + [line]) + rest.lines;
  }

  /** The cleanup loop of `main` with its `size_saved` accumulator. */
  method CleanupLoop(fs: FileSystem, projects: seq<Project>, answers: seq<string>)
    returns (saved: nat, lines: seq<Line>, failure: Option<Failure>)
    modifies fs
    ensures Outcome(fs.root, saved, lines, failure) == Session(old(fs.root), projects, answers)
  {
    saved, lines, failure := 0, [], None;
    ghost var goal := Session(fs.root, projects, answers);
    assert goal == Then(saved, lines, goal);
    var i := 0;
    while i < |projects|
      invariant i <= |projects| && i <= |answers|
      invariant goal == Then(saved, lines, Session(fs.root, projects[i..], answers[i..]))
    {
      ghost var todo, rest := projects[i..], answers[i..];
      if i == |answers| {
        failure := Some(StdinClosed);
        assert lines + [] == lines;
        return;
      }
      var project := projects[i];
      var answer := answers[i];
      assert todo[0] == project && rest[0] == answer;
      assert todo[1..] == projects[i + 1..] && rest[1..] == answers[i + 1..];
      if Accepted(answer) {
        ghost var before := fs.root;
        var ok := fs.RemoveDirAll(BuildPath(project.path));
        if !ok {
          failure := Some(RemoveFailed(project.path));
          assert lines + [] == lines;
          return;
        }
        ThenCleaned(saved, lines, before, todo, rest, fs.root);
        lines := lines + [Cleaned(project.path, project.size)];
        saved := saved + project.size;
      } else {
        ThenSkipped(saved, lines, fs.root, todo, rest);
        lines := lines + [Skipped(project.path, project.size)];
      }
      i := i + 1;
    }
    assert lines + [] == lines;
  }

  // ---------------------------------------------------------------------------
  // The whole run

  /** The canonical search root and skip list, or the entry that did not resolve. */
  function Setup(opts: Opts, home: Option<Path>, links: map<Path, Path>): (r: Result<(Path, seq<Path>), Failure>)
    ensures r.Ok? <==> CanonicalPath(opts.searchRoot, home, links).Some? && ResolveAll(opts.skip, home, links).Ok?
    ensures r.Ok? ==> Some(r.value.0) == CanonicalPath(opts.searchRoot, home, links) && |r.value.1| == |opts.skip|
    ensures r.Ok? ==> forall i :: 0 <= i < |opts.skip| ==> Some(r.value.1[i]) == CanonicalPath(opts.skip[i], home, links)
    ensures CanonicalPath(opts.searchRoot, home, links).None? ==> r == Err(SearchRootUnresolved(opts.searchRoot))
    ensures CanonicalPath(opts.searchRoot, home, links).Some? && ResolveAll(opts.skip, home, links).Err? ==>
      r == Err(SkipUnresolved(ResolveAll(opts.skip, home, links).error))
  {
    match CanonicalPath(opts.searchRoot, home, links)
    case None => Err(SearchRootUnresolved(opts.searchRoot))
    case Some(root) =>
      match ResolveAll(opts.skip, home, links)
      case Err(p) => Err(SkipUnresolved(p))
      case Ok(skips) => Ok((root, skips))
  }

  /** A run of the tool on the file system `fs`, with `answers` as standard input. */
  function Main(fs: Node, opts: Opts, home: Option<Path>, links: map<Path, Path>, answers: seq<string>): (r: Report)
    ensures r.lines == [] ==> r.failure.Some? && r.fs == fs
    ensures r.failure.None? ==> |r.lines| > 0
    ensures r.failure.None? && r.lines[|r.lines| - 1].SavedTotal? ==>
      r.lines[0].Found? && 0 < r.lines[|r.lines| - 1].size <= r.lines[0].total
  {
    match Setup(opts, home, links)
    case Err(f) => Report(fs, [], Some(f))
    case Ok((root, skips)) =>
      var found := FindProjects(fs, root, opts.maxDepth, skips);
      if found == [] then Report(fs, [NothingFound(opts.searchRoot)], None)
      else match Measure(fs, found)
        case Err(f) => Report(fs, [], Some(f))
        case Ok(projects) =>
          var header := [Found(|projects|, Plural(|projects|), TotalSize(projects)), Blank];
          var s := Session(fs, projects, answers);
          if s.failure.Some? then Report(s.fs, header + s.lines, s.failure)
          else
            Report(s.fs, header + s.lines + [Blank, Summary(s.saved)], None)
  }

  /** The sizing loop of `main`, stopping at the first project that cannot be measured. */
  method MeasureBuilds(fs: FileSystem, found: seq<Entry>) returns (r: Result<seq<Project>, Failure>)
    ensures r == Measure(fs.root, found)
  {
    var sizes: seq<Project> := [];
    for k := 0 to |found|
      invariant |sizes| == k
      invariant forall i :: 0 <= i < k ==>
        BuildSize(fs.root, found[i].path).Some? &&
        sizes[i] == Project(found[i].path, BuildSize(fs.root, found[i].path).value)
    {
      var size := BuildSize(fs.root, found[k].path);
      if size.None? {
        r := Err(SizeUnavailable(found[k].path));
        MeasureFirstFailure(fs.root, found, k);
        return;
      }
      sizes := sizes + [Project(found[k].path, size.value)];
    }
    r := Ok(sizes);
    assert sizes == Measure(fs.root, found).value;
  }

  /** Measuring stops at the first unmeasurable project and reports that one. */
  lemma {:induction false} MeasureFirstFailure(fs: Node, found: seq<Entry>, k: nat)
    requires k < |found| && BuildSize(fs, found[k].path).None?
    requires forall i :: 0 <= i < k ==> BuildSize(fs, found[i].path).Some?
    ensures Measure(fs, found) == Err(SizeUnavailable(found[k].path))
  {
    if k > 0 {
      assert forall i :: 0 <= i < k - 1 ==> found[1..][i] == found[i + 1];
      MeasureFirstFailure(fs, found[1..], k - 1);
    }
  }

  /** `main` itself: the model's entry point, with the file system changed in place. */
  method Run(fs: FileSystem, opts: Opts, home: Option<Path>, links: map<Path, Path>, answers: seq<string>)
    returns (lines: seq<Line>, failure: Option<Failure>)
    modifies fs
    ensures Report(fs.root, lines, failure) == Main(old(fs.root), opts, home, links, answers)
  {
    var root := Canonicalize(opts.searchRoot, home, links);
    if root.None? {
      return [], Some(SearchRootUnresolved(opts.searchRoot));
    }
    var skips := CanonicalizeAll(opts.skip, home, links);
    if skips.Err? {
      return [], Some(SkipUnresolved(skips.error));
    }
    var found := FindProjects(fs.root, root.value, opts.maxDepth, skips.value);
    if found == [] {
      return [NothingFound(opts.searchRoot)], None;
    }
    var measured := MeasureBuilds(fs, found);
    if measured.Err? {
      return [], Some(measured.error);
    }
    var projects := measured.value;
    lines := [Found(|projects|, Plural(|projects|), TotalSize(projects)), Blank];
    var saved, cleanupLines, cleanupFailure := CleanupLoop(fs, projects, answers);
    lines := lines + cleanupLines;
    if cleanupFailure.Some? {
      return lines, cleanupFailure;
    }
    if saved > 0 {
      lines := lines + [Blank, SavedTotal(saved)];
    } else {
      lines := lines + [Blank, NoneCleaned];
    }
    failure := None;
  }

}
