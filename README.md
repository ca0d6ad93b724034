# swim-clean-all, modelled in Dafny

`swim-clean-all` is a command-line tool. swim runs it as the `clean-all` subcommand. It
searches a directory tree for swim projects and asks about each one. A swim project is a
directory holding a `swim.toml` entry and a `build` entry. When the operator answers yes,
the tool deletes that project's `build` directory. At the end it reports how much space
it freed.

All of the tool is in `src/main.rs`. This model covers its decision logic:

- **Argument splice** (`Args`). `parse_opts` drops the first real argument when that
  argument is `clean-all`. It keeps every other argument in order. The skip list is the
  `--skip` options followed by the config file's entries.
- **Path canonicalisation** (`Canonical`). A leading `~` component is replaced by the
  home directory. The symlink resolution of `fs::canonicalize` is a finite map that may
  have no entry for a path; a missing entry is the failure case. The home directory is an
  optional input. Every skip entry is canonicalised in order, and the first one that
  fails ends the run.
- **Scan** (`Scan`). The file system is a tree of named files and directories (`FileTree`).
  The walk is a depth-limited pre-order walk. It prunes a subtree when the subtree's path
  starts, component by component, with a skipped path. The project test keeps a directory
  that has both a `swim.toml` child and a `build` child. The progress label shows at most
  two components below the search root.
- **Cleanup** (`CleanAll`). The sizing loop measures each project's `build` directory.
  The cleanup loop reads one answer per project. An answer is accepted when it is `y`,
  `Y` or `yes` after Rust's `trim` (`Answers`). An accepted answer removes the build
  directory, in place, from the `FileSystem` object, and adds its size to `size_saved`.
  The run then prints the summary. Standard input is a sequence of lines. Printed output
  is a sequence of `Line` values, which hold byte counts where the tool prints
  `HumanBytes` text.

Imperative parts of the source are methods. `CanonicalizeAll`, `MeasureBuilds` and
`CleanupLoop` keep the source's loops; `SpliceArgs`, `Canonicalize` and `Run` are
straight-line methods.

Each method is proved equal to a pure function: `Forwarded`, `ExpandHome`/`CanonicalPath`,
`ResolveAll`, `Measure`, `Session` and `Main`. The lemmas are stated about those functions.

## Model

| member | source | states |
|---|---|---|
| Paths.StartsWithTrans | src/main.rs:212-216 | being inside a subtree is transitive |
| Paths.SkippedDescendant | src/main.rs:212-216 | everything below a skipped path is skipped as well |
| Paths.ComponentWise | src/main.rs:214 | prefixes are compared by whole components: `/a/bc` does not start with `/a/b` |
| Args.Forwarded | src/main.rs:110-130 | no argument is an error, and so is the command name alone; otherwise the parser gets the command name and the arguments after it, with the first one dropped exactly when it is `clean-all`; putting the dropped word back gives the original arguments in order |
| Args.SpliceArgs | src/main.rs:120-130 | the push/extend construction of `passed_args` yields exactly `Forwarded` |
| Args.SwimInvocationRoundTrip | src/main.rs:115-130 | under `swim clean-all <args>` the parser receives `<args>` unchanged |
| Args.StandaloneInvocation | src/main.rs:115-130 | run directly, the arguments pass unchanged unless the first is `clean-all`, which is lost |
| Args.SkipList | src/main.rs:138-147 | the `--skip` entries come first, followed by the config's entries; nothing is added under `--ignore-config` or when the config has none |
| Args.SkipListCumulative | src/main.rs:144-146 | a path is skipped by the combined list iff either source skips it |
| Canonical.ExpandHome | src/main.rs:170-177 | a path whose first component is `~` becomes the home components followed by the rest, when a home is known; any other path is unchanged |
| Canonical.Canonicalize | src/main.rs:169-179 | the rebinding of `path` resolves the expanded path, and fails exactly when it has no resolution |
| Canonical.ResolveAll | src/main.rs:192-200 | all skip entries resolve, in order and with the same count, or the error names the first entry that does not |
| Canonical.CanonicalizeAll | src/main.rs:192-200 | the loop filling `skipped_directories` yields exactly `ResolveAll` |
| CleanAll.Setup | src/main.rs:186-200 | the run gets past canonicalisation iff the search root and every skip entry resolve, and then the i-th skip directory is the canonical form of the i-th `--skip` entry; the search root is tried first, and its failure names it as typed, otherwise the first unresolved skip entry is named |
| FileTree.RemoveTree | src/main.rs:321-325 | `remove_dir_all` succeeds exactly on an existing directory below the root |
| FileTree.FileSystem.RemoveDirAll | src/main.rs:321-325 | in place: succeeds exactly on an existing directory, and the new tree is `RemoveTree` of the old one; on failure nothing changes |
| FileTree.RemoveAtKinds | src/main.rs:321 | removal deletes exactly the paths inside the target; every other path keeps its kind, a file its size |
| FileTree.RemoveDirAllKinds | src/main.rs:321 | after `remove_dir_all(p)` a path is gone iff it starts with `p`; well-formedness is preserved |
| FileTree.RemoveDirAllSize | src/main.rs:321 | bytes left after removal plus the bytes of the removed directory equal the bytes before |
| Scan.Projects | src/main.rs:249-254 | the `filter` keeps an entry iff it was walked and passes the project test, and returns no more entries than it was given |
| Scan.ProjectsSingleton | src/main.rs:249-254 | on one entry the filter keeps it exactly when it is a project |
| Scan.ProjectsConcat | src/main.rs:249-254 | filtering `a + b` is filtering `a` followed by filtering `b`, so projects are reported (and prompted) in walk order |
| Scan.WalkNodeBelow | src/main.rs:209-211 | every walked entry lies below its start, its depth is its distance from the start, and it is within the depth bound |
| Scan.WalkNodeSound | src/main.rs:209-217 | every walked entry also exists below the start with the kind it is reported with |
| Scan.WalkNodeComplete | src/main.rs:209-217 | every unskipped path within the depth bound is walked |
| Scan.WalkSound | src/main.rs:209-217 | everything the walk yields is visible: below the existing search root, within the depth bound, existing with its kind, and not skipped |
| Scan.WalkComplete | src/main.rs:209-217 | everything visible is yielded |
| Scan.WalkExact | src/main.rs:209-217 | an entry is yielded iff the search root exists, the entry lies below it at most `max_depth` components down with depth equal to that distance, it exists with that kind, and it is not skipped |
| Scan.NotSkippedInWalk | src/main.rs:212-216 | no yielded entry starts with a skipped path |
| Scan.PrunedSubtreeNotWalked | src/main.rs:212-216 | nothing inside a pruned subtree is ever yielded |
| Scan.SkippedRootWalksNothing | src/main.rs:212-216 | a skipped search root yields nothing |
| Scan.DepthZeroWalk | src/main.rs:209-210 | with `max_depth` 0 the walk yields at most the search root itself |
| Scan.WalkRootFirst | src/main.rs:209-217 | `Walk`/`WalkNode` yield nothing iff the search root is missing or skipped, and otherwise yield the root first |
| Scan.WalkNodeDistinct | src/main.rs:209-211 | on a well-formed tree the walk below a node yields no path twice |
| Scan.WalkChildrenDistinct | src/main.rs:209-211 | the walks of a directory's uniquely named entries yield no path twice |
| Scan.WalkDistinct | src/main.rs:209-217 | on a well-formed file system the whole walk yields every path at most once |
| Scan.ProjectsDistinct | src/main.rs:249-254 | the project filter keeps distinct paths distinct |
| Scan.FindProjectsDistinct | src/main.rs:209-254 | the scan never reports one directory twice |
| Scan.IsProjectIff | src/main.rs:249-253 | `IsProject`, the project test: a project is a directory with a `swim.toml` child and a `build` child of either kind |
| Scan.ScanExact | src/main.rs:209-254 | an entry is reported as a project iff it is visible to the walk and passes the project test |
| Scan.ScanBuildExists | src/main.rs:249-253 | every reported project has a `build` entry and is not skipped |
| Scan.ShownCount | src/main.rs:220-227 | the label shows min(root components + 2, n) components, where n counts all of a directory's components and all but the last of a file's |
| Scan.LabelPieces | src/main.rs:228-241 | each shown component gets a trailing `/`, unless it already starts with `/` |
| Scan.Decorated | src/main.rs:231-239 | a shown component is never empty: the component itself, or the component followed by `/` |
| Scan.JoinConcat | src/main.rs:240-241 | `Join`, the final `join("")`, of two runs of pieces is the concatenation of their joins |
| Scan.LabelOfChildDir | src/main.rs:219-241 | `ProgressLabel` of a directory within two levels of the root is its parent's label followed by its decorated name |
| Scan.LabelOfFile | src/main.rs:222-226 | `ProgressLabel` of a file is the label of the directory that holds it |
| Scan.ShownCountOfEntry | src/main.rs:219-227 | for a walked entry, the label covers its first one or two levels below the root |
| Scan.LabelStableBelowGrandchild | src/main.rs:219-241 | entries that share the root's components and two more components get the same label |
| Answers.TrimStartShape | src/main.rs:320 | `trim_start` drops only whitespace, and what it keeps does not start with whitespace |
| Answers.TrimEndShape | src/main.rs:320 | `trim_end` drops only whitespace, and what it keeps does not end with whitespace |
| Answers.TrimShape | src/main.rs:320 | `trim` keeps a middle slice: the text before and after it is whitespace, and the slice neither starts nor ends with whitespace |
| Answers.Trim | src/main.rs:320 | `trim` never keeps more than what follows the leading whitespace |
| Answers.TrimPadded | src/main.rs:320 | trimming whitespace-padded text yields the text |
| Answers.AcceptedIff | src/main.rs:320 | `Accepted`, the answer test: an answer padded with whitespace is accepted iff its core is `y`, `Y` or `yes` |
| Answers.AcceptedShape | src/main.rs:320 | every accepted answer is whitespace, a yes-word, whitespace |
| Answers.AcceptedExample | src/main.rs:320 | `"  yes\t"` is accepted |
| Answers.DeclinedExamples | src/main.rs:320 | `"Yes"` and `"y es"` are declined |
| CleanAll.Measure | src/main.rs:266-275 | every build is measured in order, or the error names the first one that cannot be measured |
| CleanAll.MeasureFirstFailure | src/main.rs:266-275 | the error reports the first unmeasurable project |
| CleanAll.MeasureBuilds | src/main.rs:266-275 | the loop filling `project_build_sizes` yields exactly `Measure` |
| CleanAll.BuildSizeIff | src/main.rs:268-269 | `BuildSize`, `get_size` of `<project>/build`, succeeds iff that path exists, and is then the total size of its subtree |
| CleanAll.TotalSize | src/main.rs:283 | the potential-savings total is at least the size of every project |
| CleanAll.Plural | src/main.rs:282 | the suffix is empty exactly for one project, and `s` otherwise |
| CleanAll.Session | src/main.rs:290-343 | the cleanup loop saves at most the potential-savings total, prints at most one verdict per project, and one verdict for each project when it completes |
| CleanAll.ThenCleaned | src/main.rs:320-331 | an accepted answer with a successful removal adds one `Cleaned` line and the project's size, then continues on the pruned tree |
| CleanAll.ThenSkipped | src/main.rs:332-342 | a declined answer adds one `Skipped` line, changes nothing else, and continues |
| CleanAll.CleanupLoop | src/main.rs:290-343 | the loop's tree, `size_saved`, printed lines and failure are exactly those of `Session` |
| CleanAll.Run | src/main.rs:182-350 | `main` in place: its lines, failure and final tree are those of `Main` |
| CleanAll.Main | src/main.rs:182-350 | a run that prints nothing failed and left the file system as it was; a successful run prints something; a closing "cleaned" total is positive and at most the header's potential savings |
| CleanAllFacts.SessionStep | src/main.rs:291-342 | one turn of the loop prints the first verdict, saves the first size if accepted, and continues on the tree left by the removal |
| CleanAllFacts.SessionSaved | src/main.rs:290-331 | a loop that completes read an answer for every project, and its `size_saved` is the sum of the accepted projects' sizes |
| CleanAllFacts.VerdictsIndexed | src/main.rs:320-342 | the i-th verdict is `Cleaned` or `Skipped` for the i-th project, by the i-th answer |
| CleanAllFacts.SessionTranscript | src/main.rs:290-343 | a loop that completes read an answer for every project and printed exactly their verdicts, in order |
| CleanAllFacts.InAcceptedBuildStep | src/main.rs:291-331 | a path lies in an accepted build iff it lies in the first project's build (when accepted) or in an accepted build further on |
| CleanAllFacts.SessionKinds | src/main.rs:320-331 | the loop only removes things, and only inside accepted builds; a loop that completes removes exactly the accepted `build` subtrees, and `swim.toml` and every other sibling keep their kind |
| CleanAllFacts.SessionDeclined | src/main.rs:332-342 | declining every prompt leaves the tree unchanged with nothing saved; the loop completes iff every project got an answer |
| CleanAllFacts.StoppedFirst | src/main.rs:308-325 | a loop whose first answer is missing, or accepted with a failing removal, stops there with nothing printed |
| CleanAllFacts.StoppedStep | src/main.rs:291-343 | a loop that stops `k` projects after its first turn stops `k + 1` projects in |
| CleanAllFacts.SessionStopped | src/main.rs:308-325 | a failed loop is the completed loop over the projects before the failing one, followed by the failure at that project: stdin ended there (the `unwrap`), or its answer was accepted and `remove_dir_all` failed (the `?`) |
| CleanAllFacts.SessionFailure | src/main.rs:291-343 | a failed loop printed the verdicts of the first `k` projects in order and stopped on project `k` with `StdinClosed` or `RemoveFailed` for it; exactly the accepted builds among the first `k` projects are gone, and no later project is touched |
| CleanAllFacts.FoundProjectsMeasurable | src/main.rs:249-275 | sizing never fails on the projects the scan reports |
| CleanAllFacts.NothingFoundReadsNoAnswer | src/main.rs:258-264 | with no project found, the run prints only the "nothing found" line with the root as typed, changes nothing, and its report does not depend on standard input |
| CleanAllFacts.MainRemovesOnlyProjectBuilds | src/main.rs:209-325 | however a run ends, every changed path is a removed one, lying in the `build` of a directory below the canonical root that holds `swim.toml` and is not skipped |
| CleanAllFacts.MainCompleted | src/main.rs:277-350 | a run that gets past the scan and the sizing prints the header, its loop's lines, a blank line and the summary |
| CleanAllFacts.MainCompletedRun | src/main.rs:277-350 | a run that completes prints the count with its plural and the total, one verdict per project (no directory asked about twice), and "No projects cleaned" iff the accepted total is 0 (otherwise that total); exactly the accepted builds are gone |
| CleanAllFacts.MainFailedInLoop | src/main.rs:277-343 | a run that finds projects and fails prints the header and the first `k` verdicts, fails on project `k` because stdin ended or its accepted removal failed, and only the accepted builds among the first `k` projects are gone |
| CleanAllFacts.MainAllDeclined | src/main.rs:332-350 | declining everything leaves the file system unchanged, and a successful run then ends with "No projects cleaned" when projects were found and with the "nothing found" line otherwise |
| CleanAllFacts.ExampleScan | src/main.rs:209-254 | for a tree with `/proj/swim.toml`, `/proj/build/file.bin` and `/proj/src/main.x`, the only project is `/proj` |
| CleanAllFacts.ExampleRun | src/main.rs:182-350 | for that tree, answering `y` removes `/proj/build` only and reports 1024 bytes found and 1024 bytes cleaned |

## Left out

- Option parsing by `argh` (src/main.rs:132), the `--help` early exit and `--verbose` logging setup. `argh` is a foreign library; the model takes the parsed options (`Opts`) as input.
- Config discovery and loading (src/main.rs:42-78): environment variables, file reads and TOML parsing. Only the skip-list append is modelled (`Args.SkipList`).
- Symlink resolution inside `fs::canonicalize`. It is the `links` map, an uninterpreted and possibly partial function. `dirs::home_dir` is the `home` input.
- `walkdir`'s iteration order and its error entries. The model walks children in their stored order and has no unreadable entries. The walk does not promise lexicographic order.
- `fs_extra::dir::get_size` internals and its I/O errors. A size is the sum of the file sizes in the subtree, and sizing fails only when `build` is missing.
- The spinner, colours, `HumanBytes` formatting, cursor movement and stdout flushing.
- The prompt text. Each verdict line is modelled; the prompt line it overwrites is not.
- The end of standard input. The source panics in `unwrap` there. The model reports it as the failure `StdinClosed`, after the lines printed so far.
- `CleanAll.Measure`: sizes are unbounded naturals. The sum into `u64` (src/main.rs:283) and `size_saved += …` (src/main.rs:331) are not checked for overflow.
- Symbolic links, permissions and concurrent changes to the file system. `is_dir()` follows links in the source; the model has no links.
- Logging with `log::info!`. It has no effect on behaviour.
- `FileTree.RemoveTree` never removes the root directory itself. A build path always has at least two components, so this case cannot arise.
- Equality of the bytes freed and `size_saved` is not proved. `FileTree.RemoveDirAllSize` states the accounting of each single removal only. Nested accepted builds cannot both be removed: the walk reaches the enclosing project first, and once its `build` is gone the nested removal fails and ends the run. The overlap of nested builds does show in the header's potential savings (src/main.rs:283), which count both.
