/**
 * The argument splice done before option parsing. swim runs the tool as its `clean-all`
 * subcommand and passes that word on as the first real argument, so the tool drops it.
 * Option parsing itself (the `argh` derive) is not part of this model; neither is the
 * help path that prints usage and exits.
 */
module Args {
  import opened Wrappers
  import opened Paths

  /** The word swim passes on as the first real argument. */
  const SubcommandName: string := "clean-all"

  datatype ArgError = MissingCommandName | MissingFirstArgument

  /** What the option parser is given: the command name and the arguments after it. */
  datatype Invocation = Invocation(commandName: string, passed: seq<string>)

  /**
   * The splice, as a value. With the dropped word put back in front, the passed
   * arguments are exactly those after the command name: nothing else is dropped and the
   * order is kept.
   */
  function Forwarded(args: seq<string>): (r: Result<Invocation, ArgError>)
    ensures r == Err(MissingCommandName) <==> |args| == 0
    ensures r == Err(MissingFirstArgument) <==> |args| == 1
    ensures r.Ok? <==> |args| >= 2
    ensures r.Ok? ==> r.value.commandName == args[0]
    ensures r.Ok? ==> (|r.value.passed| == |args| - 2 <==> args[1] == SubcommandName)
    ensures r.Ok? ==>
      (if args[1] == SubcommandName then [SubcommandName] + r.value.passed else r.value.passed)
        == args[1..]
  {
    if |args| == 0 then Err(MissingCommandName)
    else if |args| == 1 then Err(MissingFirstArgument)
    else if args[1] == SubcommandName then Ok(Invocation(args[0], args[2..]))
    else Ok(Invocation(args[0], args[1..]))
  }

  /** The splice as `parse_opts` performs it: push the first argument unless it is the subcommand, then extend. */
  method SpliceArgs(args: seq<string>) returns (r: Result<Invocation, ArgError>)
    ensures r == Forwarded(args)
  {
    if |args| == 0 {
      return Err(MissingCommandName);
    }
    var commandName := args[0];
    if |args| == 1 {
      return Err(MissingFirstArgument);
    }
    var passed: seq<string> := [];
    var firstArg := args[1];
    if firstArg == SubcommandName {
    } else {
      passed := passed + [firstArg];
    }
    var rest := args[2..];
    passed := passed + rest;
    if firstArg == SubcommandName {
      assert passed == args[2..];
    } else {
      assert passed == args[1..];
    }
    return Ok(Invocation(commandName, passed));
  }

  /** Whatever the user typed after `swim clean-all` reaches the option parser unchanged. */
  lemma SwimInvocationRoundTrip(commandName: string, userArgs: seq<string>)
    ensures Forwarded([commandName, SubcommandName] + userArgs) == Ok(Invocation(commandName, userArgs))
  {
    assert ([commandName, SubcommandName] + userArgs)[2..] == userArgs;
  }

  /**
   * Run on its own, the tool passes its arguments on unchanged unless the first one is
   * the word `clean-all`, which is lost (a directory of that name cannot be the first
   * argument).
   */
  lemma StandaloneInvocation(commandName: string, userArgs: seq<string>)
    requires userArgs != []
    ensures userArgs[0] != SubcommandName ==>
      Forwarded([commandName] + userArgs) == Ok(Invocation(commandName, userArgs))
    ensures userArgs[0] == SubcommandName ==>
      Forwarded([commandName] + userArgs) == Ok(Invocation(commandName, userArgs[1..]))
  {
    assert ([commandName] + userArgs)[1..] == userArgs;
  }

  /**
   * The skip list after config loading: the `--skip` options followed by the config
   * file's `skip` entries, unless `--ignore-config` was given or the config has none.
   */
  function SkipList(cliSkips: seq<Path>, ignoreConfig: bool, configSkips: Option<seq<Path>>): (r: seq<Path>)
    ensures |cliSkips| <= |r| && r[..|cliSkips|] == cliSkips
    ensures ignoreConfig || configSkips.None? ==> r == cliSkips
    ensures !ignoreConfig && configSkips.Some? ==> r[|cliSkips|..] == configSkips.value
  {
    if !ignoreConfig && configSkips.Some? then cliSkips + configSkips.value else cliSkips
  }

  /** The two sources of skip entries are cumulative: a path is skipped if either source skips it. */
  lemma SkipListCumulative(p: Path, cliSkips: seq<Path>, configSkips: seq<Path>)
    ensures IsSkipped(p, SkipList(cliSkips, false, Some(configSkips))) <==>
            IsSkipped(p, cliSkips) || IsSkipped(p, configSkips)
  {
    var all := SkipList(cliSkips, false, Some(configSkips));
    if IsSkipped(p, all) {
      var i :| 0 <= i < |all| && StartsWith(p, all[i]);
      if i >= |cliSkips| {
        assert all[i] == configSkips[i - |cliSkips|];
      }
    }
    if IsSkipped(p, configSkips) {
      var i :| 0 <= i < |configSkips| && StartsWith(p, configSkips[i]);
      assert all[|cliSkips| + i] == configSkips[i];
    }
    if IsSkipped(p, cliSkips) {
      var i :| 0 <= i < |cliSkips| && StartsWith(p, cliSkips[i]);
      assert all[i] == cliSkips[i];
    }
  }

}
