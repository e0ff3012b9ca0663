/** The command executor `run_cmd` and the abstract filesystem the stages
    work on. A file is a (directory, name) pair; the filesystem is the set of
    files that exist. The external tools are a scripted executor: for each
    command it answers whether the command succeeded (exit status zero) and
    which files the command wrote. */
module Executor {

  datatype Path = Path(dir: string, name: string)

  /** An argument list; the first element is the program. */
  type Command = seq<string>

  /** The scripted outcome of one command: success, and the files it wrote
      (kept even when the command fails, as a failed tool may leave partial
      output behind). */
  datatype Reply = Reply(ok: bool, created: set<Path>)

  type Tools = Command -> Reply

  /** What the pipeline can observe: the files, and every command given to
      `run_cmd` so far, in order (the audit trail `run_cmd` prints). */
  datatype World = World(files: set<Path>, issued: seq<Command>)

  /** The errors the pipeline raises. All are RuntimeError in the source;
      the message tells them apart. */
  datatype Fault =
    | EmptyInput                  // "No files were found in the input"
    | UnsupportedFile(name: string)
    | CommandFailed(cmd: Command) // "Error running: <cmd>"
    | NoRegisteredImages          // "ANTs did not generate appropriate Warped.nii.gz images"

  datatype Status = Done | Failed(fault: Fault)

  datatype Step = Step(world: World, status: Status)

  /** The names in directory `d`: `Path(d).glob("*")`. */
  function Listing(files: set<Path>, d: string): (names: set<string>)
    ensures forall n :: n in names <==> Path(d, n) in files
  {
    set p | p in files && p.dir == d :: p.name
  }

  /** `str(Path(dir) / name)`; resolving to an absolute path is not modelled. */
  function PathText(p: Path): string {
    p.dir + "/" + p.name
  }

  /** One call of `run_cmd` on an external tool. */
  function Apply(tools: Tools, w: World, cmd: Command): World {
    World(w.files + tools(cmd).created, w.issued + [cmd])
  }

  /** Everything a list of commands writes. */
  function Created(tools: Tools, cmds: seq<Command>): set<Path> {
    if cmds == [] then {} else tools(cmds[0]).created + Created(tools, cmds[1..])
  }

  predicate AllSucceed(tools: Tools, cmds: seq<Command>) {
    forall i :: 0 <= i < |cmds| ==> tools(cmds[i]).ok
  }

  /** The position of the first failing command, or the length if none fails. */
  function FirstFailure(tools: Tools, cmds: seq<Command>): (k: nat)
    ensures k <= |cmds|
    ensures AllSucceed(tools, cmds[..k])
    ensures k < |cmds| ==> !tools(cmds[k]).ok
  {
    if cmds == [] || !tools(cmds[0]).ok then 0
    else
      var k := FirstFailure(tools, cmds[1..]);
      assert cmds[..k + 1] == [cmds[0]] + cmds[1..][..k];
      1 + k
  }

  /** A loop whose failures are logged and skipped (`run_ants`): every
      command runs. */
  function RunAll(tools: Tools, w: World, cmds: seq<Command>): World
    decreases |cmds|
  {
    if cmds == [] then w else RunAll(tools, Apply(tools, w, cmds[0]), cmds[1..])
  }

  /** A loop whose first failure is raised (`run_robex`): the commands run up
      to and including the first one that fails. */
  function RunFatal(tools: Tools, w: World, cmds: seq<Command>): Step
    decreases |cmds|
  {
    if cmds == [] then Step(w, Done)
    else
      var w' := Apply(tools, w, cmds[0]);
      if tools(cmds[0]).ok then RunFatal(tools, w', cmds[1..])
      else Step(w', Failed(CommandFailed(cmds[0])))
  }

  /** One step of a skip-and-continue loop, taken at position `i`. */
  lemma RunAllFrom(tools: Tools, w: World, cmds: seq<Command>, i: nat)
    requires i < |cmds|
    ensures RunAll(tools, w, cmds[i..]) == RunAll(tools, Apply(tools, w, cmds[i]), cmds[i + 1..])
  {
    assert cmds[i..][0] == cmds[i] && cmds[i..][1..] == cmds[i + 1..];
  }

  /** One step of a raise-on-failure loop, taken at position `i`. */
  lemma RunFatalFrom(tools: Tools, w: World, cmds: seq<Command>, i: nat)
    requires i < |cmds|
    ensures RunFatal(tools, w, cmds[i..]) ==
      if tools(cmds[i]).ok then RunFatal(tools, Apply(tools, w, cmds[i]), cmds[i + 1..])
      else Step(Apply(tools, w, cmds[i]), Failed(CommandFailed(cmds[i])))
  {
    assert cmds[i..][0] == cmds[i] && cmds[i..][1..] == cmds[i + 1..];
  }

  /** Under the skip-and-continue policy every command is attempted, whatever
      the outcomes, and nothing is raised. */
  lemma {:induction false} RunAllAttemptsEvery(tools: Tools, w: World, cmds: seq<Command>)
    ensures RunAll(tools, w, cmds) == World(w.files + Created(tools, cmds), w.issued + cmds)
    decreases |cmds|
  {
    if cmds != [] {
      RunAllAttemptsEvery(tools, Apply(tools, w, cmds[0]), cmds[1..]);
      assert w.issued + [cmds[0]] + cmds[1..] == w.issued + cmds;
    }
  }

  /** Under the fatal policy the commands up to the first failure run, the
      failure is raised with that command, and no later command runs; with
      no failure every command runs and the loop completes. */
  lemma {:induction false} RunFatalStopsAtFirstFailure(tools: Tools, w: World, cmds: seq<Command>)
    ensures var k := FirstFailure(tools, cmds);
      RunFatal(tools, w, cmds) ==
        if k == |cmds| then
          Step(World(w.files + Created(tools, cmds), w.issued + cmds), Done)
        else
          Step(World(w.files + Created(tools, cmds[..k + 1]), w.issued + cmds[..k + 1]),
               Failed(CommandFailed(cmds[k])))
    decreases |cmds|
  {
    if cmds != [] {
      var c := cmds[0];
      var rest := cmds[1..];
      var w' := Apply(tools, w, c);
      var k := FirstFailure(tools, cmds);
      if tools(c).ok {
        RunFatalStopsAtFirstFailure(tools, w', rest);
        var k' := FirstFailure(tools, rest);
        assert k == k' + 1;
        assert RunFatal(tools, w, cmds) == RunFatal(tools, w', rest);
        if k < |cmds| {
          var pre := cmds[..k + 1];
          assert pre[0] == c && pre[1..] == rest[..k' + 1];
          assert Created(tools, pre) == tools(c).created + Created(tools, rest[..k' + 1]);
          assert w.issued + pre == w.issued + [c] + rest[..k' + 1];
        } else {
          assert Created(tools, cmds) == tools(c).created + Created(tools, rest);
          assert w.issued + cmds == w.issued + [c] + rest;
        }
      } else {
        assert k == 0;
        var pre := cmds[..1];
        assert pre == [c] && pre[1..] == [];
        assert Created(tools, pre) == tools(c).created;
      }
    }
  }

  /** Success under the fatal policy means every command succeeded. */
  lemma RunFatalDoneIff(tools: Tools, w: World, cmds: seq<Command>)
    ensures RunFatal(tools, w, cmds).status == Done <==> AllSucceed(tools, cmds)
  {
    RunFatalStopsAtFirstFailure(tools, w, cmds);
    var k := FirstFailure(tools, cmds);
    if k == |cmds| { assert cmds[..k] == cmds; }
  }
}
