/** pipeline.py as it runs: a host whose filesystem and command log change
    as each stage issues commands, one loop iteration at a time. Every stage
    method is proved to leave the host in the state the matching function of
    module Stages computes, so the properties proved there hold of these
    methods. */
module Host {
  import opened Names
  import opened Order
  import opened Executor
  import opened Stages

  /** A glob over a directory listing: every name once, in an order the
      filesystem chooses (here, whichever element the loop picks). */
  method Enumerate(s: set<string>) returns (r: seq<string>)
    ensures Enumerates(r, s)
  {
    r := [];
    var rest := s;
    while rest != {}
      invariant rest <= s
      invariant forall x :: x in r <==> x in s && x !in rest
      invariant forall i, j :: 0 <= i < j < |r| ==> r[i] != r[j]
      decreases |rest|
    {
      var x :| x in rest;
      r := r + [x];
      rest := rest - {x};
    }
  }

  class Host {
    var files: set<Path>
    var issued: seq<Command>
    const tools: Tools

    constructor (files0: set<Path>, tools: Tools)
      ensures State() == World(files0, [])
      ensures this.tools == tools
    {
      files := files0;
      issued := [];
      this.tools := tools;
    }

    function State(): World
      reads this
    {
      World(files, issued)
    }

    /** `run_cmd`: the command is logged and run; what it writes appears,
        and its exit status is returned for the caller to raise or skip. */
    method Run(cmd: Command) returns (ok: bool)
      modifies this
      ensures State() == Apply(tools, old(State()), cmd)
      ensures ok == tools(cmd).ok
    {
      issued := issued + [cmd];
      files := files + tools(cmd).created;
      ok := tools(cmd).ok;
    }

    /** `run_cmd(["mv", src, dst])`: on success `src` is gone and `dst`
        exists, replacing any earlier `dst`. */
    method Move(src: Path, dst: Path) returns (ok: bool)
      modifies this
      ensures issued == old(issued) + [[MOVE_PROGRAM, PathText(src), PathText(dst)]]
      ensures ok == tools([MOVE_PROGRAM, PathText(src), PathText(dst)]).ok
      ensures files == if ok then old(files) - {src} + {dst} else old(files)
    {
      var cmd := [MOVE_PROGRAM, PathText(src), PathText(dst)];
      issued := issued + [cmd];
      ok := tools(cmd).ok;
      if ok {
        files := files - {src} + {dst};
      }
    }

    /** `Path.unlink()`. */
    method Unlink(p: Path)
      modifies this
      ensures files == old(files) - {p}
      ensures issued == old(issued)
    {
      files := files - {p};
    }

    /** `verify_inputs`: the names of `d` in sorted order are checked one by
        one; the first that is not an allowed file is reported. */
    method VerifyInputs(d: string) returns (status: Status)
      ensures status == InputCheck(Listing(files, d))
    {
      var names := Listing(files, d);
      if names == {} {
        return Failed(EmptyInput);
      }
      var images := SortedOf(names);
      ghost var k := FirstRejected(images);
      var i := 0;
      while i < |images|
        invariant 0 <= i <= |images|
        invariant forall j :: 0 <= j < i ==> AllowedFile(images[j])
        invariant i <= k
      {
        if !AllowedFile(images[i]) {
          assert i == k;
          return Failed(UnsupportedFile(images[i]));
        }
        i := i + 1;
      }
      assert k == |images|;
      return Done;
    }

    /** `run_robex`: one command per input image, in the glob's order; the
        first failure is raised. */
    method RunRobex(input: string, out: string) returns (status: Status, order: seq<string>)
      modifies this
      ensures Enumerates(order, Images(Listing(old(files), input)))
      ensures Step(State(), status) == Robex(tools, old(State()), input, out, order)
    {
      order := Enumerate(Images(Listing(files, input)));
      ghost var cmds := RobexCommands(input, out, order);
      ghost var w0 := State();
      var i := 0;
      while i < |order|
        invariant 0 <= i <= |order|
        invariant RunFatal(tools, w0, cmds) == RunFatal(tools, State(), cmds[i..])
      {
        var cmd := RobexCommand(input, out, order[i]);
        assert cmds[i] == cmd;
        RunFatalFrom(tools, State(), cmds, i);
        var ok := Run(cmd);
        if !ok {
          return Failed(CommandFailed(cmd)), order;
        }
        i := i + 1;
      }
      status := Done;
    }

    /** `run_ants`: one command per image of `src` in sorted order; a
        failure is skipped. */
    method RunAnts(src: string, dst: string, atlas: string)
      modifies this
      ensures State() == Ants(tools, old(State()), src, dst, atlas)
    {
      var images := SortedOf(Images(Listing(files, src)));
      ghost var cmds := AntsCommands(src, dst, atlas, images);
      ghost var w0 := State();
      for i := 0 to |images|
        invariant RunAll(tools, w0, cmds) == RunAll(tools, State(), cmds[i..])
      {
        var cmd := AntsCommand(src, dst, atlas, images[i]);
        assert cmds[i] == cmd;
        RunAllFrom(tools, State(), cmds, i);
        var ok := Run(cmd);
      }
    }

    /** The first half of `rename_after_ants`: the names of `d` that the
        glob `*Warped.nii.gz` yields, less those ending in
        `InverseWarped.nii.gz`, sorted. */
    method RegisteredImages(d: string) returns (cands: seq<string>)
      ensures cands == Candidates(Listing(files, d))
    {
      var matches := Enumerate(set n | n in Listing(files, d) && EndsWith(n, WARPED_MARKER));
      var registered: seq<string> := [];
      for i := 0 to |matches|
        invariant forall x :: x in registered <==> x in matches[..i] && IsCandidate(x)
      {
        assert matches[i] in matches;
        assert matches[..i + 1] == matches[..i] + [matches[i]];
        if !EndsWith(matches[i], INVERSE_MARKER) {
          registered := registered + [matches[i]];
        }
      }
      assert matches[..|matches|] == matches;
      cands := SortedOf(set x | x in registered);
      assert (set x | x in registered) == set n | n in Listing(files, d) && IsCandidate(n);
    }

    /** The second half of `rename_after_ants`: each registered image is
        moved to its nnU-Net name; a failed `mv` is raised. */
    method MoveRegistered(d: string, cands: seq<string>) returns (status: Status, outList: seq<Path>)
      requires forall i :: 0 <= i < |cands| ==> IsCandidate(cands[i])
      modifies this
      ensures Step(State(), status) == MoveAll(tools, old(State()), d, cands)
      ensures outList == if status == Done then NewPaths(d, cands) else []
    {
      ghost var w0 := State();
      outList := [];
      var i := 0;
      while i < |cands|
        invariant 0 <= i <= |cands|
        invariant MoveAll(tools, w0, d, cands) == MoveAll(tools, State(), d, cands[i..])
        invariant outList == NewPaths(d, cands[..i])
      {
        var name := cands[i];
        ContainsSuffix(name, WARPED_MARKER);
        if Contains(name, WARPED_MARKER) {
          var newPath := Path(d, NewName(name));
          MoveAllFrom(tools, State(), d, cands, i);
          NewPathsSnoc(d, cands, i);
          var ok := Move(Path(d, name), newPath);
          if !ok {
            return Failed(CommandFailed(RenameCommand(d, name))), [];
          }
          outList := outList + [newPath];
        }
        i := i + 1;
      }
      assert cands[..i] == cands;
      status := Done;
    }

    /** `rename_after_ants`: the registered images of `d` (ending in
        `Warped.nii.gz` but not `InverseWarped.nii.gz`) are collected, sorted
        and each moved to its nnU-Net name; with none, the stage raises. */
    method RenameAfterAnts(d: string) returns (status: Status, outList: seq<Path>)
      modifies this
      ensures (Step(State(), status), outList) == Rename(tools, old(State()), d)
    {
      var cands := RegisteredImages(d);
      if |cands| == 0 {
        return Failed(NoRegisteredImages), [];
      }
      forall i | 0 <= i < |cands| ensures IsCandidate(cands[i]) {
        assert cands[i] in cands;
      }
      status, outList := MoveRegistered(d, cands);
    }

    /** `cleanup_intermediate`: every entry of `d` is unlinked, except, when
        `keep`, the final `_0000.nii.gz` images. */
    method CleanupIntermediate(d: string, keep: bool)
      modifies this
      ensures files == Cleaned(old(files), d, keep)
      ensures issued == old(issued)
    {
      var entries := Enumerate(Listing(files, d));
      ghost var files0 := files;
      for i := 0 to |entries|
        invariant issued == old(issued)
        invariant forall p: Path :: p in files <==>
          p in files0 && !(p.dir == d && p.name in entries[..i] && !(keep && IsFinal(p.name)))
      {
        var name := entries[i];
        if keep && EndsWith(name, FINAL_SUFFIX) {
          continue;
        }
        Unlink(Path(d, name));
      }
      assert entries[..|entries|] == entries;
    }

    /** `run_nnunet`: the one inference command; its failure is raised. */
    method RunNnunet(ants: string, pred: string, datasetId: int, configuration: string) returns (status: Status)
      modifies this
      ensures Step(State(), status) == Nnunet(tools, old(State()), ants, pred, datasetId, configuration)
    {
      var cmd := NnunetCommand(ants, pred, datasetId, configuration);
      var ok := Run(cmd);
      status := if ok then Done else Failed(CommandFailed(cmd));
    }

    /** `run_process`: the stages in turn; a raised error ends the run.
        `order` is the order in which the skull-strip glob took the input
        images. */
    method RunProcess(input: string, atlas: string, root: string, datasetId: int, configuration: string)
      returns (status: Status, order: seq<string>)
      modifies this
      ensures Enumerates(order, Images(Listing(old(files), input)))
      ensures Step(State(), status)
           == Pipeline(tools, old(State()), Config(input, atlas, root, datasetId, configuration), order)
    {
      var robexDir := root + "/ROBEX";
      var antsDir := root + "/ants";
      var predDir := root + "/predictions";
      status, order := RunRobex(input, robexDir);
      if status.Failed? {
        return;
      }
      RunAnts(robexDir, antsDir, atlas);
      var outList;
      status, outList := RenameAfterAnts(antsDir);
      if status.Failed? {
        return;
      }
      CleanupIntermediate(antsDir, true);
      status := RunNnunet(antsDir, predDir, datasetId, configuration);
    }
  }
}
