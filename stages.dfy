/** The stages of pipeline.py as functions from the world before a stage to
    the world after it: the commands each stage gives to `run_cmd`, in which
    order, what its failure policy does with a failed command, and what it
    does to the files. The class in host.dfy runs the stages step by step and
    is proved to agree with these functions. */
module Stages {
  import opened Names
  import opened Order
  import opened Executor

  const ROBEX_SCRIPT := "ROBEX/runROBEX.sh"
  const ANTS_SCRIPT := "/usr/local/bin/antsRegistrationSyN.sh"
  const MOVE_PROGRAM := "mv"
  const NNUNET_PROGRAM := "nnUNetv2_predict"

  /** The arguments of `run_process`. */
  datatype Config = Config(input: string, atlas: string, root: string, datasetId: int, configuration: string)

  function RobexDir(root: string): string { root + "/ROBEX" }
  function AntsDir(root: string): string { root + "/ants" }
  function PredDir(root: string): string { root + "/predictions" }

  /** `str(n)` for an integer. */
  function DecimalText(n: int): string {
    if n < 0 then "-" + Digits(-n) else Digits(n)
  }

  function Digits(n: nat): string
    decreases n
  {
    (if n < 10 then "" else Digits(n / 10)) + [('0' as int + n % 10) as char]
  }

  /** The value of a string of decimal digits. */
  function DigitsValue(s: string): int
    decreases |s|
  {
    if s == [] then 0 else 10 * DigitsValue(s[..|s| - 1]) + (s[|s| - 1] as int - '0' as int)
  }

  /** `int()` of a decimal text with an optional leading minus sign. */
  function DecimalValue(s: string): int {
    if s != [] && s[0] == '-' then -DigitsValue(s[1..]) else DigitsValue(s)
  }

  /** `str()` of a natural number is a non-empty text of digits. */
  lemma {:induction false} DigitsAreDigits(n: nat)
    ensures Digits(n) != []
    ensures forall i :: 0 <= i < |Digits(n)| ==> '0' <= Digits(n)[i] <= '9'
    decreases n
  {
    if n >= 10 {
      DigitsAreDigits(n / 10);
    }
  }

  lemma {:induction false} DigitsRoundTrip(n: nat)
    ensures DigitsValue(Digits(n)) == n
    decreases n
  {
    var d := Digits(n);
    var r := n % 10;
    var c := ('0' as int + r) as char;
    assert c as int - '0' as int == r;
    if n >= 10 {
      var q := n / 10;
      DigitsRoundTrip(q);
      assert d == Digits(q) + [c];
      assert d[..|d| - 1] == Digits(q);
    } else {
      assert d == [c];
      assert d[..|d| - 1] == [];
    }
  }

  /** The dataset id passed to the inference tool reads back as the same
      integer. */
  lemma DecimalTextRoundTrip(n: int)
    ensures DecimalValue(DecimalText(n)) == n
  {
    if n < 0 {
      NegativeRoundTrip(n);
    } else {
      NonNegativeRoundTrip(n);
    }
  }

  lemma NegativeRoundTrip(n: int)
    requires n < 0
    ensures DecimalValue(DecimalText(n)) == n
  {
    DigitsRoundTrip(-n);
    MinusValue(Digits(-n));
  }

  /** A leading minus sign negates the value of the digits after it. */
  lemma MinusValue(d: string)
    ensures DecimalValue("-" + d) == -DigitsValue(d)
  {
    var t := "-" + d;
    assert t[0] == '-' && t[1..] == d;
  }

  lemma NonNegativeRoundTrip(n: int)
    requires n >= 0
    ensures DecimalValue(DecimalText(n)) == n
  {
    var t := DecimalText(n);
    DigitsRoundTrip(n);
    DigitsAreDigits(n);
    assert t == Digits(n);
    assert t[0] != '-';
  }

  /** The names `glob("*.nii.gz")` yields from a listing. */
  function Images(names: set<string>): set<string> {
    set n | n in names && IsImage(n)
  }

  /** `order` lists every name of `s` exactly once. */
  ghost predicate Enumerates(order: seq<string>, s: set<string>) {
    && (forall i, j :: 0 <= i < j < |order| ==> order[i] != order[j])
    && (forall x :: x in order <==> x in s)
  }

  // ---------------------------------------------------------------- input check

  /** The position of the first name that is not an allowed file, or the
      length if every name is allowed. */
  function FirstRejected(order: seq<string>): (k: nat)
    ensures k <= |order|
    ensures forall i :: 0 <= i < k ==> AllowedFile(order[i])
    ensures k < |order| ==> !AllowedFile(order[k])
  {
    if order == [] || !AllowedFile(order[0]) then 0
    else 1 + FirstRejected(order[1..])
  }

  /** `verify_inputs` on the names of the input directory: an empty
      directory is refused; otherwise the names are checked in sorted order
      and the first one that is not an allowed file is reported. */
  function InputCheck(names: set<string>): Status {
    if names == {} then Failed(EmptyInput)
    else
      var order := SortedOf(names);
      var k := FirstRejected(order);
      if k == |order| then Done else Failed(UnsupportedFile(order[k]))
  }

  /** The input check refuses exactly the empty directory with `EmptyInput`,
      passes exactly when every name is an allowed file, and otherwise
      reports `UnsupportedFile` with the least name that is not allowed. */
  lemma InputCheckOutcome(names: set<string>)
    ensures InputCheck(names) == Failed(EmptyInput) <==> names == {}
    ensures InputCheck(names) == Done <==> names != {} && forall n :: n in names ==> AllowedFile(n)
    ensures names != {} && (exists n :: n in names && !AllowedFile(n)) ==>
      InputCheck(names).Failed? && InputCheck(names).fault.UnsupportedFile?
    ensures InputCheck(names).Failed? && InputCheck(names).fault.UnsupportedFile? ==>
      var n := InputCheck(names).fault.name;
      && n in names && !AllowedFile(n)
      && forall m :: m in names && Lt(m, n) ==> AllowedFile(m)
  {
    if names != {} {
      var order := SortedOf(names);
      var k := FirstRejected(order);
      if k < |order| {
        var n := order[k];
        assert InputCheck(names) == Failed(UnsupportedFile(n));
        assert n in names;
        forall m | m in names && Lt(m, n) ensures AllowedFile(m) {
          var j :| 0 <= j < |order| && order[j] == m;
          SortedPosition(order, j, k);
        }
      } else {
        assert InputCheck(names) == Done;
        forall n | n in names ensures AllowedFile(n) {
          var j :| 0 <= j < |order| && order[j] == n;
        }
      }
    }
  }

  // ---------------------------------------------------------------- skull strip

  function RobexCommand(input: string, out: string, name: string): Command {
    [ROBEX_SCRIPT, PathText(Path(input, name)), PathText(Path(out, name))]
  }

  function RobexCommands(input: string, out: string, order: seq<string>): seq<Command> {
    seq(|order|, i requires 0 <= i < |order| => RobexCommand(input, out, order[i]))
  }

  /** `run_robex`, with the images taken in the glob's `order`: one command
      per image; the first failure is raised. */
  function Robex(tools: Tools, w: World, input: string, out: string, order: seq<string>): Step {
    RunFatal(tools, w, RobexCommands(input, out, order))
  }

  /** Skull stripping completes exactly when every command succeeds; it
      then has given one command per input image, in the glob's order, each
      writing the image under the same name in the output directory. */
  lemma RobexOutcome(tools: Tools, w: World, input: string, out: string, order: seq<string>)
    ensures var r := Robex(tools, w, input, out, order);
      r.status == Done <==> AllSucceed(tools, RobexCommands(input, out, order))
    ensures var r := Robex(tools, w, input, out, order);
      r.status == Done ==>
        && r.world.issued == w.issued + RobexCommands(input, out, order)
        && |r.world.issued| == |w.issued| + |order|
        && forall i :: 0 <= i < |order| ==>
             r.world.issued[|w.issued| + i] ==
               [ROBEX_SCRIPT, PathText(Path(input, order[i])), PathText(Path(out, order[i]))]
  {
    var cmds := RobexCommands(input, out, order);
    RunFatalDoneIff(tools, w, cmds);
    RunFatalStopsAtFirstFailure(tools, w, cmds);
    var k := FirstFailure(tools, cmds);
    if k == |cmds| {
      var iss := Robex(tools, w, input, out, order).world.issued;
      forall i | 0 <= i < |order|
        ensures iss[|w.issued| + i] == [ROBEX_SCRIPT, PathText(Path(input, order[i])), PathText(Path(out, order[i]))]
      {
        assert iss[|w.issued| + i] == cmds[i];
      }
    }
  }

  // ---------------------------------------------------------------- registration

  function AntsCommand(src: string, dst: string, atlas: string, name: string): Command {
    [ANTS_SCRIPT, "-d", "3", "-f", atlas, "-m", PathText(Path(src, name)),
     "-o", PathText(Path(dst, OutputPrefix(name)))]
  }

  function AntsCommands(src: string, dst: string, atlas: string, order: seq<string>): seq<Command> {
    seq(|order|, i requires 0 <= i < |order| => AntsCommand(src, dst, atlas, order[i]))
  }

  /** `run_ants`: one command per image in sorted order; failures are logged
      and skipped. */
  function Ants(tools: Tools, w: World, src: string, dst: string, atlas: string): World {
    RunAll(tools, w, AntsCommands(src, dst, atlas, SortedOf(Images(Listing(w.files, src)))))
  }

  /** Every image of the source directory is registered, in sorted order,
      with the prefix up to its first dot, whichever commands fail; the stage
      never raises. */
  lemma AntsAttemptsEveryImage(tools: Tools, w: World, src: string, dst: string, atlas: string)
    ensures var order := SortedOf(Images(Listing(w.files, src)));
      var w' := Ants(tools, w, src, dst, atlas);
      && |w'.issued| == |w.issued| + |order|
      && w'.issued[..|w.issued|] == w.issued
      && (forall i :: 0 <= i < |order| ==>
            w'.issued[|w.issued| + i] ==
              [ANTS_SCRIPT, "-d", "3", "-f", atlas, "-m", PathText(Path(src, order[i])),
               "-o", PathText(Path(dst, BeforeFirstDot(order[i])))])
      && w'.files == w.files + Created(tools, AntsCommands(src, dst, atlas, order))
  {
    var order := SortedOf(Images(Listing(w.files, src)));
    var cmds := AntsCommands(src, dst, atlas, order);
    RunAllAttemptsEvery(tools, w, cmds);
    var w' := Ants(tools, w, src, dst, atlas);
    assert w'.issued == w.issued + cmds;
    forall i | 0 <= i < |order|
      ensures w'.issued[|w.issued| + i] ==
        [ANTS_SCRIPT, "-d", "3", "-f", atlas, "-m", PathText(Path(src, order[i])),
         "-o", PathText(Path(dst, BeforeFirstDot(order[i])))]
    {
      assert w'.issued[|w.issued| + i] == cmds[i] == AntsCommand(src, dst, atlas, order[i]);
      assert order[i] in Images(Listing(w.files, src));
      OutputPrefixUpToFirstDot(order[i]);
    }
  }

  // ---------------------------------------------------------------- renaming

  /** The registered images `rename_after_ants` picks, in sorted order. */
  function Candidates(names: set<string>): seq<string> {
    SortedOf(set n | n in names && IsCandidate(n))
  }

  function RenameCommand(d: string, name: string): Command {
    [MOVE_PROGRAM, PathText(Path(d, name)), PathText(Path(d, NewName(name)))]
  }

  function RenameCommands(d: string, names: seq<string>): seq<Command> {
    seq(|names|, i requires 0 <= i < |names| => RenameCommand(d, names[i]))
  }

  function NewPaths(d: string, names: seq<string>): seq<Path> {
    seq(|names|, i requires 0 <= i < |names| => Path(d, NewName(names[i])))
  }

  /** The renaming loop: `mv` each name to its new name in the same
      directory, overwriting whatever has that name; a failed `mv` is raised. */
  function MoveAll(tools: Tools, w: World, d: string, names: seq<string>): Step
    decreases |names|
  {
    if names == [] then Step(w, Done)
    else
      var c := RenameCommand(d, names[0]);
      if tools(c).ok then
        MoveAll(tools, World(w.files - {Path(d, names[0])} + {Path(d, NewName(names[0]))}, w.issued + [c]),
                d, names[1..])
      else Step(World(w.files, w.issued + [c]), Failed(CommandFailed(c)))
  }

  /** One step of the renaming loop, taken at position `i`. */
  lemma MoveAllFrom(tools: Tools, w: World, d: string, names: seq<string>, i: nat)
    requires i < |names|
    ensures var c := RenameCommand(d, names[i]);
      MoveAll(tools, w, d, names[i..]) ==
        if tools(c).ok then
          MoveAll(tools, World(w.files - {Path(d, names[i])} + {Path(d, NewName(names[i]))}, w.issued + [c]),
                  d, names[i + 1..])
        else Step(World(w.files, w.issued + [c]), Failed(CommandFailed(c)))
  {
    assert names[i..][0] == names[i] && names[i..][1..] == names[i + 1..];
  }

  lemma NewPathsSnoc(d: string, names: seq<string>, i: nat)
    requires i < |names|
    ensures NewPaths(d, names[..i + 1]) == NewPaths(d, names[..i]) + [Path(d, NewName(names[i]))]
  {
  }

  /** `rename_after_ants`: the new world, and the list of new paths it returns. */
  function Rename(tools: Tools, w: World, d: string): (Step, seq<Path>) {
    var cands := Candidates(Listing(w.files, d));
    if cands == [] then (Step(w, Failed(NoRegisteredImages)), [])
    else
      var s := MoveAll(tools, w, d, cands);
      (s, if s.status == Done then NewPaths(d, cands) else [])
  }

  /** The files once `names` are renamed in directory `d`. */
  function Moved(files: set<Path>, d: string, names: seq<string>): set<Path> {
    (files - set n | n in names :: Path(d, n)) + set n | n in names :: Path(d, NewName(n))
  }

  lemma MovedCons(files: set<Path>, d: string, names: seq<string>)
    requires names != []
    requires forall i :: 0 <= i < |names| ==> EndsWith(names[i], WARPED_MARKER)
    ensures Moved(files - {Path(d, names[0])} + {Path(d, NewName(names[0]))}, d, names[1..])
         == Moved(files, d, names)
  {
    var n0 := names[0];
    WarpedNameRenamed(n0);
    forall i | 1 <= i < |names| ensures names[i] != NewName(n0) {
      WarpedNameRenamed(names[i]);
    }
    assert forall n :: n in names <==> n == n0 || n in names[1..];
  }

  lemma RenameCommandsTail(d: string, names: seq<string>)
    requires names != []
    ensures RenameCommands(d, names)[0] == RenameCommand(d, names[0])
    ensures RenameCommands(d, names[1..]) == RenameCommands(d, names)[1..]
  {
  }

  /** The renaming loop issues its `mv` commands under the raise policy:
      its log and status are those of the generic loop over the same
      commands, whatever each loop does to the files. */
  lemma {:induction false} MoveAllIsFatalLoop(tools: Tools, w: World, v: World, d: string, names: seq<string>)
    requires w.issued == v.issued
    ensures var m := MoveAll(tools, w, d, names);
      var r := RunFatal(tools, v, RenameCommands(d, names));
      m.status == r.status && m.world.issued == r.world.issued
    decreases |names|
  {
    if names != [] {
      var cmds := RenameCommands(d, names);
      RenameCommandsTail(d, names);
      var c := cmds[0];
      if tools(c).ok {
        var w' := World(w.files - {Path(d, names[0])} + {Path(d, NewName(names[0]))}, w.issued + [c]);
        MoveAllIsFatalLoop(tools, w', Apply(tools, v, c), d, names[1..]);
      }
    }
  }

  /** The renaming loop raises the first failing `mv`, and completes when none fails. */
  lemma MoveAllStatus(tools: Tools, w: World, d: string, names: seq<string>)
    ensures var cmds := RenameCommands(d, names);
      var k := FirstFailure(tools, cmds);
      MoveAll(tools, w, d, names).status == if k == |cmds| then Done else Failed(CommandFailed(cmds[k]))
  {
    MoveAllIsFatalLoop(tools, w, w, d, names);
    RunFatalStopsAtFirstFailure(tools, w, RenameCommands(d, names));
  }

  /** The renaming loop runs the `mv` commands up to and including the first
      failing one, and no later one. */
  lemma MoveAllIssued(tools: Tools, w: World, d: string, names: seq<string>)
    ensures var cmds := RenameCommands(d, names);
      var k := FirstFailure(tools, cmds);
      MoveAll(tools, w, d, names).world.issued == w.issued + cmds[..if k < |cmds| then k + 1 else k]
  {
    var cmds := RenameCommands(d, names);
    MoveAllIsFatalLoop(tools, w, w, d, names);
    RunFatalStopsAtFirstFailure(tools, w, cmds);
    assert cmds[..|cmds|] == cmds;
  }

  /** The renaming loop renames exactly the names before the first failing `mv`. */
  lemma {:induction false} MoveAllFiles(tools: Tools, w: World, d: string, names: seq<string>)
    requires forall i :: 0 <= i < |names| ==> EndsWith(names[i], WARPED_MARKER)
    ensures var k := FirstFailure(tools, RenameCommands(d, names));
      MoveAll(tools, w, d, names).world.files == Moved(w.files, d, names[..k])
    decreases |names|
  {
    var cmds := RenameCommands(d, names);
    var k := FirstFailure(tools, cmds);
    if names == [] {
      assert Moved(w.files, d, []) == w.files;
    } else {
      var c := cmds[0];
      if tools(c).ok {
        var w' := World(w.files - {Path(d, names[0])} + {Path(d, NewName(names[0]))}, w.issued + [c]);
        MoveAllFiles(tools, w', d, names[1..]);
        var rest := cmds[1..];
        RenameCommandsTail(d, names);
        var k' := FirstFailure(tools, rest);
        assert k == k' + 1;
        var done := names[..k];
        assert done[0] == names[0] && done[1..] == names[1..][..k'];
        assert forall i :: 0 <= i < |done| ==> done[i] == names[i];
        MovedCons(w.files, d, done);
      } else {
        assert k == 0 && names[..k] == [];
        assert Moved(w.files, d, []) == w.files;
      }
    }
  }

  /** The names of a directory once `cands` are renamed. */
  function Renamed(names: set<string>, cands: seq<string>): set<string> {
    (names - (set n | n in cands)) + (set n | n in cands :: NewName(n))
  }

  /** Every candidate is a registered image of the listing. */
  lemma CandidatesAreRegistered(names: set<string>)
    ensures var cands := Candidates(names);
      forall i :: 0 <= i < |cands| ==> cands[i] in names && IsCandidate(cands[i]) && EndsWith(cands[i], WARPED_MARKER)
    ensures forall n :: n in names && IsCandidate(n) ==> n in Candidates(names)
  {
    var cands := Candidates(names);
    forall i | 0 <= i < |cands| ensures cands[i] in names && IsCandidate(cands[i]) {
      assert cands[i] in cands;
    }
  }

  /** Renaming `names` in `d` removes exactly those names from the listing of
      `d` and adds their new names; other directories are untouched. */
  lemma ListingMoved(files: set<Path>, d: string, names: seq<string>)
    ensures Listing(Moved(files, d, names), d) == Renamed(Listing(files, d), names)
    ensures forall p: Path :: p.dir != d ==> (p in Moved(files, d, names) <==> p in files)
  {
    var l := Listing(Moved(files, d, names), d);
    var r := (Listing(files, d) - (set n | n in names)) + (set n | n in names :: NewName(n));
    forall n ensures n in l <==> n in r {
      if n in r && n !in Listing(files, d) - (set n | n in names) {
        var m :| m in names && n == NewName(m);
        assert Path(d, n) == Path(d, NewName(m));
      }
    }
  }

  /** When no file is registered the stage raises before anything is moved
      or run. */
  lemma RenameNothingRegistered(tools: Tools, w: World, d: string)
    requires Candidates(Listing(w.files, d)) == []
    ensures Rename(tools, w, d) == (Step(w, Failed(NoRegisteredImages)), [])
    ensures forall n :: n in Listing(w.files, d) ==> !IsCandidate(n)
  {
    var names := Listing(w.files, d);
    var cset := set m | m in names && IsCandidate(m);
    assert |cset| == |Candidates(names)| == 0;
    assert cset == {};
    forall n | n in names ensures !IsCandidate(n) {
      assert n !in cset;
    }
  }

  /** When every `mv` succeeds, the stage completes, every `mv` has been
      run, and the returned paths are the new names of the candidates, one
      for one and in sorted order of the candidates. */
  lemma RenameOutcome(tools: Tools, w: World, d: string)
    requires Candidates(Listing(w.files, d)) != []
    requires AllSucceed(tools, RenameCommands(d, Candidates(Listing(w.files, d))))
    ensures var cands := Candidates(Listing(w.files, d));
      var r := Rename(tools, w, d);
      && r.0.status == Done
      && r.0.world.issued == w.issued + RenameCommands(d, cands)
      && |r.1| == |cands|
      && (forall i :: 0 <= i < |cands| ==> r.1[i] == Path(d, NewName(cands[i])))
  {
    var cands := Candidates(Listing(w.files, d));
    var cmds := RenameCommands(d, cands);
    var k := FirstFailure(tools, cmds);
    assert k == |cmds|;
    assert cmds[..k] == cmds;
    var s := MoveAll(tools, w, d, cands);
    MoveAllStatus(tools, w, d, cands);
    assert s.status == Done;
    assert Rename(tools, w, d) == (s, NewPaths(d, cands));
    MoveAllIssued(tools, w, d, cands);
  }

  /** When every `mv` succeeds, each candidate has been renamed to its new
      name, and the other names of the directory and every other directory
      are untouched. */
  lemma RenameListing(tools: Tools, w: World, d: string)
    requires Candidates(Listing(w.files, d)) != []
    requires AllSucceed(tools, RenameCommands(d, Candidates(Listing(w.files, d))))
    ensures var files' := Rename(tools, w, d).0.world.files;
      && Listing(files', d) == Renamed(Listing(w.files, d), Candidates(Listing(w.files, d)))
      && (forall p: Path :: p.dir != d ==> (p in files' <==> p in w.files))
  {
    var cands := Candidates(Listing(w.files, d));
    var cmds := RenameCommands(d, cands);
    var k := FirstFailure(tools, cmds);
    assert k == |cmds|;
    assert cands[..k] == cands;
    var s := MoveAll(tools, w, d, cands);
    assert Rename(tools, w, d).0 == s;
    CandidatesAreRegistered(Listing(w.files, d));
    MoveAllFiles(tools, w, d, cands);
    assert s.world.files == Moved(w.files, d, cands);
    ListingMoved(w.files, d, cands);
  }

  /** Without a collision guard, two candidates that get the same new name
      leave one file where there were two: the second `mv` overwrites the
      file the first one produced. */
  lemma RenameCollisionLosesFile(tools: Tools, w: World, d: string, x: string, y: string)
    requires EndsWith(x, WARPED_MARKER) && EndsWith(y, WARPED_MARKER)
    requires x != y && NewName(x) == NewName(y)
    requires Path(d, x) in w.files && Path(d, y) in w.files && Path(d, NewName(x)) !in w.files
    requires tools(RenameCommand(d, x)).ok && tools(RenameCommand(d, y)).ok
    ensures var s := MoveAll(tools, w, d, [x, y]);
      && s.status == Done
      && s.world.files == w.files - {Path(d, x), Path(d, y)} + {Path(d, NewName(x))}
      && |s.world.files| == |w.files| - 1
  {
    var z := Path(d, NewName(x));
    var w1 := World(w.files - {Path(d, x)} + {z}, w.issued + [RenameCommand(d, x)]);
    var w2 := World(w1.files - {Path(d, y)} + {z}, w1.issued + [RenameCommand(d, y)]);
    assert [x, y][1..] == [y] && [y][1..] == [];
    assert MoveAll(tools, w, d, [x, y]) == MoveAll(tools, w1, d, [y]);
    assert MoveAll(tools, w1, d, [y]) == Step(w2, Done);
    var rest := w.files - {Path(d, x), Path(d, y)};
    assert w2.files == rest + {z};
    assert |rest| == |w.files| - 2;
    assert z !in rest;
  }

  /** Such a pair exists: `aWarped.nii.gz` and `aWarped.nii.gzWarped.nii.gz`
      are both registered images and both become `a_0000.nii.gz`. */
  lemma CollidingCandidates()
    ensures var x := "a" + WARPED_MARKER; var y := x + WARPED_MARKER;
      && EndsWith(x, WARPED_MARKER) && EndsWith(y, WARPED_MARKER)
      && x != y && NewName(x) == NewName(y) == "a" + FINAL_SUFFIX
  {
    var x := "a" + WARPED_MARKER;
    var y := x + WARPED_MARKER;
    NewNameRemovesEveryMarker();
    assert |x| != |y|;
    assert x[|x| - |WARPED_MARKER|..] == WARPED_MARKER;
    assert y[|y| - |WARPED_MARKER|..] == WARPED_MARKER;
  }

  // ---------------------------------------------------------------- cleanup

  /** `cleanup_intermediate`: every entry of `d` is deleted, except, when
      `keep`, those whose names end in `_0000.nii.gz`. */
  function Cleaned(files: set<Path>, d: string, keep: bool): set<Path> {
    set p | p in files && (p.dir != d || (keep && IsFinal(p.name)))
  }

  /** After cleanup the directory holds exactly its earlier final names (or
      nothing), other directories are untouched, and a second cleanup
      changes nothing. */
  lemma CleanupOutcome(files: set<Path>, d: string, keep: bool)
    ensures Listing(Cleaned(files, d, keep), d) ==
      if keep then set n | n in Listing(files, d) && IsFinal(n) else {}
    ensures forall p: Path :: p.dir != d ==> (p in Cleaned(files, d, keep) <==> p in files)
    ensures Cleaned(Cleaned(files, d, keep), d, keep) == Cleaned(files, d, keep)
  {
  }

  // ---------------------------------------------------------------- inference

  function NnunetCommand(ants: string, pred: string, datasetId: int, configuration: string): Command {
    [NNUNET_PROGRAM, "-i", ants, "-o", pred, "-d", DecimalText(datasetId), "-c", configuration, "-f", "all"]
  }

  /** `run_nnunet`: one batch command; its failure is raised. */
  function Nnunet(tools: Tools, w: World, ants: string, pred: string, datasetId: int, configuration: string): Step {
    var c := NnunetCommand(ants, pred, datasetId, configuration);
    Step(Apply(tools, w, c), if tools(c).ok then Done else Failed(CommandFailed(c)))
  }

  // ---------------------------------------------------------------- controller

  function AfterRobex(tools: Tools, w0: World, cfg: Config, order: seq<string>): Step {
    Robex(tools, w0, cfg.input, RobexDir(cfg.root), order)
  }

  function AfterAnts(tools: Tools, w1: World, cfg: Config): World {
    Ants(tools, w1, RobexDir(cfg.root), AntsDir(cfg.root), cfg.atlas)
  }

  function AfterRename(tools: Tools, w2: World, cfg: Config): Step {
    Rename(tools, w2, AntsDir(cfg.root)).0
  }

  function BeforeInference(w3: World, cfg: Config): World {
    World(Cleaned(w3.files, AntsDir(cfg.root), true), w3.issued)
  }

  /** `run_process`: skull strip, register, rename, clean up keeping the
      renamed images, infer; a raised error ends the run. `order` is the
      order the skull-strip glob yields the input images in. */
  function Pipeline(tools: Tools, w0: World, cfg: Config, order: seq<string>): Step {
    var s1 := AfterRobex(tools, w0, cfg, order);
    if s1.status.Failed? then s1
    else
      var w2 := AfterAnts(tools, s1.world, cfg);
      var s3 := AfterRename(tools, w2, cfg);
      if s3.status.Failed? then s3
      else Nnunet(tools, BeforeInference(s3.world, cfg), AntsDir(cfg.root), PredDir(cfg.root),
                  cfg.datasetId, cfg.configuration)
  }

  /** Which stage a command belongs to, by its program. */
  function Phase(c: Command): nat {
    if c == [] then 3
    else if c[0] == ROBEX_SCRIPT then 0
    else if c[0] == ANTS_SCRIPT then 1
    else if c[0] == MOVE_PROGRAM then 2
    else 3
  }

  predicate AllInPhase(cmds: seq<Command>, k: nat) {
    forall i :: 0 <= i < |cmds| ==> Phase(cmds[i]) == k
  }

  predicate InStageOrder(cmds: seq<Command>) {
    forall i, j :: 0 <= i < j < |cmds| ==> Phase(cmds[i]) <= Phase(cmds[j])
  }

  lemma BlocksInStageOrder(a: seq<Command>, b: seq<Command>, c: seq<Command>, e: seq<Command>)
    requires AllInPhase(a, 0) && AllInPhase(b, 1) && AllInPhase(c, 2) && AllInPhase(e, 3)
    ensures InStageOrder(a + b + c + e)
  {
    var r := a + b + c + e;
    forall i | 0 <= i < |r|
      ensures Phase(r[i]) == if i < |a| then 0 else if i < |a| + |b| then 1
                             else if i < |a| + |b| + |c| then 2 else 3
    {
      if i < |a| { assert r[i] == a[i]; }
      else if i < |a| + |b| { assert r[i] == b[i - |a|]; }
      else if i < |a| + |b| + |c| { assert r[i] == c[i - |a| - |b|]; }
      else { assert r[i] == e[i - |a| - |b| - |c|]; }
    }
  }

  function InferenceCommand(cfg: Config): Command {
    NnunetCommand(AntsDir(cfg.root), PredDir(cfg.root), cfg.datasetId, cfg.configuration)
  }

  /** The run gets as far as inference: skull stripping and renaming both
      completed. */
  predicate ReachesInference(tools: Tools, w0: World, cfg: Config, order: seq<string>) {
    var s1 := AfterRobex(tools, w0, cfg, order);
    s1.status == Done && AfterRename(tools, AfterAnts(tools, s1.world, cfg), cfg).status == Done
  }

  lemma PrefixInPhase(cmds: seq<Command>, j: nat, k: nat)
    requires AllInPhase(cmds, k) && j <= |cmds|
    ensures AllInPhase(cmds[..j], k)
  {
    forall i | 0 <= i < j ensures Phase(cmds[..j][i]) == k {
      assert cmds[..j][i] == cmds[i];
    }
  }

  lemma RobexCommandsPhase(input: string, out: string, order: seq<string>)
    ensures AllInPhase(RobexCommands(input, out, order), 0)
  {
    var cmds := RobexCommands(input, out, order);
    forall i | 0 <= i < |cmds| ensures Phase(cmds[i]) == 0 {
      assert cmds[i][0] == ROBEX_SCRIPT;
    }
  }

  lemma RenameCommandsPhase(d: string, names: seq<string>)
    ensures AllInPhase(RenameCommands(d, names), 2)
  {
    var cmds := RenameCommands(d, names);
    forall i | 0 <= i < |cmds| ensures Phase(cmds[i]) == 2 {
      assert cmds[i][0] == MOVE_PROGRAM;
    }
  }

  lemma AntsCommandsPhase(src: string, dst: string, atlas: string, order: seq<string>)
    ensures AllInPhase(AntsCommands(src, dst, atlas, order), 1)
  {
    assert ANTS_SCRIPT[0] != ROBEX_SCRIPT[0];
    var cmds := AntsCommands(src, dst, atlas, order);
    forall i | 0 <= i < |cmds| ensures Phase(cmds[i]) == 1 {
      assert cmds[i][0] == ANTS_SCRIPT;
    }
  }

  /** The skull-strip stage appends only skull-strip commands to the log. */
  lemma RobexBlock(tools: Tools, w: World, input: string, out: string, order: seq<string>)
    returns (a: seq<Command>)
    ensures Robex(tools, w, input, out, order).world.issued == w.issued + a
    ensures AllInPhase(a, 0)
  {
    var cmds := RobexCommands(input, out, order);
    RunFatalStopsAtFirstFailure(tools, w, cmds);
    var k := FirstFailure(tools, cmds);
    RobexCommandsPhase(input, out, order);
    if k == |cmds| {
      a := cmds;
    } else {
      a := cmds[..k + 1];
      PrefixInPhase(cmds, k + 1, 0);
    }
  }

  /** The registration stage appends only registration commands to the log. */
  lemma AntsBlock(tools: Tools, w: World, src: string, dst: string, atlas: string)
    returns (b: seq<Command>)
    ensures Ants(tools, w, src, dst, atlas).issued == w.issued + b
    ensures AllInPhase(b, 1)
  {
    var order := SortedOf(Images(Listing(w.files, src)));
    b := AntsCommands(src, dst, atlas, order);
    RunAllAttemptsEvery(tools, w, b);
    AntsCommandsPhase(src, dst, atlas, order);
  }

  /** The renaming stage appends only `mv` commands to the log. */
  lemma RenameBlock(tools: Tools, w: World, d: string) returns (c: seq<Command>)
    ensures Rename(tools, w, d).0.world.issued == w.issued + c
    ensures AllInPhase(c, 2)
  {
    var cands := Candidates(Listing(w.files, d));
    if cands == [] {
      c := [];
    } else {
      MoveAllIssued(tools, w, d, cands);
      var cmds := RenameCommands(d, cands);
      var k := FirstFailure(tools, cmds);
      RenameCommandsPhase(d, cands);
      c := cmds[..if k < |cmds| then k + 1 else k];
      PrefixInPhase(cmds, |c|, 2);
    }
  }

  /** The renaming stage completes exactly when something was registered
      and every `mv` succeeded. */
  lemma RenameDoneIff(tools: Tools, w: World, d: string)
    ensures var cands := Candidates(Listing(w.files, d));
      Rename(tools, w, d).0.status == Done <==> cands != [] && AllSucceed(tools, RenameCommands(d, cands))
  {
    var cands := Candidates(Listing(w.files, d));
    if cands != [] {
      MoveAllStatus(tools, w, d, cands);
      var cmds := RenameCommands(d, cands);
      var k := FirstFailure(tools, cmds);
      if k == |cmds| { assert cmds[..k] == cmds; }
    }
  }

  /** The log of one run, cut into the commands of each stage. */
  lemma PipelineBlocks(tools: Tools, w0: World, cfg: Config, order: seq<string>)
    returns (a: seq<Command>, b: seq<Command>, c: seq<Command>, e: seq<Command>)
    ensures AllInPhase(a, 0) && AllInPhase(b, 1) && AllInPhase(c, 2)
    ensures Pipeline(tools, w0, cfg, order).world.issued == w0.issued + (a + b + c + e)
    ensures e == if ReachesInference(tools, w0, cfg, order) then [InferenceCommand(cfg)] else []
    ensures AfterRobex(tools, w0, cfg, order).status.Failed? ==> b == [] && c == []
  {
    var s1 := AfterRobex(tools, w0, cfg, order);
    a := RobexBlock(tools, w0, cfg.input, RobexDir(cfg.root), order);
    b, c, e := [], [], [];
    if s1.status == Done {
      var w2 := AfterAnts(tools, s1.world, cfg);
      b := AntsBlock(tools, s1.world, RobexDir(cfg.root), AntsDir(cfg.root), cfg.atlas);
      c := RenameBlock(tools, w2, AntsDir(cfg.root));
      if AfterRename(tools, w2, cfg).status == Done {
        e := [InferenceCommand(cfg)];
      }
    }
    Concat4(w0.issued, a, b, c, e);
  }

  lemma Concat4(x: seq<Command>, a: seq<Command>, b: seq<Command>, c: seq<Command>, e: seq<Command>)
    ensures x + a + b + c + e == x + (a + b + c + e)
  {
    assert x + a + b + c + e == x + (a + (b + (c + e)));
    assert a + b + c + e == a + (b + (c + e));
  }

  /** The commands of one run of the pipeline. The run gives the skull-strip
      commands, then the registration commands, then the `mv` commands, then
      the inference command, in that order; the inference command is given
      at most once, as the last command, and exactly when skull stripping
      and renaming completed. A skull-strip failure ends the run before any
      registration. */
  lemma PipelineStageOrder(tools: Tools, w0: World, cfg: Config, order: seq<string>)
    ensures var p := Pipeline(tools, w0, cfg, order);
      |w0.issued| <= |p.world.issued| && p.world.issued[..|w0.issued|] == w0.issued
    ensures var run := Pipeline(tools, w0, cfg, order).world.issued[|w0.issued|..];
      InStageOrder(run)
    ensures var run := Pipeline(tools, w0, cfg, order).world.issued[|w0.issued|..];
      forall i :: 0 <= i < |run| && Phase(run[i]) == 3 ==> i == |run| - 1 && run[i] == InferenceCommand(cfg)
    ensures var run := Pipeline(tools, w0, cfg, order).world.issued[|w0.issued|..];
      (run != [] && run[|run| - 1] == InferenceCommand(cfg)) <==> ReachesInference(tools, w0, cfg, order)
    ensures var run := Pipeline(tools, w0, cfg, order).world.issued[|w0.issued|..];
      AfterRobex(tools, w0, cfg, order).status.Failed? ==> AllInPhase(run, 0)
  {
    var nn := InferenceCommand(cfg);
    assert Phase(nn) == 3;
    var a, b, c, e := PipelineBlocks(tools, w0, cfg, order);
    var run := a + b + c + e;
    var log := Pipeline(tools, w0, cfg, order).world.issued;
    assert log == w0.issued + run;
    assert log[|w0.issued|..] == run;
    BlocksEndWith(a, b, c, e, nn, ReachesInference(tools, w0, cfg, order));
    if AfterRobex(tools, w0, cfg, order).status.Failed? {
      assert run == a;
    }
  }

  /** A log made of the blocks of the four stages, the last block being at
      most the one inference command. */
  lemma BlocksEndWith(a: seq<Command>, b: seq<Command>, c: seq<Command>, e: seq<Command>, nn: Command, reached: bool)
    requires AllInPhase(a, 0) && AllInPhase(b, 1) && AllInPhase(c, 2)
    requires Phase(nn) == 3 && e == if reached then [nn] else []
    ensures var run := a + b + c + e;
      && InStageOrder(run)
      && (forall i :: 0 <= i < |run| && Phase(run[i]) == 3 ==> i == |run| - 1 && run[i] == nn)
      && ((run != [] && run[|run| - 1] == nn) <==> reached)
  {
    var run := a + b + c + e;
    assert AllInPhase(e, 3);
    BlocksInStageOrder(a, b, c, e);
    var m := |a| + |b| + |c|;
    forall i | 0 <= i < m ensures Phase(run[i]) < 3 {
      if i < |a| { assert run[i] == a[i]; }
      else if i < |a| + |b| { assert run[i] == b[i - |a|]; }
      else { assert run[i] == c[i - |a| - |b|]; }
    }
    if !reached && run != [] {
      assert Phase(run[|run| - 1]) < 3;
    }
  }

  /** How one run ends: it completes exactly when it reaches inference and
      inference succeeds; a failed inference is raised with its command; a
      failed skull strip, and after it a failed renaming, end the run as
      that stage left it, with its error and nothing run after it. */
  lemma PipelineOutcome(tools: Tools, w0: World, cfg: Config, order: seq<string>)
    ensures var p := Pipeline(tools, w0, cfg, order);
      p.status == Done <==> ReachesInference(tools, w0, cfg, order) && tools(InferenceCommand(cfg)).ok
    ensures ReachesInference(tools, w0, cfg, order) && !tools(InferenceCommand(cfg)).ok ==>
      Pipeline(tools, w0, cfg, order).status == Failed(CommandFailed(InferenceCommand(cfg)))
    ensures AfterRobex(tools, w0, cfg, order).status.Failed? ==>
      Pipeline(tools, w0, cfg, order) == AfterRobex(tools, w0, cfg, order)
    ensures var s1 := AfterRobex(tools, w0, cfg, order);
      var s3 := AfterRename(tools, AfterAnts(tools, s1.world, cfg), cfg);
      s1.status == Done && s3.status.Failed? ==> Pipeline(tools, w0, cfg, order) == s3
  {
  }

  /** When registration leaves no registered image, the run ends with
      `NoRegisteredImages` in the world registration left: no `mv`, no
      cleanup and no inference. */
  lemma PipelineNothingRegistered(tools: Tools, w0: World, cfg: Config, order: seq<string>)
    requires AfterRobex(tools, w0, cfg, order).status == Done
    requires Candidates(Listing(AfterAnts(tools, AfterRobex(tools, w0, cfg, order).world, cfg).files,
                                AntsDir(cfg.root))) == []
    ensures Pipeline(tools, w0, cfg, order)
         == Step(AfterAnts(tools, AfterRobex(tools, w0, cfg, order).world, cfg), Failed(NoRegisteredImages))
  {
    var w2 := AfterAnts(tools, AfterRobex(tools, w0, cfg, order).world, cfg);
    RenameNothingRegistered(tools, w2, AntsDir(cfg.root));
  }

  /** The final names among a listing after renaming: the final names it
      had, and the new names of the candidates. */
  lemma FinalsAfterRename(names: set<string>, cands: seq<string>)
    requires forall i :: 0 <= i < |cands| ==> IsCandidate(cands[i])
    ensures (set n | n in Renamed(names, cands) && IsFinal(n))
         == (set n | n in names && IsFinal(n)) + (set n | n in cands :: NewName(n))
  {
    var renamed := set n | n in cands :: NewName(n);
    forall n | n in cands ensures !IsFinal(n) {
      var i :| 0 <= i < |cands| && cands[i] == n;
      WarpedNameRenamed(n);
    }
    forall n | n in renamed ensures IsFinal(n) {
      var i :| 0 <= i < |cands| && n == NewName(cands[i]);
      WarpedNameRenamed(cands[i]);
    }
  }

  /** When inference is invoked, the directory it reads holds exactly the
      renamed images together with any final names that were already
      there, and at least one renamed image. */
  lemma InferenceInput(tools: Tools, w0: World, cfg: Config, order: seq<string>)
    requires ReachesInference(tools, w0, cfg, order)
    ensures var ants := AntsDir(cfg.root);
      var w2 := AfterAnts(tools, AfterRobex(tools, w0, cfg, order).world, cfg);
      var w4 := BeforeInference(AfterRename(tools, w2, cfg).world, cfg);
      var cands := Candidates(Listing(w2.files, ants));
      && cands != []
      && Listing(w4.files, ants) ==
           (set n | n in Listing(w2.files, ants) && IsFinal(n)) + (set n | n in cands :: NewName(n))
  {
    var ants := AntsDir(cfg.root);
    var w2 := AfterAnts(tools, AfterRobex(tools, w0, cfg, order).world, cfg);
    var names := Listing(w2.files, ants);
    var cands := Candidates(names);
    RenameDoneIff(tools, w2, ants);
    RenameListing(tools, w2, ants);
    var files3 := AfterRename(tools, w2, cfg).world.files;
    assert Listing(files3, ants) == Renamed(names, cands);
    CleanupOutcome(files3, ants, true);
    assert Listing(BeforeInference(AfterRename(tools, w2, cfg).world, cfg).files, ants)
        == set n | n in Renamed(names, cands) && IsFinal(n);
    CandidatesAreRegistered(names);
    FinalsAfterRename(names, cands);
  }
}
