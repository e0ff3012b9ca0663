# Stage sequencing and file staging of the TCEC segmentation pipeline

This project models `pipeline.py`, the driver of a brain-MRI segmentation
workflow, and proves properties of that model. The driver hands every
image to three external tools in turn:

1. **ROBEX** strips the skull.
2. **ANTs** (`antsRegistrationSyN.sh`) registers each image to an atlas.
3. **nnU-Net** (`nnUNetv2_predict`) segments the images.

Between steps 2 and 3 the driver renames the registered images to the
names nnU-Net expects (`<subject>_0000.nii.gz`). It then deletes the other
ANTs outputs.

The model covers what the driver decides:

- which commands it gives to `run_cmd`, and in which order;
- which failures end a run and which are skipped;
- how it derives file names;
- what the renaming and cleanup steps do to the files.

The tools themselves are a scripted executor. For each command it says
whether the command succeeded and which files it wrote.

Files:

- `names.dfy` (module `Names`): the string rules:
  - `allowed_file`: `str.split('.')` and `'.'.join`;
  - the ANTs output prefix: `Path.stem`, then everything before the first dot;
  - the nnU-Net name: `str.replace` and the `_0000.nii.gz` suffix;
  - the name patterns of the globs.
- `order.dfy` (module `Order`): Python's ordering of strings, and `sorted()`
  over a listing as the unique strictly ascending arrangement.
- `executor.dfy` (module `Executor`): `run_cmd` and the world it acts on:
  - the world is a set of `(directory, name)` files plus the log of issued
    commands;
  - fatal policy: a loop that raises the first failure (`run_robex`);
  - skip policy: a loop that logs failures and continues (`run_ants`).
- `stages.dfy` (module `Stages`): each stage, and `run_process`, as a
  function from the world before it to the world after it, with the
  lemmas about them.
- `host.dfy` (module `Host`): class `Host`, whose fields `files` and
  `issued` change as the stage methods run their loops. Each method is
  proved to end in the state the matching `Stages` function computes.

## Model

| member | source | states |
|---|---|---|
| Names.ExtensionAfterFirstDot | pipeline.py:63 | the extension `allowed_file` computes is empty for a name without a dot, and otherwise everything after the first dot |
| Names.JoinSplit | pipeline.py:63 | joining the parts of `name.split('.')` with dots gives back the name |
| Names.SplitJoin | pipeline.py:63 | splitting a join of dot-free parts (at least one) gives back the parts |
| Names.AllowedFileIff | pipeline.py:62-64 | a name is allowed exactly when it ends in `.nii.gz` and has no dot before that suffix |
| Names.AllowedFileExample | pipeline.py:58-64 | `x.nii.gz` is allowed |
| Names.AllowedFileRefusals | pipeline.py:58-64 | `x.nii` and `noext` are not allowed |
| Names.AllowedFileStricterThanGlob | pipeline.py:58-64 | `a.b.nii.gz` is not allowed, although it matches the `*.nii.gz` glob the stages use |
| Names.AllowedFileIsImage | pipeline.py:62-64 | every allowed name is matched by the `*.nii.gz` glob the stages use |
| Names.OutputPrefixUpToFirstDot | pipeline.py:159 | for a `*.nii.gz` image, `img_path.stem.split(".")[0]` is the part of the name before its first dot, and contains no dot |
| Names.OutputPrefixOfImage | pipeline.py:159 | the ANTs output prefix of `<base>.nii.gz` is `<base>` when the base has no dot |
| Names.OutputPrefixExample | pipeline.py:159 | the ANTs output prefix of `sub1.nii.gz` is `sub1` |
| Names.ReplaceAbsent | pipeline.py:211 | `str.replace` changes nothing when the pattern does not occur |
| Names.ReplaceTrailingMarker | pipeline.py:211 | removing every `Warped.nii.gz` from `s + "Warped.nii.gz"` gives the same result as removing every occurrence from `s` |
| Names.NewNameOfRegistered | pipeline.py:210-212 | a registered image `<base>Warped.nii.gz`, whose base has no other marker, is renamed `<base>_0000.nii.gz` |
| Names.NewNameExample | pipeline.py:210-212 | `sub1Warped.nii.gz` is renamed `sub1_0000.nii.gz` |
| Names.NewNameRemovesEveryMarker | pipeline.py:211-212 | every occurrence of the marker is removed, so `aWarped.nii.gzWarped.nii.gz` and `aWarped.nii.gz` both become `a_0000.nii.gz` |
| Names.WarpedNameRenamed | pipeline.py:194-212 | a name ending in `Warped.nii.gz` passes the `in` guard and is not a final name; its new name is a final name and differs from it, so cleanup keeps the renamed file |
| Names.ContainsSuffix | pipeline.py:194-210 | a name the `*Warped.nii.gz` glob matches contains the marker the loop tests for |
| Order.LeReflexive | pipeline.py:86 | Python string comparison `<=` is reflexive |
| Order.LeAntisymmetric | pipeline.py:86 | it is antisymmetric |
| Order.LeTransitive | pipeline.py:86 | it is transitive |
| Order.LeTotal | pipeline.py:86 | it is total |
| Order.LeastExists | pipeline.py:86 | every non-empty listing has a least name |
| Order.SortedOf | pipeline.py:86 | `sorted()` of a listing holds exactly the listed names, each once, in strictly ascending order |
| Order.SortedHeadIsLeast | pipeline.py:157 | the first element of a sorted listing is its least name |
| Order.SortedOfLeast | pipeline.py:86 | `sorted()` of a listing is its least name followed by `sorted()` of the other names |
| Order.SortedPosition | pipeline.py:86-98 | in a sorted listing a smaller name comes earlier, so the first name the loop rejects is the least rejected name |
| Order.SortedUnique | pipeline.py:198 | any strictly ascending arrangement of a listing equals `sorted()` of it, so the order of the glob does not affect the result |
| Executor.Listing | pipeline.py:86 | `glob("*")` yields exactly the names of the files in the directory |
| Executor.FirstFailure | pipeline.py:36-39 | the position of the first failing command: every earlier command succeeds, and the one there fails |
| Executor.RunAllAttemptsEvery | pipeline.py:170-174 | under the skip-and-continue policy every command is issued, in order, whatever exit status each returns, and everything each one writes appears |
| Executor.RunFatalStopsAtFirstFailure | pipeline.py:36-39 | under the raise policy the commands up to and including the first failure are issued and no later one; the error names that command; with no failure every command runs |
| Executor.RunFatalDoneIff | pipeline.py:36-39 | a loop under the raise policy completes exactly when every command succeeds |
| Stages.FirstRejected | pipeline.py:91-98 | the position of the first name that is not an allowed file: every earlier name is allowed |
| Stages.InputCheckOutcome | pipeline.py:83-98 | `verify_inputs` reports an empty directory exactly when the directory is empty. It passes exactly when the directory is non-empty and every name is allowed. A non-empty directory with a name that is not allowed reports `UnsupportedFile`, and the name reported is in the directory, is not allowed, and is the least such name |
| Stages.DigitsAreDigits | pipeline.py:253 | `str()` of a natural number is a non-empty string of decimal digits |
| Stages.DigitsRoundTrip | pipeline.py:253 | the digits of `str(n)` read back as `n` |
| Stages.DecimalTextRoundTrip | pipeline.py:253 | the `-d` argument `str(dataset_id)` reads back as the dataset id, negative ids included |
| Stages.RobexOutcome | pipeline.py:127-131 | skull stripping completes exactly when every command succeeds. It then issued one command per input image, in the glob's order, each writing under the same name in the output directory |
| Stages.RobexBlock | pipeline.py:114-131 | skull stripping appends only ROBEX commands to the log |
| Stages.AntsAttemptsEveryImage | pipeline.py:150-176 | registration issues one command per `*.nii.gz` image of the source directory, in sorted order, whatever exit status each command returns. Each command has the fixed flags, the atlas, the image, and the output prefix up to the image's first dot. Every file written appears. A command's failure is a non-zero exit status (see Left out) |
| Stages.AntsBlock | pipeline.py:150-176 | registration appends only ANTs commands to the log |
| Stages.MovedCons | pipeline.py:209-217 | renaming the first image and then the rest equals renaming them all at once, because a new name is never a registered image |
| Stages.MoveAllIsFatalLoop | pipeline.py:209-217 | the renaming loop issues its `mv` commands under the raise policy: its status and log are those of the generic raising loop over the same commands |
| Stages.MoveAllStatus | pipeline.py:209-217 | the renaming loop raises the first failing `mv`, and completes when none fails |
| Stages.MoveAllIssued | pipeline.py:209-217 | the renaming loop issues the `mv` commands up to and including the first failure, and no later one |
| Stages.MoveAllFiles | pipeline.py:209-217 | the renaming loop renames exactly the images before the first failing `mv` |
| Stages.ListingMoved | pipeline.py:213-216 | renaming removes exactly the renamed names from the directory and adds their new names; other directories are untouched |
| Stages.CandidatesAreRegistered | pipeline.py:193-198 | the collected images are exactly the names of the directory that end in `Warped.nii.gz` and not in `InverseWarped.nii.gz`: every collected image is one, and every such name is collected |
| Stages.RenameNothingRegistered | pipeline.py:193-206 | with no registered image the stage raises `NoRegisteredImages` before any `mv`. In that case no name of the directory ends in `Warped.nii.gz` without ending in `InverseWarped.nii.gz` |
| Stages.RenameDoneIff | pipeline.py:193-217 | renaming completes exactly when some image is registered and every `mv` succeeds |
| Stages.RenameOutcome | pipeline.py:190-220 | when some image is registered and every `mv` succeeds, the stage completes, every `mv` was issued, and the returned list gives the new path of each image, in sorted order of the images |
| Stages.RenameListing | pipeline.py:208-217 | when some image is registered and every `mv` succeeds, the directory holds its former names less the registered images plus their new names; other directories are untouched |
| Stages.RenameBlock | pipeline.py:208-217 | renaming appends only `mv` commands to the log |
| Stages.RenameCollisionLosesFile | pipeline.py:209-216 | two registered images with the same new name both renamed successfully leave one file where there were two: the second `mv` overwrites the first one's result |
| Stages.CollidingCandidates | pipeline.py:194-212 | such a pair exists: `aWarped.nii.gz` and `aWarped.nii.gzWarped.nii.gz` are both registered images and both become `a_0000.nii.gz` |
| Stages.CleanupOutcome | pipeline.py:274-283 | after cleanup the directory holds exactly its former `_0000.nii.gz` names (with `keep_registered`) or nothing (without it). Other directories are untouched, and a second cleanup changes nothing |
| Stages.BlocksInStageOrder | pipeline.py:315-319 | a log made of ROBEX, then ANTs, then `mv`, then inference commands is in stage order |
| Stages.PipelineBlocks | pipeline.py:308-321 | a run's log is its skull-strip commands, then registration commands, then `mv` commands, then the inference command exactly when the run reached inference. A skull-strip failure leaves no registration or `mv` command |
| Stages.BlocksEndWith | pipeline.py:315-319 | a log of stage blocks is in stage order, and its only inference command is its last one |
| Stages.PipelineStageOrder | pipeline.py:308-321 | a run only appends to the log, in stage order. The inference command appears at most once, as the last command, exactly when skull stripping and renaming completed. A skull-strip failure leaves only skull-strip commands |
| Stages.PipelineOutcome | pipeline.py:308-321 | a run completes exactly when it reaches inference and inference succeeds. A failed inference is raised with its command. A failed skull strip ends the run as that stage left it. After a completed skull strip, a failed renaming (nothing registered, or a failed `mv`) ends the run exactly as the renaming left it, with the renaming's error: no cleanup and no inference |
| Stages.PipelineNothingRegistered | pipeline.py:200-206 | when registration leaves no registered image, the run ends with `NoRegisteredImages` in the world registration left: no `mv`, no cleanup, no inference |
| Stages.FinalsAfterRename | pipeline.py:210-212 | after renaming, the `_0000.nii.gz` names of a directory are the ones it had plus the new names of the registered images |
| Stages.InferenceInput | pipeline.py:317-319 | when inference runs, the directory it reads holds at least one renamed image and exactly the renamed images plus any `_0000.nii.gz` names that were already there |
| Host.Enumerate | pipeline.py:127 | a glob yields every name of the listing exactly once, in an order of its choosing |
| Host.Host.constructor | pipeline.py:308 | a host starts with the given files and an empty command log |
| Host.Host.Run | pipeline.py:28-42 | `run_cmd` logs the command, adds the files it writes, and returns its exit status |
| Host.Host.Move | pipeline.py:216 | `mv src dst` is logged; on success `src` is gone and `dst` exists, replacing any earlier `dst`; on failure the files are unchanged |
| Host.Host.Unlink | pipeline.py:283 | `unlink` removes the file and issues no command |
| Host.Host.VerifyInputs | pipeline.py:83-98 | the loop over the sorted listing returns the status `Stages.InputCheck` gives, so `Stages.InputCheckOutcome` describes it |
| Host.Host.RunRobex | pipeline.py:114-131 | the loop enumerates each input image once and ends in the state and status of `Stages.Robex` for that order |
| Host.Host.RunAnts | pipeline.py:150-176 | the loop ends in the state of `Stages.Ants` |
| Host.Host.RegisteredImages | pipeline.py:193-198 | the glob-and-filter loop followed by `sorted()` yields exactly the registered images in sorted order |
| Host.Host.MoveRegistered | pipeline.py:208-220 | the `mv` loop ends in the state and status of `Stages.MoveAll` and returns the new paths exactly when it completes |
| Host.Host.RenameAfterAnts | pipeline.py:190-220 | the stage ends in the state, status and returned list of `Stages.Rename` |
| Host.Host.CleanupIntermediate | pipeline.py:274-283 | the unlink loop leaves exactly `Stages.Cleaned` of the former files and issues no command |
| Host.Host.RunNnunet | pipeline.py:243-257 | one inference command is issued and its failure is raised, as `Stages.Nnunet` |
| Host.Host.RunProcess | pipeline.py:308-321 | the whole run ends in the state and status of `Stages.Pipeline`, with the skull-strip glob enumerating the input images |

## Left out

- Console output: the `print` calls, the captured stdout and stderr, the diagnostic listing before `NoRegisteredImages` is raised, and the text of the error messages. An error is modelled by its kind and, for a failed command, the command.
- The internals of ROBEX, ANTs and nnU-Net. A tool's reply is a parameter: success or failure, plus the files it wrote. A tool's files are kept even when it fails. A reply depends only on the command, which is enough because no command is given twice in one run.
- `chmod` of the ROBEX script (pipeline.py:119-125). Its failure is caught and ignored, so it does not change what the pipeline does.
- `mkdir` of the output directories. Directories are not entries of the model, so `glob("*")` never yields a sub-directory and `unlink` never meets one.
- `Path.resolve()`. A path's text is `directory + "/" + name`, with no resolution to an absolute path.
- Host.Enumerate: the order of an unsorted glob is not modelled. The model allows any order; the skull-strip stage reports the order it used, and every result holds for every order.
- The listing is taken once, before each loop. A lazy `Path.glob` that sees files the loop itself creates, for example when ROBEX writes into its own input directory, is not modelled.
- Path.stem is modelled with the classic rule: the last dot, not at the start and not at the end. Differences between Python versions for names ending in a dot are not modelled.
- `main()` and its fixed paths.
- `run_process` does not call `verify_inputs`; the model follows the code. The validation runs only when it is called on its own.
- Executor.RunAll / Stages.Ants: every failure of a tool is modelled as a non-zero exit status, which `run_cmd` turns into `RuntimeError` (pipeline.py:36-39) and `run_ants` skips (pipeline.py:170-174). Errors raised before a status exists are not modelled: a script that cannot be started (`FileNotFoundError`, `PermissionError`) or output that cannot be decoded as text (`UnicodeDecodeError`) escape `except RuntimeError` and end the run at that image, in every stage.
- Renaming has no guard against overwriting an existing target name. The model follows the code: `Stages.RenameCollisionLosesFile` shows that the later `mv` wins and a file is lost.
