# Griffr: a verified model of its planning and ordering logic

Griffr installs, patches and launches games. What it writes is large and what it deletes cannot be got back, so the
order of its steps, and what survives a crash between any two of them, decides whether an install is usable. This
project models that logic in Dafny and proves what it guarantees. `dafny verify dfyconfig.toml` checks everything.

| file | models |
|---|---|
| `DependencyGraph` | Kahn's algorithm and its waves, against prerequisite chains and cycles |
| `PatchPlan`, `PatchDependencies` | the patch plan, what its check accepts, and which entry must precede which |
| `PatchRun` | a patch run as a state machine: staging, interleaved entries, deletes, deferred files, crashes |
| `PatchSafety`, `PatchRecovery`, `PatchProgress` | what every step keeps, what a crash leaves, that a run can end |
| `PatchPlanner`, `PatchRebuild`, `PatchReplan` | choosing a source for every entry, doing so again after a crash, and why the new plan passes every check |
| `PatchOutcome` | what planning, a finished run and recovery mean for the files, in terms of paths, sizes and digests |
| `PatchLimits`, `PatchDeletes` | where the checks stop short, and exactly which plans never go wrong |
| `VolumeScheduler` | the batch scheduler that serialises targets sharing a volume |
| `WindowsArguments` | quoting arguments for a Windows parameter line, and the rules by which they are read back |
| `StreamingDownload` | the producer, bounded queue and writer of a download, and resuming one |
| `InstallChange` | the persisted marker of an unfinished change, over runs of commands that may crash |
| `ManifestEntries`, `ContentOwnership`, `TargetTasks` | manifest paths, the two computations of who owns a file, one task per file |
| `ObsoleteCleanup`, `DirectorySweep` | deleting obsolete files in two passes, sweeping empty directories, directory sizes |
| `CanvasPool`, `FlattenTree`, `FlexLayout` | canvases shared by tiles, preorder numbering of widgets, dividing space |
| `SafePath`, `LogicalPath`, `KnownPaths`, `Text` | how a written path is checked and joined, its key, which paths have a role, case and white space |
| `Collections` | what several files use |

Hash functions, the binary-diff codec, the physical key of a path and time parsing are parameters: everything is proved
for any of them. Paths are lists of components, so `/a` being above `/a/b` is being a prefix of it; how they are written
and checked is modelled in `SafePath`. A run of a machine is a list of steps, each enabled where it is taken; a property
of reachable states is proved by an invariant that every step keeps. Failures of the system (disk full, connection lost)
are crashes or stop a run where it stands. Definitions that an operation and its specification share are tied down by
results that are stated without them, such as those of `PatchOutcome`.

Results that are not what the code or its documentation intends:

- A payload is removed with the first entry that used it. If two entries that still have to be produced share one, some
  crash cannot be resumed from, and some run fails; the plan check does not ask for that, and a valid plan may violate it
  (`PatchProgress.RecoverableIffDistinctPayloads`, `PatchLimits.SoundPlanMaySharePayload`). Runs that do finish are right
  all the same (`PatchRecovery.FinishedRunsAgree`). After every crash a plan made anew finds a source for every entry
  (`PatchRebuild.RebuildIsAlwaysPossible`), has no overwrite cycle, passes the same checks
  (`PatchReplan.NewPlanIsSound`) and carries out the first plan (`PatchReplan.NewRunsCarryOutTheOldPlan`).
- Between committing a deferred file and removing the plan, recovery looks for a file that is already in place and
  reports missing data; by then every output is final (`PatchRecovery.EveryCrashIsRecoverable`). Restarts are always
  accepted if and only if nothing is deferred and no payload shared (`PatchProgress.AlwaysReadyIff`), and a sound plan
  may defer a file (`PatchLimits.SoundPlanMayDefer`).
- The plan check lets a deferred path be listed twice, and committing it the second time fails
  (`PatchLimits.SoundPlanMayRepeatDeferred`). A run can be completed from wherever it stands if and only if no deferred
  path is listed twice and no payload is shared (`PatchProgress.CompletableIff`).
- Delete paths are compared with outputs and bases for equality only. Deleting a directory above an output loses the
  output, deleting one above a base makes its entry fail, and a valid plan may ask for either
  (`PatchLimits.PlanMayDeleteAboveItsOutput`, `PatchLimits.PlanMayDeleteAboveItsBase`). An entry named with a leading
  separator hides even its own output from the comparison (`PatchLimits.OutputIsSeenIff`,
  `PatchLimits.PlanMayDeleteItsRootedOutput`). No run goes wrong if and only if no delete path lies at or above an output
  or above a base, and no payload is shared (`PatchDeletes.AlwaysGoodIff`); the other results on runs assume such delete
  paths (`PatchSafety.SafeDeletes`).
- A manifest path that is both a file and a directory is found exactly when no other path continues it with a character
  that sorts before the separator (`ManifestEntries.NeighboursClashIff`, `ManifestEntries.ShadowedClashIsMissed`).
- An install marker pins its manifest digest under an unchanged version, an update or repair marker does not
  (`InstallChange.DigestMayChangeIffNotInstall`). Going to another version and back can change the resource identity
  if and only if the change is not a repair (`InstallChange.IdentityMayChangeIffNotRepair`).
- A query or fragment is ignored in a path if and only if no white space stands right before it
  (`InstallChange.CredentialsAreIgnoredIff`).
- Two manifest spellings of one place, such as `a/./b` and `a/b`, have different keys: cleanup then deletes a file of
  the new release (`ObsoleteCleanup.AliasedTargetIsDeleted`). A pass spares the new release, whatever is installed, if
  and only if it comes to no such alias (`ObsoleteCleanup.PassSparesTargetsIff`); plainly spelled paths never
  are (`ObsoleteCleanup.PlainPathsHaveNoAliases`).
- The launcher's own files at the root are kept out of cleanup by the spelling of a path: `config.ini/` is accepted and
  deletes `config.ini` (`ObsoleteCleanup.MetadataMayBeDeleted`). They are safe from plainly spelled paths
  (`ObsoleteCleanup.MetadataIsSpared`), and the private directory is safe from all (`ObsoleteCleanup.PrivateIsSpared`).
- Parents in a flattened tree are right exactly when every node that has children is among the first 32768
  (`FlattenTree.NumbersAndParents`).

## Model

| member | source | states |
|---|---|---|
| DependencyGraph.SettlesIffChainsShort | crates/griffr-runtime/src/patch_apply/dependency.rs:101-130 | a node is reached within `k` rounds exactly when no prerequisite chain ending in it has more than `k` nodes |
| DependencyGraph.BlockedIffBehindCycle | crates/griffr-runtime/src/patch_apply/dependency.rs:59-98 | the nodes never reached are exactly those a cycle leads to |
| DependencyGraph.AcyclicIffNoneBlocked | crates/griffr-runtime/src/patch_apply/dependency.rs:59-98 | there is no cycle exactly when every node is reached |
| DependencyGraph.LayerIsLongestChain | crates/griffr-runtime/src/patch_apply/dependency.rs:101-130 | a node is in wave `k` exactly when its longest prerequisite chain has `k + 1` nodes |
| DependencyGraph.LayersPartition | crates/griffr-runtime/src/patch_apply/dependency.rs:101-130 | every node that is reached is in exactly one wave |
| DependencyGraph.PrerequisitesInEarlierLayers | crates/griffr-runtime/src/patch_apply/dependency.rs:101-130 | prerequisites are in earlier waves, so no wave depends on itself |
| DependencyGraph.OrderExistsIffAcyclic | crates/griffr-runtime/src/patch_apply/dependency.rs:59-98 | some sequential order respects all dependencies exactly when there is no cycle |
| DependencyGraph.ValidateAcyclic | crates/griffr-runtime/src/patch_apply/dependency.rs:59-98 | succeeds exactly on acyclic graphs, otherwise names, in order, exactly the nodes behind a cycle |
| DependencyGraph.ReleaseDependents | crates/griffr-runtime/src/patch_apply/dependency.rs:76-85 | counters of dependents drop by one; those reaching zero become ready |
| DependencyGraph.CompleteWave | crates/griffr-runtime/src/patch_apply/dependency.rs:117-127 | after a wave exactly the nodes that waited for it and nothing else are ready |
| DependencyGraph.Waves | crates/griffr-runtime/src/patch_apply/dependency.rs:101-130 | terminates with exactly the non-empty layers in order, every node settled |
| PatchPlan.Validate | crates/griffr-runtime/src/patch_apply/plan.rs:155-312 | accepts exactly the plans whose roots, entries, sources, delete paths and deferred paths meet all stated conditions; outputs are compared with the joined names as written |
| PatchPlan.AcceptedIff | crates/griffr-runtime/src/patch_apply/plan.rs:155-312 | what makes a plan acceptable, written out: absolute roots, an install outside the staging area, outputs and bases in the tree, metadata that is not blank or zero, and delete paths that differ, are not private and are not what joining a name gives |
| PatchDependencies.EntryDependencyIndices | crates/griffr-runtime/src/patch_apply/dependency.rs:13-57 | succeeds exactly when writers are unique and the graph is acyclic; gives exactly the consumers of each overwritten base; errors name a doubly written path or the entries behind a cycle |
| PatchDependencies.CollectWriters | crates/griffr-runtime/src/patch_apply/dependency.rs:16-37 | succeeds exactly when no two entries replace one path; otherwise names such a path |
| PatchDependencies.EntryWaveIndices | crates/griffr-runtime/src/patch_apply/dependency.rs:101-130 | wave `k` lists the entries whose longest prerequisite chain has `k + 1` entries, and all entries are listed |
| PatchDependencies.CycleIsHdiffOverwrites | crates/griffr-runtime/src/patch_apply/dependency.rs:39-57 | every cycle has two entries or more, all HDiff entries, each overwriting the base of the next |
| PatchDependencies.SomeOrderKeepsBasesIffAcyclic | crates/griffr-runtime/src/patch_apply/dependency.rs:59-98 | some sequential order of whole entries keeps every base until it is read exactly when the plan is accepted |
| PatchDependencies.ValidPlanWriters | crates/griffr-runtime/src/patch_apply/dependency.rs:16-37 | in a valid plan writers clash only where the joined name of an entry, as written, is the destination or joined name of another |
| PatchDependencies.SeparateRootsHaveUniqueWriters | crates/griffr-runtime/src/patch_apply/dependency.rs:16-37 | with the tree in place, or moved to an unrelated root, and names without a leading separator, writers never clash |
| PatchPlanner.SelectSource | crates/griffr-runtime/src/patch_apply/build_plan.rs:359-448 | chooses the verified output, else the local payload, else the first diff with verified base and archived payload; none only if none exists |
| PatchPlanner.PlanEntries | crates/griffr-runtime/src/patch_apply/build_plan.rs:359-448 | plans every entry from its chosen source, or reports exactly the entries without one, in order |
| PatchPlanner.PlannedPlanIsSound | crates/griffr-runtime/src/patch_apply/build_plan.rs:359-504 | once the selected payloads and deferred files are extracted, recovery accepts a planned plan and every entry can be applied |
| PatchOutcome.LocalIsFound | crates/griffr-runtime/src/patch_apply/build_plan.rs:32-45 | a local payload spelled `x`, `files/x` or `vfs_files/files/x` is looked for at `vfs_files/files/x`, and only if the output is not there |
| PatchOutcome.StagedIsFound | crates/griffr-runtime/src/patch_apply/build_plan.rs:32-45 | a local payload spelled from the root of the archive is looked for just there |
| PatchOutcome.FirstDiffIsFound | crates/griffr-runtime/src/patch_apply/build_plan.rs:384-431 | however the payloads of the diffs are spelled, the first is chosen whose base is verified where the game sees it and whose payload is at `vfs_files/vfs_patch/x`, its base being read under the destination root |
| PatchOutcome.AppliedIffVerified | crates/griffr-runtime/src/task_pool/fs_ops/patch_manifest/apply_steps/steps.rs:17-117 | on any disk, an entry yields an output exactly when its own is missing, its inputs have the expected sizes and digests, and so has what is made of them |
| PatchOutcome.ReadyIffApplicable | crates/griffr-runtime/src/patch_apply/recovery.rs:153-208 | on any disk with intact payloads, recovery accepts exactly when every entry can be applied and every deferred file is held |
| PatchSafety.PrepareAgrees | crates/griffr-runtime/src/task_pool/fs_ops/patch_manifest/apply_steps/steps.rs:17-117 | applying an entry whose output is missing yields its goal, and fails exactly when its payload has been taken away; recovery agrees |
| PatchSafety.StartKeeps | crates/griffr-runtime/src/task_pool/fs_ops/patch_manifest/apply_steps/steps.rs:17-117 | starting an entry whose prerequisites are done keeps the invariant, and fails only for a payload that has been taken away |
| PatchSafety.ReplaceKeeps | crates/griffr-runtime/src/task_pool/fs_ops/patch_manifest/apply_steps/steps.rs:17-117 | replacing one destination takes no base from an entry that still needs it |
| PatchSafety.ReleaseBaseKeeps | crates/griffr-runtime/src/task_pool/fs_ops/patch_manifest/apply_steps/mod.rs:52-62 | a base is released only when no entry needs it any more |
| PatchSafety.DeleteStepKeeps | crates/griffr-runtime/src/task_pool/fs_ops/patch_manifest/apply_steps/steps.rs:162-228 | deletes never take an output or a base in use |
| PatchRecovery.StepHolds | crates/griffr-runtime/src/task_pool/fs_ops/patch_manifest/apply_steps/mod.rs:23-135 | every step of a run, crashes included, keeps the invariant, whether or not payloads are shared |
| PatchRecovery.EveryCrashIsRecoverable | crates/griffr-runtime/src/patch_apply/recovery.rs:144-208 | in every reachable state a restart is accepted exactly when every deferred file is still held and no missing output has lost its payload; once a deferred file has gone, all outputs and deletes are final |
| PatchRecovery.FinishedRunsAgree | crates/griffr-runtime/src/patch_apply/recovery.rs:144-208 | every finished run of a sound plan, whatever its order, interleaving and crashes, and whether or not payloads are shared, leaves the files that applying all entries at once to the initial files would |
| PatchOutcome.OutputsAreProduced | crates/griffr-runtime/src/task_pool/fs_ops/patch_manifest/apply_steps/steps.rs:17-117 | after a finished run every output has its size and digest, and is what was there before, or its payload, or what its diff makes of the base that was there before |
| PatchOutcome.DeferredAreInPlace | crates/griffr-runtime/src/task_pool/fs_ops/patch_manifest/apply_steps/steps.rs:230-254 | every deferred file is in place, as staged or held |
| PatchOutcome.ConfigIsInstalled | crates/griffr-runtime/src/patch_apply/build_plan.rs:501-504 | after a finished run of a planned plan `config.ini` is the one from the archive, if it has one; nothing else is ever deferred |
| PatchOutcome.DeletesAreDone | crates/griffr-runtime/src/task_pool/fs_ops/patch_manifest/apply_steps/steps.rs:123-130 | nothing but deferred files is left at or below a delete path: under the install root, or, for a path inside an asset tree that has been moved, under the tree's real root |
| PatchOutcome.RestIsUntouched | crates/griffr-runtime/src/task_pool/fs_ops/patch_manifest/apply_steps/mod.rs:23-135 | whatever is no output, no deferred file and not at or below a delete path is as it was |
| PatchOutcome.ReleaseIffListed | crates/griffr-runtime/src/task_pool/fs_ops/patch_manifest/apply_steps/mod.rs:52-62 | a base goes once its last reader is done, exactly if its path as the game sees it is to be deleted |
| PatchOutcome.EarlyDeletesAreDone | crates/griffr-runtime/src/task_pool/fs_ops/patch_manifest/apply_steps/steps.rs:162-183 | no entry is applied before everything to delete that none reads or writes is gone |
| PatchOutcome.EarlyDeleteIff | crates/griffr-runtime/src/task_pool/fs_ops/patch_manifest/apply_steps/steps.rs:162-183 | before entries are applied, what is deleted is just what none of them reads or writes |
| PatchOutcome.LocalIsMoved | crates/griffr-runtime/src/task_pool/fs_ops/patch_manifest/apply_steps/steps.rs:63-71 | a local payload that has gone by the time it is to be moved fails its entry and changes nothing |
| PatchOutcome.DeferredIsOrdinary | crates/griffr-runtime/src/task_pool/fs_ops/patch_manifest/apply_steps/filesystem.rs:209-213 | what steers the patch itself is never put aside as a deferred file |
| PatchOutcome.NothingIsLeftBehind | crates/griffr-runtime/src/task_pool/fs_ops/patch_manifest/apply_steps/mod.rs:75-78 | a finished run has removed its staging area and its deferred files, and nothing follows it |
| PatchRecovery.StepStaysSupplied | crates/griffr-runtime/src/task_pool/fs_ops/patch_manifest/apply_steps/steps.rs:63-116 | no entry fails and no payload goes missing as long as no step takes a payload that another entry needs |
| PatchRecovery.DistinctPayloadsNeverFail | crates/griffr-runtime/src/task_pool/fs_ops/patch_manifest/apply_steps/steps.rs:17-117 | if needed entries have different payloads, no entry ever fails, and a restart is accepted exactly when every deferred file is still held |
| PatchProgress.EveryStepIsCloser | crates/griffr-runtime/src/task_pool/fs_ops/patch_manifest/apply_steps/mod.rs:23-135 | without crashes no run goes on for ever |
| PatchProgress.Progress | crates/griffr-runtime/src/task_pool/fs_ops/patch_manifest/apply_steps/mod.rs:23-135 | a run in which no entry has failed, and which is neither finished nor about to fail on a repeated deferred path, has a step to take |
| PatchProgress.CanFinish | crates/griffr-runtime/src/task_pool/fs_ops/patch_manifest/apply_steps/mod.rs:23-135 | with every deferred path listed once and different payloads for needed entries, the run can be completed from every state reached |
| PatchProgress.FinishesIffDeferredDistinct | crates/griffr-runtime/src/task_pool/fs_ops/patch_manifest/apply_steps/steps.rs:230-254 | if needed entries have different payloads, a run can be completed exactly when no deferred path is listed twice |
| PatchProgress.DeprivedForGood | crates/griffr-runtime/src/task_pool/fs_ops/patch_manifest/apply_steps/steps.rs:63-116 | an entry whose payload another has taken is never applied, whatever the run does, and a restart is refused |
| PatchProgress.CompletableIff | crates/griffr-runtime/src/task_pool/fs_ops/patch_manifest/apply_steps/mod.rs:23-135 | a run of a sound plan can be completed from wherever it stands exactly when no deferred path is listed twice and needed entries have different payloads |
| PatchProgress.SharedPayloadIsLost | crates/griffr-runtime/src/task_pool/fs_ops/patch_manifest/apply_steps/steps.rs:63-116 | two entries needing one payload: some run comes to a state where a restart finds data missing and an entry can no longer be applied |
| PatchProgress.RecoverableIffDistinctPayloads | crates/griffr-runtime/src/patch_apply/recovery.rs:153-208 | crashes are always recoverable exactly when needed entries have different payloads |
| PatchProgress.AlwaysReadyIff | crates/griffr-runtime/src/patch_apply/recovery.rs:194-208 | every restart of a sound plan is accepted exactly when no file is deferred and needed entries have different payloads |
| PatchRebuild.OutputsStayReproducible | crates/griffr-runtime/src/task_pool/fs_ops/patch_manifest/apply_steps/mod.rs:23-135 | wherever a run stands, each output is in place or still reproducible, even with shared payloads |
| PatchRebuild.RebuildIsAlwaysPossible | crates/griffr-runtime/src/patch_apply/recovery.rs:94-142 | after any run and any crash, selecting sources anew from manifest and archive finds one for every entry |
| PatchRebuild.PlannedDeferredSparesOutputs | crates/griffr-runtime/src/patch_apply/build_plan.rs:501-504 | the file the planner defers is put where no output is, unless the install lies inside its own patched tree |
| PatchReplan.EveryStopCanBeReplanned | crates/griffr-runtime/src/patch_apply/recovery.rs:94-142 | wherever a run of a planned plan stops, a plan made on what it left is one the following rows speak of |
| PatchReplan.StaysAcyclic | crates/griffr-runtime/src/patch_apply/dependency.rs:59-98 | a plan made anew has no overwrite cycle, though other diffs may have been chosen |
| PatchReplan.StaysValid | crates/griffr-runtime/src/patch_apply/build_plan.rs:505-516 | a plan made anew passes the plan check |
| PatchReplan.NewPlanIsSound | crates/griffr-runtime/src/patch_apply/build_plan.rs:359-516 | with unique writers and safe deletes besides, and its payloads extracted, it can be run |
| PatchReplan.NewRunsReachOldGoals | crates/griffr-runtime/src/patch_apply/build_plan.rs:359-516 | every finished run of the new plan, crashes included, has produced the outputs the first plan was for |
| PatchReplan.NewRunsCarryOutTheOldPlan | crates/griffr-runtime/src/patch_apply/build_plan.rs:359-516 | with the same file deferred, it leaves exactly the files the first plan was to leave: outputs, deletes, deferred and untouched ones |
| PatchLimits.PlanMayDeleteAboveItsOutput | crates/griffr-runtime/src/patch_apply/plan.rs:263-297 | a valid plan, and a disk it can start from, whose delete path lies above its output and makes some run go wrong |
| PatchLimits.PlanMayDeleteAboveItsBase | crates/griffr-runtime/src/patch_apply/plan.rs:263-297 | the same with a delete path above the base of a diff |
| PatchLimits.OutputIsSeenIff | crates/griffr-runtime/src/patch_apply/plan.rs:263-297 | a plan to which a delete path for just one output is added is rejected exactly when the name of some entry, joined as it is written, finds that output |
| PatchLimits.PlanMayDeleteItsRootedOutput | crates/griffr-runtime/src/patch_apply/plan.rs:263-297 | an entry named `/a.bin` in a valid plan that deletes just its output, and a disk from which some run goes wrong |
| PatchLimits.SoundPlanMaySharePayload | crates/griffr-runtime/src/patch_apply/plan.rs:155-312 | a sound plan without deletes whose entries share a payload, and a disk to start from: some run fails, some crash is not recoverable, some run cannot be completed |
| PatchLimits.SoundPlanMayDefer | crates/griffr-runtime/src/patch_apply/build_plan.rs:501-504 | a sound plan that defers `config.ini`, and a disk from which some restart is refused |
| PatchLimits.SoundPlanMayRepeatDeferred | crates/griffr-runtime/src/patch_apply/plan.rs:298-311 | a sound plan that defers one file twice, and a disk from which no run can be completed |
| PatchDeletes.OutputsAreSpared | crates/griffr-runtime/src/patch_apply/plan.rs:262-312 | if no run ever goes wrong, no delete path is an output or lies above one |
| PatchDeletes.BasesAreSpared | crates/griffr-runtime/src/task_pool/fs_ops/patch_manifest/apply_steps/steps.rs:162-183 | if no run ever goes wrong, no delete path lies above a base that will be read |
| PatchDeletes.PayloadsAreDistinct | crates/griffr-runtime/src/task_pool/fs_ops/patch_manifest/apply_steps/steps.rs:63-116 | if no run ever goes wrong, needed entries have different payloads |
| PatchDeletes.AlwaysGoodIff | crates/griffr-runtime/src/task_pool/fs_ops/patch_manifest/apply_steps/steps.rs:162-228 | no entry ever fails and every output survives the deletes exactly when the delete paths spare outputs and bases and needed entries have different payloads |
| VolumeScheduler.VolumePredecessors | crates/griffr-cli/src/commands/batch.rs:28-52 | every item's predecessors are exactly the last earlier users of its volumes, ascending |
| VolumeScheduler.WaitingCountsRunning | crates/griffr-cli/src/commands/batch.rs:126-137 | whoever waits for a running item still counts it: no counter underflows |
| VolumeScheduler.ReachableHolds | crates/griffr-cli/src/commands/batch.rs:94-140 | the scheduler's invariant holds in every reachable state, under any order of completion |
| VolumeScheduler.EarlierSharersFinished | crates/griffr-cli/src/commands/batch.rs:94-137 | an item runs only after every earlier item that shares any of its volumes has finished |
| VolumeScheduler.RunningVolumesAreDisjoint | crates/griffr-cli/src/commands/batch.rs:94-137 | at most the allowed number of items run at once, and no two share a volume |
| VolumeScheduler.NeverStuck | crates/griffr-cli/src/commands/batch.rs:112-139 | while results are missing an item is ready or running |
| VolumeScheduler.ResultsFit | crates/griffr-cli/src/commands/batch.rs:112-139 | finished and running items are different ones, and as many results as items means all items |
| VolumeScheduler.VolumeParallelismBound | crates/griffr-cli/src/commands/batch.rs:54-76 | the number of different volumes plus items without one, at most the limit and at least one |
| VolumeScheduler.RunningWithinBound | crates/griffr-cli/src/commands/batch.rs:54-76 | no reachable state runs more items than the bound |
| VolumeScheduler.CapKeepsReachableStates | crates/griffr-cli/src/commands/batch.rs:54-76 | capping the limit to the bound changes no reachable state |
| VolumeScheduler.RunVolumeDependencyGraph | crates/griffr-cli/src/commands/batch.rs:78-140 | the loop is a run of the machine that ends with every item finished exactly once |
| WindowsArguments.QuoteArgument | crates/griffr-runtime/src/admin.rs:45-79 | the quoting loop computes the quoted form |
| WindowsArguments.CurrentParameterLine | crates/griffr-runtime/src/admin.rs:82-95 | the joining loop computes the separated, NUL-terminated line |
| WindowsArguments.ParameterLineRoundTrip | crates/griffr-runtime/src/admin.rs:45-95 | any NUL-free arguments, quoted and joined, are read back by the command-line rules as exactly those arguments |
| WindowsArguments.ParameterLinesDiffer | crates/griffr-runtime/src/admin.rs:45-95 | different argument lists never give one line |
| StreamingDownload.StepHolds | crates/griffr-runtime/src/task_pool/download_write.rs:35-113 | no step of producer, queue or writer loses, repeats or reorders a byte |
| StreamingDownload.FileHoldsBodyPrefix | crates/griffr-runtime/src/task_pool/download_write.rs:35-113 | at every moment the file is the original with a prefix of the body in place; at most two queued batches, none empty, contiguous |
| StreamingDownload.CompleteStream | crates/griffr-runtime/src/task_pool/download_write.rs:35-113 | at the end the whole body is in place and was seen by the chunk callback, and the total is its end offset |
| StreamingDownload.BodyIsWellCut | crates/griffr-runtime/src/task_pool/download_write.rs:59-88 | of what is under way no batch is empty, none exceeds a mebibyte but chunks that came in one piece, and no two neighbours would have fitted into one |
| StreamingDownload.LargeChunksGoAsTheyCame | crates/griffr-runtime/src/task_pool/download_write.rs:60-85 | a chunk as large as a batch is sent as it came, after what was batched before it |
| StreamingDownload.StreamProgress | crates/griffr-runtime/src/task_pool/download_write.rs:35-113 | until the stream is complete one side can move |
| StreamingDownload.EveryStepIsCloser | crates/griffr-runtime/src/task_pool/download_write.rs:35-113 | no stream goes on for ever |
| StreamingDownload.StreamCanComplete | crates/griffr-runtime/src/task_pool/download_write.rs:35-113 | from every state reached the stream can be completed |
| StreamingDownload.HashFilePrefix | crates/griffr-runtime/src/http_download.rs:14-49 | with short reads allowed, feeds exactly the first bytes asked for or reports where the file ends |
| StreamingDownload.OpenDownload | crates/griffr-runtime/src/http_download.rs:55-147 | starts exactly on a success answer and a destination that is no directory, says why not otherwise, and starts writing at the end of a file all of which has been hashed |
| StreamingDownload.DigestCoversFile | crates/griffr-runtime/src/http_download.rs:131-166 | what was hashed is the finished file, resumed or not |
| StreamingDownload.AttemptKeepsPrefix | crates/griffr-runtime/src/http_download.rs:55-166 | an interrupted attempt leaves a prefix of the content, a completed one the content and its digest |
| InstallChange.StateFile.StartChange | crates/griffr-runtime/src/install_change/mod.rs:358-388 | leaves a valid marker of the requested change, or fails and touches nothing |
| InstallChange.StateFile.FinishChange | crates/griffr-runtime/src/install_change/mod.rs:390-421 | removes the marker of the pending change only |
| InstallChange.StateFile.EnsureReady | crates/griffr-runtime/src/install_change/mod.rs:342-356 | launching is allowed exactly when there is no marker |
| InstallChange.SameRequestIff | crates/griffr-runtime/src/install_change/mod.rs:230-241 | of valid markers, a request is resumed, and can be finished, exactly when it differs from the stored one in its start time at most |
| InstallChange.SameVersionOutcome | crates/griffr-runtime/src/install_change/mod.rs:274-314 | under the pending version another request may take over exactly if it keeps install, kind and resources, and the digest of an install or the starting version of the rest; otherwise it conflicts |
| InstallChange.OtherVersionOutcome | crates/griffr-runtime/src/install_change/mod.rs:274-314 | under another version exactly an install may take over an install, and an update of the same install one that starts from the pending version or where the pending change does; otherwise it conflicts |
| InstallChange.OtherOutcomes | crates/griffr-runtime/src/install_change/mod.rs:358-421 | when markers are invalid or missing |
| InstallChange.StoredIff | crates/griffr-runtime/src/install_change/mod.rs:119-217 | runs may leave exactly the markers with the schema, a time, a served region, no blank names, proper digests, and a source and starting version that fit their kind |
| InstallChange.StepHolds | crates/griffr-runtime/src/install_change/mod.rs:358-421 | every start, payload write, finish and crash keeps the marker in step with what is unfinished |
| InstallChange.LaunchOnlyWhenFinished | crates/griffr-runtime/src/install_change/mod.rs:342-421 | over all runs, launching is allowed only when nothing is unfinished; a command that reaches its end can finish |
| InstallChange.ReachedIffLineage | crates/griffr-runtime/src/install_change/mod.rs:358-388 | the histories runs of commands and crashes leave are exactly the sequences of valid markers each of which may replace the one before |
| InstallChange.InstallNeverChanges | crates/griffr-runtime/src/install_change/mod.rs:274-314 | while a change is pending the install stays the same and no kind changes except into an update |
| InstallChange.OneTargetKeepsPlan | crates/griffr-runtime/src/install_change/mod.rs:274-314 | under one target version the resource policy, resource identity and kind stay fixed, as does the starting version of an update or repair and the digest of an install |
| InstallChange.UpdatesStartFromEarlier | crates/griffr-runtime/src/install_change/mod.rs:303-311 | an update starts where its lineage began, or from a version an earlier marker of it names |
| InstallChange.IdentityMayChangeIffNotRepair | crates/griffr-runtime/src/install_change/mod.rs:274-314 | some run returns to a marker with only its resource identity changed exactly when the marker is not of a repair |
| InstallChange.DigestMayChangeIffNotInstall | crates/griffr-runtime/src/install_change/mod.rs:287-298 | the manifest digest may change under one version exactly when the change is not an install |
| InstallChange.CredentialsAreIgnoredIff | crates/griffr-runtime/src/install_change/mod.rs:467-475 | a query or fragment leaves a normalised path as it is exactly when no white space that counts stands right before it |
| InstallChange.CapturedReleaseMatches | crates/griffr-runtime/src/install_change/mod.rs:243-272 | a release captured from a path without white space before its query matches itself under other credentials and with its digest in another case |
| InstallChange.CapturedMatchesIff | crates/griffr-runtime/src/install_change/mod.rs:243-272 | a marker captured from one release matches another exactly when the versions are equal, and so are, as far as captured, the normalised paths, and the digests up to case |
| InstallChange.NormalizedIsBare | crates/griffr-runtime/src/install_change/mod.rs:467-475 | a normalised path is what stands before a query or fragment, without white space in front or separators behind, and is missing exactly if nothing but separators stands there |
| LogicalPath.CanonicalNormalizes | crates/griffr-runtime/src/paths.rs:92-97 | on canonical paths normalising only lowers case, and a second time changes nothing |
| LogicalPath.SpellingDoesNotCount | crates/griffr-runtime/src/paths.rs:92-97 | the lean of separators, and dots and separators in front, make no other key |
| Text.LowercaseIff | crates/griffr-runtime/src/paths.rs:92-97 | strings have one lower case exactly if they are equal up to ASCII case |
| Text.WhitespaceIff | crates/griffr-runtime/src/task_pool/fs_ops/path_safety.rs:6 | the characters that are trimmed are the twenty-five with the Unicode property |
| Text.TrimKeepsMiddle | crates/griffr-runtime/src/task_pool/fs_ops/path_safety.rs:6-9 | trimming leaves what is between white space, and nothing exactly of blank strings |
| SafePath.ParseIff | crates/griffr-runtime/src/task_pool/fs_ops/path_safety.rs:5-54 | refused are just the paths that are blank or name nothing, start with two separators, lead upwards or hold a colon; of others the components count, whichever way separators lean |
| SafePath.ParsedIsSafe | crates/griffr-runtime/src/task_pool/fs_ops/path_safety.rs:5-54 | whatever the check accepts has only components that stay below the root |
| SafePath.JoinedParses | crates/griffr-runtime/src/task_pool/fs_ops/path_safety.rs:5-54 | a checked path, written with separators, is checked down to itself and joins to itself |
| SafePath.RootedParses | crates/griffr-runtime/src/task_pool/fs_ops/path_safety.rs:18-24 | with a separator in front it is checked down to the same, but joins as an absolute path |
| SafePath.PrivateSpelling | crates/griffr-runtime/src/paths.rs:56-62 | the test on the spelling of a checked path is a test on its first component |
| SafePath.PlacesCompare | crates/griffr-runtime/src/yostar_files.rs:338-341 | of checked paths, written ones in lower case are equal, or one continues the other below it, exactly if their components are, or do, up to case |
| KnownPaths.BaselineIff | crates/griffr-runtime/src/paths.rs:99-107 | the resource baseline is what lies in a `streamingassets/vfs` at any depth, and its two index files |
| KnownPaths.MetadataIff | crates/griffr-runtime/src/paths.rs:109-118 | launcher metadata are five files at the root |
| ManifestEntries.NormalizeEntries | crates/griffr-runtime/src/content_plan.rs:50-101 | accepts exactly the manifests whose entries pass and whose paths are compatible; rejections name a real clash |
| ManifestEntries.CheckedIff | crates/griffr-runtime/src/content_plan.rs:50-77 | an entry passes exactly when its path is safe and not private and its digest is 32 hexadecimal digits; it is rewritten to the checked path and the digest in lower case |
| ManifestEntries.CompareNeighbours | crates/griffr-runtime/src/content_plan.rs:79-99 | finds the first clash of neighbours, if there is one |
| ManifestEntries.NeighboursClashIff | crates/griffr-runtime/src/content_plan.rs:78-99 | what comparing sorted neighbours rejects: duplicates, and files that are directories and not shadowed by another path |
| ManifestEntries.ShadowedClashIsMissed | crates/griffr-runtime/src/content_plan.rs:79-99 | `a`, `a.b`, `a/c` are accepted though `a` is both a file and a directory |
| ContentOwnership.PlaceEntries | crates/griffr-runtime/src/content_plan.rs:196-218 | succeeds exactly when the entries are different files, and plans exactly those |
| ContentOwnership.AddClaims | crates/griffr-runtime/src/content_plan.rs:220-248 | succeeds exactly when every first claim agrees with the entry it displaces; every claimed file is planned as its last claim asks, others stay |
| ContentOwnership.FromSnapshot | crates/griffr-runtime/src/content_plan.rs:189-256 | of any entries, which are normalised first: the plan exists exactly when they pass, are different files, and every first claim agrees |
| ContentOwnership.PlanDescribes | crates/griffr-runtime/src/content_plan.rs:196-248 | a plan names exactly the files claimed or listed, each with the logical path, digest and size of the last claim on it, else of the entry installed there |
| ContentOwnership.RemoveOwnedByClaims | crates/griffr-runtime/src/integrity.rs:104-145 | drops exactly the claimed entries, in order; an error exactly when a first claim contradicts its entry |
| ContentOwnership.CoreIffUnclaimed | crates/griffr-runtime/src/content_plan.rs:281-294 | the core game owns an entry exactly when it is neither launcher metadata nor claimed |
| ContentOwnership.OwnershipsAgree | crates/griffr-runtime/src/integrity.rs:69-145 | both computations select the same entries in the same order, and the second never reports a conflict after the first |
| TargetTasks.DeduplicateTargets | crates/griffr-runtime/src/integrity.rs:41-67 | succeeds exactly when tasks for one file expect the same content, and keeps the first of each |
| TargetTasks.OneTaskPerTarget | crates/griffr-runtime/src/integrity.rs:41-67 | no two kept tasks write one file, and every task's file is written by one that expects the same |
| ObsoleteCleanup.ValidateManifest | crates/griffr-runtime/src/yostar_files.rs:15-32 | accepts exactly the manifests whose paths are allowed and have different keys |
| ObsoleteCleanup.Install.Cleanup | crates/griffr-runtime/src/yostar_files.rs:313-386 | leaves what the pass is specified to leave; when it comes to its end, has removed exactly the intact files it handles and those of their own directories in which nothing stays (a parent emptied only by this stays), and counts the modified files it keeps; fails only on a modified file in the way |
| ObsoleteCleanup.PassRemovesIff | crates/griffr-runtime/src/yostar_files.rs:313-386 | for plainly spelled paths, a pass that comes to its end removes a file exactly if the old release lists its place with the size and checksum it has, the new one does not, and has files above or below it in the blocking pass and none in the other |
| ObsoleteCleanup.BlockingPassClears | crates/griffr-runtime/src/yostar_files.rs:338-347 | after a blocking pass nothing only the old release lists is left above or below a file of the new one |
| ObsoleteCleanup.StoppedPassSpares | crates/griffr-runtime/src/yostar_files.rs:365-377 | a blocking pass, even one that stops, leaves modified files and files with no new one above or below as they are |
| ObsoleteCleanup.PassSparesPlaceIff | crates/griffr-runtime/src/yostar_files.rs:313-386 | whatever is installed, a pass deletes nothing at a place exactly when it comes to no entry there that describes some content |
| ObsoleteCleanup.PrivateIsSpared | crates/griffr-runtime/src/yostar_files.rs:15-32 | no accepted manifest makes a pass delete in the private directory |
| ObsoleteCleanup.MetadataIsSpared | crates/griffr-runtime/src/yostar_files.rs:15-32 | nor, plainly spelled, a launcher file at the root |
| ObsoleteCleanup.MetadataMayBeDeleted | crates/griffr-runtime/src/yostar_files.rs:23 | an accepted manifest that lists `config.ini/` makes a pass delete `config.ini` |
| ObsoleteCleanup.Tidy | crates/griffr-runtime/src/yostar_files.rs:380-384 | of the directories files were removed from, exactly those stay in which something stays at any depth |
| DirectorySweep.RemoveInOrder | crates/griffr-runtime/src/compat_fs.rs:559-576 | going deepest first, keeps exactly the tried directories that hold something that stays |
| ObsoleteCleanup.PassSparesTargetsIff | crates/griffr-runtime/src/yostar_files.rs:313-386 | whatever is installed, a pass deletes no file of the new release exactly when it comes to no alias: an entry that names the place of such a file under another key and describes some content, with no entry of that place before it at which a blocking pass stops |
| ObsoleteCleanup.PassKeepsTargets | crates/griffr-runtime/src/yostar_files.rs:313-386 | hence, without aliases, a pass leaves every file of the new release as it is |
| ObsoleteCleanup.PlainPathsHaveNoAliases | crates/griffr-runtime/src/paths.rs:92-97 | manifests whose keys are the keys of the places they name have no aliases |
| ObsoleteCleanup.CheckedPathIsPlain | crates/griffr-runtime/src/task_pool/fs_ops/path_safety.rs:5-54 | every path in the form the check gives it is such a path |
| ObsoleteCleanup.TwoPassesSettle | crates/griffr-runtime/src/yostar_files.rs:313-386 | over both passes a file of the new release is lost only to an alias, and every file only the old release lists is gone, or modified and counted as retained |
| ObsoleteCleanup.AliasedTargetIsDeleted | crates/griffr-runtime/src/yostar_files.rs:328-338 | two manifests, both accepted, that spell one place in two ways make a pass delete a file of the new release |
| DirectorySweep.Tree.ListDirectories | crates/griffr-runtime/src/compat_fs.rs:535-558 | the stack lists every directory below the root exactly once |
| DirectorySweep.EmptyIffUnanchored | crates/griffr-runtime/src/compat_fs.rs:559-576 | when all deeper directories have been tried, a directory is empty exactly when nothing below it must stay |
| DirectorySweep.Tree.RemoveEmptyDirs | crates/griffr-runtime/src/compat_fs.rs:520-577 | keeps exactly the root and the directories that hold, at any depth, something that is no directory or could not be removed |
| DirectorySweep.DirectorySize | crates/griffr-runtime/src/compat_fs.rs:409-444 | the recursive sum of all file sizes, or the largest 64-bit number if that is less |
| CanvasPool.Pool.PrepareFrame | crates/griffr-gui/src/ui/canvas_pool.rs:62-88 | tile `i` uses slot `i`, the maps are mutual inverses, the free slots are the rest, and the released ones are listed |
| CanvasPool.Pool.ApplyPlacement | crates/griffr-gui/src/ui/canvas_pool.rs:102-116 | records the placement and reports exactly what differs from before |
| CanvasPool.Pool.ReleaseSlot | crates/griffr-gui/src/ui/canvas_pool.rs:118-129 | resets the slot and reports whether its canvas was visible |
| CanvasPool.Screen.Frame | crates/griffr-gui-macros/src/expand/component.rs:213-239 | applying only differences leaves the canvases of all tiles visible in their places and all others hidden |
| FlattenTree.Flattener.Flatten | crates/griffr-gui-macros/src/flatten.rs:12-44 | appends the preorder of a subtree, numbered on in 16 bits |
| FlattenTree.FlattenedTreeReadsBack | crates/griffr-gui-macros/src/flatten.rs:5-44 | the tree is read back from its entries, with the drawing order made explicit |
| FlattenTree.NumbersAndParents | crates/griffr-gui-macros/src/flatten.rs:5-44 | entry `k` has number `k`; parents are earlier entries exactly when every node with children is among the first 32768 |
| FlexLayout.LayOutChildren | crates/griffr-gui/src/ui/layout.rs:29-142 | each child's box, starting where those of its predecessors end |
| FlexLayout.ChildrenFillAxisIff | crates/griffr-gui/src/ui/layout.rs:61-94 | flexible children fill their container exactly when their bases do, or they grow into the room left, or shrink with none reaching one unit |
| FlexLayout.ChildrenDoNotOverlap | crates/griffr-gui/src/ui/layout.rs:87-138 | boxes follow each other with their margins to themselves |
| FlexLayout.PaddingSurrounds | crates/griffr-gui/src/ui/layout.rs:43-60 | children share what the padding leaves on all four sides |
| FlexLayout.FlexibleFillAcross | crates/griffr-gui/src/ui/layout.rs:87-104 | flexible children fill the container across its axis but for their margins |
| FlexLayout.AspectRatioHolds | crates/griffr-gui/src/ui/layout.rs:106-119 | a child with an aspect ratio has it, in a row as far as the height allows |
| FlexLayout.FixedKeepsSize | crates/griffr-gui/src/ui/layout.rs:120-122 | a child of fixed size has that size |
| FlexLayout.FlexibleAsksForItself | crates/griffr-gui/src/ui/layout.rs:61-72 | a flexible child asks for its own basis and shares, none negative and the basis at least one unit |
| FlexLayout.OthersAskForHundred | crates/griffr-gui/src/ui/layout.rs:144-153 | other children ask for a hundred units that may shrink but not grow |

## Left out

- PatchPlan.Validate: paths other than entry names are taken in the form the check gives them, in which the planner writes them.
- PatchReplan.NewRunsReachOldGoals: assumes that size and digest determine an output (`Determined`), as does `PatchReplan.NewRunsCarryOutTheOldPlan`.
- PatchRebuild.OutputsStayReproducible: assumes that no deferred file is put where an output is (`DeferredSparesOutputs`), as do `PatchRebuild.RebuildIsAlwaysPossible`, `PatchReplan.EveryStopCanBeReplanned` and all of `PatchReplan`; a manifest could violate it only for an install that lies inside its own patched tree.
- PatchRebuild.PlannedDeferredSparesOutputs: nothing is said of an install inside its own patched tree, where an entry may be named as the deferred file.
- PatchProgress.CanFinish: assumes different payloads for needed entries, as does `PatchProgress.FinishesIffDeferredDistinct`; `PatchProgress.CompletableIff` does not.
- Patch paths: links, drive prefixes and canonicalisation; a tree moved to an external root is described only by where its files are found (`PatchPlanner.Relocated`).
- Patch runs: committing ordinary top-level files while extracting, the work directory, the verification cache and file attributes.
- Recovery: the branches without a saved plan, and what `discard_incomplete_patch_apply` removes beyond the plan and the staging area.
- Space estimates (`planned_patch_extract_bytes`, `simulate_space_peaks`, `verify_space_requirements`): these add up sizes wave by wave; whether that bounds runs that interleave waves is not part of this model.
- PatchDeletes.AlwaysGoodIff: assumes that no base lies inside another, which files on a disk cannot do.
- PatchRecovery.EveryCrashIsRecoverable: assumes that replacing a file is atomic and that nobody else changes the install; a local payload is put in place and then removed, as between volumes, where a rename does both at once.
- VolumeScheduler: the futures themselves; an item is a list of volume names, and which running item finishes next is arbitrary.
- WindowsArguments.ParameterLineRoundTrip: the program name and the undocumented meaning of two adjacent quotes inside quotes, which the printer never writes.
- StreamingDownload: timeouts, stream errors, status 416, retries and offsets beyond 64 bits.
- InstallChange: one command at a time on an install, as nothing in the code prevents two from resuming one change; leftover temporary files; the YoStar commands.
- ContentOwnership: claims carry MD5 digests; `physical_path_key` is a parameter, and entries already proved by verified artifacts are not removed first.
- ObsoleteCleanup.Install.Cleanup: the decimal form of checksums, links, and files changed by others during a pass.
- DirectorySweep.Tree.RemoveEmptyDirs: errors while reading a directory, and changes by others during the sweep.
- CanvasPool.Screen.Frame: drawing, and failing window-system calls.
- FlattenTree.Flattener.Flatten: the counter wraps at 65536 nodes, as it does without overflow checks.
- FlexLayout.LayOutChildren: rounding of floating-point numbers, the sorting of children by drawing order, and the recursion into their own children.
- HTTP clients, archive formats, account and launcher files, process control, progress output and the drawing of widgets.
