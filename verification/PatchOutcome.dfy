/** What planning, a finished run and recovery mean for the files, spelled out without the definitions they rest on. */
module PatchOutcome {
  import opened Collections
  import opened DependencyGraph
  import opened PatchPlan
  import opened SafePath
  import opened PatchDependencies
  import opened PatchRun
  import opened PatchSafety
  import opened PatchRecovery
  import opened PatchPlanner

  /** Size and digest are as expected. */
  predicate HasContent(codec: Codec, files: Files, p: Path, md5: string, size: nat) {
    p in files && |files[p]| == size && codec.md5(files[p]) == md5
  }

  // ----- where the planner looks

  /** A payload is named from its own directory, from the stage, or from the root of the archive. */
  predicate Spells(subdir: string, spelling: Path, x: Path) {
    && (x != [] ==> x[0] != "vfs_files" && x[0] != subdir)
    && ((x != [] && spelling == x) || spelling == [subdir] + x || spelling == ["vfs_files", subdir] + x)
  }

  /** However a local payload is spelled, it is looked for in one place, and only if the output is not there. */
  lemma LocalIsFound(codec: Codec, layout: Layout, vfs: Files, archive: set<Path>, m: ManifestEntry, source: Source,
                     x: Path)
    requires m.localPath.Some? && Spells("files", m.localPath.value, x)
    ensures Chosen(codec, layout, vfs, archive, m, source) <==>
      if HasContent(codec, vfs, layout.logical + m.name, m.md5, m.size) then source == AlreadyPresent
      else source == Local(["vfs_files", "files"] + x) && ["vfs_files", "files"] + x in archive
  {
    assert "files"[0] != "vfs_files"[0];
    OnePath("files", m.localPath.value, x);
  }

  /** A payload that is named from the root of the archive is looked for just there. */
  lemma StagedIsFound(codec: Codec, layout: Layout, vfs: Files, archive: set<Path>, m: ManifestEntry, source: Source,
                      y: Path)
    requires m.localPath == Some(["vfs_files"] + y)
    ensures Chosen(codec, layout, vfs, archive, m, source) <==>
      if HasContent(codec, vfs, layout.logical + m.name, m.md5, m.size) then source == AlreadyPresent
      else source == Local(["vfs_files"] + y) && ["vfs_files"] + y in archive
  {
  }

  lemma OnePath(subdir: string, raw: Path, x: Path)
    requires Spells(subdir, raw, x) && subdir != "vfs_files"
    ensures ArchivePayloadPath(subdir, raw) == ["vfs_files", subdir] + x
  {
    assert ["vfs_files"] + ([subdir] + x) == ["vfs_files", subdir] + x == ["vfs_files"] + [subdir] + x;
    assert raw[0] == "vfs_files" || raw[0] == subdir || raw == x;
  }

  /** The base of the diff is verified where the game sees it, and its payload is archived. */
  predicate CanPatch(codec: Codec, layout: Layout, vfs: Files, archive: set<Path>, d: Diff, x: Path) {
    && HasContent(codec, vfs, layout.logical + d.baseFile, d.baseMd5, d.baseSize)
    && ["vfs_files", "vfs_patch"] + x in archive
  }

  ghost predicate FirstToPatch(codec: Codec, layout: Layout, vfs: Files, archive: set<Path>, patch: seq<Diff>,
                               xs: seq<Path>, k: nat)
  {
    && k < |xs| == |patch| && CanPatch(codec, layout, vfs, archive, patch[k], xs[k])
    && forall j :: 0 <= j < k ==> !CanPatch(codec, layout, vfs, archive, patch[j], xs[j])
  }

  function PatchedFrom(layout: Layout, d: Diff, x: Path): Source {
    Hdiff(layout.destination + d.baseFile, ["vfs_files", "vfs_patch"] + x, d.baseMd5, d.baseSize)
  }

  /** However their payloads are spelled, the first diff that can be applied is chosen, its base where outputs go. */
  lemma FirstDiffIsFound(codec: Codec, layout: Layout, vfs: Files, archive: set<Path>, m: ManifestEntry, source: Source,
                         xs: seq<Path>)
    requires m.localPath.None? && |xs| == |m.patch|
    requires forall k :: 0 <= k < |xs| ==> Spells("vfs_patch", m.patch[k].patchPath, xs[k])
    ensures Chosen(codec, layout, vfs, archive, m, source) <==>
      if HasContent(codec, vfs, layout.logical + m.name, m.md5, m.size) then source == AlreadyPresent
      else exists k: nat ::
        FirstToPatch(codec, layout, vfs, archive, m.patch, xs, k) && source == PatchedFrom(layout, m.patch[k], xs[k])
  {
    hide ArchivePayloadPath;
    forall k | 0 <= k < |xs|
      ensures Usable(codec, layout, vfs, archive, m.patch[k]) <==>
        CanPatch(codec, layout, vfs, archive, m.patch[k], xs[k])
      ensures DiffSource(layout, m.patch[k]).payload == ["vfs_files", "vfs_patch"] + xs[k]
    {
      assert "vfs_patch"[4] != "vfs_files"[4];
      OnePath("vfs_patch", m.patch[k].patchPath, xs[k]);
    }
    assert forall k :: 0 <= k < |xs| ==> DiffSource(layout, m.patch[k]) == PatchedFrom(layout, m.patch[k], xs[k]);
  }

  // ----- what a finished run leaves

  /** `s` is a finished run of a sound plan. */
  ghost predicate Finishes(codec: Codec, plan: Plan, d0: Disk, actions: seq<Action>, s: Run) {
    Sound(codec, plan, d0) && Runs(codec, plan, Begin(plan, d0), actions, s) && s.phase.Finished?
  }

  ghost predicate DeferredTo(plan: Plan, q: Path) {
    exists r :: r in plan.deferredPaths && q == plan.installRoot + r
  }

  ghost predicate OutputOf(plan: Plan, q: Path) {
    exists e :: e in plan.entries && q == e.destination
  }

  /** The tree of the game's assets lies elsewhere than where the game looks for it. */
  predicate Moved(plan: Plan) {
    plan.vfsDestination != plan.installRoot + plan.vfsBase
  }

  ghost function AllDeferred(plan: Plan): set<Path> {
    set r | r in plan.deferredPaths
  }

  lemma FinalAt(codec: Codec, plan: Plan, d0: Disk, actions: seq<Action>, s: Run, q: Path)
    requires Finishes(codec, plan, d0, actions, s)
    ensures Lookup(s.disk.vfs, q) == FinalContent(plan, d0, GoalsOf(codec, plan, d0), AllDeferred(plan), q)
  {
    FinishedRunsAgree(codec, plan, d0, actions, s);
  }

  /** Every deferred file is in place, as it was staged, or held by an earlier attempt. */
  lemma DeferredAreInPlace(codec: Codec, plan: Plan, d0: Disk, actions: seq<Action>, s: Run, r: Path)
    requires Finishes(codec, plan, d0, actions, s) && r in plan.deferredPaths
    ensures plan.installRoot + r in s.disk.vfs
    ensures r in d0.stage ==> s.disk.vfs[plan.installRoot + r] == d0.stage[r]
    ensures r !in d0.stage ==> r in d0.deferred && s.disk.vfs[plan.installRoot + r] == d0.deferred[r]
  {
    var q := plan.installRoot + r;
    FinalAt(codec, plan, d0, actions, s, q);
    assert q[|plan.installRoot|..] == r;
  }

  /** The output is the local payload, or what the diff makes of the verified base. */
  predicate MadeFrom(codec: Codec, e: Entry, disk: Disk, output: Bytes) {
    match e.source
    case AlreadyPresent => false
    case Local(payload) => payload in disk.stage && disk.stage[payload] == output
    case Hdiff(base, payload, baseMd5, baseSize) =>
      && HasContent(codec, disk.vfs, base, baseMd5, baseSize)
      && payload in disk.stage && codec.hdiff(disk.vfs[base], disk.stage[payload]) == Some(output)
  }

  /** Of a planned plan, `config.ini` is what is deferred, if the archive has it: it is installed from there. */
  lemma ConfigIsInstalled(codec: Codec, before: Files, archive: set<Path>, manifest: seq<ManifestEntry>, plan: Plan,
                          d0: Disk, actions: seq<Action>, s: Run)
    requires PlannedPlan(codec, before, archive, manifest, plan) && Extracted(codec, plan, d0)
    requires Finishes(codec, plan, d0, actions, s)
    ensures var config: Path := ["config.ini"];
            if config in archive
            then config in d0.stage && Lookup(s.disk.vfs, plan.installRoot + config) == Some(d0.stage[config])
            else forall q :: !DeferredTo(plan, q)
  {
    if ["config.ini"] in archive {
      assert plan.deferredPaths[0] == CONFIG_INI;
      DeferredAreInPlace(codec, plan, d0, actions, s, CONFIG_INI);
    }
  }

  lemma OutputHasTarget(codec: Codec, plan: Plan, d0: Disk, actions: seq<Action>, s: Run, i: nat)
    requires Finishes(codec, plan, d0, actions, s) && i < |plan.entries|
    requires !DeferredTo(plan, plan.entries[i].destination)
    ensures AtTarget(plan, GoalsOf(codec, plan, d0), s.disk.vfs, i)
  {
    FinalAt(codec, plan, d0, actions, s, plan.entries[i].destination);
    OutputIsFinal(codec, plan, d0, AllDeferred(plan), i);
  }

  /**
   * Every output has the size and digest its entry asks for, and comes from where it should: it was there before, or it
   * is the local payload, or what the diff makes of the base that was there before.
   */
  lemma OutputsAreProduced(codec: Codec, plan: Plan, d0: Disk, actions: seq<Action>, s: Run, i: nat)
    requires Finishes(codec, plan, d0, actions, s) && i < |plan.entries|
    requires !DeferredTo(plan, plan.entries[i].destination)
    ensures var e := plan.entries[i];
            HasContent(codec, s.disk.vfs, e.destination, e.md5, e.size)
            && if HasContent(codec, d0.vfs, e.destination, e.md5, e.size)
               then s.disk.vfs[e.destination] == d0.vfs[e.destination]
               else MadeFrom(codec, e, d0, s.disk.vfs[e.destination])
  {
    OutputHasTarget(codec, plan, d0, actions, s, i);
    GoalFacts(codec, plan, d0, i);
  }

  lemma DeletedIsGone(codec: Codec, plan: Plan, d0: Disk, actions: seq<Action>, s: Run, k: nat, q: Path)
    requires Finishes(codec, plan, d0, actions, s) && k < |plan.deletePaths|
    requires plan.PhysicalDelete(plan.deletePaths[k]) <= q && !DeferredTo(plan, q)
    ensures q !in s.disk.vfs
  {
    FinalAt(codec, plan, d0, actions, s, q);
    ValidDeletesAreRemovable(plan, k);
    DeletesAreSafe(codec, plan, d0, k);
    assert Doomed(plan, q);
    if plan.installRoot <= q {
      assert q == plan.installRoot + q[|plan.installRoot|..];
    }
  }

  /**
   * Nothing is left at or below a delete path, except deferred files: neither under the install root nor, where the
   * asset tree has been moved and the path lies in it, under the tree's real root.
   */
  lemma DeletesAreDone(codec: Codec, plan: Plan, d0: Disk, actions: seq<Action>, s: Run, r: Path, q: Path)
    requires Finishes(codec, plan, d0, actions, s) && r in plan.deletePaths && q in s.disk.vfs
    ensures !(plan.vfsBase <= r) && plan.installRoot + r <= q ==> DeferredTo(plan, q)
    ensures !Moved(plan) && plan.installRoot + r <= q ==> DeferredTo(plan, q)
    ensures Moved(plan) && plan.vfsBase <= r && plan.vfsDestination + r[|plan.vfsBase|..] <= q ==> DeferredTo(plan, q)
  {
    var k: nat :| k < |plan.deletePaths| && plan.deletePaths[k] == r;
    if plan.PhysicalDelete(r) <= q && !DeferredTo(plan, q) {
      DeletedIsGone(codec, plan, d0, actions, s, k, q);
    }
  }

  predicate Reads(e: Entry, base: Path) {
    e.source.Hdiff? && e.source.base == base
  }

  /**
   * While entries are applied, the file of a base goes once the last entry that reads it is done, if the plan lists it
   * for deletion as the game sees it.
   */
  lemma ReleaseIffListed(plan: Plan, s: Run, i: nat, tail: Path)
    requires Valid(plan) && s.phase.Applying? && i < |s.entries| == |plan.entries|
    requires plan.entries[i].source.Hdiff? && plan.entries[i].source.base == plan.vfsDestination + tail
    requires plan.entries[i].source.base in s.disk.vfs
    ensures Enabled(plan, s, ReleaseBase(i)) <==>
      && plan.vfsBase + tail in plan.deletePaths
      && forall j ::
           0 <= j < |s.entries| && Reads(plan.entries[j], plan.vfsDestination + tail) ==> s.entries[j].Completed?
  {
    var base := plan.vfsDestination + tail;
    assert base[|plan.vfsDestination|..] == tail;
    forall k: nat | k < |plan.deletePaths| ensures Removable(plan, k) {
      ValidDeletesAreRemovable(plan, k);
    }
    forall j: nat ensures SharesBase(plan, i, j) <==> j < |s.entries| && Reads(plan.entries[j], base) {
    }
  }

  /** Where a delete path is found on disk. */
  function PlaceOf(plan: Plan, r: Path): Path {
    if Moved(plan) && plan.vfsBase <= r then plan.vfsDestination + r[|plan.vfsBase|..] else plan.installRoot + r
  }

  /** No entry is applied before everything to delete that no entry reads or writes is gone, which frees its space. */
  lemma EarlyDeletesAreDone(plan: Plan, s: Run, r: Path, q: Path)
    requires Enabled(plan, s, BeginApplying) && r in plan.deletePaths && PlaceOf(plan, r) <= q
    requires forall e :: e in plan.entries ==> e.destination != PlaceOf(plan, r)
    requires forall e :: e in plan.entries && e.source.Hdiff? ==> e.source.base != PlaceOf(plan, r)
    ensures q !in s.disk.vfs
  {
    var k: nat :| k < |plan.deletePaths| && plan.deletePaths[k] == r;
    assert Unreferenced(plan, k);
  }

  /** What goes early is just what no entry reads or writes. */
  lemma EarlyDeleteIff(plan: Plan, s: Run, k: nat)
    requires s.phase.Preparing? && k < |plan.deletePaths| && |s.entries| == |plan.entries|
    ensures var p := PlaceOf(plan, plan.deletePaths[k]);
            Enabled(plan, s, RemoveUnreferenced(k)) <==>
              && (exists q :: q in s.disk.vfs && p <= q)
              && forall e :: e in plan.entries ==> e.destination != p && !Reads(e, p)
  {
  }

  /** Deferred are ordinary files only, never what the archive holds to steer the patch itself. */
  lemma DeferredIsOrdinary(plan: Plan, s: Run, r: Path)
    requires s.phase.Preparing? && |s.entries| == |plan.entries| && r in plan.deferredPaths && r in s.disk.stage
    ensures Enabled(plan, s, StageDeferred(r)) <==>
      r != ["patch.json"] && r != ["delete_files.txt"] && !(["vfs_files"] <= r)
  {
  }

  /** A local output is moved into place, and so is there only if its payload was until then. */
  lemma LocalIsMoved(codec: Codec, plan: Plan, s: Run, i: nat)
    requires Enabled(plan, s, Replace(i)) && plan.entries[i].source.Local?
    ensures var s' := Next(codec, plan, s, Replace(i));
            if plan.entries[i].source.payload in s.disk.stage
            then s'.entries[i].Replaced? && Lookup(s'.disk.vfs, plan.entries[i].destination) == Some(s.entries[i].output)
            else s'.entries[i] == Failed(MissingPayload) && s'.disk == s.disk
  {
  }

  /** A finished run has removed its private files, and nothing follows. */
  lemma {:induction false} NothingIsLeftBehind(codec: Codec, plan: Plan, s: Run, actions: seq<Action>, t: Run)
    requires Runs(codec, plan, s, actions, t) && t.phase.Finished? && !s.phase.Finished?
    ensures t.disk.stage == map[] && t.disk.deferred == map[] && forall a :: !Enabled(plan, t, a)
    decreases |actions|
  {
    hide RecoveryVerdict, PrepareEntry;
    var next := Next(codec, plan, s, actions[0]);
    if !next.phase.Finished? {
      NothingIsLeftBehind(codec, plan, next, actions[1..], t);
    }
  }

  /** A path is at or below one to delete, as the game sees it. */
  ghost predicate IsDeleted(plan: Plan, q: Path) {
    exists r :: r in plan.deletePaths && PlaceOf(plan, r) <= q
  }

  /** Everything else is as it was. */
  lemma RestIsUntouched(codec: Codec, plan: Plan, d0: Disk, actions: seq<Action>, s: Run, q: Path)
    requires Finishes(codec, plan, d0, actions, s)
    requires !OutputOf(plan, q) && !DeferredTo(plan, q) && !IsDeleted(plan, q)
    ensures q in s.disk.vfs <==> q in d0.vfs
    ensures q in d0.vfs ==> s.disk.vfs[q] == d0.vfs[q]
  {
    FinalAt(codec, plan, d0, actions, s, q);
    forall i: nat ensures !Writes(plan, i, q) {
      assert i < |plan.entries| ==> plan.entries[i] in plan.entries;
    }
    forall k: nat | Removable(plan, k) ensures !(plan.PhysicalDelete(plan.deletePaths[k]) <= q) {
      assert plan.deletePaths[k] in plan.deletePaths;
    }
    if plan.installRoot <= q {
      assert q == plan.installRoot + q[|plan.installRoot|..];
    }
  }

  // ----- the verdict on any disk

  /** What is staged for an entry is what the archive holds for it: if it is there it can be used. */
  ghost predicate PayloadIsIntact(codec: Codec, e: Entry, disk: Disk) {
    match e.source
    case AlreadyPresent => true
    case Local(payload) => payload in disk.stage ==> AcceptsOutput(codec, e, disk.stage[payload])
    case Hdiff(base, payload, baseMd5, baseSize) =>
      payload in disk.stage && HasContent(codec, disk.vfs, base, baseMd5, baseSize) ==>
        exists output ::
          codec.hdiff(disk.vfs[base], disk.stage[payload]) == Some(output) && AcceptsOutput(codec, e, output)
  }

  /** Whatever the disk, recovery accepts it exactly when every entry can be applied and no deferred file is missing. */
  lemma ReadyIffApplicable(codec: Codec, plan: Plan, disk: Disk)
    requires forall e :: e in plan.entries ==> PayloadIsIntact(codec, e, disk)
    ensures RecoveryVerdict(codec, plan, disk).ExtractedReady? <==>
      && (forall e :: e in plan.entries ==> PrepareEntry(codec, e, disk).Ok?)
      && (forall r :: r in plan.deferredPaths ==> r in disk.stage || r in disk.deferred)
  {
    forall e | e in plan.entries ensures PrepareEntry(codec, e, disk).Ok? <==> EntryRecoverable(codec, e, disk) {
    }
  }

  /** Whatever the disk, an entry is applied only to verified inputs and yields only verified output. */
  lemma AppliedIffVerified(codec: Codec, e: Entry, disk: Disk, output: Bytes)
    ensures PrepareEntry(codec, e, disk) == Ok(Some(output)) <==>
      && !HasContent(codec, disk.vfs, e.destination, e.md5, e.size)
      && |output| == e.size && codec.md5(output) == e.md5 && MadeFrom(codec, e, disk, output)
    ensures PrepareEntry(codec, e, disk) == Ok(None) <==> HasContent(codec, disk.vfs, e.destination, e.md5, e.size)
  {
  }
}
