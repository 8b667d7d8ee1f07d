/** Choosing a source for every entry of a patch manifest, and what that choice guarantees. */
module PatchPlanner {
  import opened Collections
  import opened DependencyGraph
  import opened PatchPlan
  import opened SafePath
  import opened PatchDependencies
  import opened PatchRun
  import opened PatchSafety

  const PATCH_FILES_STAGE_DIR := "files"
  const PATCH_DIFF_STAGE_DIR := "vfs_patch"
  const CONFIG_INI: Path := ["config.ini"]

  datatype Diff = Diff(baseFile: Path, baseMd5: string, baseSize: nat, patchPath: Path)

  datatype ManifestEntry = ManifestEntry(
    name: Path, written: Path, md5: string, size: nat, localPath: Option<Path>, patch: seq<Diff>)

  /** Where things are: the logical VFS root, and the root the outputs go to. */
  datatype Layout = Layout(logical: Path, destination: Path)

  function ArchivePayloadPath(subdir: string, raw: Path): Path {
    if [PATCH_STAGE_DIR] <= raw then raw
    else if [subdir] <= raw then [PATCH_STAGE_DIR] + raw
    else [PATCH_STAGE_DIR] + [subdir] + raw
  }

  /** The diff's base is verified and its payload is in the archive. */
  predicate Usable(codec: Codec, layout: Layout, vfs: Files, archive: set<Path>, diff: Diff) {
    && Matches(codec, vfs, layout.logical + diff.baseFile, diff.baseMd5, diff.baseSize)
    && ArchivePayloadPath(PATCH_DIFF_STAGE_DIR, diff.patchPath) in archive
  }

  function DiffSource(layout: Layout, diff: Diff): Source {
    Hdiff(layout.destination + diff.baseFile, ArchivePayloadPath(PATCH_DIFF_STAGE_DIR, diff.patchPath),
          diff.baseMd5, diff.baseSize)
  }

  /** `source` is what the planner must choose: present output, else local payload, else first usable diff. */
  ghost predicate Chosen(codec: Codec, layout: Layout, vfs: Files, archive: set<Path>, m: ManifestEntry, source: Source) {
    if Matches(codec, vfs, layout.logical + m.name, m.md5, m.size) then source == AlreadyPresent
    else match m.localPath
      case Some(local) =>
        source == Local(ArchivePayloadPath(PATCH_FILES_STAGE_DIR, local))
        && ArchivePayloadPath(PATCH_FILES_STAGE_DIR, local) in archive
      case None =>
        exists k :: 0 <= k < |m.patch| && Usable(codec, layout, vfs, archive, m.patch[k])
          && source == DiffSource(layout, m.patch[k])
          && forall j :: 0 <= j < k ==> !Usable(codec, layout, vfs, archive, m.patch[j])
  }

  ghost predicate HasSource(codec: Codec, layout: Layout, vfs: Files, archive: set<Path>, m: ManifestEntry) {
    exists source :: Chosen(codec, layout, vfs, archive, m, source)
  }

  method SelectDiff(codec: Codec, layout: Layout, vfs: Files, archive: set<Path>, patch: seq<Diff>)
    returns (r: Option<nat>)
    ensures r.Some? ==> r.value < |patch| && Usable(codec, layout, vfs, archive, patch[r.value])
    ensures r.Some? ==> forall j :: 0 <= j < r.value ==> !Usable(codec, layout, vfs, archive, patch[j])
    ensures r.None? ==> forall j :: 0 <= j < |patch| ==> !Usable(codec, layout, vfs, archive, patch[j])
  {
    for k := 0 to |patch|
      invariant forall j :: 0 <= j < k ==> !Usable(codec, layout, vfs, archive, patch[j])
    {
      var diff := patch[k];
      if !Matches(codec, vfs, layout.logical + diff.baseFile, diff.baseMd5, diff.baseSize) {
        continue;
      }
      if ArchivePayloadPath(PATCH_DIFF_STAGE_DIR, diff.patchPath) !in archive {
        continue;
      }
      return Some(k);
    }
    return None;
  }

  method SelectSource(codec: Codec, layout: Layout, vfs: Files, archive: set<Path>, m: ManifestEntry)
    returns (r: Option<Source>)
    ensures r.Some? ==> Chosen(codec, layout, vfs, archive, m, r.value)
    ensures r.None? ==> !HasSource(codec, layout, vfs, archive, m)
  {
    if Matches(codec, vfs, layout.logical + m.name, m.md5, m.size) {
      return Some(AlreadyPresent);
    }
    match m.localPath {
      case Some(local) =>
        var payload := ArchivePayloadPath(PATCH_FILES_STAGE_DIR, local);
        return if payload in archive then Some(Local(payload)) else None;
      case None =>
        var selected := SelectDiff(codec, layout, vfs, archive, m.patch);
        match selected {
          case Some(k) => return Some(DiffSource(layout, m.patch[k]));
          case None => return None;
        }
    }
  }

  ghost predicate PlannedFrom(codec: Codec, layout: Layout, vfs: Files, archive: set<Path>, m: ManifestEntry, e: Entry) {
    && e.name == m.name && e.written == m.written && e.destination == layout.destination + m.name
    && e.md5 == m.md5 && e.size == m.size
    && Chosen(codec, layout, vfs, archive, m, e.source)
  }

  /** The names of the entries for which nothing can be chosen, in manifest order. */
  ghost function Sourceless(codec: Codec, layout: Layout, vfs: Files, archive: set<Path>, manifest: seq<ManifestEntry>)
    : seq<Path>
  {
    if manifest == [] then [] else
      Sourceless(codec, layout, vfs, archive, manifest[..|manifest| - 1])
      + if HasSource(codec, layout, vfs, archive, manifest[|manifest| - 1]) then [] else [manifest[|manifest| - 1].name]
  }

  /** Plans every entry, or reports exactly those that cannot be produced. */
  method PlanEntries(codec: Codec, layout: Layout, vfs: Files, archive: set<Path>, manifest: seq<ManifestEntry>)
    returns (r: Result<seq<Entry>, seq<Path>>)
    ensures r.Ok? <==> Sourceless(codec, layout, vfs, archive, manifest) == []
    ensures r.Err? ==> r.error == Sourceless(codec, layout, vfs, archive, manifest)
    ensures r.Ok? ==> |r.value| == |manifest| && forall i :: 0 <= i < |manifest| ==>
      PlannedFrom(codec, layout, vfs, archive, manifest[i], r.value[i])
  {
    var entries: seq<Entry>, missing: seq<Path> := [], [];
    for i := 0 to |manifest|
      invariant missing == Sourceless(codec, layout, vfs, archive, manifest[..i])
      invariant missing == [] ==> |entries| == i
      invariant missing == [] ==> forall j :: 0 <= j < i ==>
        PlannedFrom(codec, layout, vfs, archive, manifest[j], entries[j])
    {
      assert manifest[..i + 1][..i] == manifest[..i];
      var m := manifest[i];
      var source := SelectSource(codec, layout, vfs, archive, m);
      match source {
        case None => missing := missing + [m.name];
        case Some(s) => entries := entries + [Entry(m.name, m.written, layout.destination + m.name, m.md5, m.size, s)];
      }
    }
    assert manifest[..|manifest|] == manifest;
    return if missing == [] then Ok(entries) else Err(missing);
  }

  function PlannedDeferred(archive: set<Path>): seq<Path> {
    if CONFIG_INI in archive then [CONFIG_INI] else []
  }

  // ----- what a planned plan guarantees

  /** The files of the logical VFS tree are found, unchanged, under the destination root. */
  ghost predicate Relocated(layout: Layout, before: Files, after: Files) {
    forall r :: Lookup(after, layout.destination + r) == Lookup(before, layout.logical + r)
  }

  ghost predicate PlannedPlan(codec: Codec, before: Files, archive: set<Path>, manifest: seq<ManifestEntry>, plan: Plan) {
    var layout := Layout(plan.LogicalRoot(), plan.vfsDestination);
    && |plan.entries| == |manifest|
    && (forall i :: 0 <= i < |manifest| ==>
          PlannedFrom(codec, layout, before, archive, manifest[i], plan.entries[i]))
    && plan.deferredPaths == PlannedDeferred(archive)
  }

  /** A staged payload yields the output its entry expects: the archive is intact. */
  ghost predicate YieldsOutput(codec: Codec, e: Entry, d0: Disk) {
    match e.source
    case AlreadyPresent => true
    case Local(payload) => payload in d0.stage ==> AcceptsOutput(codec, e, d0.stage[payload])
    case Hdiff(base, payload, _, _) =>
      payload in d0.stage && base in d0.vfs ==>
        codec.hdiff(d0.vfs[base], d0.stage[payload]).Some?
        && AcceptsOutput(codec, e, codec.hdiff(d0.vfs[base], d0.stage[payload]).value)
  }

  /** Extraction staged the selected payloads and the deferred file. */
  ghost predicate Extracted(codec: Codec, plan: Plan, d0: Disk) {
    && (forall e :: e in plan.entries && Payload(e).Some? ==> Payload(e).value in d0.stage)
    && (forall r :: r in plan.deferredPaths ==> r in d0.stage)
    && (forall e :: e in plan.entries ==> YieldsOutput(codec, e, d0))
  }

  /** What the checks made on the plan itself ask for. */
  ghost predicate Checked(codec: Codec, plan: Plan, d0: Disk)
    requires Startable(codec, plan, d0)
  {
    && Valid(plan) && UniqueWriters(plan) && Acyclic(Dependencies(plan))
    && SafeDeletes(plan, GoalsOf(codec, plan, d0))
  }

  lemma PayloadsAreControlPaths(codec: Codec, layout: Layout, before: Files, archive: set<Path>, m: ManifestEntry,
                                e: Entry)
    requires PlannedFrom(codec, layout, before, archive, m, e) && Payload(e).Some?
    ensures IsControlPath(Payload(e).value) && Payload(e).value in archive
  {
  }

  lemma PlannedEntryStarts(codec: Codec, layout: Layout, before: Files, archive: set<Path>, m: ManifestEntry, e: Entry,
                           d0: Disk)
    requires PlannedFrom(codec, layout, before, archive, m, e) && Relocated(layout, before, d0.vfs)
    requires Payload(e).Some? ==> Payload(e).value in d0.stage
    ensures EntryRecoverable(codec, e, d0)
    ensures e.source.Hdiff? ==> e.source.base in d0.vfs
    ensures !OutputMatches(codec, e, d0) ==> Payload(e).Some?
  {
    assert Lookup(d0.vfs, layout.destination + m.name) == Lookup(before, layout.logical + m.name);
    if e.source.Hdiff? {
      var k :| 0 <= k < |m.patch| && Usable(codec, layout, before, archive, m.patch[k])
        && e.source == DiffSource(layout, m.patch[k]);
      assert Lookup(d0.vfs, layout.destination + m.patch[k].baseFile)
          == Lookup(before, layout.logical + m.patch[k].baseFile);
    }
  }

  /**
   * A plan the planner built is ready to run: recovery accepts the freshly extracted disk and every entry can
   * be applied to it. With the checks made on the plan itself this is all a run assumes (see PatchRecovery).
   */
  lemma PlannedPlanIsSound(codec: Codec, before: Files, archive: set<Path>, manifest: seq<ManifestEntry>, plan: Plan,
                           d0: Disk)
    requires PlannedPlan(codec, before, archive, manifest, plan)
    requires Relocated(Layout(plan.LogicalRoot(), plan.vfsDestination), before, d0.vfs)
    requires Extracted(codec, plan, d0)
    ensures RecoveryVerdict(codec, plan, d0).ExtractedReady?
    ensures Startable(codec, plan, d0)
    ensures Checked(codec, plan, d0) ==> Sound(codec, plan, d0)
  {
    var layout := Layout(plan.LogicalRoot(), plan.vfsDestination);
    forall e | e in plan.entries
      ensures EntryRecoverable(codec, e, d0) && PrepareEntry(codec, e, d0).Ok?
      ensures Payload(e).Some? ==> Payload(e).value !in plan.deferredPaths
    {
      var i :| 0 <= i < |plan.entries| && plan.entries[i] == e;
      assert PlannedFrom(codec, layout, before, archive, manifest[i], e);
      PlannedEntryStarts(codec, layout, before, archive, manifest[i], e, d0);
      if Payload(e).Some? {
        PayloadsAreControlPaths(codec, layout, before, archive, manifest[i], e);
      }
    }
    assert Startable(codec, plan, d0);
  }
}
