/** Applying a patch plan step by step, with entries interleaved and crashes anywhere. */
module PatchRun {
  import opened Collections
  import opened DependencyGraph
  import opened PatchPlan
  import opened SafePath
  import opened PatchDependencies

  /** The digest and the binary-diff codec, both library code. */
  datatype Codec = Codec(md5: Bytes -> string, hdiff: (Bytes, Bytes) -> Option<Bytes>)

  type Files = map<Path, Bytes>

  /** The installed files, the staged archive contents, and the private directory of deferred files. */
  datatype Disk = Disk(vfs: Files, stage: Files, deferred: Files)

  datatype ApplyError = NoLongerMatches | MissingPayload | BadPayload | BadBase | PatchFailed | BadOutput

  datatype EntryState = Waiting | Prepared(output: Bytes) | Replaced | Completed | Failed(error: ApplyError)

  datatype Phase = Preparing | Applying | Deleting | Committing | Cleaning | Finished | Abandoned

  datatype Run = Run(disk: Disk, phase: Phase, entries: seq<EntryState>)

  datatype Action =
    | StageDeferred(path: Path)
    | RemoveUnreferenced(k: nat)
    | BeginApplying
    | Start(i: nat)
    | Replace(i: nat)
    | DropPayload(i: nat)
    | ReleaseBase(i: nat)
    | BeginDeleting
    | Delete(k: nat)
    | BeginCommitting
    | CommitDeferred(path: Path)
    | BeginCleaning
    | DropStage
    | RemovePlan
    | Crash

  datatype Verdict = ExtractedReady | ExtractedMissing

  // ----- one entry

  predicate Matches(codec: Codec, files: Files, p: Path, md5: string, size: nat) {
    p in files && |files[p]| == size && codec.md5(files[p]) == md5
  }

  /** The destination already holds the expected output. */
  predicate OutputMatches(codec: Codec, entry: Entry, disk: Disk) {
    Matches(codec, disk.vfs, entry.destination, entry.md5, entry.size)
  }

  predicate AcceptsOutput(codec: Codec, entry: Entry, output: Bytes) {
    |output| == entry.size && codec.md5(output) == entry.md5
  }

  /** What applying an entry does up to the replacement: nothing, new contents, or an error. */
  function PrepareEntry(codec: Codec, entry: Entry, disk: Disk): Result<Option<Bytes>, ApplyError> {
    if OutputMatches(codec, entry, disk) then Ok(None) else
      match entry.source
      case AlreadyPresent => Err(NoLongerMatches)
      case Local(payload) =>
        if payload !in disk.stage then Err(MissingPayload)
        else if !AcceptsOutput(codec, entry, disk.stage[payload]) then Err(BadPayload)
        else Ok(Some(disk.stage[payload]))
      case Hdiff(base, payload, baseMd5, baseSize) =>
        if !Matches(codec, disk.vfs, base, baseMd5, baseSize) then Err(BadBase)
        else if payload !in disk.stage then Err(MissingPayload)
        else match codec.hdiff(disk.vfs[base], disk.stage[payload])
          case None => Err(PatchFailed)
          case Some(output) => if AcceptsOutput(codec, entry, output) then Ok(Some(output)) else Err(BadOutput)
  }

  function Payload(entry: Entry): Option<Path> {
    match entry.source
    case AlreadyPresent => None
    case Local(payload) => Some(payload)
    case Hdiff(_, payload, _, _) => Some(payload)
  }

  /** A local payload is itself moved into place, so another entry may still take it away; a diff has been read. */
  predicate HasLost(entry: Entry, disk: Disk) {
    entry.source.Local? && entry.source.payload !in disk.stage
  }

  // ----- recovery

  /** What recovery asks of one entry of a saved plan. */
  predicate EntryRecoverable(codec: Codec, entry: Entry, disk: Disk) {
    OutputMatches(codec, entry, disk) ||
    match entry.source
    case AlreadyPresent => false
    case Local(payload) => payload in disk.stage
    case Hdiff(base, payload, baseMd5, baseSize) =>
      payload in disk.stage && Matches(codec, disk.vfs, base, baseMd5, baseSize)
  }

  function RecoveryVerdict(codec: Codec, plan: Plan, disk: Disk): Verdict {
    if (forall e :: e in plan.entries ==> EntryRecoverable(codec, e, disk))
       && (forall r :: r in plan.deferredPaths ==> r in disk.stage || r in disk.deferred)
    then ExtractedReady
    else ExtractedMissing
  }

  // ----- deletes

  /** `remove_path_if_exists`: the path and, when it is a directory, everything below it. */
  function Without(files: Files, p: Path): Files {
    map q | q in files && !(p <= q) :: files[q]
  }

  predicate AnyUnder(files: Files, p: Path) {
    exists q :: q in files && p <= q
  }

  predicate IsOutput(plan: Plan, relative: Path) {
    exists e :: e in plan.entries && relative == JoinWritten(plan.vfsBase, e.written)
  }

  predicate IsBase(plan: Plan, p: Path) {
    exists e :: e in plan.entries && e.source.Hdiff? && e.source.base == p
  }

  predicate IsDestination(plan: Plan, p: Path) {
    exists e :: e in plan.entries && e.destination == p
  }

  function RelativeInstallPath(plan: Plan, p: Path): Option<Path> {
    if plan.vfsDestination <= p then Some(plan.vfsBase + p[|plan.vfsDestination|..])
    else if plan.installRoot <= p then Some(p[|plan.installRoot|..])
    else None
  }

  /** `k` is removed by the delete phases. */
  predicate Removable(plan: Plan, k: nat) {
    k < |plan.deletePaths| && !IsOutput(plan, plan.deletePaths[k])
  }

  predicate Unreferenced(plan: Plan, k: nat) {
    k < |plan.deletePaths| &&
    var p := plan.PhysicalDelete(plan.deletePaths[k]);
    !IsBase(plan, p) && !IsDestination(plan, p)
  }

  predicate Releasable(plan: Plan, base: Path) {
    match RelativeInstallPath(plan, base)
    case None => false
    case Some(relative) => relative in plan.deletePaths && !IsOutput(plan, relative)
  }

  predicate IsControlPath(p: Path) {
    p == [PATCH_MANIFEST_NAME] || p == [DELETE_FILES_MANIFEST_NAME] || (p != [] && p[0] == PATCH_STAGE_DIR)
  }

  // ----- the machine

  ghost predicate ReadyToStart(plan: Plan, s: Run, i: nat) {
    && i < |s.entries| && |s.entries| == |plan.entries| && s.entries[i].Waiting?
    && forall j: nat :: MustPrecede(plan, j, i) ==> s.entries[j].Completed?
  }

  predicate SharesBase(plan: Plan, i: nat, j: nat) {
    && i < |plan.entries| && j < |plan.entries|
    && plan.entries[i].source.Hdiff? && plan.entries[j].source.Hdiff?
    && plan.entries[i].source.base == plan.entries[j].source.base
  }

  ghost predicate Enabled(plan: Plan, s: Run, a: Action) {
    && |s.entries| == |plan.entries|
    && match a
       case StageDeferred(r) =>
         s.phase.Preparing? && r in plan.deferredPaths && r in s.disk.stage && !IsControlPath(r)
       case RemoveUnreferenced(k) =>
         s.phase.Preparing? && Unreferenced(plan, k)
         && AnyUnder(s.disk.vfs, plan.PhysicalDelete(plan.deletePaths[k]))
       case BeginApplying =>
         && s.phase.Preparing?
         && (forall r :: r in plan.deferredPaths && r in s.disk.stage ==> IsControlPath(r))
         && (forall k: nat :: Unreferenced(plan, k) ==>
               !AnyUnder(s.disk.vfs, plan.PhysicalDelete(plan.deletePaths[k])))
       case Start(i) => s.phase.Applying? && ReadyToStart(plan, s, i)
       case Replace(i) => s.phase.Applying? && i < |s.entries| && s.entries[i].Prepared?
       case DropPayload(i) => s.phase.Applying? && i < |s.entries| && s.entries[i].Replaced?
       case ReleaseBase(i) =>
         && s.phase.Applying? && i < |s.entries| && plan.entries[i].source.Hdiff?
         && (forall j: nat :: SharesBase(plan, i, j) ==> s.entries[j].Completed?)
         && Releasable(plan, plan.entries[i].source.base)
         && AnyUnder(s.disk.vfs, plan.entries[i].source.base)
       case BeginDeleting => s.phase.Applying? && forall i :: 0 <= i < |s.entries| ==> s.entries[i].Completed?
       case Delete(k) =>
         s.phase.Deleting? && Removable(plan, k)
         && AnyUnder(s.disk.vfs, plan.PhysicalDelete(plan.deletePaths[k]))
       case BeginCommitting =>
         s.phase.Deleting? && forall k: nat :: Removable(plan, k) ==>
           !AnyUnder(s.disk.vfs, plan.PhysicalDelete(plan.deletePaths[k]))
       case CommitDeferred(r) => s.phase.Committing? && r in plan.deferredPaths && r in s.disk.deferred
       case BeginCleaning => // the commit loop fails when it comes to a path a second time
         && s.phase.Committing? && Distinct(plan.deferredPaths)
         && forall r :: r in plan.deferredPaths ==> r !in s.disk.deferred
       case DropStage => s.phase.Cleaning? && s.disk.stage != map[]
       case RemovePlan => s.phase.Cleaning? && s.disk.stage == map[]
       case Crash => !s.phase.Finished? && !s.phase.Abandoned?
  }

  ghost function Next(codec: Codec, plan: Plan, s: Run, a: Action): Run
    requires Enabled(plan, s, a)
  {
    match a
    case StageDeferred(r) =>
      s.(disk := s.disk.(stage := s.disk.stage - {r}, deferred := s.disk.deferred[r := s.disk.stage[r]]))
    case RemoveUnreferenced(k) =>
      s.(disk := s.disk.(vfs := Without(s.disk.vfs, plan.PhysicalDelete(plan.deletePaths[k]))))
    case BeginApplying => s.(phase := Applying)
    case Start(i) =>
      s.(entries := s.entries[i :=
        match PrepareEntry(codec, plan.entries[i], s.disk)
        case Ok(None) => Completed
        case Ok(Some(output)) => Prepared(output)
        case Err(error) => Failed(error)])
    case Replace(i) =>
      if HasLost(plan.entries[i], s.disk) then s.(entries := s.entries[i := Failed(MissingPayload)])
      else s.(disk := s.disk.(vfs := s.disk.vfs[plan.entries[i].destination := s.entries[i].output]),
         entries := s.entries[i := Replaced])
    case DropPayload(i) =>
      s.(disk := s.disk.(stage := match Payload(plan.entries[i])
                                  case None => s.disk.stage
                                  case Some(payload) => s.disk.stage - {payload}),
         entries := s.entries[i := Completed])
    case ReleaseBase(i) => s.(disk := s.disk.(vfs := Without(s.disk.vfs, plan.entries[i].source.base)))
    case BeginDeleting => s.(phase := Deleting)
    case Delete(k) => s.(disk := s.disk.(vfs := Without(s.disk.vfs, plan.PhysicalDelete(plan.deletePaths[k]))))
    case BeginCommitting => s.(phase := Committing)
    case CommitDeferred(r) =>
      s.(disk := s.disk.(vfs := s.disk.vfs[plan.installRoot + r := s.disk.deferred[r]],
                         deferred := s.disk.deferred - {r}))
    case BeginCleaning => s.(phase := Cleaning)
    case DropStage => s.(disk := s.disk.(stage := map[]))
    case RemovePlan => s.(phase := Finished, disk := s.disk.(deferred := map[]))
    case Crash =>
      if RecoveryVerdict(codec, plan, s.disk).ExtractedReady? then Begin(plan, s.disk)
      else s.(phase := Abandoned)
  }

  /** A fresh start, or a resumed one: only the disk survives. */
  function Begin(plan: Plan, disk: Disk): Run {
    Run(disk, Preparing, seq(|plan.entries|, _ => Waiting))
  }

  /** `actions` is a run from `s` to `s'`. */
  ghost predicate Runs(codec: Codec, plan: Plan, s: Run, actions: seq<Action>, s': Run)
    decreases |actions|
  {
    if actions == [] then s' == s
    else Enabled(plan, s, actions[0]) && Runs(codec, plan, Next(codec, plan, s, actions[0]), actions[1..], s')
  }

  // ----- what a run is meant to reach

  function Lookup(files: Files, p: Path): Option<Bytes> {
    if p in files then Some(files[p]) else None
  }

  /** Every entry can be applied to the initial disk: its output is there, or its source yields it. */
  ghost predicate Startable(codec: Codec, plan: Plan, d0: Disk) {
    forall i :: 0 <= i < |plan.entries| ==> PrepareEntry(codec, plan.entries[i], d0).Ok?
  }

  /** The output every entry is meant to have, and whether it still has to be produced. */
  datatype Goals = Goals(targets: seq<Bytes>, needed: seq<bool>)

  ghost function Target(codec: Codec, entry: Entry, d0: Disk): Bytes
    requires PrepareEntry(codec, entry, d0).Ok?
  {
    match PrepareEntry(codec, entry, d0).value
    case None => d0.vfs[entry.destination]
    case Some(output) => output
  }

  ghost function GoalsOf(codec: Codec, plan: Plan, d0: Disk): (g: Goals)
    requires Startable(codec, plan, d0)
    ensures |g.targets| == |g.needed| == |plan.entries|
  {
    Goals(
      seq(|plan.entries|, i requires 0 <= i < |plan.entries| => Target(codec, plan.entries[i], d0)),
      seq(|plan.entries|, i requires 0 <= i < |plan.entries| => !OutputMatches(codec, plan.entries[i], d0)))
  }

  /** The contents a deferred file is meant to have in the end. */
  function DeferredContent(d0: Disk, r: Path): Option<Bytes> {
    if r in d0.stage then Some(d0.stage[r]) else Lookup(d0.deferred, r)
  }

  /** A path that some delete entry covers, as a file or below a directory. */
  ghost predicate Doomed(plan: Plan, q: Path) {
    exists k: nat :: Removable(plan, k) && plan.PhysicalDelete(plan.deletePaths[k]) <= q
  }

  ghost predicate Writes(plan: Plan, i: nat, q: Path) {
    i < |plan.entries| && plan.entries[i].destination == q
  }

  /**
   * What `q` holds when all entries are applied at once to the initial disk `d0`, the deletes are done,
   * and the deferred files in `committed` are in place.
   */
  ghost function FinalContent(plan: Plan, d0: Disk, g: Goals, committed: set<Path>, q: Path): Option<Bytes>
    requires |g.targets| == |plan.entries|
  {
    if plan.installRoot <= q && q[|plan.installRoot|..] in committed then
      DeferredContent(d0, q[|plan.installRoot|..])
    else if i: nat :| Writes(plan, i, q) then Some(g.targets[i])
    else if Doomed(plan, q) then None
    else Lookup(d0.vfs, q)
  }
}
