/** What every step of a patch run keeps, whether or not entries share payloads. */
module PatchSafety {
  import opened Collections
  import opened DependencyGraph
  import opened PatchPlan
  import opened SafePath
  import opened PatchDependencies
  import opened PatchRun

  // ----- what a run may assume

  /** `p` is no output, no directory above an output, and no directory above a base that will be read. */
  ghost predicate SafeToDelete(plan: Plan, g: Goals, p: Path, i: nat)
    requires i < |plan.entries| == |g.needed|
  {
    && !(p <= plan.entries[i].destination)
    && (g.needed[i] && plan.entries[i].source.Hdiff? && p <= plan.entries[i].source.base ==>
          p == plan.entries[i].source.base)
  }

  /** PatchDeletes shows that runs need this. */
  ghost predicate SafeDeletes(plan: Plan, g: Goals)
    requires |plan.entries| == |g.needed|
  {
    forall k: nat, i: nat :: k < |plan.deletePaths| && i < |plan.entries| ==>
      SafeToDelete(plan, g, plan.PhysicalDelete(plan.deletePaths[k]), i)
  }

  ghost predicate DeferredStaged(plan: Plan, d0: Disk) {
    && (forall r :: r in plan.deferredPaths ==> !IsControlPath(r) && (r in d0.stage || r in d0.deferred))
    && (forall e :: e in plan.entries && Payload(e).Some? ==> Payload(e).value !in plan.deferredPaths)
  }

  ghost predicate Sound(codec: Codec, plan: Plan, d0: Disk) {
    && Valid(plan) && UniqueWriters(plan) && Acyclic(Dependencies(plan))
    && Startable(codec, plan, d0) && SafeDeletes(plan, GoalsOf(codec, plan, d0)) && DeferredStaged(plan, d0)
  }

  // ----- the invariant

  ghost predicate AtTarget(plan: Plan, g: Goals, vfs: Files, i: nat)
    requires i < |plan.entries| == |g.targets|
  {
    Lookup(vfs, plan.entries[i].destination) == Some(g.targets[i])
  }

  ghost predicate AtStart(plan: Plan, d0: Disk, vfs: Files, i: nat)
    requires i < |plan.entries|
  {
    Lookup(vfs, plan.entries[i].destination) == Lookup(d0.vfs, plan.entries[i].destination)
  }

  ghost predicate BaseIntact(entry: Entry, d0: Disk, vfs: Files) {
    entry.source.Hdiff? ==> Lookup(vfs, entry.source.base) == Lookup(d0.vfs, entry.source.base)
  }

  /** The output is there, or the entry is untouched and so is the base it would be made from. */
  ghost predicate Reproducible(plan: Plan, d0: Disk, g: Goals, vfs: Files, i: nat)
    requires i < |plan.entries| == |g.targets| == |g.needed|
  {
    AtTarget(plan, g, vfs, i)
    || (g.needed[i] && AtStart(plan, d0, vfs, i) && BaseIntact(plan.entries[i], d0, vfs))
  }

  ghost predicate RestInv(plan: Plan, d0: Disk, vfs: Files, q: Path) {
    IsDestination(plan, q) || Lookup(vfs, q) == Lookup(d0.vfs, q) || (q !in vfs && Doomed(plan, q))
  }

  /** Payloads may have been taken away, but none has changed. */
  ghost predicate StageWithin(d0: Disk, disk: Disk) {
    forall p :: p in disk.stage ==> Lookup(d0.stage, p) == Some(disk.stage[p])
  }

  ghost predicate DeferredHeld(d0: Disk, disk: Disk, r: Path) {
    DeferredContent(disk, r) == DeferredContent(d0, r) != None
  }

  /** A disk on which the plan is under way: every output can still be had, and nothing has been committed. */
  ghost predicate Standing(plan: Plan, d0: Disk, g: Goals, disk: Disk) {
    && |plan.entries| == |g.targets| == |g.needed|
    && (forall i: nat {:trigger Reproducible(plan, d0, g, disk.vfs, i)} ::
          i < |plan.entries| ==> Reproducible(plan, d0, g, disk.vfs, i))
    && (forall q {:trigger RestInv(plan, d0, disk.vfs, q)} :: RestInv(plan, d0, disk.vfs, q))
    && StageWithin(d0, disk)
    && (forall r :: r in plan.deferredPaths ==> DeferredHeld(d0, disk, r))
  }

  ghost predicate EntryInv(plan: Plan, d0: Disk, g: Goals, s: Run, i: nat)
    requires i < |plan.entries| == |g.targets| == |g.needed| == |s.entries|
  {
    && StateInv(plan, d0, g, s, i)
    && (!s.entries[i].Waiting? ==> forall j: nat :: MustPrecede(plan, j, i) ==> s.entries[j].Completed?)
  }

  ghost predicate StateInv(plan: Plan, d0: Disk, g: Goals, s: Run, i: nat)
    requires i < |plan.entries| == |g.targets| == |g.needed| == |s.entries|
  {
    match s.entries[i]
    case Waiting => true
    case Prepared(output) => g.needed[i] && AtStart(plan, d0, s.disk.vfs, i) && output == g.targets[i]
    case Replaced => g.needed[i] && AtTarget(plan, g, s.disk.vfs, i)
    case Completed => AtTarget(plan, g, s.disk.vfs, i)
    case Failed(error) => error == MissingPayload
  }

  /** Holds until the first deferred file may be committed. */
  ghost predicate BeforeCommit(plan: Plan, d0: Disk, g: Goals, s: Run) {
    && (s.phase.Preparing? || s.phase.Applying? || s.phase.Deleting?)
    && Standing(plan, d0, g, s.disk) && |s.entries| == |plan.entries|
    && (forall i {:trigger EntryInv(plan, d0, g, s, i)} :: 0 <= i < |s.entries| ==> EntryInv(plan, d0, g, s, i))
    && (!s.phase.Preparing? ==> forall r :: r in plan.deferredPaths ==> r !in s.disk.stage)
    && (s.phase.Preparing? ==> forall i :: 0 <= i < |s.entries| ==> s.entries[i].Waiting?)
    && (s.phase.Deleting? ==> forall i :: 0 <= i < |s.entries| ==> s.entries[i].Completed?)
  }

  ghost function Committed(plan: Plan, disk: Disk): set<Path> {
    set r | r in plan.deferredPaths && r !in disk.deferred
  }

  /** All outputs, deletes and the `committed` deferred files are in place, and nothing else changed. */
  ghost predicate FilesAreFinal(plan: Plan, d0: Disk, g: Goals, vfs: Files, committed: set<Path>)
    requires |g.targets| == |plan.entries|
  {
    forall q {:trigger FinalContent(plan, d0, g, committed, q)} ::
      Lookup(vfs, q) == FinalContent(plan, d0, g, committed, q)
  }

  /** A disk on which the plan is done: only deferred files are still missing. */
  ghost predicate Settled(plan: Plan, d0: Disk, g: Goals, disk: Disk) {
    && |plan.entries| == |g.targets| == |g.needed|
    && FilesAreFinal(plan, d0, g, disk.vfs, Committed(plan, disk))
    && StageWithin(d0, disk)
    && (forall r :: r in plan.deferredPaths ==> r !in disk.stage)
    && (forall r :: r in plan.deferredPaths && r in disk.deferred ==> DeferredHeld(d0, disk, r))
  }

  ghost predicate AfterCommit(plan: Plan, d0: Disk, g: Goals, s: Run) {
    && (s.phase.Committing? || s.phase.Cleaning? || s.phase.Finished?)
    && Settled(plan, d0, g, s.disk) && |s.entries| == |plan.entries|
    && (forall i :: 0 <= i < |s.entries| ==> s.entries[i].Completed?)
    && (!s.phase.Committing? ==> Committed(plan, s.disk) == set r | r in plan.deferredPaths)
  }

  /** A payload that dropping entry `i`'s payload would take away from entry `j`. */
  ghost predicate StillUses(plan: Plan, g: Goals, vfs: Files, i: nat, j: nat) {
    && i < |plan.entries| == |g.targets| == |g.needed| && j < |plan.entries| && i != j
    && Payload(plan.entries[i]).Some? && Payload(plan.entries[j]) == Payload(plan.entries[i])
    && !AtTarget(plan, g, vfs, j)
  }

  predicate PayloadHeld(entry: Entry, disk: Disk) {
    Payload(entry).Some? ==> Payload(entry).value in disk.stage
  }

  // ----- facts about goals

  lemma GoalFacts(codec: Codec, plan: Plan, d0: Disk, i: nat)
    requires Startable(codec, plan, d0) && i < |plan.entries|
    ensures var g := GoalsOf(codec, plan, d0);
      && AcceptsOutput(codec, plan.entries[i], g.targets[i])
      && (g.needed[i] ==> PrepareEntry(codec, plan.entries[i], d0) == Ok(Some(g.targets[i])))
      && (g.needed[i] ==> !AtTarget(plan, g, d0.vfs, i))
      && (!g.needed[i] ==> AtTarget(plan, g, d0.vfs, i))
  {
    assert PrepareEntry(codec, plan.entries[i], d0).Ok?;
  }

  /** Applying an entry whose output is missing yields just that output, if its payload has not been taken away. */
  lemma PrepareAgrees(codec: Codec, plan: Plan, d0: Disk, disk: Disk, i: nat)
    requires Startable(codec, plan, d0) && i < |plan.entries|
    requires Reproducible(plan, d0, GoalsOf(codec, plan, d0), disk.vfs, i) && StageWithin(d0, disk)
    ensures var g := GoalsOf(codec, plan, d0);
      PrepareEntry(codec, plan.entries[i], disk) ==
      if AtTarget(plan, g, disk.vfs, i) then Ok(None)
      else if PayloadHeld(plan.entries[i], disk) then Ok(Some(g.targets[i]))
      else Err(MissingPayload)
    ensures EntryRecoverable(codec, plan.entries[i], disk) <==>
      AtTarget(plan, GoalsOf(codec, plan, d0), disk.vfs, i) || PayloadHeld(plan.entries[i], disk)
    ensures OutputMatches(codec, plan.entries[i], disk) <==> AtTarget(plan, GoalsOf(codec, plan, d0), disk.vfs, i)
  {
    GoalFacts(codec, plan, d0, i);
  }

  // ----- one lemma per kind of step

  ghost predicate Keeps(codec: Codec, plan: Plan, d0: Disk, s: Run, a: Action)
    requires Startable(codec, plan, d0) && Enabled(plan, s, a)
  {
    BeforeCommit(plan, d0, GoalsOf(codec, plan, d0), Next(codec, plan, s, a))
  }

  /** Starting an entry never fails but for a payload that was taken away. */
  lemma StartKeeps(codec: Codec, plan: Plan, d0: Disk, s: Run, i: nat)
    requires Sound(codec, plan, d0) && BeforeCommit(plan, d0, GoalsOf(codec, plan, d0), s)
    requires Enabled(plan, s, Start(i))
    ensures Keeps(codec, plan, d0, s, Start(i))
    ensures var e, g := Next(codec, plan, s, Start(i)).entries[i], GoalsOf(codec, plan, d0);
      && (e.Completed? <==> AtTarget(plan, g, s.disk.vfs, i))
      && (e.Failed? <==> !AtTarget(plan, g, s.disk.vfs, i) && !PayloadHeld(plan.entries[i], s.disk))
      && (e.Prepared? || e.Completed? || e.Failed?)
  {
    var g, s' := GoalsOf(codec, plan, d0), Next(codec, plan, s, Start(i));
    assert Reproducible(plan, d0, g, s.disk.vfs, i);
    PrepareAgrees(codec, plan, d0, s.disk, i);
    hide Standing, Lookup;
    forall j | 0 <= j < |s'.entries| ensures EntryInv(plan, d0, g, s', j) {
      assert EntryInv(plan, d0, g, s, j);
    }
  }

  lemma DestinationsApart(plan: Plan, i: nat, j: nat)
    requires UniqueWriters(plan) && i < |plan.entries| && j < |plan.entries| && i != j
    ensures plan.entries[i].destination != plan.entries[j].destination
  {
    assert plan.entries[i].destination in plan.Aliases(i) && plan.entries[j].destination in plan.Aliases(j);
  }

  lemma ReplaceKeeps(codec: Codec, plan: Plan, d0: Disk, s: Run, i: nat)
    requires Sound(codec, plan, d0) && BeforeCommit(plan, d0, GoalsOf(codec, plan, d0), s)
    requires Enabled(plan, s, Replace(i))
    ensures Keeps(codec, plan, d0, s, Replace(i))
  {
    var g, s' := GoalsOf(codec, plan, d0), Next(codec, plan, s, Replace(i));
    var destination := plan.entries[i].destination;
    assert EntryInv(plan, d0, g, s, i);
    assert destination in plan.Aliases(i) && plan.entries[i] in plan.entries;
    forall j: nat | j < |s'.entries| ensures EntryInv(plan, d0, g, s', j) && Reproducible(plan, d0, g, s'.disk.vfs, j) {
      assert EntryInv(plan, d0, g, s, j) && Reproducible(plan, d0, g, s.disk.vfs, j);
      if j != i {
        DestinationsApart(plan, i, j);
        assert plan.entries[j].source.Hdiff? && plan.entries[j].source.base == destination ==> MustPrecede(plan, j, i);
      }
    }
    forall q ensures RestInv(plan, d0, s'.disk.vfs, q) {
      assert RestInv(plan, d0, s.disk.vfs, q);
    }
    assert forall r :: r in plan.deferredPaths ==> DeferredHeld(d0, s.disk, r);
  }

  lemma DropPayloadKeeps(codec: Codec, plan: Plan, d0: Disk, s: Run, i: nat)
    requires Sound(codec, plan, d0) && BeforeCommit(plan, d0, GoalsOf(codec, plan, d0), s)
    requires Enabled(plan, s, DropPayload(i))
    ensures Keeps(codec, plan, d0, s, DropPayload(i))
  {
    var g, s' := GoalsOf(codec, plan, d0), Next(codec, plan, s, DropPayload(i));
    assert EntryInv(plan, d0, g, s, i);
    forall j: nat | j < |s'.entries| ensures EntryInv(plan, d0, g, s', j) {
      assert EntryInv(plan, d0, g, s, j);
    }
    assert plan.entries[i] in plan.entries;
    assert forall j: nat :: j < |plan.entries| ==> Reproducible(plan, d0, g, s.disk.vfs, j);
    assert forall q :: RestInv(plan, d0, s.disk.vfs, q);
    forall r | r in plan.deferredPaths ensures DeferredHeld(d0, s'.disk, r) {
      assert DeferredHeld(d0, s.disk, r);
    }
  }

  /** Removing a doomed subtree that holds no output and no base still in use. */
  lemma RemovalKeeps(codec: Codec, plan: Plan, d0: Disk, s: Run, p: Path, s': Run)
    requires Sound(codec, plan, d0) && BeforeCommit(plan, d0, GoalsOf(codec, plan, d0), s)
    requires s' == s.(disk := s.disk.(vfs := Without(s.disk.vfs, p)))
    requires Doomed(plan, p)
    requires forall i: nat :: i < |plan.entries| ==> !(p <= plan.entries[i].destination)
    requires forall i: nat :: i < |plan.entries| && ReadsBelow(codec, plan, d0, p, i) ==> s.entries[i].Completed?
    ensures BeforeCommit(plan, d0, GoalsOf(codec, plan, d0), s')
  {
    var g := GoalsOf(codec, plan, d0);
    forall j: nat | j < |s'.entries| ensures EntryInv(plan, d0, g, s', j) && Reproducible(plan, d0, g, s'.disk.vfs, j) {
      assert EntryInv(plan, d0, g, s, j) && Reproducible(plan, d0, g, s.disk.vfs, j);
      assert g.needed[j] && !s.entries[j].Completed? ==> !ReadsBelow(codec, plan, d0, p, j);
    }
    RemovalSparesRest(plan, d0, s.disk.vfs, p);
    assert forall r :: r in plan.deferredPaths ==> DeferredHeld(d0, s.disk, r);
  }

  lemma RemovalSparesRest(plan: Plan, d0: Disk, vfs: Files, p: Path)
    requires Doomed(plan, p) && forall q {:trigger RestInv(plan, d0, vfs, q)} :: RestInv(plan, d0, vfs, q)
    ensures forall q {:trigger RestInv(plan, d0, Without(vfs, p), q)} :: RestInv(plan, d0, Without(vfs, p), q)
  {
    var k: nat :| Removable(plan, k) && plan.PhysicalDelete(plan.deletePaths[k]) <= p;
    forall q ensures RestInv(plan, d0, Without(vfs, p), q) {
      assert RestInv(plan, d0, vfs, q);
      assert p <= q ==> plan.PhysicalDelete(plan.deletePaths[k]) <= q;
    }
  }

  lemma ValidDeletesAreRemovable(plan: Plan, k: nat)
    requires Valid(plan) && k < |plan.deletePaths|
    ensures Removable(plan, k)
  {
    assert ValidDelete(plan, plan.deletePaths[k]);
    forall e | e in plan.entries ensures plan.deletePaths[k] != JoinWritten(plan.vfsBase, e.written) {
      assert plan.installRoot + (plan.vfsBase + e.written) == plan.LogicalRoot() + e.written;
      assert SafeComponent(plan.deletePaths[k][0]) && plan.deletePaths[k][0] != ROOT;
    }
  }

  lemma DeletesAreSafe(codec: Codec, plan: Plan, d0: Disk, k: nat)
    requires Sound(codec, plan, d0) && k < |plan.deletePaths|
    ensures var p := plan.PhysicalDelete(plan.deletePaths[k]);
            forall i: nat :: i < |plan.entries| ==>
              !(p <= plan.entries[i].destination)
              && (ReadsBelow(codec, plan, d0, p, i) ==> p == plan.entries[i].source.base)
  {
    var p := plan.PhysicalDelete(plan.deletePaths[k]);
    forall i: nat | i < |plan.entries|
      ensures !(p <= plan.entries[i].destination)
      ensures ReadsBelow(codec, plan, d0, p, i) ==> p == plan.entries[i].source.base
    {
      assert SafeToDelete(plan, GoalsOf(codec, plan, d0), p, i);
    }
  }

  /** Entry `i` will read a base at or below `p`. */
  ghost predicate ReadsBelow(codec: Codec, plan: Plan, d0: Disk, p: Path, i: nat)
    requires Startable(codec, plan, d0) && i < |plan.entries|
  {
    GoalsOf(codec, plan, d0).needed[i] && plan.entries[i].source.Hdiff? && p <= plan.entries[i].source.base
  }

  lemma DeleteStepKeeps(codec: Codec, plan: Plan, d0: Disk, s: Run, a: Action)
    requires Sound(codec, plan, d0) && BeforeCommit(plan, d0, GoalsOf(codec, plan, d0), s)
    requires (a.RemoveUnreferenced? || a.Delete?) && Enabled(plan, s, a)
    ensures Keeps(codec, plan, d0, s, a)
  {
    var p, g := plan.PhysicalDelete(plan.deletePaths[a.k]), GoalsOf(codec, plan, d0);
    ValidDeletesAreRemovable(plan, a.k);
    DeletesAreSafe(codec, plan, d0, a.k);
    forall i: nat | i < |plan.entries| && ReadsBelow(codec, plan, d0, p, i)
      ensures s.entries[i].Completed?
    {
      assert p == plan.entries[i].source.base && plan.entries[i] in plan.entries;
    }
    RemovalKeeps(codec, plan, d0, s, p, Next(codec, plan, s, a));
  }

  /** A base that is released is itself one of the paths to delete. */
  lemma ReleasedBaseIsDeletePath(plan: Plan, base: Path) returns (k: nat)
    requires Valid(plan) && plan.vfsDestination <= base && Releasable(plan, base)
    ensures Removable(plan, k) && plan.PhysicalDelete(plan.deletePaths[k]) == base
  {
    var tail := base[|plan.vfsDestination|..];
    var relative := plan.vfsBase + tail;
    k :| 0 <= k < |plan.deletePaths| && plan.deletePaths[k] == relative;
    assert relative[|plan.vfsBase|..] == tail && plan.vfsBase <= relative;
    assert base == plan.vfsDestination + tail;
    assert plan.installRoot + relative == plan.LogicalRoot() + tail;
  }

  lemma ReleaseBaseKeeps(codec: Codec, plan: Plan, d0: Disk, s: Run, i: nat)
    requires Sound(codec, plan, d0) && BeforeCommit(plan, d0, GoalsOf(codec, plan, d0), s)
    requires Enabled(plan, s, ReleaseBase(i))
    ensures Keeps(codec, plan, d0, s, ReleaseBase(i))
  {
    var base := plan.entries[i].source.base;
    assert ValidEntry(plan, plan.entries[i]);
    var k := ReleasedBaseIsDeletePath(plan, base);
    DeletesAreSafe(codec, plan, d0, k);
    var g := GoalsOf(codec, plan, d0);
    forall j: nat | j < |plan.entries| && ReadsBelow(codec, plan, d0, base, j)
      ensures s.entries[j].Completed?
    {
      assert SharesBase(plan, i, j);
    }
    RemovalKeeps(codec, plan, d0, s, base, Next(codec, plan, s, ReleaseBase(i)));
  }

  lemma StageDeferredKeeps(codec: Codec, plan: Plan, d0: Disk, s: Run, r: Path)
    requires Sound(codec, plan, d0) && BeforeCommit(plan, d0, GoalsOf(codec, plan, d0), s)
    requires Enabled(plan, s, StageDeferred(r))
    ensures Keeps(codec, plan, d0, s, StageDeferred(r))
  {
    var g, s' := GoalsOf(codec, plan, d0), Next(codec, plan, s, StageDeferred(r));
    forall j: nat | j < |s'.entries| ensures EntryInv(plan, d0, g, s', j) {
      assert EntryInv(plan, d0, g, s, j);
    }
    assert forall j: nat :: j < |plan.entries| ==> Reproducible(plan, d0, g, s.disk.vfs, j);
    assert forall q :: RestInv(plan, d0, s.disk.vfs, q);
    forall x | x in plan.deferredPaths ensures DeferredHeld(d0, s'.disk, x) {
      assert DeferredHeld(d0, s.disk, x);
    }
  }

  lemma PhaseStepKeeps(codec: Codec, plan: Plan, d0: Disk, s: Run, a: Action)
    requires Sound(codec, plan, d0) && BeforeCommit(plan, d0, GoalsOf(codec, plan, d0), s)
    requires (a.BeginApplying? || a.BeginDeleting?) && Enabled(plan, s, a)
    ensures Keeps(codec, plan, d0, s, a)
  {
    var g, s' := GoalsOf(codec, plan, d0), Next(codec, plan, s, a);
    hide Standing;
    forall j: nat | j < |s'.entries| ensures EntryInv(plan, d0, g, s', j) {
      assert EntryInv(plan, d0, g, s, j);
    }
  }

  // ----- what no step takes away

  /** Before the commit no step but the replacement of its own file changes what an output is. */
  lemma TargetsStay(codec: Codec, plan: Plan, d0: Disk, s: Run, a: Action, j: nat)
    requires Sound(codec, plan, d0) && BeforeCommit(plan, d0, GoalsOf(codec, plan, d0), s)
    requires Enabled(plan, s, a) && !a.BeginCommitting? && j < |plan.entries|
    ensures !(a.Replace? && a.i == j) ==>
      Lookup(Next(codec, plan, s, a).disk.vfs, plan.entries[j].destination)
      == Lookup(s.disk.vfs, plan.entries[j].destination)
  {
    match a
    case Replace(i) =>
      if i != j {
        DestinationsApart(plan, i, j);
      }
    case RemoveUnreferenced(k) => DeletesAreSafe(codec, plan, d0, k);
    case Delete(k) => DeletesAreSafe(codec, plan, d0, k);
    case ReleaseBase(i) =>
      assert ValidEntry(plan, plan.entries[i]);
      var k := ReleasedBaseIsDeletePath(plan, plan.entries[i].source.base);
      DeletesAreSafe(codec, plan, d0, k);
    case _ =>
  }
}
