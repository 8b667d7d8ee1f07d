/** Crash recovery: every run, however often it crashes, reaches the same final files. */
module PatchRecovery {
  import opened Collections
  import opened DependencyGraph
  import opened PatchPlan
  import opened SafePath
  import opened PatchDependencies
  import opened PatchRun
  import opened PatchSafety

  ghost predicate AllDeferredHeld(plan: Plan, disk: Disk) {
    forall r :: r in plan.deferredPaths ==> r in disk.stage || r in disk.deferred
  }

  /** No payload has been taken away from an entry whose output is still missing. */
  ghost predicate PayloadsHeld(plan: Plan, g: Goals, disk: Disk)
    requires |g.targets| == |plan.entries|
  {
    forall i: nat :: i < |plan.entries| ==> AtTarget(plan, g, disk.vfs, i) || PayloadHeld(plan.entries[i], disk)
  }

  /** Holds in every reachable state. */
  ghost predicate Inv(plan: Plan, d0: Disk, g: Goals, s: Run) {
    || BeforeCommit(plan, d0, g, s)
    || AfterCommit(plan, d0, g, s)
    || (s.phase.Abandoned? && Standing(plan, d0, g, s.disk))
    || (s.phase.Abandoned? && Settled(plan, d0, g, s.disk) && !AllDeferredHeld(plan, s.disk))
  }

  // ----- recovery

  lemma BeginHolds(codec: Codec, plan: Plan, d0: Disk)
    requires Sound(codec, plan, d0)
    ensures BeforeCommit(plan, d0, GoalsOf(codec, plan, d0), Begin(plan, d0))
  {
    var g := GoalsOf(codec, plan, d0);
    forall i: nat | i < |plan.entries| ensures Reproducible(plan, d0, g, d0.vfs, i) {
      GoalFacts(codec, plan, d0, i);
    }
    assert forall q :: RestInv(plan, d0, d0.vfs, q);
    ResumeHolds(plan, d0, g, d0);
  }

  lemma ResumeHolds(plan: Plan, d0: Disk, g: Goals, disk: Disk)
    requires Standing(plan, d0, g, disk)
    ensures BeforeCommit(plan, d0, g, Begin(plan, disk))
  {
    hide Standing;
    assert forall i: nat :: i < |plan.entries| ==> Begin(plan, disk).entries[i].Waiting?;
  }

  lemma StandingIsReadyIff(codec: Codec, plan: Plan, d0: Disk, disk: Disk)
    requires Sound(codec, plan, d0) && Standing(plan, d0, GoalsOf(codec, plan, d0), disk)
    ensures AllDeferredHeld(plan, disk)
    ensures RecoveryVerdict(codec, plan, disk).ExtractedReady? <==> PayloadsHeld(plan, GoalsOf(codec, plan, d0), disk)
  {
    var g := GoalsOf(codec, plan, d0);
    forall i: nat | i < |plan.entries|
      ensures EntryRecoverable(codec, plan.entries[i], disk) <==>
              AtTarget(plan, g, disk.vfs, i) || PayloadHeld(plan.entries[i], disk)
    {
      assert Reproducible(plan, d0, g, disk.vfs, i);
      PrepareAgrees(codec, plan, d0, disk, i);
    }
    forall r | r in plan.deferredPaths ensures r in disk.stage || r in disk.deferred {
      assert DeferredHeld(d0, disk, r);
    }
    hide Standing, Sound, EntryRecoverable, AtTarget, PayloadHeld;
    if PayloadsHeld(plan, g, disk) {
      forall e | e in plan.entries ensures EntryRecoverable(codec, e, disk) {
        var i: nat :| i < |plan.entries| && plan.entries[i] == e;
      }
    }
    if RecoveryVerdict(codec, plan, disk).ExtractedReady? {
      forall i: nat | i < |plan.entries| ensures AtTarget(plan, g, disk.vfs, i) || PayloadHeld(plan.entries[i], disk) {
        assert plan.entries[i] in plan.entries;
      }
    }
  }

  /** With the plan applied but no deferred file committed, starting again is sound. */
  lemma SettledStands(codec: Codec, plan: Plan, d0: Disk, disk: Disk)
    requires Sound(codec, plan, d0) && Settled(plan, d0, GoalsOf(codec, plan, d0), disk)
    requires AllDeferredHeld(plan, disk)
    ensures Standing(plan, d0, GoalsOf(codec, plan, d0), disk) && PayloadsHeld(plan, GoalsOf(codec, plan, d0), disk)
  {
    var g := GoalsOf(codec, plan, d0);
    assert Committed(plan, disk) == {};
    forall i: nat | i < |plan.entries| ensures AtTarget(plan, g, disk.vfs, i) {
      OutputIsFinal(codec, plan, d0, {}, i);
    }
    forall q ensures RestInv(plan, d0, disk.vfs, q) {
      assert Lookup(disk.vfs, q) == FinalContent(plan, d0, g, {}, q);
      forall i: nat | Writes(plan, i, q) ensures IsDestination(plan, q) {
        assert plan.entries[i] in plan.entries;
      }
    }
    assert forall i: nat :: i < |plan.entries| ==> Reproducible(plan, d0, g, disk.vfs, i);
    forall r | r in plan.deferredPaths ensures DeferredHeld(d0, disk, r) {
      assert r in disk.deferred;
    }
  }

  lemma OutputIsFinal(codec: Codec, plan: Plan, d0: Disk, committed: set<Path>, i: nat)
    requires Sound(codec, plan, d0) && i < |plan.entries|
    requires forall r :: r in committed ==> plan.installRoot + r != plan.entries[i].destination
    ensures var g := GoalsOf(codec, plan, d0);
      FinalContent(plan, d0, g, committed, plan.entries[i].destination) == Some(g.targets[i])
  {
    var q := plan.entries[i].destination;
    if plan.installRoot <= q {
      assert q == plan.installRoot + q[|plan.installRoot|..];
    }
    assert Writes(plan, i, q);
    forall j: nat | Writes(plan, j, q) ensures j == i {
      assert q in plan.Aliases(i) && q in plan.Aliases(j);
    }
  }

  // ----- the steps after the deletes

  lemma BeginCommittingHolds(codec: Codec, plan: Plan, d0: Disk, s: Run)
    requires Sound(codec, plan, d0) && BeforeCommit(plan, d0, GoalsOf(codec, plan, d0), s)
    requires Enabled(plan, s, BeginCommitting)
    ensures AfterCommit(plan, d0, GoalsOf(codec, plan, d0), Next(codec, plan, s, BeginCommitting))
  {
    var g := GoalsOf(codec, plan, d0);
    forall r | r in plan.deferredPaths ensures r in s.disk.deferred {
      assert DeferredHeld(d0, s.disk, r);
    }
    assert Committed(plan, s.disk) == {};
    forall q ensures Lookup(s.disk.vfs, q) == FinalContent(plan, d0, g, {}, q) {
      assert RestInv(plan, d0, s.disk.vfs, q);
      if i: nat :| Writes(plan, i, q) {
        assert EntryInv(plan, d0, g, s, i);
        OutputIsFinal(codec, plan, d0, {}, i);
      } else {
        forall e | e in plan.entries ensures e.destination != q {
          var j :| 0 <= j < |plan.entries| && plan.entries[j] == e;
          assert !Writes(plan, j, q);
        }
        if Doomed(plan, q) {
          var k: nat :| Removable(plan, k) && plan.PhysicalDelete(plan.deletePaths[k]) <= q;
          assert !AnyUnder(s.disk.vfs, plan.PhysicalDelete(plan.deletePaths[k]));
        }
      }
    }
  }

  lemma CommitDeferredHolds(codec: Codec, plan: Plan, d0: Disk, s: Run, r: Path)
    requires Sound(codec, plan, d0) && AfterCommit(plan, d0, GoalsOf(codec, plan, d0), s)
    requires Enabled(plan, s, CommitDeferred(r))
    ensures AfterCommit(plan, d0, GoalsOf(codec, plan, d0), Next(codec, plan, s, CommitDeferred(r)))
  {
    var g, s' := GoalsOf(codec, plan, d0), Next(codec, plan, s, CommitDeferred(r));
    var before, after := Committed(plan, s.disk), Committed(plan, s'.disk);
    assert after == before + {r} && DeferredHeld(d0, s.disk, r);
    var target := plan.installRoot + r;
    assert target[|plan.installRoot|..] == r;
    forall q ensures Lookup(s'.disk.vfs, q) == FinalContent(plan, d0, g, after, q) {
      assert Lookup(s.disk.vfs, q) == FinalContent(plan, d0, g, before, q);
      if plan.installRoot <= q && q != target {
        assert q == plan.installRoot + q[|plan.installRoot|..];
        assert q[|plan.installRoot|..] != r;
      }
    }
    forall x | x in plan.deferredPaths && x in s'.disk.deferred ensures DeferredHeld(d0, s'.disk, x) {
      assert DeferredHeld(d0, s.disk, x);
    }
  }

  lemma LateStepHolds(codec: Codec, plan: Plan, d0: Disk, s: Run, a: Action)
    requires Sound(codec, plan, d0) && AfterCommit(plan, d0, GoalsOf(codec, plan, d0), s)
    requires (a.BeginCleaning? || a.DropStage? || a.RemovePlan?) && Enabled(plan, s, a)
    ensures AfterCommit(plan, d0, GoalsOf(codec, plan, d0), Next(codec, plan, s, a))
  {
    var g, s' := GoalsOf(codec, plan, d0), Next(codec, plan, s, a);
    assert Committed(plan, s'.disk) == Committed(plan, s.disk);
    assert forall q :: Lookup(s.disk.vfs, q) == FinalContent(plan, d0, g, Committed(plan, s.disk), q);
    forall x | x in plan.deferredPaths && x in s'.disk.deferred ensures DeferredHeld(d0, s'.disk, x) {
      assert DeferredHeld(d0, s.disk, x);
    }
  }

  /** The verdict on the disk of any state reached. */
  lemma ReadyIff(codec: Codec, plan: Plan, d0: Disk, s: Run)
    requires Sound(codec, plan, d0) && Inv(plan, d0, GoalsOf(codec, plan, d0), s)
    ensures RecoveryVerdict(codec, plan, s.disk).ExtractedReady? <==>
      AllDeferredHeld(plan, s.disk) && PayloadsHeld(plan, GoalsOf(codec, plan, d0), s.disk)
    ensures AllDeferredHeld(plan, s.disk) ==> Standing(plan, d0, GoalsOf(codec, plan, d0), s.disk)
    ensures !AllDeferredHeld(plan, s.disk) ==>
      FilesAreFinal(plan, d0, GoalsOf(codec, plan, d0), s.disk.vfs, Committed(plan, s.disk))
  {
    var g := GoalsOf(codec, plan, d0);
    hide PayloadsHeld, FilesAreFinal, StageWithin, DeferredHeld;
    if Standing(plan, d0, g, s.disk) {
      StandingIsReadyIff(codec, plan, d0, s.disk);
    } else if AllDeferredHeld(plan, s.disk) {
      SettledStands(codec, plan, d0, s.disk);
      StandingIsReadyIff(codec, plan, d0, s.disk);
    }
  }

  lemma CrashHolds(codec: Codec, plan: Plan, d0: Disk, s: Run)
    requires Sound(codec, plan, d0) && Inv(plan, d0, GoalsOf(codec, plan, d0), s)
    requires Enabled(plan, s, Crash)
    ensures Inv(plan, d0, GoalsOf(codec, plan, d0), Next(codec, plan, s, Crash))
  {
    ReadyIff(codec, plan, d0, s);
    hide Sound, Standing, Settled, RecoveryVerdict, PayloadsHeld, AllDeferredHeld, FilesAreFinal;
    if RecoveryVerdict(codec, plan, s.disk).ExtractedReady? {
      ResumeHolds(plan, d0, GoalsOf(codec, plan, d0), s.disk);
    }
  }

  // ----- main results

  /** Every step keeps the invariant, whether or not entries share payloads. */
  lemma StepHolds(codec: Codec, plan: Plan, d0: Disk, s: Run, a: Action)
    requires Sound(codec, plan, d0) && Inv(plan, d0, GoalsOf(codec, plan, d0), s) && Enabled(plan, s, a)
    ensures Inv(plan, d0, GoalsOf(codec, plan, d0), Next(codec, plan, s, a))
  {
    match a
    case StageDeferred(r) => StageDeferredKeeps(codec, plan, d0, s, r);
    case RemoveUnreferenced(_) => DeleteStepKeeps(codec, plan, d0, s, a);
    case BeginApplying => PhaseStepKeeps(codec, plan, d0, s, a);
    case Start(i) => StartKeeps(codec, plan, d0, s, i);
    case Replace(i) => ReplaceKeeps(codec, plan, d0, s, i);
    case DropPayload(i) => DropPayloadKeeps(codec, plan, d0, s, i);
    case ReleaseBase(i) => ReleaseBaseKeeps(codec, plan, d0, s, i);
    case BeginDeleting => PhaseStepKeeps(codec, plan, d0, s, a);
    case Delete(_) => DeleteStepKeeps(codec, plan, d0, s, a);
    case BeginCommitting => BeginCommittingHolds(codec, plan, d0, s);
    case CommitDeferred(r) => CommitDeferredHolds(codec, plan, d0, s, r);
    case BeginCleaning => LateStepHolds(codec, plan, d0, s, a);
    case DropStage => LateStepHolds(codec, plan, d0, s, a);
    case RemovePlan => LateStepHolds(codec, plan, d0, s, a);
    case Crash => CrashHolds(codec, plan, d0, s);
  }

  lemma {:induction false} RunHolds(codec: Codec, plan: Plan, d0: Disk, s: Run, actions: seq<Action>, s': Run)
    requires Sound(codec, plan, d0)
    requires Inv(plan, d0, GoalsOf(codec, plan, d0), s) && Runs(codec, plan, s, actions, s')
    ensures Inv(plan, d0, GoalsOf(codec, plan, d0), s')
    decreases |actions|
  {
    if actions != [] {
      hide Inv, Sound;
      StepHolds(codec, plan, d0, s, actions[0]);
      RunHolds(codec, plan, d0, Next(codec, plan, s, actions[0]), actions[1..], s');
    }
  }

  /**
   * Recovery: in every reachable state, after any interleaving and any number of crashes, a restart finds the patch
   * ready to resume exactly when no deferred file has left its private place and no missing output has lost its
   * payload; and when a deferred file has left, every output and every delete is already in place.
   */
  lemma EveryCrashIsRecoverable(codec: Codec, plan: Plan, d0: Disk, actions: seq<Action>, s: Run)
    requires Sound(codec, plan, d0)
    requires Runs(codec, plan, Begin(plan, d0), actions, s)
    ensures RecoveryVerdict(codec, plan, s.disk).ExtractedReady? <==>
      AllDeferredHeld(plan, s.disk) && PayloadsHeld(plan, GoalsOf(codec, plan, d0), s.disk)
    ensures !AllDeferredHeld(plan, s.disk) ==>
      FilesAreFinal(plan, d0, GoalsOf(codec, plan, d0), s.disk.vfs, Committed(plan, s.disk))
  {
    BeginHolds(codec, plan, d0);
    RunHolds(codec, plan, d0, Begin(plan, d0), actions, s);
    ReadyIff(codec, plan, d0, s);
  }

  /**
   * Correctness: whatever the order, the interleaving and the crashes, a finished run has applied all entries
   * as if at once to the initial files, done all deletes and committed all deferred files.
   */
  lemma FinishedRunsAgree(codec: Codec, plan: Plan, d0: Disk, actions: seq<Action>, s: Run)
    requires Sound(codec, plan, d0)
    requires Runs(codec, plan, Begin(plan, d0), actions, s) && s.phase.Finished?
    ensures FilesAreFinal(plan, d0, GoalsOf(codec, plan, d0), s.disk.vfs, set r | r in plan.deferredPaths)
  {
    BeginHolds(codec, plan, d0);
    RunHolds(codec, plan, d0, Begin(plan, d0), actions, s);
  }

  // ----- payloads

  /** No two entries whose outputs are still missing at the start take the same payload. */
  ghost predicate DistinctPayloads(plan: Plan, g: Goals)
    requires |plan.entries| == |g.needed|
  {
    forall i, j :: 0 <= i < j < |plan.entries| && g.needed[i] && g.needed[j] && Payload(plan.entries[i]).Some? ==>
      Payload(plan.entries[i]) != Payload(plan.entries[j])
  }

  ghost predicate NoneFailed(s: Run) {
    forall i :: 0 <= i < |s.entries| ==> !s.entries[i].Failed?
  }

  /** Before the commit no entry has failed or is going to, and no restart was refused for want of a payload. */
  ghost predicate Supplied(plan: Plan, d0: Disk, g: Goals, s: Run) {
    && (BeforeCommit(plan, d0, g, s) ==> NoneFailed(s) && PayloadsHeld(plan, g, s.disk))
    && (s.phase.Abandoned? ==> !AllDeferredHeld(plan, s.disk))
  }

  lemma SupplyStays(codec: Codec, plan: Plan, d0: Disk, s: Run, a: Action, j: nat)
    requires Sound(codec, plan, d0) && BeforeCommit(plan, d0, GoalsOf(codec, plan, d0), s)
    requires Enabled(plan, s, a) && !a.Crash? && !a.BeginCommitting? && j < |plan.entries|
    requires a.DropPayload? ==> !StillUses(plan, GoalsOf(codec, plan, d0), s.disk.vfs, a.i, j)
    requires AtTarget(plan, GoalsOf(codec, plan, d0), s.disk.vfs, j) || PayloadHeld(plan.entries[j], s.disk)
    ensures var s' := Next(codec, plan, s, a);
      AtTarget(plan, GoalsOf(codec, plan, d0), s'.disk.vfs, j) || PayloadHeld(plan.entries[j], s'.disk)
  {
    var g := GoalsOf(codec, plan, d0);
    TargetsStay(codec, plan, d0, s, a, j);
    if a.Replace? || a.DropPayload? {
      assert EntryInv(plan, d0, g, s, a.i);
    }
    assert plan.entries[j] in plan.entries;
  }

  lemma NoneFails(codec: Codec, plan: Plan, d0: Disk, s: Run, a: Action)
    requires Sound(codec, plan, d0) && BeforeCommit(plan, d0, GoalsOf(codec, plan, d0), s)
    requires NoneFailed(s) && PayloadsHeld(plan, GoalsOf(codec, plan, d0), s.disk) && Enabled(plan, s, a) && !a.Crash?
    ensures NoneFailed(Next(codec, plan, s, a))
  {
    var g := GoalsOf(codec, plan, d0);
    if a.Start? {
      StartKeeps(codec, plan, d0, s, a.i);
    } else if a.Replace? {
      assert EntryInv(plan, d0, g, s, a.i);
      GoalFacts(codec, plan, d0, a.i);
    }
  }

  /** As long as no step takes away a payload that another entry needs, no entry fails. */
  lemma StepStaysSupplied(codec: Codec, plan: Plan, d0: Disk, s: Run, a: Action)
    requires Sound(codec, plan, d0) && BeforeCommit(plan, d0, GoalsOf(codec, plan, d0), s)
    requires Supplied(plan, d0, GoalsOf(codec, plan, d0), s) && Enabled(plan, s, a) && !a.Crash?
    requires a.DropPayload? ==> forall j: nat :: !StillUses(plan, GoalsOf(codec, plan, d0), s.disk.vfs, a.i, j)
    ensures Supplied(plan, d0, GoalsOf(codec, plan, d0), Next(codec, plan, s, a))
  {
    var g, s' := GoalsOf(codec, plan, d0), Next(codec, plan, s, a);
    NoneFails(codec, plan, d0, s, a);
    if !a.BeginCommitting? {
      hide BeforeCommit, Sound, StillUses, AtTarget, PayloadHeld, NoneFailed;
      forall j: nat | j < |plan.entries|
        ensures AtTarget(plan, g, s'.disk.vfs, j) || PayloadHeld(plan.entries[j], s'.disk)
      {
        SupplyStays(codec, plan, d0, s, a, j);
      }
    }
  }

  lemma DistinctPayloadsAreSafeToDrop(codec: Codec, plan: Plan, d0: Disk, s: Run, i: nat)
    requires Sound(codec, plan, d0) && DistinctPayloads(plan, GoalsOf(codec, plan, d0))
    requires BeforeCommit(plan, d0, GoalsOf(codec, plan, d0), s) && Enabled(plan, s, DropPayload(i))
    ensures forall j: nat :: !StillUses(plan, GoalsOf(codec, plan, d0), s.disk.vfs, i, j)
  {
    var g := GoalsOf(codec, plan, d0);
    assert EntryInv(plan, d0, g, s, i);
    forall j: nat ensures !StillUses(plan, g, s.disk.vfs, i, j) {
      assert j < |plan.entries| ==> Reproducible(plan, d0, g, s.disk.vfs, j);
    }
  }

  lemma HeldWhenSupplied(codec: Codec, plan: Plan, d0: Disk, s: Run)
    requires Sound(codec, plan, d0) && Inv(plan, d0, GoalsOf(codec, plan, d0), s)
    requires Supplied(plan, d0, GoalsOf(codec, plan, d0), s) && AllDeferredHeld(plan, s.disk)
    ensures PayloadsHeld(plan, GoalsOf(codec, plan, d0), s.disk)
  {
    var g := GoalsOf(codec, plan, d0);
    hide PayloadsHeld, AllDeferredHeld, Standing, Settled;
    if !BeforeCommit(plan, d0, g, s) {
      SettledStands(codec, plan, d0, s.disk);
    }
  }

  lemma {:induction false} RunStaysSupplied(codec: Codec, plan: Plan, d0: Disk, s: Run, actions: seq<Action>, s': Run)
    requires Sound(codec, plan, d0) && DistinctPayloads(plan, GoalsOf(codec, plan, d0))
    requires Inv(plan, d0, GoalsOf(codec, plan, d0), s) && Supplied(plan, d0, GoalsOf(codec, plan, d0), s)
    requires Runs(codec, plan, s, actions, s')
    ensures Inv(plan, d0, GoalsOf(codec, plan, d0), s') && Supplied(plan, d0, GoalsOf(codec, plan, d0), s')
    decreases |actions|
  {
    if actions != [] {
      hide Sound, Standing, Settled, PayloadsHeld, StillUses, DistinctPayloads, RecoveryVerdict, EntryInv;
      var a, g := actions[0], GoalsOf(codec, plan, d0);
      StepHolds(codec, plan, d0, s, a);
      if a.Crash? {
        ReadyIff(codec, plan, d0, s);
        if AllDeferredHeld(plan, s.disk) {
          HeldWhenSupplied(codec, plan, d0, s);
        }
      } else if BeforeCommit(plan, d0, g, s) {
        if a.DropPayload? {
          DistinctPayloadsAreSafeToDrop(codec, plan, d0, s, a.i);
        }
        StepStaysSupplied(codec, plan, d0, s, a);
      }
      RunStaysSupplied(codec, plan, d0, Next(codec, plan, s, a), actions[1..], s');
    }
  }

  lemma BeginIsSupplied(codec: Codec, plan: Plan, d0: Disk)
    requires Sound(codec, plan, d0)
    ensures Inv(plan, d0, GoalsOf(codec, plan, d0), Begin(plan, d0))
    ensures Supplied(plan, d0, GoalsOf(codec, plan, d0), Begin(plan, d0))
  {
    BeginHolds(codec, plan, d0);
    forall i: nat | i < |plan.entries|
      ensures AtTarget(plan, GoalsOf(codec, plan, d0), d0.vfs, i) || PayloadHeld(plan.entries[i], d0)
    {
      GoalFacts(codec, plan, d0, i);
    }
  }

  /** If entries do not share payloads, none ever fails, and a restart asks for deferred files only. */
  lemma DistinctPayloadsNeverFail(codec: Codec, plan: Plan, d0: Disk, actions: seq<Action>, s: Run)
    requires Sound(codec, plan, d0) && DistinctPayloads(plan, GoalsOf(codec, plan, d0))
    requires Runs(codec, plan, Begin(plan, d0), actions, s)
    ensures !s.phase.Abandoned? ==> NoneFailed(s)
    ensures RecoveryVerdict(codec, plan, s.disk).ExtractedReady? <==> AllDeferredHeld(plan, s.disk)
  {
    BeginIsSupplied(codec, plan, d0);
    RunStaysSupplied(codec, plan, d0, Begin(plan, d0), actions, s);
    ReadyIff(codec, plan, d0, s);
    if AllDeferredHeld(plan, s.disk) {
      HeldWhenSupplied(codec, plan, d0, s);
    }
  }
}
