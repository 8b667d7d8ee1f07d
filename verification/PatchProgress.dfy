/** Patch runs finish, and exactly which plans keep every crash recoverable. */
module PatchProgress {
  import opened Collections
  import opened DependencyGraph
  import opened PatchPlan
  import opened SafePath
  import opened PatchDependencies
  import opened PatchRun
  import opened PatchSafety
  import opened PatchRecovery

  // ----- every step makes progress

  function Rank(phase: Phase): nat {
    match phase
    case Preparing => 6
    case Applying => 5
    case Deleting => 4
    case Committing => 3
    case Cleaning => 2
    case Abandoned => 1
    case Finished => 0
  }

  function Weight(e: EntryState): nat {
    match e
    case Waiting => 3
    case Prepared(_) => 2
    case Replaced => 1
    case Completed => 0
    case Failed(_) => 0
  }

  function Work(entries: seq<EntryState>): nat {
    if entries == [] then 0 else Weight(entries[0]) + Work(entries[1..])
  }

  lemma {:induction false} WorkUpdate(entries: seq<EntryState>, i: nat, e: EntryState)
    requires i < |entries|
    ensures Work(entries[i := e]) + Weight(entries[i]) == Work(entries) + Weight(e)
  {
    if i > 0 {
      WorkUpdate(entries[1..], i - 1, e);
      assert entries[i := e][1..] == entries[1..][i - 1 := e];
    } else {
      assert entries[i := e][1..] == entries[1..];
    }
  }

  lemma WorkDrops(before: seq<EntryState>, after: seq<EntryState>, i: nat)
    requires i < |before| && before[i].Waiting? && after == before[i := Completed]
    ensures Work(after) < Work(before)
  {
    WorkUpdate(before, i, Completed);
  }

  /** Lexicographic order on phase, entry work, staged, deferred and installed files. */
  ghost predicate Closer(a: Run, b: Run) {
    || Rank(a.phase) < Rank(b.phase)
    || (a.phase == b.phase &&
        (|| Work(a.entries) < Work(b.entries)
         || (Work(a.entries) == Work(b.entries) &&
             (|| |a.disk.stage| < |b.disk.stage|
              || (|a.disk.stage| == |b.disk.stage| &&
                  (|| |a.disk.deferred| < |b.disk.deferred|
                   || (|a.disk.deferred| == |b.disk.deferred| && |a.disk.vfs| < |b.disk.vfs|)))))))
  }

  lemma RemovalShrinks(files: Files, p: Path)
    requires AnyUnder(files, p)
    ensures |Without(files, p)| < |files|
  {
    var q :| q in files && p <= q;
    assert Without(files, p).Keys <= files.Keys - {q};
    SubsetCardinality(Without(files, p).Keys, files.Keys - {q});
  }

  lemma KeyRemovalShrinks(files: Files, p: Path)
    requires p in files
    ensures |files - {p}| < |files|
  {
    assert (files - {p}).Keys == files.Keys - {p};
  }

  lemma EntryStepIsCloser(codec: Codec, plan: Plan, s: Run, a: Action)
    requires Enabled(plan, s, a) && (a.Start? || a.Replace? || a.DropPayload?)
    ensures Closer(Next(codec, plan, s, a), s)
  {
    var s' := Next(codec, plan, s, a);
    WorkUpdate(s.entries, a.i, s'.entries[a.i]);
    assert s'.entries == s.entries[a.i := s'.entries[a.i]] && s'.phase == s.phase;
  }

  lemma RemovalStepIsCloser(codec: Codec, plan: Plan, s: Run, a: Action)
    requires Enabled(plan, s, a) && (a.RemoveUnreferenced? || a.Delete? || a.ReleaseBase?)
    ensures Closer(Next(codec, plan, s, a), s)
  {
    var p := if a.ReleaseBase? then plan.entries[a.i].source.base else plan.PhysicalDelete(plan.deletePaths[a.k]);
    RemovalShrinks(s.disk.vfs, p);
    assert Next(codec, plan, s, a) == s.(disk := s.disk.(vfs := Without(s.disk.vfs, p)));
  }

  /** Without crashes nothing can go on for ever. */
  lemma EveryStepIsCloser(codec: Codec, plan: Plan, s: Run, a: Action)
    requires Enabled(plan, s, a) && !a.Crash?
    ensures Closer(Next(codec, plan, s, a), s)
  {
    if a.Start? || a.Replace? || a.DropPayload? {
      EntryStepIsCloser(codec, plan, s, a);
    } else if a.RemoveUnreferenced? || a.Delete? || a.ReleaseBase? {
      RemovalStepIsCloser(codec, plan, s, a);
    } else if a.StageDeferred? {
      KeyRemovalShrinks(s.disk.stage, a.path);
    } else if a.CommitDeferred? {
      KeyRemovalShrinks(s.disk.deferred, a.path);
    }
  }

  // ----- something can always be done

  /** Among entries that have not begun, one waits for nothing unfinished. */
  lemma StartableEntry(plan: Plan, s: Run) returns (i: nat)
    requires Acyclic(Dependencies(plan)) && |s.entries| == |plan.entries|
    requires forall i :: 0 <= i < |s.entries| ==> s.entries[i].Waiting? || s.entries[i].Completed?
    requires exists i :: 0 <= i < |s.entries| && s.entries[i].Waiting?
    ensures ReadyToStart(plan, s, i)
  {
    var done := set x: nat | x < |s.entries| && s.entries[x].Completed?;
    var w :| 0 <= w < |s.entries| && s.entries[w].Waiting?;
    assert w !in done;
    i := NextFree(Dependencies(plan), done);
    forall j: nat | MustPrecede(plan, j, i) ensures s.entries[j].Completed? {
      assert Waits(Dependencies(plan), i, j);
    }
  }

  lemma ApplyingProgress(plan: Plan, s: Run) returns (a: Action)
    requires Acyclic(Dependencies(plan)) && |s.entries| == |plan.entries| && s.phase.Applying? && NoneFailed(s)
    ensures Enabled(plan, s, a) && !a.Crash?
  {
    if i: nat :| i < |s.entries| && s.entries[i].Prepared? {
      a := Replace(i);
    } else if i: nat :| i < |s.entries| && s.entries[i].Replaced? {
      a := DropPayload(i);
    } else if i :| 0 <= i < |s.entries| && s.entries[i].Waiting? {
      var x := StartableEntry(plan, s);
      a := Start(x);
    } else {
      a := BeginDeleting;
    }
  }

  lemma PreparingProgress(plan: Plan, d0: Disk, s: Run) returns (a: Action)
    requires DeferredStaged(plan, d0) && s.phase.Preparing? && |s.entries| == |plan.entries|
    ensures Enabled(plan, s, a) && (a.StageDeferred? || a.RemoveUnreferenced? || a.BeginApplying?)
  {
    if r :| r in plan.deferredPaths && r in s.disk.stage {
      a := StageDeferred(r);
    } else if k: nat :| Unreferenced(plan, k) && AnyUnder(s.disk.vfs, plan.PhysicalDelete(plan.deletePaths[k])) {
      a := RemoveUnreferenced(k);
    } else {
      a := BeginApplying;
    }
  }

  lemma DeletingProgress(plan: Plan, s: Run) returns (a: Action)
    requires s.phase.Deleting? && |s.entries| == |plan.entries|
    ensures Enabled(plan, s, a) && (a.Delete? || a.BeginCommitting?)
  {
    if k: nat :| Removable(plan, k) && AnyUnder(s.disk.vfs, plan.PhysicalDelete(plan.deletePaths[k])) {
      a := Delete(k);
    } else {
      a := BeginCommitting;
    }
  }

  /** Every deferred file is in place, but one of them is listed a second time. */
  ghost predicate FailsToCommit(plan: Plan, s: Run) {
    s.phase.Committing? && !Distinct(plan.deferredPaths) && forall r :: r in plan.deferredPaths ==> r !in s.disk.deferred
  }

  lemma Progress(codec: Codec, plan: Plan, d0: Disk, s: Run) returns (a: Action)
    requires Sound(codec, plan, d0) && Inv(plan, d0, GoalsOf(codec, plan, d0), s)
    requires !s.phase.Finished? && !s.phase.Abandoned? && !FailsToCommit(plan, s)
    requires s.phase.Applying? ==> NoneFailed(s)
    ensures Enabled(plan, s, a) && !a.Crash?
  {
    match s.phase
    case Preparing => a := PreparingProgress(plan, d0, s);
    case Applying => a := ApplyingProgress(plan, s);
    case Deleting => a := DeletingProgress(plan, s);
    case Committing =>
      if r :| r in plan.deferredPaths && r in s.disk.deferred {
        a := CommitDeferred(r);
      } else {
        a := BeginCleaning;
      }
    case Cleaning => a := if s.disk.stage != map[] then DropStage else RemovePlan;
  }

  /** From every state reached so far, going on without a crash comes to the end of the commit, and then to the end. */
  lemma {:induction false} CanGoOn(codec: Codec, plan: Plan, d0: Disk, s: Run)
    returns (actions: seq<Action>, s': Run)
    requires Sound(codec, plan, d0) && DistinctPayloads(plan, GoalsOf(codec, plan, d0))
    requires Inv(plan, d0, GoalsOf(codec, plan, d0), s) && Supplied(plan, d0, GoalsOf(codec, plan, d0), s)
    requires !s.phase.Abandoned?
    ensures Runs(codec, plan, s, actions, s') && (s'.phase.Finished? || FailsToCommit(plan, s'))
    decreases Rank(s.phase), Work(s.entries), |s.disk.stage|, |s.disk.deferred|, |s.disk.vfs|
  {
    hide Sound, DistinctPayloads, Standing, Settled, PayloadsHeld, EntryInv, RecoveryVerdict;
    if s.phase.Finished? || FailsToCommit(plan, s) {
      actions, s' := [], s;
    } else {
      var a := Progress(codec, plan, d0, s);
      var next := Next(codec, plan, s, a);
      assert Runs(codec, plan, next, [], next) && [a][1..] == [];
      RunStaysSupplied(codec, plan, d0, s, [a], next);
      EveryStepIsCloser(codec, plan, s, a);
      assert !next.phase.Abandoned?;
      var rest;
      rest, s' := CanGoOn(codec, plan, d0, next);
      actions := [a] + rest;
      assert actions[1..] == rest;
    }
  }

  ghost predicate CanComplete(codec: Codec, plan: Plan, s: Run) {
    exists actions, t :: Runs(codec, plan, s, actions, t) && t.phase.Finished?
  }

  /** With every deferred path listed once and no payload shared, a run can always be completed. */
  lemma CanFinish(codec: Codec, plan: Plan, d0: Disk, actions: seq<Action>, s: Run)
    requires Sound(codec, plan, d0) && DistinctPayloads(plan, GoalsOf(codec, plan, d0)) && Distinct(plan.deferredPaths)
    requires Runs(codec, plan, Begin(plan, d0), actions, s) && !s.phase.Abandoned?
    ensures CanComplete(codec, plan, s)
  {
    BeginIsSupplied(codec, plan, d0);
    RunStaysSupplied(codec, plan, d0, Begin(plan, d0), actions, s);
    var rest, t := CanGoOn(codec, plan, d0, s);
  }

  lemma {:induction false} RepeatedDeferredNeverFinishes(codec: Codec, plan: Plan, s: Run, actions: seq<Action>, s': Run)
    requires !Distinct(plan.deferredPaths) && Runs(codec, plan, s, actions, s')
    requires !s.phase.Cleaning? && !s.phase.Finished?
    ensures !s'.phase.Cleaning? && !s'.phase.Finished?
    decreases |actions|
  {
    hide RecoveryVerdict;
    if actions != [] {
      RepeatedDeferredNeverFinishes(codec, plan, Next(codec, plan, s, actions[0]), actions[1..], s');
    }
  }

  /** The plan check lets a deferred path be listed twice; without shared payloads only that keeps a run from its end. */
  lemma FinishesIffDeferredDistinct(codec: Codec, plan: Plan, d0: Disk)
    requires Sound(codec, plan, d0) && DistinctPayloads(plan, GoalsOf(codec, plan, d0))
    ensures CanComplete(codec, plan, Begin(plan, d0)) <==> Distinct(plan.deferredPaths)
  {
    if Distinct(plan.deferredPaths) {
      assert Runs(codec, plan, Begin(plan, d0), [], Begin(plan, d0));
      CanFinish(codec, plan, d0, [], Begin(plan, d0));
    } else {
      NeverCompletes(codec, plan, d0);
    }
  }

  lemma NeverCompletes(codec: Codec, plan: Plan, d0: Disk)
    requires !Distinct(plan.deferredPaths)
    ensures !CanComplete(codec, plan, Begin(plan, d0))
  {
    forall actions, s | Runs(codec, plan, Begin(plan, d0), actions, s) ensures !s.phase.Finished? {
      RepeatedDeferredNeverFinishes(codec, plan, Begin(plan, d0), actions, s);
    }
  }

  // ----- an entry whose payload is gone

  /** Entry `j` has not been applied, and another entry has taken its payload. */
  ghost predicate Deprived(codec: Codec, plan: Plan, s: Run, j: nat) {
    && s.phase.Applying? && j < |s.entries| == |plan.entries|
    && (s.entries[j].Waiting? || s.entries[j].Failed?)
    && !OutputMatches(codec, plan.entries[j], s.disk)
    && Payload(plan.entries[j]).Some? && Payload(plan.entries[j]).value !in s.disk.stage
  }

  lemma DeprivedIsMissing(codec: Codec, plan: Plan, s: Run, j: nat)
    requires Deprived(codec, plan, s, j)
    ensures RecoveryVerdict(codec, plan, s.disk).ExtractedMissing?
  {
    assert plan.entries[j] in plan.entries && !EntryRecoverable(codec, plan.entries[j], s.disk);
  }

  lemma StepStaysDeprived(codec: Codec, plan: Plan, s: Run, a: Action, j: nat)
    requires UniqueWriters(plan) && Deprived(codec, plan, s, j) && Enabled(plan, s, a) && !a.Crash?
    ensures Deprived(codec, plan, Next(codec, plan, s, a), j)
  {
    if a.Replace? {
      DestinationsApart(plan, a.i, j);
    }
  }

  /** Nothing brings the payload back: the run never applies the entry, and a restart is refused. */
  lemma {:induction false} DeprivedForGood(codec: Codec, plan: Plan, s: Run, j: nat, actions: seq<Action>, t: Run)
    requires UniqueWriters(plan) && (Deprived(codec, plan, s, j) || s.phase.Abandoned?)
    requires Runs(codec, plan, s, actions, t)
    ensures Deprived(codec, plan, t, j) || t.phase.Abandoned?
    decreases |actions|
  {
    if actions != [] {
      var next := Next(codec, plan, s, actions[0]);
      if actions[0].Crash? {
        DeprivedIsMissing(codec, plan, s, j);
      } else {
        StepStaysDeprived(codec, plan, s, actions[0], j);
      }
      hide Deprived, UniqueWriters, Next;
      DeprivedForGood(codec, plan, next, j, actions[1..], t);
    }
  }

  // ----- shared payloads

  /** No entry has failed or is going to for want of a payload. */
  ghost predicate Healthy(plan: Plan, d0: Disk, g: Goals, s: Run) {
    BeforeCommit(plan, d0, g, s) && NoneFailed(s) && PayloadsHeld(plan, g, s.disk)
  }

  lemma StepStaysHealthy(codec: Codec, plan: Plan, d0: Disk, s: Run, a: Action)
    requires Sound(codec, plan, d0) && Healthy(plan, d0, GoalsOf(codec, plan, d0), s)
    requires Enabled(plan, s, a) && !a.Crash? && !a.BeginCommitting?
    requires a.DropPayload? ==> forall j: nat :: !StillUses(plan, GoalsOf(codec, plan, d0), s.disk.vfs, a.i, j)
    ensures Healthy(plan, d0, GoalsOf(codec, plan, d0), Next(codec, plan, s, a))
  {
    hide Sound, Standing, PayloadsHeld, EntryInv, StillUses, RecoveryVerdict, NoneFailed;
    StepHolds(codec, plan, d0, s, a);
    StepStaysSupplied(codec, plan, d0, s, a);
  }

  ghost predicate Untouched(plan: Plan, d0: Disk, s: Run) {
    && |s.entries| == |plan.entries|
    && forall i: nat :: i < |plan.entries| ==> AtStart(plan, d0, s.disk.vfs, i) && s.entries[i].Waiting?
  }

  lemma UntouchedStays(codec: Codec, plan: Plan, d0: Disk, s: Run, a: Action)
    requires Sound(codec, plan, d0) && BeforeCommit(plan, d0, GoalsOf(codec, plan, d0), s)
    requires Untouched(plan, d0, s) && Enabled(plan, s, a)
    requires a.StageDeferred? || a.RemoveUnreferenced? || a.BeginApplying?
    ensures Untouched(plan, d0, Next(codec, plan, s, a))
  {
    var s' := Next(codec, plan, s, a);
    hide Sound, BeforeCommit, Lookup;
    forall i: nat | i < |plan.entries| ensures AtStart(plan, d0, s'.disk.vfs, i) && s'.entries[i].Waiting? {
      assert AtStart(plan, d0, s.disk.vfs, i);
      TargetsStay(codec, plan, d0, s, a, i);
    }
  }

  lemma {:induction false} ReachApplying(codec: Codec, plan: Plan, d0: Disk, s: Run)
    returns (actions: seq<Action>, s': Run)
    requires Sound(codec, plan, d0) && Healthy(plan, d0, GoalsOf(codec, plan, d0), s)
    requires s.phase.Preparing? && Untouched(plan, d0, s)
    ensures Runs(codec, plan, s, actions, s') && s'.phase.Applying? && Untouched(plan, d0, s')
    ensures Healthy(plan, d0, GoalsOf(codec, plan, d0), s')
    decreases |s.disk.stage|, |s.disk.vfs|
  {
    hide Standing, Untouched, PayloadsHeld, EntryInv, NoneFailed, DeferredStaged;
    var a := PreparingProgress(plan, d0, s);
    var next := Next(codec, plan, s, a);
    StepStaysHealthy(codec, plan, d0, s, a);
    UntouchedStays(codec, plan, d0, s, a);
    if a.BeginApplying? {
      actions, s' := [a], next;
      assert Runs(codec, plan, next, actions[1..], next);
    } else {
      EveryStepIsCloser(codec, plan, s, a);
      var rest;
      rest, s' := ReachApplying(codec, plan, d0, next);
      actions := [a] + rest;
      assert actions[1..] == rest;
    }
  }

  /** Two entries that wait for one payload, neither of which has begun. */
  ghost predicate Contested(plan: Plan, g: Goals, s: Run, i: nat, j: nat) {
    && i < |s.entries| == |plan.entries| && j < |s.entries| && s.entries[i].Waiting? && s.entries[j].Waiting?
    && StillUses(plan, g, s.disk.vfs, i, j) && StillUses(plan, g, s.disk.vfs, j, i)
  }

  ghost predicate Sequential(s: Run) {
    s.phase.Applying? && forall x :: 0 <= x < |s.entries| ==> s.entries[x].Waiting? || s.entries[x].Completed?
  }

  /** A restart finds data missing, and so does the run itself if it goes on. */
  ghost predicate Lost(codec: Codec, plan: Plan, s: Run) {
    && RecoveryVerdict(codec, plan, s.disk).ExtractedMissing? && AllDeferredHeld(plan, s.disk)
    && exists j: nat :: Deprived(codec, plan, s, j)
  }

  /** Takes one step of entry `x`, which leaves the outputs of all others alone. */
  lemma OneStep(codec: Codec, plan: Plan, d0: Disk, s: Run, x: nat) returns (a: Action, s': Run)
    requires Sound(codec, plan, d0) && Healthy(plan, d0, GoalsOf(codec, plan, d0), s) && s.phase.Applying?
    requires ReadyToStart(plan, s, x) || (x < |s.entries| && s.entries[x].Prepared?)
    ensures Enabled(plan, s, a) && s' == Next(codec, plan, s, a) && Healthy(plan, d0, GoalsOf(codec, plan, d0), s')
    ensures s'.phase.Applying? && x < |s.entries| && s'.entries == s.entries[x := s'.entries[x]]
    ensures s.entries[x].Waiting? ==> s'.entries[x].Prepared? || s'.entries[x].Completed?
    ensures s'.entries[x].Completed? ==> AtTarget(plan, GoalsOf(codec, plan, d0), s.disk.vfs, x)
    ensures s.entries[x].Prepared? ==> s'.entries[x].Replaced?
    ensures forall y: nat :: y < |plan.entries| && y != x ==>
      Lookup(s'.disk.vfs, plan.entries[y].destination) == Lookup(s.disk.vfs, plan.entries[y].destination)
  {
    a := if s.entries[x].Waiting? then Start(x) else Replace(x);
    s' := Next(codec, plan, s, a);
    if a.Start? {
      StartKeeps(codec, plan, d0, s, x);
    }
    StepStaysHealthy(codec, plan, d0, s, a);
    hide Sound, BeforeCommit, PayloadsHeld;
    assert !s'.entries[x].Failed?;
    forall y: nat | y < |plan.entries| && y != x
      ensures Lookup(s'.disk.vfs, plan.entries[y].destination) == Lookup(s.disk.vfs, plan.entries[y].destination)
    {
      TargetsStay(codec, plan, d0, s, a, y);
    }
  }

  lemma LostPayload(codec: Codec, plan: Plan, d0: Disk, s: Run, i: nat, j: nat)
    requires Sound(codec, plan, d0) && BeforeCommit(plan, d0, GoalsOf(codec, plan, d0), s)
    requires Enabled(plan, s, DropPayload(i)) && StillUses(plan, GoalsOf(codec, plan, d0), s.disk.vfs, i, j)
    requires s.entries[j].Waiting?
    ensures Lost(codec, plan, Next(codec, plan, s, DropPayload(i)))
  {
    var g, s' := GoalsOf(codec, plan, d0), Next(codec, plan, s, DropPayload(i));
    assert Reproducible(plan, d0, g, s.disk.vfs, j);
    PrepareAgrees(codec, plan, d0, s.disk, j);
    assert Deprived(codec, plan, s', j);
    DeprivedIsMissing(codec, plan, s', j);
    DropPayloadKeeps(codec, plan, d0, s, i);
    StandingIsReadyIff(codec, plan, d0, s'.disk);
  }

  /** Dropping the payload of the one entry under way either loses it for another entry or is harmless. */
  lemma DropOne(codec: Codec, plan: Plan, d0: Disk, s: Run, x: nat)
    requires Sound(codec, plan, d0) && Healthy(plan, d0, GoalsOf(codec, plan, d0), s)
    requires x < |s.entries| && s.phase.Applying? && s.entries[x].Replaced?
    requires Sequential(s.(entries := s.entries[x := Completed]))
    ensures var s' := Next(codec, plan, s, DropPayload(x));
      Lost(codec, plan, s') || (Healthy(plan, d0, GoalsOf(codec, plan, d0), s') && Sequential(s')
        && forall y: nat :: !StillUses(plan, GoalsOf(codec, plan, d0), s.disk.vfs, x, y))
  {
    var g := GoalsOf(codec, plan, d0);
    if y: nat :| StillUses(plan, g, s.disk.vfs, x, y) {
      assert EntryInv(plan, d0, g, s, y) && s.entries[x := Completed][y] == s.entries[y];
      LostPayload(codec, plan, d0, s, x, y);
    } else {
      StepStaysHealthy(codec, plan, d0, s, DropPayload(x));
    }
  }

  lemma OneMore(codec: Codec, plan: Plan, s: Run, first: seq<Action>, mid: Run, a: Action)
    requires Runs(codec, plan, s, first, mid) && Enabled(plan, mid, a)
    ensures Runs(codec, plan, s, first + [a], Next(codec, plan, mid, a))
  {
    var after := Next(codec, plan, mid, a);
    assert Runs(codec, plan, after, [], after) && [a][1..] == [];
    RunsCompose(codec, plan, s, first, mid, [a], after);
  }

  /** Runs some entry until its output is in place: it was there before, or only the payload is left to drop. */
  lemma PlaceOne(codec: Codec, plan: Plan, d0: Disk, s: Run)
    returns (x: nat, actions: seq<Action>, s': Run)
    requires Sound(codec, plan, d0) && Healthy(plan, d0, GoalsOf(codec, plan, d0), s) && Sequential(s)
    requires exists i :: 0 <= i < |s.entries| && s.entries[i].Waiting?
    ensures Runs(codec, plan, s, actions, s') && Healthy(plan, d0, GoalsOf(codec, plan, d0), s') && s'.phase.Applying?
    ensures x < |s.entries| && s.entries[x].Waiting? && s'.entries == s.entries[x := s'.entries[x]]
    ensures s'.entries[x].Replaced?
            || (s'.entries[x].Completed? && AtTarget(plan, GoalsOf(codec, plan, d0), s.disk.vfs, x))
    ensures forall y: nat :: y < |plan.entries| && y != x ==>
      Lookup(s'.disk.vfs, plan.entries[y].destination) == Lookup(s.disk.vfs, plan.entries[y].destination)
  {
    AcyclicPlan(codec, plan, d0, s);
    hide Sound, Healthy, Runs, Enabled, Next, Lookup, AtTarget, Acyclic, Dependencies;
    x := StartableEntry(plan, s);
    NoSteps(codec, plan, s);
    var a, s1 := OneStep(codec, plan, d0, s, x);
    OneMore(codec, plan, s, [], s, a);
    actions, s' := [] + [a], s1;
    if s1.entries[x].Prepared? {
      var b, s2 := OneStep(codec, plan, d0, s1, x);
      OneMore(codec, plan, s, actions, s1, b);
      actions, s' := actions + [b], s2;
    }
  }

  lemma NoSteps(codec: Codec, plan: Plan, s: Run)
    ensures Runs(codec, plan, s, [], s)
  {
  }

  lemma AcyclicPlan(codec: Codec, plan: Plan, d0: Disk, s: Run)
    requires Sound(codec, plan, d0) && BeforeCommit(plan, d0, GoalsOf(codec, plan, d0), s)
    ensures Acyclic(Dependencies(plan)) && |s.entries| == |plan.entries|
  {
  }

  /** Finishing another entry leaves the contest as it was. */
  lemma StillContested(plan: Plan, g: Goals, s: Run, s': Run, x: nat, i: nat, j: nat)
    requires Contested(plan, g, s, i, j) && x < |s.entries| && x != i && x != j
    requires |s'.entries| == |s.entries|
    requires s'.entries[i] == s.entries[i] && s'.entries[j] == s.entries[j]
    requires forall y: nat :: y < |plan.entries| && y != x ==>
      Lookup(s'.disk.vfs, plan.entries[y].destination) == Lookup(s.disk.vfs, plan.entries[y].destination)
    ensures Contested(plan, g, s', i, j)
  {
  }

  /** A contested entry has no output yet, and takes the payload from the other one. */
  lemma ContestedIsUsed(plan: Plan, g: Goals, s: Run, s1: Run, i: nat, j: nat, x: nat)
    requires Contested(plan, g, s, i, j) && x < |plan.entries|
    requires AtTarget(plan, g, s.disk.vfs, x) || forall y: nat :: !StillUses(plan, g, s1.disk.vfs, x, y)
    requires forall y: nat :: y < |plan.entries| && y != x ==>
      Lookup(s1.disk.vfs, plan.entries[y].destination) == Lookup(s.disk.vfs, plan.entries[y].destination)
    ensures x != i && x != j && i < |s.entries| == |plan.entries| && j < |s.entries|
  {
    hide Lookup;
    assert x == i ==> StillUses(plan, g, s1.disk.vfs, x, j) || AtTarget(plan, g, s1.disk.vfs, j);
    assert x == j ==> StillUses(plan, g, s1.disk.vfs, x, i) || AtTarget(plan, g, s1.disk.vfs, i);
  }

  /** Entries are run one at a time, and `i` and `j` still wait for one payload. */
  ghost predicate Open(codec: Codec, plan: Plan, d0: Disk, s: Run, i: nat, j: nat) {
    && Sound(codec, plan, d0) && Healthy(plan, d0, GoalsOf(codec, plan, d0), s)
    && Sequential(s) && Contested(plan, GoalsOf(codec, plan, d0), s, i, j)
  }

  /** Runs one more entry from start to end: it leaves the contest open, or it was the end of a payload. */
  lemma FinishOne(codec: Codec, plan: Plan, d0: Disk, s: Run, i: nat, j: nat)
    returns (actions: seq<Action>, s': Run)
    requires Open(codec, plan, d0, s, i, j)
    ensures Runs(codec, plan, s, actions, s')
    ensures Lost(codec, plan, s') || (Open(codec, plan, d0, s', i, j) && Work(s'.entries) < Work(s.entries))
  {
    assert i < |s.entries| && s.entries[i].Waiting?;
    hide Runs, Lost, AtTarget, Lookup, Enabled, Next, Work;
    var x, first, s1 := PlaceOne(codec, plan, d0, s);
    hide Open, Sound, Healthy, GoalsOf;
    if s1.entries[x].Replaced? {
      s' := DropAndGoOn(codec, plan, d0, s, s1, x, i, j);
      OneMore(codec, plan, s, first, s1, DropPayload(x));
      actions := first + [DropPayload(x)];
    } else {
      SkipOne(codec, plan, d0, s, s1, x, i, j);
      actions, s' := first, s1;
    }
    WorkDrops(s.entries, s'.entries, x);
  }

  lemma SkipOne(codec: Codec, plan: Plan, d0: Disk, s: Run, s1: Run, x: nat, i: nat, j: nat)
    requires Open(codec, plan, d0, s, i, j) && Healthy(plan, d0, GoalsOf(codec, plan, d0), s1)
    requires x < |s.entries| && s1.phase.Applying? && s1.entries == s.entries[x := Completed]
    requires AtTarget(plan, GoalsOf(codec, plan, d0), s.disk.vfs, x)
    requires forall y: nat :: y < |plan.entries| && y != x ==>
      Lookup(s1.disk.vfs, plan.entries[y].destination) == Lookup(s.disk.vfs, plan.entries[y].destination)
    ensures Open(codec, plan, d0, s1, i, j)
  {
    var g := GoalsOf(codec, plan, d0);
    hide Sound, Healthy, Contested, AtTarget, Lookup, Sequential;
    ContestedIsUsed(plan, g, s, s1, i, j, x);
    StillContested(plan, g, s, s1, x, i, j);
    StillSequential(s, s1, x);
  }

  lemma DropAndGoOn(codec: Codec, plan: Plan, d0: Disk, s: Run, s1: Run, x: nat, i: nat, j: nat) returns (s': Run)
    requires Open(codec, plan, d0, s, i, j) && Healthy(plan, d0, GoalsOf(codec, plan, d0), s1)
    requires x < |s.entries| && s1.phase.Applying? && s1.entries == s.entries[x := Replaced]
    requires forall y: nat :: y < |plan.entries| && y != x ==>
      Lookup(s1.disk.vfs, plan.entries[y].destination) == Lookup(s.disk.vfs, plan.entries[y].destination)
    ensures Enabled(plan, s1, DropPayload(x)) && s' == Next(codec, plan, s1, DropPayload(x))
    ensures s'.entries == s.entries[x := Completed]
    ensures Lost(codec, plan, s') || Open(codec, plan, d0, s', i, j)
  {
    var g := GoalsOf(codec, plan, d0);
    SameLength(codec, plan, d0, s1);
    hide Sound, Healthy, Lost, Contested, StillUses, Lookup, AtTarget;
    s' := Next(codec, plan, s1, DropPayload(x));
    assert s1.entries[x := Completed] == s.entries[x := Completed];
    DropOne(codec, plan, d0, s1, x);
    if !Lost(codec, plan, s') {
      ContestedIsUsed(plan, g, s, s1, i, j, x);
      StillContested(plan, g, s, s', x, i, j);
    }
  }

  lemma StillSequential(s: Run, s': Run, x: nat)
    requires Sequential(s) && x < |s.entries| && s'.phase.Applying? && s'.entries == s.entries[x := Completed]
    ensures Sequential(s')
  {
  }

  lemma SameLength(codec: Codec, plan: Plan, d0: Disk, s: Run)
    requires Sound(codec, plan, d0) && Healthy(plan, d0, GoalsOf(codec, plan, d0), s)
    ensures |s.entries| == |plan.entries|
  {
  }

  lemma {:induction false} ReachLoss(codec: Codec, plan: Plan, d0: Disk, s: Run, i: nat, j: nat)
    returns (actions: seq<Action>, s': Run)
    requires Open(codec, plan, d0, s, i, j)
    ensures Runs(codec, plan, s, actions, s') && Lost(codec, plan, s')
    decreases Work(s.entries)
  {
    hide Open, Lost, Runs, Work;
    actions, s' := FinishOne(codec, plan, d0, s, i, j);
    if !Lost(codec, plan, s') {
      var mid := s';
      var rest;
      rest, s' := ReachLoss(codec, plan, d0, mid, i, j);
      RunsCompose(codec, plan, s, actions, mid, rest, s');
      actions := actions + rest;
    }
  }

  lemma {:induction false} RunsCompose(codec: Codec, plan: Plan, s: Run, first: seq<Action>, mid: Run,
                                       rest: seq<Action>, s': Run)
    requires Runs(codec, plan, s, first, mid) && Runs(codec, plan, mid, rest, s')
    ensures Runs(codec, plan, s, first + rest, s')
    decreases |first|
  {
    if first == [] {
      assert first + rest == rest;
    } else {
      RunsCompose(codec, plan, Next(codec, plan, s, first[0]), first[1..], mid, rest, s');
      assert (first + rest)[1..] == first[1..] + rest;
    }
  }

  /** In every reachable state a restart is refused only because a deferred file was already committed. */
  ghost predicate AlwaysRecoverable(codec: Codec, plan: Plan, d0: Disk) {
    forall actions, s :: Runs(codec, plan, Begin(plan, d0), actions, s) && !s.phase.Finished? ==>
      (RecoveryVerdict(codec, plan, s.disk).ExtractedReady? <==> AllDeferredHeld(plan, s.disk))
  }

  lemma SharedPayloadIsLost(codec: Codec, plan: Plan, d0: Disk, i: nat, j: nat)
    returns (actions: seq<Action>, s: Run)
    requires Sound(codec, plan, d0) && i < |plan.entries| && j < |plan.entries| && i != j
    requires var g := GoalsOf(codec, plan, d0); g.needed[i] && g.needed[j]
    requires Payload(plan.entries[i]).Some? && Payload(plan.entries[i]) == Payload(plan.entries[j])
    ensures Runs(codec, plan, Begin(plan, d0), actions, s) && Lost(codec, plan, s)
  {
    BeginHolds(codec, plan, d0);
    BeginIsSupplied(codec, plan, d0);
    var first, s1 := ReachApplying(codec, plan, d0, Begin(plan, d0));
    GoalFacts(codec, plan, d0, i);
    GoalFacts(codec, plan, d0, j);
    assert AtStart(plan, d0, s1.disk.vfs, i) && AtStart(plan, d0, s1.disk.vfs, j);
    hide Runs, Sound, Lost, Healthy;
    assert Contested(plan, GoalsOf(codec, plan, d0), s1, i, j);
    var tail;
    tail, s := ReachLoss(codec, plan, d0, s1, i, j);
    RunsCompose(codec, plan, Begin(plan, d0), first, s1, tail, s);
    actions := first + tail;
  }

  lemma SharersExist(plan: Plan, g: Goals) returns (i: nat, j: nat)
    requires |plan.entries| == |g.needed| && !DistinctPayloads(plan, g)
    ensures i < j < |plan.entries| && g.needed[i] && g.needed[j]
    ensures Payload(plan.entries[i]).Some? && Payload(plan.entries[i]) == Payload(plan.entries[j])
  {
    i, j :| 0 <= i < j < |plan.entries| && g.needed[i] && g.needed[j] && Payload(plan.entries[i]).Some?
      && Payload(plan.entries[i]) == Payload(plan.entries[j]);
  }

  /** Unless payloads are distinct, some run comes to a state from which it cannot be resumed. */
  lemma SomeRunIsLost(codec: Codec, plan: Plan, d0: Disk) returns (actions: seq<Action>, s: Run, j: nat)
    requires Sound(codec, plan, d0) && !DistinctPayloads(plan, GoalsOf(codec, plan, d0))
    ensures Runs(codec, plan, Begin(plan, d0), actions, s) && Deprived(codec, plan, s, j)
    ensures RecoveryVerdict(codec, plan, s.disk).ExtractedMissing? && AllDeferredHeld(plan, s.disk)
  {
    var i, k := SharersExist(plan, GoalsOf(codec, plan, d0));
    actions, s := SharedPayloadIsLost(codec, plan, d0, i, k);
    j :| Deprived(codec, plan, s, j);
  }

  /**
   * The code takes a payload away with the first entry that used it, so crashes are recoverable exactly when
   * no two entries that still have to be produced share a payload.
   */
  lemma RecoverableIffDistinctPayloads(codec: Codec, plan: Plan, d0: Disk)
    requires Sound(codec, plan, d0)
    ensures AlwaysRecoverable(codec, plan, d0) <==> DistinctPayloads(plan, GoalsOf(codec, plan, d0))
  {
    var g := GoalsOf(codec, plan, d0);
    hide Sound, Runs, DistinctPayloads;
    if DistinctPayloads(plan, g) {
      forall actions, s | Runs(codec, plan, Begin(plan, d0), actions, s) && !s.phase.Finished?
        ensures RecoveryVerdict(codec, plan, s.disk).ExtractedReady? <==> AllDeferredHeld(plan, s.disk)
      {
        DistinctPayloadsNeverFail(codec, plan, d0, actions, s);
      }
    } else {
      var actions, s, j := SomeRunIsLost(codec, plan, d0);
    }
  }

  ghost predicate AlwaysCompletable(codec: Codec, plan: Plan, d0: Disk) {
    forall actions, s :: Runs(codec, plan, Begin(plan, d0), actions, s) && !s.phase.Abandoned? ==>
      CanComplete(codec, plan, s)
  }

  /** A run that stands, wherever it stands, can be brought to its end exactly when these lists repeat nothing. */
  lemma CompletableIff(codec: Codec, plan: Plan, d0: Disk)
    requires Sound(codec, plan, d0)
    ensures AlwaysCompletable(codec, plan, d0) <==>
      Distinct(plan.deferredPaths) && DistinctPayloads(plan, GoalsOf(codec, plan, d0))
  {
    var g := GoalsOf(codec, plan, d0);
    assert UniqueWriters(plan);
    hide Sound, Runs, DistinctPayloads, Deprived, CanComplete, UniqueWriters;
    if !Distinct(plan.deferredPaths) {
      NeverCompletes(codec, plan, d0);
      BeginRuns(codec, plan, d0);
    } else if !DistinctPayloads(plan, g) {
      var actions, s, j := SomeRunIsLost(codec, plan, d0);
      DeprivedCannotComplete(codec, plan, s, j);
    } else {
      forall actions, s | Runs(codec, plan, Begin(plan, d0), actions, s) && !s.phase.Abandoned?
        ensures CanComplete(codec, plan, s)
      {
        CanFinish(codec, plan, d0, actions, s);
      }
    }
  }

  lemma BeginRuns(codec: Codec, plan: Plan, d0: Disk)
    ensures Runs(codec, plan, Begin(plan, d0), [], Begin(plan, d0))
  {
  }

  lemma DeprivedCannotComplete(codec: Codec, plan: Plan, s: Run, j: nat)
    requires UniqueWriters(plan) && Deprived(codec, plan, s, j)
    ensures s.phase.Applying? && !CanComplete(codec, plan, s)
  {
    forall actions, t | Runs(codec, plan, s, actions, t) ensures !t.phase.Finished? {
      DeprivedForGood(codec, plan, s, j, actions, t);
    }
  }

  // ----- deferred files

  /** The state a finished run was in just before its plan was removed. */
  lemma {:induction false} LastStateBeforeFinish(codec: Codec, plan: Plan, s: Run, actions: seq<Action>, s': Run)
    returns (prefix: seq<Action>, last: Run)
    requires Runs(codec, plan, s, actions, s') && s'.phase.Finished? && !s.phase.Finished?
    ensures Runs(codec, plan, s, prefix, last) && last.phase.Cleaning? && Enabled(plan, last, RemovePlan)
    decreases |actions|
  {
    var next := Next(codec, plan, s, actions[0]);
    if next.phase.Finished? {
      prefix, last := [], s;
    } else {
      prefix, last := LastStateBeforeFinish(codec, plan, next, actions[1..], s');
      var tail := prefix;
      prefix := [actions[0]] + tail;
      assert prefix[1..] == tail;
    }
  }

  ghost predicate AlwaysReady(codec: Codec, plan: Plan, d0: Disk) {
    forall actions, s :: Runs(codec, plan, Begin(plan, d0), actions, s) && !s.phase.Finished? ==>
      RecoveryVerdict(codec, plan, s.disk).ExtractedReady?
  }

  /**
   * Between committing a deferred file and removing the plan, recovery asks for a file that is already in place:
   * restarts are always accepted exactly when nothing is deferred and no payload is shared.
   */
  lemma AlwaysReadyIff(codec: Codec, plan: Plan, d0: Disk)
    requires Sound(codec, plan, d0)
    ensures AlwaysReady(codec, plan, d0) <==>
      plan.deferredPaths == [] && DistinctPayloads(plan, GoalsOf(codec, plan, d0))
  {
    var g := GoalsOf(codec, plan, d0);
    hide Sound, Runs, DistinctPayloads;
    if !DistinctPayloads(plan, g) {
      var actions, s, j := SomeRunIsLost(codec, plan, d0);
    } else if plan.deferredPaths == [] {
      forall actions, s | Runs(codec, plan, Begin(plan, d0), actions, s) && !s.phase.Finished?
        ensures RecoveryVerdict(codec, plan, s.disk).ExtractedReady?
      {
        DistinctPayloadsNeverFail(codec, plan, d0, actions, s);
      }
    } else {
      var prefix, last := DeferredIsAskedFor(codec, plan, d0);
    }
  }

  lemma DeferredIsAskedFor(codec: Codec, plan: Plan, d0: Disk) returns (prefix: seq<Action>, last: Run)
    requires Sound(codec, plan, d0) && DistinctPayloads(plan, GoalsOf(codec, plan, d0)) && plan.deferredPaths != []
    ensures Runs(codec, plan, Begin(plan, d0), prefix, last) && !last.phase.Finished?
    ensures RecoveryVerdict(codec, plan, last.disk).ExtractedMissing?
  {
    BeginIsSupplied(codec, plan, d0);
    prefix, last := CanGoOn(codec, plan, d0, Begin(plan, d0));
    if last.phase.Finished? {
      prefix, last := LastStateBeforeFinish(codec, plan, Begin(plan, d0), prefix, last);
    }
    RunHolds(codec, plan, d0, Begin(plan, d0), prefix, last);
    var r := plan.deferredPaths[0];
    assert r in plan.deferredPaths && r !in last.disk.stage;
    assert last.phase.Cleaning? ==> r in Committed(plan, last.disk);
  }
}
