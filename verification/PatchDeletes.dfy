/** Which plans never go wrong: exactly those whose deletes spare outputs and bases and whose payloads are not shared. */
module PatchDeletes {
  import opened Collections
  import opened DependencyGraph
  import opened PatchPlan
  import opened SafePath
  import opened PatchDependencies
  import opened PatchRun
  import opened PatchSafety
  import opened PatchRecovery
  import opened PatchProgress

  /** Everything a run assumes except that its delete paths are safe. */
  ghost predicate SoundButForDeletes(codec: Codec, plan: Plan, d0: Disk) {
    && Valid(plan) && UniqueWriters(plan) && Acyclic(Dependencies(plan))
    && Startable(codec, plan, d0) && DeferredStaged(plan, d0)
  }

  /** No base lies inside another: both are files. */
  ghost predicate BasesApart(plan: Plan) {
    forall i: nat, j: nat :: BaseInside(plan, i, j) ==> plan.entries[i].source.base == plan.entries[j].source.base
  }

  predicate BaseInside(plan: Plan, i: nat, j: nat) {
    && i < |plan.entries| && j < |plan.entries|
    && plan.entries[i].source.Hdiff? && plan.entries[j].source.Hdiff?
    && plan.entries[i].source.base <= plan.entries[j].source.base
  }

  /** No entry has failed, and when the deletes are done every output is in place. */
  ghost predicate Good(plan: Plan, g: Goals, s: Run)
    requires |g.targets| == |plan.entries|
  {
    && (!s.phase.Abandoned? ==> NoneFailed(s))
    && (Enabled(plan, s, BeginCommitting) ==> forall i: nat :: i < |plan.entries| ==> AtTarget(plan, g, s.disk.vfs, i))
  }

  ghost predicate AlwaysGood(codec: Codec, plan: Plan, d0: Disk)
    requires Startable(codec, plan, d0)
  {
    forall actions, s :: Runs(codec, plan, Begin(plan, d0), actions, s) ==> Good(plan, GoalsOf(codec, plan, d0), s)
  }

  lemma SoundRunsAreGood(codec: Codec, plan: Plan, d0: Disk, actions: seq<Action>, s: Run)
    requires Sound(codec, plan, d0) && DistinctPayloads(plan, GoalsOf(codec, plan, d0))
    requires Runs(codec, plan, Begin(plan, d0), actions, s)
    ensures Good(plan, GoalsOf(codec, plan, d0), s)
  {
    var g := GoalsOf(codec, plan, d0);
    BeginHolds(codec, plan, d0);
    RunHolds(codec, plan, d0, Begin(plan, d0), actions, s);
    DistinctPayloadsNeverFail(codec, plan, d0, actions, s);
    if Enabled(plan, s, BeginCommitting) {
      forall i: nat | i < |plan.entries| ensures AtTarget(plan, g, s.disk.vfs, i) {
        assert EntryInv(plan, d0, g, s, i);
      }
    }
  }

  // ----- running on without crashes

  ghost predicate Quiet(actions: seq<Action>) {
    forall k :: 0 <= k < |actions| ==> !actions[k].Crash?
  }

  predicate EarlyPhase(s: Run) {
    s.phase.Preparing? || s.phase.Applying? || s.phase.Deleting?
  }

  lemma QuietProgress(plan: Plan, d0: Disk, s: Run) returns (a: Action)
    requires Acyclic(Dependencies(plan)) && DeferredStaged(plan, d0) && |s.entries| == |plan.entries|
    requires EarlyPhase(s) && NoneFailed(s) && !Enabled(plan, s, BeginCommitting)
    ensures Enabled(plan, s, a) && !a.Crash? && !a.BeginCommitting?
  {
    match s.phase
    case Preparing => a := PreparingProgress(plan, d0, s);
    case Applying => a := ApplyingProgress(plan, s);
    case Deleting => a := DeletingProgress(plan, s);
  }

  lemma EarlyStep(codec: Codec, plan: Plan, s: Run, a: Action)
    requires EarlyPhase(s) && Enabled(plan, s, a) && !a.Crash? && !a.BeginCommitting?
    ensures EarlyPhase(Next(codec, plan, s, a)) && |Next(codec, plan, s, a).entries| == |s.entries|
  {
  }

  /** If nothing ever goes wrong, every run that stands goes on until its deletes are done. */
  lemma {:induction false} RunToDeletes(codec: Codec, plan: Plan, d0: Disk, prefix: seq<Action>, s: Run)
    returns (rest: seq<Action>, t: Run)
    requires SoundButForDeletes(codec, plan, d0) && AlwaysGood(codec, plan, d0)
    requires Runs(codec, plan, Begin(plan, d0), prefix, s) && EarlyPhase(s) && |s.entries| == |plan.entries|
    ensures Quiet(rest) && Runs(codec, plan, s, rest, t)
    ensures Enabled(plan, t, BeginCommitting) && Good(plan, GoalsOf(codec, plan, d0), t)
    decreases Rank(s.phase), Work(s.entries), |s.disk.stage|, |s.disk.deferred|, |s.disk.vfs|
  {
    assert Good(plan, GoalsOf(codec, plan, d0), s);
    if Enabled(plan, s, BeginCommitting) {
      rest, t := [], s;
    } else {
      hide Acyclic, Valid, UniqueWriters, Startable;
      var a := QuietProgress(plan, d0, s);
      OneMore(codec, plan, Begin(plan, d0), prefix, s, a);
      EarlyStep(codec, plan, s, a);
      EveryStepIsCloser(codec, plan, s, a);
      var tail;
      tail, t := RunToDeletes(codec, plan, d0, prefix + [a], Next(codec, plan, s, a));
      rest := [a] + tail;
      assert rest[1..] == tail;
    }
  }

  // ----- a directory above a base is deleted before the base is read

  /** Entry `i` will never be done: its base goes away before it starts, and nobody can bring it back. */
  ghost predicate Starved(codec: Codec, plan: Plan, i: nat, s: Run)
    requires i < |plan.entries| && plan.entries[i].source.Hdiff?
  {
    && |s.entries| == |plan.entries| && (s.phase.Preparing? || s.phase.Applying?)
    && !OutputMatches(codec, plan.entries[i], s.disk)
    && (s.entries[i].Waiting? || s.entries[i].Failed?)
    && (forall w: nat :: MustPrecede(plan, i, w) ==> s.entries[w].Waiting?)
    && (s.phase.Applying? ==> plan.entries[i].source.base !in s.disk.vfs)
  }

  lemma ReplaceStaysStarved(codec: Codec, plan: Plan, i: nat, s: Run, x: nat)
    requires UniqueWriters(plan) && i < |plan.entries| && plan.entries[i].source.Hdiff? && Starved(codec, plan, i, s)
    requires Enabled(plan, s, Replace(x))
    ensures Starved(codec, plan, i, Next(codec, plan, s, Replace(x)))
  {
    var destination := plan.entries[x].destination;
    assert x != i && destination in plan.Aliases(x) && plan.entries[i].destination in plan.Aliases(i);
    assert destination != plan.entries[i].destination;
    assert destination == plan.entries[i].source.base ==> MustPrecede(plan, i, x);
  }

  lemma StepStaysStarved(codec: Codec, plan: Plan, i: nat, k: nat, s: Run, a: Action)
    requires UniqueWriters(plan) && i < |plan.entries| && plan.entries[i].source.Hdiff? && Starved(codec, plan, i, s)
    requires Unreferenced(plan, k) && plan.PhysicalDelete(plan.deletePaths[k]) <= plan.entries[i].source.base
    requires Enabled(plan, s, a) && !a.Crash?
    ensures Starved(codec, plan, i, Next(codec, plan, s, a))
  {
    if a.Replace? {
      ReplaceStaysStarved(codec, plan, i, s, a.i);
    } else if a.BeginApplying? {
      assert !AnyUnder(s.disk.vfs, plan.PhysicalDelete(plan.deletePaths[k]));
    }
  }

  lemma {:induction false} RunStaysStarved(codec: Codec, plan: Plan, i: nat, k: nat, s: Run, actions: seq<Action>, t: Run)
    requires UniqueWriters(plan) && i < |plan.entries| && plan.entries[i].source.Hdiff? && Starved(codec, plan, i, s)
    requires Unreferenced(plan, k) && plan.PhysicalDelete(plan.deletePaths[k]) <= plan.entries[i].source.base
    requires Quiet(actions) && Runs(codec, plan, s, actions, t)
    ensures Starved(codec, plan, i, t)
    decreases |actions|
  {
    if actions != [] {
      hide Starved, UniqueWriters, Unreferenced;
      StepStaysStarved(codec, plan, i, k, s, actions[0]);
      assert forall n :: 0 <= n < |actions[1..]| ==> !actions[1..][n].Crash?;
      RunStaysStarved(codec, plan, i, k, Next(codec, plan, s, actions[0]), actions[1..], t);
    }
  }

  lemma AboveBaseIsUnreferenced(plan: Plan, i: nat, k: nat)
    requires BasesApart(plan) && i < |plan.entries| && plan.entries[i].source.Hdiff? && k < |plan.deletePaths|
    requires var p := plan.PhysicalDelete(plan.deletePaths[k]);
             p <= plan.entries[i].source.base && p != plan.entries[i].source.base && !IsDestination(plan, p)
    ensures Unreferenced(plan, k)
  {
    var p := plan.PhysicalDelete(plan.deletePaths[k]);
    forall e | e in plan.entries && e.source.Hdiff? ensures e.source.base != p {
      var j: nat :| j < |plan.entries| && plan.entries[j] == e;
      assert e.source.base == p ==> BaseInside(plan, j, i);
    }
  }

  // ----- main result

  /** If no run ever goes wrong, no payload is shared: a run that has lost one can only go on to fail. */
  lemma PayloadsAreDistinct(codec: Codec, plan: Plan, d0: Disk)
    requires Sound(codec, plan, d0) && AlwaysGood(codec, plan, d0)
    ensures DistinctPayloads(plan, GoalsOf(codec, plan, d0))
  {
    if !DistinctPayloads(plan, GoalsOf(codec, plan, d0)) {
      var prefix, s, j := SomeRunIsLost(codec, plan, d0);
      assert SoundButForDeletes(codec, plan, d0);
      var rest, t := RunToDeletes(codec, plan, d0, prefix, s);
      DeprivedForGood(codec, plan, s, j, rest, t);
    }
  }

  /**
   * With everything else in order, no entry ever fails and every output survives the deletes if and only if no delete
   * path is an output, a directory above one, or a directory above a base that will be read, and no two entries that
   * still have to be produced share a payload.
   */
  lemma AlwaysGoodIff(codec: Codec, plan: Plan, d0: Disk)
    requires SoundButForDeletes(codec, plan, d0) && BasesApart(plan)
    ensures AlwaysGood(codec, plan, d0) <==>
      SafeDeletes(plan, GoalsOf(codec, plan, d0)) && DistinctPayloads(plan, GoalsOf(codec, plan, d0))
  {
    var g := GoalsOf(codec, plan, d0);
    if SafeDeletes(plan, g) && DistinctPayloads(plan, g) {
      forall actions, s | Runs(codec, plan, Begin(plan, d0), actions, s) ensures Good(plan, g, s) {
        SoundRunsAreGood(codec, plan, d0, actions, s);
      }
    }
    if AlwaysGood(codec, plan, d0) {
      forall k: nat, i: nat | k < |plan.deletePaths| && i < |plan.entries|
        ensures SafeToDelete(plan, g, plan.PhysicalDelete(plan.deletePaths[k]), i)
      {
        OutputsAreSpared(codec, plan, d0, k);
        BasesAreSpared(codec, plan, d0, k, i);
      }
      PayloadsAreDistinct(codec, plan, d0);
    }
  }

  /**
   * Whatever the run, once the deletes are done nothing is left at or below a delete path. The plan check
   * compares delete paths with outputs for equality only, so an output below a deleted directory is lost.
   */
  lemma DeleteAboveOutputLosesIt(plan: Plan, s: Run, k: nat, i: nat)
    requires Enabled(plan, s, BeginCommitting) && Removable(plan, k) && i < |plan.entries|
    requires plan.PhysicalDelete(plan.deletePaths[k]) <= plan.entries[i].destination
    ensures Lookup(s.disk.vfs, plan.entries[i].destination) == None
  {
    assert !AnyUnder(s.disk.vfs, plan.PhysicalDelete(plan.deletePaths[k]));
  }

  lemma OutputsAreSpared(codec: Codec, plan: Plan, d0: Disk, k: nat)
    requires SoundButForDeletes(codec, plan, d0) && AlwaysGood(codec, plan, d0) && k < |plan.deletePaths|
    ensures forall i: nat :: i < |plan.entries| ==>
      !(plan.PhysicalDelete(plan.deletePaths[k]) <= plan.entries[i].destination)
  {
    var g := GoalsOf(codec, plan, d0);
    var actions, t := RunToDeletes(codec, plan, d0, [], Begin(plan, d0));
    ValidDeletesAreRemovable(plan, k);
    forall i: nat | i < |plan.entries|
      ensures !(plan.PhysicalDelete(plan.deletePaths[k]) <= plan.entries[i].destination)
    {
      assert AtTarget(plan, g, t.disk.vfs, i);
      if plan.PhysicalDelete(plan.deletePaths[k]) <= plan.entries[i].destination {
        DeleteAboveOutputLosesIt(plan, t, k, i);
      }
    }
  }

  lemma BasesAreSpared(codec: Codec, plan: Plan, d0: Disk, k: nat, i: nat)
    requires SoundButForDeletes(codec, plan, d0) && AlwaysGood(codec, plan, d0) && BasesApart(plan)
    requires k < |plan.deletePaths| && i < |plan.entries|
    ensures var p := plan.PhysicalDelete(plan.deletePaths[k]);
            ReadsBelow(codec, plan, d0, p, i) ==> p == plan.entries[i].source.base
  {
    var p := plan.PhysicalDelete(plan.deletePaths[k]);
    if ReadsBelow(codec, plan, d0, p, i) && p != plan.entries[i].source.base {
      OutputsAreSpared(codec, plan, d0, k);
      AboveBaseIsUnreferenced(plan, i, k);
      var actions, t := RunToDeletes(codec, plan, d0, [], Begin(plan, d0));
      RunStaysStarved(codec, plan, i, k, Begin(plan, d0), actions, t);
    }
  }
}
