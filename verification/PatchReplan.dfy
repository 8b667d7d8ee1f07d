/** A plan made anew after a crash passes every check the first one passed, and leads to the same outputs. */
module PatchReplan {
  import opened Collections
  import opened DependencyGraph
  import opened PatchPlan
  import opened SafePath
  import opened PatchDependencies
  import opened PatchRun
  import opened PatchSafety
  import opened PatchRecovery
  import opened PatchPlanner
  import opened PatchRebuild

  /** The paths of a manifest have been checked before they are used. */
  ghost predicate CheckedPaths(manifest: seq<ManifestEntry>) {
    forall i, k :: 0 <= i < |manifest| && 0 <= k < |manifest[i].patch| ==> SafeRelative(manifest[i].patch[k].patchPath)
  }

  function LayoutOf(plan: Plan): Layout {
    Layout(plan.LogicalRoot(), plan.vfsDestination)
  }

  /**
   * `plan` was planned when the logical tree held `before`, and ran from `d0`. It stopped and left `left`, which the
   * logical tree shows as `now`, and `next` was planned on that.
   */
  datatype Replan = Replan(
    codec: Codec, archive: set<Path>, manifest: seq<ManifestEntry>, before: Files, plan: Plan, d0: Disk,
    left: Disk, now: Files, next: Plan)
  {
    ghost function Goal(): (g: Goals)
      requires Startable(codec, plan, d0)
      ensures |g.targets| == |g.needed| == |plan.entries|
    {
      GoalsOf(codec, plan, d0)
    }
  }

  /** Both plans come from one manifest and one archive, with the same roots and delete paths. */
  ghost predicate Replanned(x: Replan) {
    && Sound(x.codec, x.plan, x.d0) && DeferredSparesOutputs(x.plan) && CheckedPaths(x.manifest)
    && PlannedPlan(x.codec, x.before, x.archive, x.manifest, x.plan) && Relocated(LayoutOf(x.plan), x.before, x.d0.vfs)
    && PlannedPlan(x.codec, x.now, x.archive, x.manifest, x.next) && Relocated(LayoutOf(x.plan), x.now, x.left.vfs)
    && x.next == x.plan.(entries := x.next.entries)
    && (Standing(x.plan, x.d0, x.Goal(), x.left) || Settled(x.plan, x.d0, x.Goal(), x.left))
  }

  // ----- one entry, planned twice

  lemma SameShape(x: Replan, i: nat)
    requires Replanned(x) && i < |x.plan.entries|
    ensures |x.next.entries| == |x.plan.entries| == |x.manifest|
    ensures x.next.entries[i] == x.plan.entries[i].(source := x.next.entries[i].source)
    ensures x.next.Aliases(i) == x.plan.Aliases(i)
  {
    assert PlannedFrom(x.codec, LayoutOf(x.plan), x.before, x.archive, x.manifest[i], x.plan.entries[i]);
    assert PlannedFrom(x.codec, LayoutOf(x.plan), x.now, x.archive, x.manifest[i], x.next.entries[i]);
  }

  /** An entry that is not found in place was still to be produced, and stands as it stood. */
  lemma NotInPlace(x: Replan, i: nat)
    requires Replanned(x) && i < |x.plan.entries| == |x.next.entries|
    requires !x.next.entries[i].source.AlreadyPresent?
    ensures x.Goal().needed[i] && AtStart(x.plan, x.d0, x.left.vfs, i)
    ensures BaseIntact(x.plan.entries[i], x.d0, x.left.vfs)
    ensures !x.plan.entries[i].source.AlreadyPresent? && Standing(x.plan, x.d0, x.Goal(), x.left)
  {
    var layout, m := LayoutOf(x.plan), x.manifest[i];
    assert PlannedFrom(x.codec, layout, x.before, x.archive, m, x.plan.entries[i]);
    assert PlannedFrom(x.codec, layout, x.now, x.archive, m, x.next.entries[i]);
    assert Lookup(x.left.vfs, layout.destination + m.name) == Lookup(x.now, layout.logical + m.name);
    assert Lookup(x.d0.vfs, layout.destination + m.name) == Lookup(x.before, layout.logical + m.name);
    GoalFacts(x.codec, x.plan, x.d0, i);
    if Settled(x.plan, x.d0, x.Goal(), x.left) {
      SettledIsDone(x.codec, x.plan, x.d0, x.left, i);
    }
    assert AtTarget(x.plan, x.Goal(), x.left.vfs, i) || Reproducible(x.plan, x.d0, x.Goal(), x.left.vfs, i);
  }

  /** Another diff is chosen only if its base has changed in the meantime. */
  lemma SameDiffOrChangedBase(x: Replan, i: nat)
    requires Replanned(x) && i < |x.plan.entries| == |x.next.entries|
    requires x.next.entries[i].source.Hdiff?
    ensures x.plan.entries[i].source.Hdiff?
    ensures x.next.entries[i].source == x.plan.entries[i].source
            || Changed(x.d0, x.left.vfs, x.next.entries[i].source.base)
    ensures SafeRelative(x.next.entries[i].source.payload) && x.plan.vfsDestination <= x.next.entries[i].source.base
    ensures var s := x.next.entries[i].source; Matches(x.codec, x.left.vfs, s.base, s.baseMd5, s.baseSize)
  {
    var layout, m := LayoutOf(x.plan), x.manifest[i];
    NotInPlace(x, i);
    assert PlannedFrom(x.codec, layout, x.before, x.archive, m, x.plan.entries[i]);
    assert PlannedFrom(x.codec, layout, x.now, x.archive, m, x.next.entries[i]);
    ParsedPayloads(x, i);
    var k := ChosenDiff(x.codec, layout, x.now, x.archive, m, x.next.entries[i]);
    OneWayToProduce(x.codec, layout, x.before, x.archive, m, x.plan.entries[i]);
    var first := ChosenDiff(x.codec, layout, x.before, x.archive, m, x.plan.entries[i]);
    hide Replanned, PlannedFrom, Chosen, Relocated;
    BasesSeen(x, m.patch[first].baseFile);
    BasesSeen(x, m.patch[k].baseFile);
    DiffPayloadIsSafe(m.patch[k].patchPath);
  }

  lemma BasesSeen(x: Replan, file: Path)
    requires Replanned(x)
    ensures Lookup(x.d0.vfs, x.plan.vfsDestination + file) == Lookup(x.before, x.plan.LogicalRoot() + file)
    ensures Lookup(x.left.vfs, x.plan.vfsDestination + file) == Lookup(x.now, x.plan.LogicalRoot() + file)
  {
  }

  lemma ParsedPayloads(x: Replan, i: nat)
    requires Replanned(x) && i < |x.plan.entries|
    ensures i < |x.manifest|
    ensures forall k :: 0 <= k < |x.manifest[i].patch| ==> SafeRelative(x.manifest[i].patch[k].patchPath)
  {
  }

  /** The diff a planned entry was given: the first usable one. */
  lemma ChosenDiff(codec: Codec, layout: Layout, vfs: Files, archive: set<Path>, m: ManifestEntry, e: Entry)
    returns (k: nat)
    requires PlannedFrom(codec, layout, vfs, archive, m, e) && e.source.Hdiff?
    ensures k < |m.patch| && Usable(codec, layout, vfs, archive, m.patch[k])
    ensures e.source == DiffSource(layout, m.patch[k])
    ensures forall j :: 0 <= j < k ==> !Usable(codec, layout, vfs, archive, m.patch[j])
    ensures m.localPath.None?
  {
    hide Usable;
    k :| 0 <= k < |m.patch| && Usable(codec, layout, vfs, archive, m.patch[k])
      && e.source == DiffSource(layout, m.patch[k])
      && forall j :: 0 <= j < k ==> !Usable(codec, layout, vfs, archive, m.patch[j]);
  }

  lemma OneWayToProduce(codec: Codec, layout: Layout, vfs: Files, archive: set<Path>, m: ManifestEntry, e: Entry)
    requires PlannedFrom(codec, layout, vfs, archive, m, e) && m.localPath.None? && !e.source.AlreadyPresent?
    ensures e.source.Hdiff?
  {
  }

  lemma DiffPayloadIsSafe(raw: Path)
    requires SafeRelative(raw)
    ensures SafeRelative(ArchivePayloadPath(PATCH_DIFF_STAGE_DIR, raw))
  {
    assert SafeComponent(PATCH_STAGE_DIR) && SafeComponent(PATCH_DIFF_STAGE_DIR);
  }

  /** Something else is there than at the start. */
  ghost predicate Changed(d0: Disk, vfs: Files, q: Path) {
    q in vfs && Lookup(vfs, q) != Lookup(d0.vfs, q)
  }

  /** Before the commit only outputs change, and what has changed is the finished output. */
  lemma ChangedIsOutput(codec: Codec, plan: Plan, d0: Disk, left: Disk, q: Path) returns (w: nat)
    requires Sound(codec, plan, d0) && Standing(plan, d0, GoalsOf(codec, plan, d0), left) && Changed(d0, left.vfs, q)
    ensures w < |plan.entries| && plan.entries[w].destination == q
    ensures AtTarget(plan, GoalsOf(codec, plan, d0), left.vfs, w)
  {
    assert RestInv(plan, d0, left.vfs, q);
    var e :| e in plan.entries && e.destination == q;
    w :| 0 <= w < |plan.entries| && plan.entries[w] == e;
    assert Reproducible(plan, d0, GoalsOf(codec, plan, d0), left.vfs, w);
  }

  // ----- the checks on the new plan

  lemma WritersStayUnique(x: Replan)
    requires Replanned(x)
    ensures UniqueWriters(x.next)
  {
    hide Replanned;
    AllSameShape(x);
  }

  lemma AllSameShape(x: Replan)
    requires Replanned(x)
    ensures |x.next.entries| == |x.plan.entries| && UniqueWriters(x.plan)
    ensures forall i: nat :: i < |x.plan.entries| ==> x.next.Aliases(i) == x.plan.Aliases(i)
  {
    forall i: nat | i < |x.plan.entries| ensures x.next.Aliases(i) == x.plan.Aliases(i) {
      SameShape(x, i);
    }
  }

  /** An edge between two entries that both still have to be produced was an edge before. */
  lemma EdgeWasThere(x: Replan, c: nat, w: nat)
    requires Replanned(x)
    requires MustPrecede(x.next, c, w) && x.next.entries[w].source.Hdiff?
    ensures MustPrecede(x.plan, c, w)
  {
    hide Replanned, PlannedPlan, Sound, Standing, Reproducible, Startable;
    AllSameShape(x);
    SameShape(x, w);
    SameDiffOrChangedBase(x, c);
    NotInPlace(x, w);
    var base := x.next.entries[c].source.base;
    ReplannedParts(x);
    if Changed(x.d0, x.left.vfs, base) {
      var writer := ChangedIsOutput(x.codec, x.plan, x.d0, x.left, base);
      assert base in x.plan.Aliases(writer) && base in x.plan.Aliases(w);
      SoundHasUniqueWriters(x.codec, x.plan, x.d0);
    }
  }

  lemma ReplannedParts(x: Replan)
    requires Replanned(x)
    ensures Sound(x.codec, x.plan, x.d0) && DeferredSparesOutputs(x.plan)
    ensures Standing(x.plan, x.d0, x.Goal(), x.left) || Settled(x.plan, x.d0, x.Goal(), x.left)
  {
  }

  lemma SoundHasUniqueWriters(codec: Codec, plan: Plan, d0: Disk)
    requires Sound(codec, plan, d0)
    ensures UniqueWriters(plan)
  {
  }

  /** A new cycle would consist of entries that stand as they stood, and so have been a cycle before. */
  lemma StaysAcyclic(x: Replan)
    requires Replanned(x)
    ensures Acyclic(Dependencies(x.next))
  {
    var earlier := Dependencies(x.plan);
    SoundIsAcyclic(x);
    forall c ensures !Cycle(Dependencies(x.next), c) {
      if Cycle(Dependencies(x.next), c) {
        forall k: nat | k < |c| ensures EdgeAt(earlier, c, k) {
          CycleEdge(x, c, k);
        }
        CycleFromEdges(earlier, c);
      }
    }
  }

  lemma SoundIsAcyclic(x: Replan)
    requires Replanned(x)
    ensures Acyclic(Dependencies(x.plan))
  {
  }

  lemma CycleEdge(x: Replan, c: seq<nat>, k: nat)
    requires Replanned(x)
    requires Cycle(Dependencies(x.next), c) && k < |c|
    ensures EdgeAt(Dependencies(x.plan), c, k)
  {
    hide Replanned, Cycle;
    var n := if k + 1 < |c| then k + 1 else 0;
    assert n == (k + 1) % |c|;
    CycleIsHdiffOverwrites(x.next, c, k);
    CycleIsHdiffOverwrites(x.next, c, n);
    assert MustPrecede(x.next, c[k], c[n]);
    EdgeWasThere(x, c[k], c[n]);
  }

  /** The `k`-th node of `c` is a prerequisite of the one after it, the last of the first. */
  ghost predicate EdgeAt(deps: Deps, c: seq<nat>, k: nat)
    requires k < |c|
  {
    Waits(deps, c[if k + 1 < |c| then k + 1 else 0], c[k])
  }

  lemma CycleFromEdges(deps: Deps, c: seq<nat>)
    requires |c| > 0 && forall k: nat :: k < |c| ==> EdgeAt(deps, c, k)
    ensures WellFormed(deps) ==> Cycle(deps, c)
  {
    assert EdgeAt(deps, c, |c| - 1);
    if WellFormed(deps) {
      forall k: nat | k < |c| ensures c[k] < |deps| {
        assert EdgeAt(deps, c, k);
      }
      forall k: int | 0 <= k < |c| - 1 ensures c[k] in deps[c[k + 1]] {
        assert EdgeAt(deps, c, k);
      }
    }
  }

  /** The base of a newly chosen diff is as it was, or the finished output of an entry. */
  lemma BaseIsOldOrOutput(x: Replan, i: nat) returns (w: nat)
    requires Replanned(x) && i < |x.plan.entries| == |x.next.entries| && x.next.entries[i].source.Hdiff?
    ensures x.next.entries[i].source == x.plan.entries[i].source
            || (w < |x.plan.entries| && x.next.entries[i].source.base == x.plan.entries[w].destination
                && AtTarget(x.plan, x.Goal(), x.left.vfs, w))
  {
    SameDiffOrChangedBase(x, i);
    NotInPlace(x, i);
    ReplannedParts(x);
    hide Replanned, PlannedPlan, Sound, Standing, Settled;
    w := 0;
    if Changed(x.d0, x.left.vfs, x.next.entries[i].source.base) {
      w := ChangedIsOutput(x.codec, x.plan, x.d0, x.left, x.next.entries[i].source.base);
    }
  }

  lemma SourceStaysValid(x: Replan, i: nat)
    requires Replanned(x) && i < |x.plan.entries| == |x.next.entries|
    ensures ValidSource(x.next, x.next.entries[i].source)
  {
    ReplannedParts(x);
    assert ValidEntry(x.plan, x.plan.entries[i]);
    match x.next.entries[i].source
    case AlreadyPresent =>
    case Local(payload) =>
      NotInPlace(x, i);
      assert PlannedFrom(x.codec, LayoutOf(x.plan), x.before, x.archive, x.manifest[i], x.plan.entries[i]);
      assert PlannedFrom(x.codec, LayoutOf(x.plan), x.now, x.archive, x.manifest[i], x.next.entries[i]);
      assert x.next.entries[i].source == x.plan.entries[i].source;
    case Hdiff(base, payload, baseMd5, baseSize) =>
      SameDiffOrChangedBase(x, i);
      var w := BaseIsOldOrOutput(x, i);
      if x.next.entries[i].source != x.plan.entries[i].source {
        GoalFacts(x.codec, x.plan, x.d0, w);
        assert ValidEntry(x.plan, x.plan.entries[w]);
      }
  }

  lemma StaysValid(x: Replan)
    requires Replanned(x)
    ensures Valid(x.next)
  {
    ReplannedParts(x);
    AllSameShape(x);
    forall i: nat | i < |x.next.entries|
      ensures ValidEntry(x.next, x.next.entries[i]) && x.next.entries[i].name == x.plan.entries[i].name
      ensures x.next.LogicalOutput(x.next.entries[i]) == x.plan.LogicalOutput(x.plan.entries[i])
    {
      SameShape(x, i);
      SourceStaysValid(x, i);
      assert ValidEntry(x.plan, x.plan.entries[i]);
    }
    hide Replanned, Sound, Standing, ValidEntry, ValidSource;
    forall k | 0 <= k < |x.next.deletePaths| ensures ValidDelete(x.next, x.next.deletePaths[k]) {
      assert ValidDelete(x.plan, x.plan.deletePaths[k]);
      forall e | e in x.next.entries ensures x.next.installRoot + x.next.deletePaths[k] != x.next.LogicalOutput(e) {
        var i: nat :| i < |x.next.entries| && x.next.entries[i] == e;
        assert x.plan.entries[i] in x.plan.entries;
      }
    }
  }

  lemma DeletesStaySafe(x: Replan, d1: Disk)
    requires Replanned(x) && Startable(x.codec, x.next, d1) && d1.vfs == x.left.vfs
    ensures SafeDeletes(x.next, GoalsOf(x.codec, x.next, d1))
  {
    AllSameShape(x);
    ReplannedParts(x);
    var g := GoalsOf(x.codec, x.next, d1);
    forall k: nat, i: nat | k < |x.next.deletePaths| && i < |x.next.entries|
      ensures SafeToDelete(x.next, g, x.next.PhysicalDelete(x.next.deletePaths[k]), i)
    {
      SameShape(x, i);
      DeletesAreSafe(x.codec, x.plan, x.d0, k);
      var p := x.plan.PhysicalDelete(x.plan.deletePaths[k]);
      if x.next.entries[i].source.Hdiff? {
        NotInPlace(x, i);
        var w := BaseIsOldOrOutput(x, i);
        assert w < |x.plan.entries| ==> !(p <= x.plan.entries[w].destination);
      }
    }
  }

  // ----- main results

  /**
   * The plan made anew passes the same checks: writers are unique, there is no overwrite cycle, it is valid, its
   * deletes are safe. With its payloads extracted it can be run, so a stopped run never leads into a dead end.
   */
  lemma NewPlanIsSound(x: Replan, d1: Disk)
    requires Replanned(x) && d1.vfs == x.left.vfs && Extracted(x.codec, x.next, d1)
    ensures UniqueWriters(x.next) && Acyclic(Dependencies(x.next)) && Valid(x.next)
    ensures Sound(x.codec, x.next, d1)
  {
    WritersStayUnique(x);
    StaysAcyclic(x);
    StaysValid(x);
    PlannedPlanIsSound(x.codec, x.now, x.archive, x.manifest, x.next, d1);
    DeletesStaySafe(x, d1);
  }

  /** Size and digest leave no doubt about an output. */
  ghost predicate Determined(codec: Codec, plan: Plan, g: Goals)
    requires |g.targets| == |plan.entries|
  {
    forall i, c :: 0 <= i < |plan.entries| && AcceptsOutput(codec, plan.entries[i], c) ==> c == g.targets[i]
  }

  lemma GoalsStay(x: Replan, d1: Disk)
    requires Replanned(x) && Startable(x.codec, x.next, d1) && Determined(x.codec, x.plan, x.Goal())
    ensures GoalsOf(x.codec, x.next, d1).targets == x.Goal().targets
  {
    AllSameShape(x);
    var g := GoalsOf(x.codec, x.next, d1);
    forall i: nat | i < |x.plan.entries| ensures g.targets[i] == x.Goal().targets[i] {
      SameShape(x, i);
      GoalFacts(x.codec, x.next, d1, i);
      assert AcceptsOutput(x.codec, x.plan.entries[i], g.targets[i]);
    }
  }

  /** Every finished run of the new plan, crashes and shared payloads or not, has produced the original outputs. */
  lemma NewRunsReachOldGoals(x: Replan, d1: Disk, actions: seq<Action>, s: Run)
    requires Replanned(x) && d1.vfs == x.left.vfs && Extracted(x.codec, x.next, d1)
    requires Determined(x.codec, x.plan, x.Goal())
    requires Runs(x.codec, x.next, Begin(x.next, d1), actions, s) && s.phase.Finished?
    ensures forall i: nat :: i < |x.plan.entries| ==> AtTarget(x.plan, x.Goal(), s.disk.vfs, i)
  {
    NewPlanIsSound(x, d1);
    GoalsStay(x, d1);
    SparesStay(x);
    FinishedRunsAgree(x.codec, x.next, d1, actions, s);
    AllSameShape(x);
    var g1, committed := GoalsOf(x.codec, x.next, d1), set r | r in x.next.deferredPaths;
    forall i: nat | i < |x.plan.entries| ensures AtTarget(x.plan, x.Goal(), s.disk.vfs, i) {
      SameShape(x, i);
      assert x.next.entries[i] in x.next.entries;
      var q := x.next.entries[i].destination;
      OutputIsFinal(x.codec, x.next, d1, committed, i);
      assert Lookup(s.disk.vfs, q) == FinalContent(x.next, d1, g1, committed, q);
    }
  }

  lemma SparesStay(x: Replan)
    requires Replanned(x)
    ensures DeferredSparesOutputs(x.next)
  {
    AllSameShape(x);
    forall r, e | r in x.next.deferredPaths && e in x.next.entries ensures x.next.installRoot + r != e.destination {
      var i: nat :| i < |x.next.entries| && x.next.entries[i] == e;
      SameShape(x, i);
      assert x.plan.entries[i] in x.plan.entries;
    }
  }

  /** Removed files are those at or below a delete path, whatever the entries. */
  lemma DoomedIff(plan: Plan, q: Path)
    requires Valid(plan)
    ensures Doomed(plan, q) <==>
      exists k: nat :: k < |plan.deletePaths| && plan.PhysicalDelete(plan.deletePaths[k]) <= q
  {
    forall k: nat | k < |plan.deletePaths| ensures Removable(plan, k) {
      ValidDeletesAreRemovable(plan, k);
    }
  }

  /** What the first run left untouched it has neither produced, nor deleted, nor committed. */
  lemma LeftUntouched(x: Replan, q: Path)
    requires Replanned(x) && !IsDestination(x.plan, q) && !Doomed(x.plan, q)
    requires forall r :: r in x.plan.deferredPaths ==> q != x.plan.installRoot + r
    ensures Lookup(x.left.vfs, q) == Lookup(x.d0.vfs, q)
  {
    ReplannedParts(x);
    var committed := Committed(x.plan, x.left);
    if Standing(x.plan, x.d0, x.Goal(), x.left) {
      assert RestInv(x.plan, x.d0, x.left.vfs, q);
    } else {
      assert Lookup(x.left.vfs, q) == FinalContent(x.plan, x.d0, x.Goal(), committed, q);
      forall i: nat ensures !Writes(x.plan, i, q) {
        assert i < |x.plan.entries| ==> x.plan.entries[i] in x.plan.entries;
      }
      hide Replanned, Sound, Doomed, Writes, FinalContent, Standing, Settled;
      FinalElsewhere(x.plan, x.d0, x.Goal(), committed, q);
      if x.plan.installRoot <= q {
        assert q == x.plan.installRoot + q[|x.plan.installRoot|..];
      }
    }
  }

  /** What both plans are for at `q`. */
  lemma SameFinalContent(x: Replan, d1: Disk, q: Path)
    requires Replanned(x) && d1.vfs == x.left.vfs && Sound(x.codec, x.next, d1)
    requires Determined(x.codec, x.plan, x.Goal())
    requires forall r :: r in x.plan.deferredPaths ==> DeferredContent(d1, r) == DeferredContent(x.d0, r)
    ensures var committed := set r | r in x.plan.deferredPaths;
            FinalContent(x.next, d1, GoalsOf(x.codec, x.next, d1), committed, q)
            == FinalContent(x.plan, x.d0, x.Goal(), committed, q)
  {
    var committed := set r | r in x.plan.deferredPaths;
    ReplannedParts(x);
    SparesStay(x);
    GoalsStay(x, d1);
    AllSameShape(x);
    if i: nat :| i < |x.plan.entries| && x.plan.entries[i].destination == q {
      SameShape(x, i);
      assert x.next.entries[i] in x.next.entries && x.plan.entries[i] in x.plan.entries;
      OutputIsFinal(x.codec, x.next, d1, committed, i);
      OutputIsFinal(x.codec, x.plan, x.d0, committed, i);
    } else {
      NoOutputAt(x, d1, q);
    }
  }

  lemma NoOutputAt(x: Replan, d1: Disk, q: Path)
    requires Replanned(x) && d1.vfs == x.left.vfs && Sound(x.codec, x.next, d1)
    requires forall i: nat :: i < |x.plan.entries| ==> x.plan.entries[i].destination != q
    requires forall r :: r in x.plan.deferredPaths ==> DeferredContent(d1, r) == DeferredContent(x.d0, r)
    ensures var committed := set r | r in x.plan.deferredPaths;
            FinalContent(x.next, d1, GoalsOf(x.codec, x.next, d1), committed, q)
            == FinalContent(x.plan, x.d0, x.Goal(), committed, q)
  {
    SameRest(x, d1, q);
    assert x.next.installRoot == x.plan.installRoot;
    var committed := set r | r in x.plan.deferredPaths;
    var g1, g := GoalsOf(x.codec, x.next, d1), x.Goal();
    hide Replanned, Sound, Doomed, GoalsOf, FinalContent, Startable, Writes, IsDestination;
    FinalElsewhere(x.next, d1, g1, committed, q);
    FinalElsewhere(x.plan, x.d0, g, committed, q);
    if !Doomed(x.plan, q) && !DeferredAt(x.plan, committed, q) {
      LeftUntouched(x, q);
    }
  }

  predicate DeferredAt(plan: Plan, committed: set<Path>, q: Path) {
    plan.installRoot <= q && q[|plan.installRoot|..] in committed
  }

  /** What is meant to be at a path that is no output. */
  lemma FinalElsewhere(plan: Plan, d0: Disk, g: Goals, committed: set<Path>, q: Path)
    requires |g.targets| == |plan.entries| && forall i: nat :: !Writes(plan, i, q)
    ensures FinalContent(plan, d0, g, committed, q) ==
            if DeferredAt(plan, committed, q) then DeferredContent(d0, q[|plan.installRoot|..])
            else if Doomed(plan, q) then None
            else Lookup(d0.vfs, q)
    ensures !IsDestination(plan, q)
    ensures forall r :: r in committed && !DeferredAt(plan, committed, q) ==> q != plan.installRoot + r
  {
    forall e | e in plan.entries ensures e.destination != q {
      var i :| 0 <= i < |plan.entries| && plan.entries[i] == e;
      assert !Writes(plan, i, q);
    }
    forall r ensures (plan.installRoot + r)[|plan.installRoot|..] == r {
    }
  }

  lemma SameRest(x: Replan, d1: Disk, q: Path)
    requires Replanned(x) && Sound(x.codec, x.next, d1)
    requires forall i: nat :: i < |x.plan.entries| ==> x.plan.entries[i].destination != q
    ensures forall i: nat :: !Writes(x.plan, i, q) && !Writes(x.next, i, q)
    ensures Doomed(x.next, q) <==> Doomed(x.plan, q)
  {
    AllSameShape(x);
    ReplannedParts(x);
    forall i: nat ensures !Writes(x.plan, i, q) && !Writes(x.next, i, q) {
      if i < |x.plan.entries| {
        SameShape(x, i);
      }
    }
    DoomedIff(x.plan, q);
    DoomedIff(x.next, q);
  }

  /** With the same file deferred, nothing at all is different in the end: the first plan has been carried out. */
  lemma NewRunsCarryOutTheOldPlan(x: Replan, d1: Disk, actions: seq<Action>, s: Run)
    requires Replanned(x) && d1.vfs == x.left.vfs && Extracted(x.codec, x.next, d1)
    requires Determined(x.codec, x.plan, x.Goal())
    requires forall r :: r in x.plan.deferredPaths ==> DeferredContent(d1, r) == DeferredContent(x.d0, r)
    requires Runs(x.codec, x.next, Begin(x.next, d1), actions, s) && s.phase.Finished?
    ensures FilesAreFinal(x.plan, x.d0, x.Goal(), s.disk.vfs, set r | r in x.plan.deferredPaths)
  {
    NewPlanIsSound(x, d1);
    FinishedRunsAgree(x.codec, x.next, d1, actions, s);
    var committed := set r | r in x.plan.deferredPaths;
    var g1 := GoalsOf(x.codec, x.next, d1);
    assert x.next.deferredPaths == x.plan.deferredPaths;
    hide Replanned, Sound, FinalContent, Determined;
    forall q ensures Lookup(s.disk.vfs, q) == FinalContent(x.plan, x.d0, x.Goal(), committed, q) {
      SameFinalContent(x, d1, q);
      assert Lookup(s.disk.vfs, q) == FinalContent(x.next, d1, g1, committed, q);
    }
  }

  /** The premises are met wherever a run stands: what is planned on it is planned anew in the sense above. */
  lemma EveryStopCanBeReplanned(x: Replan, actions: seq<Action>, s: Run)
    requires Sound(x.codec, x.plan, x.d0) && DeferredSparesOutputs(x.plan) && CheckedPaths(x.manifest)
    requires PlannedPlan(x.codec, x.before, x.archive, x.manifest, x.plan)
    requires PlannedPlan(x.codec, x.now, x.archive, x.manifest, x.next) && x.next == x.plan.(entries := x.next.entries)
    requires Relocated(LayoutOf(x.plan), x.before, x.d0.vfs) && Relocated(LayoutOf(x.plan), x.now, x.left.vfs)
    requires Runs(x.codec, x.plan, Begin(x.plan, x.d0), actions, s) && x.left == s.disk
    ensures Replanned(x)
  {
    RunLeaves(x.codec, x.plan, x.d0, actions, s);
  }
}
