/** When a run cannot be resumed its plan is discarded and made anew: that is possible after every crash. */
module PatchRebuild {
  import opened Collections
  import opened DependencyGraph
  import opened PatchPlan
  import opened SafePath
  import opened PatchDependencies
  import opened PatchRun
  import opened PatchSafety
  import opened PatchRecovery
  import opened PatchPlanner

  // ----- what a run leaves

  /** No deferred file is put where an output is. */
  ghost predicate DeferredSparesOutputs(plan: Plan) {
    forall r, e :: r in plan.deferredPaths && e in plan.entries ==> plan.installRoot + r != e.destination
  }

  /** The planner defers one file only, which is no output unless the install lies inside its own patched tree. */
  lemma PlannedDeferredSparesOutputs(codec: Codec, before: Files, archive: set<Path>, manifest: seq<ManifestEntry>,
                                     plan: Plan)
    requires PlannedPlan(codec, before, archive, manifest, plan) && Valid(plan)
    requires !(plan.vfsDestination <= plan.installRoot)
    ensures DeferredSparesOutputs(plan)
  {
    forall r, e | r in plan.deferredPaths && e in plan.entries ensures plan.installRoot + r != e.destination {
      assert ValidEntry(plan, e) && r == CONFIG_INI;
      PrefixOfRoot(plan.vfsDestination, e.name, plan.installRoot, CONFIG_INI[0]);
    }
  }

  lemma PrefixOfRoot(d: Path, tail: Path, root: Path, name: string)
    ensures tail != [] && d + tail == root + [name] ==> d <= root
  {
    if tail != [] && d + tail == root + [name] {
      assert d == (root + [name])[..|d|];
    }
  }

  lemma SettledIsDone(codec: Codec, plan: Plan, d0: Disk, disk: Disk, i: nat)
    requires Sound(codec, plan, d0) && DeferredSparesOutputs(plan) && i < |plan.entries|
    requires Settled(plan, d0, GoalsOf(codec, plan, d0), disk)
    ensures AtTarget(plan, GoalsOf(codec, plan, d0), disk.vfs, i)
  {
    assert plan.entries[i] in plan.entries;
    OutputIsFinal(codec, plan, d0, Committed(plan, disk), i);
  }

  lemma RunLeaves(codec: Codec, plan: Plan, d0: Disk, actions: seq<Action>, s: Run)
    requires Sound(codec, plan, d0) && Runs(codec, plan, Begin(plan, d0), actions, s)
    ensures Standing(plan, d0, GoalsOf(codec, plan, d0), s.disk) || Settled(plan, d0, GoalsOf(codec, plan, d0), s.disk)
  {
    BeginHolds(codec, plan, d0);
    RunHolds(codec, plan, d0, Begin(plan, d0), actions, s);
  }

  /** Wherever a run stands, and even if entries share payloads, each output is in place or can still be produced. */
  lemma OutputsStayReproducible(codec: Codec, plan: Plan, d0: Disk, actions: seq<Action>, s: Run, i: nat)
    requires Sound(codec, plan, d0) && DeferredSparesOutputs(plan) && i < |plan.entries|
    requires Runs(codec, plan, Begin(plan, d0), actions, s)
    ensures Reproducible(plan, d0, GoalsOf(codec, plan, d0), s.disk.vfs, i)
  {
    RunLeaves(codec, plan, d0, actions, s);
    if Settled(plan, d0, GoalsOf(codec, plan, d0), s.disk) {
      SettledIsDone(codec, plan, d0, s.disk, i);
    }
  }

  // ----- planning anew

  lemma {:induction false} FirstUsable(codec: Codec, layout: Layout, vfs: Files, archive: set<Path>, patch: seq<Diff>,
                                       k: nat)
    returns (first: nat)
    requires k < |patch| && Usable(codec, layout, vfs, archive, patch[k])
    ensures first <= k && Usable(codec, layout, vfs, archive, patch[first])
    ensures forall j :: 0 <= j < first ==> !Usable(codec, layout, vfs, archive, patch[j])
  {
    hide Usable;
    if j :| 0 <= j < k && Usable(codec, layout, vfs, archive, patch[j]) {
      first := FirstUsable(codec, layout, vfs, archive, patch, j);
    } else {
      first := k;
    }
  }

  /** A reproducible output has a source: itself, its payload in the archive, or the base it was planned with. */
  lemma ReproducibleHasSource(codec: Codec, layout: Layout, before: Files, now: Files, archive: set<Path>,
                              m: ManifestEntry, plan: Plan, d0: Disk, vfs: Files, i: nat)
    requires Startable(codec, plan, d0) && i < |plan.entries|
    requires layout.destination == plan.vfsDestination
    requires PlannedFrom(codec, layout, before, archive, m, plan.entries[i])
    requires Relocated(layout, before, d0.vfs) && Relocated(layout, now, vfs)
    requires Reproducible(plan, d0, GoalsOf(codec, plan, d0), vfs, i)
    ensures HasSource(codec, layout, now, archive, m)
  {
    var e := plan.entries[i];
    GoalFacts(codec, plan, d0, i);
    assert Lookup(vfs, layout.destination + m.name) == Lookup(now, layout.logical + m.name);
    assert Lookup(d0.vfs, layout.destination + m.name) == Lookup(before, layout.logical + m.name);
    if Matches(codec, now, layout.logical + m.name, m.md5, m.size) {
      assert Chosen(codec, layout, now, archive, m, AlreadyPresent);
    } else if m.localPath.Some? {
      assert Chosen(codec, layout, now, archive, m, e.source);
    } else {
      var k :| 0 <= k < |m.patch| && Usable(codec, layout, before, archive, m.patch[k])
        && e.source == DiffSource(layout, m.patch[k]);
      assert Lookup(d0.vfs, e.source.base) == Lookup(before, layout.logical + m.patch[k].baseFile);
      assert Lookup(vfs, e.source.base) == Lookup(now, layout.logical + m.patch[k].baseFile);
      var first := FirstUsable(codec, layout, now, archive, m.patch, k);
      assert Chosen(codec, layout, now, archive, m, DiffSource(layout, m.patch[first]));
    }
  }

  lemma {:induction false} NoneSourceless(codec: Codec, layout: Layout, vfs: Files, archive: set<Path>,
                                          manifest: seq<ManifestEntry>)
    requires forall i :: 0 <= i < |manifest| ==> HasSource(codec, layout, vfs, archive, manifest[i])
    ensures Sourceless(codec, layout, vfs, archive, manifest) == []
  {
    hide HasSource;
    if manifest != [] {
      NoneSourceless(codec, layout, vfs, archive, manifest[..|manifest| - 1]);
    }
  }

  /**
   * Wherever a run of a planned plan stands or was abandoned, and even if entries share payloads, planning anew from
   * the same manifest and archive finds a source for every entry: nothing a run does burns the way back.
   */
  lemma RebuildIsAlwaysPossible(codec: Codec, before: Files, archive: set<Path>, manifest: seq<ManifestEntry>,
                                plan: Plan, d0: Disk, actions: seq<Action>, s: Run, now: Files)
    requires PlannedPlan(codec, before, archive, manifest, plan) && Sound(codec, plan, d0)
    requires DeferredSparesOutputs(plan) && Runs(codec, plan, Begin(plan, d0), actions, s)
    requires var layout := Layout(plan.LogicalRoot(), plan.vfsDestination);
             Relocated(layout, before, d0.vfs) && Relocated(layout, now, s.disk.vfs)
    ensures Sourceless(codec, Layout(plan.LogicalRoot(), plan.vfsDestination), now, archive, manifest) == []
  {
    var layout := Layout(plan.LogicalRoot(), plan.vfsDestination);
    hide Runs, PlannedFrom, Relocated, HasSource, Reproducible;
    forall i | 0 <= i < |manifest| ensures HasSource(codec, layout, now, archive, manifest[i]) {
      OutputsStayReproducible(codec, plan, d0, actions, s, i);
      ReproducibleHasSource(codec, layout, before, now, archive, manifest[i], plan, d0, s.disk.vfs, i);
    }
    NoneSourceless(codec, layout, now, archive, manifest);
  }
}
