/** Where the checks made on a patch plan stop short, each with a plan and a disk that show it. */
module PatchLimits {
  import opened Collections
  import opened Text
  import opened DependencyGraph
  import opened PatchPlan
  import opened SafePath
  import opened PatchDependencies
  import opened PatchRun
  import opened PatchSafety
  import opened PatchRecovery
  import opened PatchProgress
  import opened PatchDeletes
  import opened PatchPlanner

  const DESTINATION: Path := ["/", "game", "VFS"]

  function PlainPlan(entries: seq<Entry>, deletes: seq<Path>, deferred: seq<Path>): Plan {
    Plan(SCHEMA_VERSION, ["/", "game"], ["/", "stage"], ["VFS"], DESTINATION, None, entries, deletes, deferred)
  }

  /** An entry whose output is one byte long. */
  function PlainEntry(name: string, source: Source): Entry {
    Entry([name], [name], DESTINATION + [name], "m", 1, source)
  }

  /** All digests are alike, and any diff yields the byte 8. */
  function PlainCodec(): Codec {
    Codec(_ => "m", (_, _) => Some([8]))
  }

  predicate SafeName(name: string) {
    |name| > 2 && '/' !in name && ':' !in name && '\\' !in name
  }

  lemma PlainPlanRoots(plan: Plan)
    requires plan == PlainPlan(plan.entries, plan.deletePaths, plan.deferredPaths)
    ensures ValidRoots(plan) && plan.LogicalRoot() == plan.vfsDestination
  {
    assert plan.stageRoot[1] != plan.installRoot[1];
    assert SafeName("VFS");
  }

  lemma PlainEntryIsValid(plan: Plan, name: string, source: Source)
    requires SafeName(name) && plan.vfsDestination == DESTINATION && ValidSource(plan, source)
    ensures ValidEntry(plan, PlainEntry(name, source))
  {
    assert 'm' in "m" && !Blank("m");
  }

  /** One entry by itself waits for nothing. */
  lemma SingleIsAcyclic(plan: Plan)
    requires |plan.entries| == 1
    ensures Acyclic(Dependencies(plan)) && UniqueWriters(plan) && BasesApart(plan)
  {
    if c :| Cycle(Dependencies(plan), c) {
      CycleIsHdiffOverwrites(plan, c, 0);
    }
  }

  /** A plan with one entry and one delete path is in order but for what the path deletes. */
  lemma SingleIsInOrder(codec: Codec, plan: Plan, d0: Disk)
    requires |plan.entries| == |plan.deletePaths| == 1
    requires plan == PlainPlan(plan.entries, plan.deletePaths, [])
    requires ValidEntry(plan, plan.entries[0]) && ValidDelete(plan, plan.deletePaths[0])
    requires PrepareEntry(codec, plan.entries[0], d0).Ok?
    ensures SoundButForDeletes(codec, plan, d0) && BasesApart(plan)
  {
    PlainPlanRoots(plan);
    SingleIsAcyclic(plan);
  }

  lemma UnsafeDeleteGoesWrong(codec: Codec, plan: Plan, d0: Disk, k: nat, i: nat)
    requires SoundButForDeletes(codec, plan, d0) && BasesApart(plan)
    requires k < |plan.deletePaths| && i < |plan.entries|
    requires !SafeToDelete(plan, GoalsOf(codec, plan, d0), plan.PhysicalDelete(plan.deletePaths[k]), i)
    ensures !AlwaysGood(codec, plan, d0)
  {
    AlwaysGoodIff(codec, plan, d0);
  }

  // ----- examples

  lemma Names()
    ensures SafeComponent("VFS") && SafeComponent("a.bin") && SafeComponent("old") && SafeComponent("b.bin")
    ensures SafeComponent("vfs_files") && SafeComponent("p.diff") && "a.bin" != "old" && "a.bin" != "VFS"
    ensures SafeName("a.bin") && SafeName("b.bin") && "a.bin" != "b.bin"
  {
    assert SafeName("VFS") && SafeName("a.bin") && SafeName("old") && SafeName("b.bin");
    assert SafeName("vfs_files") && SafeName("p.diff");
    assert "a.bin"[0] == 'a' && "b.bin"[0] == 'b' && "old"[0] == 'o' && "VFS"[0] == 'V';
  }

  lemma PublicNames()
    ensures !IsPrivate(["VFS"]) && !IsPrivate(["VFS", "old"]) && !IsPrivate(["VFS", "a.bin"])
    ensures !IsPrivate(CONFIG_INI)
  {
    assert GRIFFR_DIR[0] == '.' && Lowercase("VFS")[0] == LowerChar('V') && Lowercase("config.ini")[0] == 'c';
  }

  /** A valid plan deletes the directory of its own output, which some run loses. */
  lemma PlanMayDeleteAboveItsOutput() returns (codec: Codec, plan: Plan, d0: Disk)
    ensures SoundButForDeletes(codec, plan, d0) && PlainNames(plan) && !AlwaysGood(codec, plan, d0)
    ensures |plan.deletePaths| == |plan.entries| == 1
    ensures plan.PhysicalDelete(plan.deletePaths[0]) < plan.entries[0].destination
  {
    Names();
    PublicNames();
    hide SafeComponent, SafeName, IsPrivate, SoundButForDeletes, AlwaysGood, DistinctPayloads, BasesApart;
    plan := PlainPlan([PlainEntry("a.bin", AlreadyPresent)], [["VFS"]], []);
    codec, d0 := PlainCodec(), Disk(map[DESTINATION + ["a.bin"] := [7]], map[], map[]);
    PlainEntryIsValid(plan, "a.bin", AlreadyPresent);
    assert plan.LogicalOutput(plan.entries[0]) == ["/", "game", "VFS", "a.bin"];
    assert plan.PhysicalDelete(["VFS"]) == ["/", "game", "VFS"] == DESTINATION;
    SingleIsInOrder(codec, plan, d0);
    UnsafeDeleteGoesWrong(codec, plan, d0, 0, 0);
  }

  /** A valid plan deletes a directory whose file it is to read, and some run fails for the lack of it. */
  lemma PlanMayDeleteAboveItsBase() returns (codec: Codec, plan: Plan, d0: Disk)
    ensures SoundButForDeletes(codec, plan, d0) && PlainNames(plan) && !AlwaysGood(codec, plan, d0)
    ensures |plan.deletePaths| == |plan.entries| == 1 && plan.entries[0].source.Hdiff?
    ensures plan.PhysicalDelete(plan.deletePaths[0]) < plan.entries[0].source.base
  {
    Names();
    PublicNames();
    hide SafeComponent, SafeName, IsPrivate, SoundButForDeletes, AlwaysGood, DistinctPayloads, BasesApart;
    var base: Path, payload: Path := DESTINATION + ["old", "b.bin"], ["vfs_files", "p.diff"];
    var source := Hdiff(base, payload, "m", 1);
    plan := PlainPlan([PlainEntry("a.bin", source)], [["VFS", "old"]], []);
    codec, d0 := PlainCodec(), Disk(map[base := [7]], map[payload := [9]], map[]);
    assert 'm' in "m" && !Blank("m");
    PlainEntryIsValid(plan, "a.bin", source);
    var output := plan.entries[0].destination;
    assert plan.LogicalOutput(plan.entries[0]) == output == ["/", "game", "VFS", "a.bin"];
    assert plan.PhysicalDelete(["VFS", "old"]) == ["/", "game", "VFS", "old"] == DESTINATION + ["old"];
    assert base == ["/", "game", "VFS", "old", "b.bin"] && base[..4] == DESTINATION + ["old"];
    assert (plan.installRoot + ["VFS", "old"])[3] == "old" && output[3] == "a.bin";
    assert |base| == 5 && |output| == 4;
    SingleIsInOrder(codec, plan, d0);
    UnsafeDeleteGoesWrong(codec, plan, d0, 0, 0);
  }

  /** The path to give for deleting the output of entry `i`. */
  function OutputDelete(plan: Plan, i: nat): Path
    requires i < |plan.entries|
  {
    plan.vfsBase + plan.entries[i].name
  }

  /** Joining the name of entry `j` as it is written finds the output of entry `i`. */
  predicate FindsOutput(plan: Plan, i: nat, j: nat)
    requires i < |plan.entries| && j < |plan.entries|
  {
    var name := plan.entries[i].name;
    plan.entries[j].written == name || plan.entries[j].written == plan.LogicalRoot() + name
  }

  lemma FindsOutputIff(plan: Plan, i: nat, j: nat)
    requires Valid(plan) && i < |plan.entries| && j < |plan.entries|
    ensures plan.installRoot + OutputDelete(plan, i) == plan.LogicalOutput(plan.entries[j]) <==> FindsOutput(plan, i, j)
  {
    var root, name, written := plan.LogicalRoot(), plan.entries[i].name, plan.entries[j].written;
    assert ValidEntry(plan, plan.entries[i]) && SafeComponent(name[0]) && name[0] != ROOT;
    assert plan.installRoot + OutputDelete(plan, i) == root + name;
    if root + written == root + name {
      JoinInjective(root, written, name);
    }
  }

  lemma OutputDeleteIsPhysical(plan: Plan, i: nat)
    requires Valid(plan) && i < |plan.entries|
    ensures plan.PhysicalDelete(OutputDelete(plan, i)) == plan.entries[i].destination
  {
    var p, name := OutputDelete(plan, i), plan.entries[i].name;
    assert ValidEntry(plan, plan.entries[i]);
    assert p[|plan.vfsBase|..] == name && plan.vfsBase <= p;
    assert plan.installRoot + p == plan.LogicalRoot() + name;
  }

  /**
   * A delete path that is added for just the output of an entry takes that output; the plan check rejects it exactly
   * when the name of some entry, joined as it is written, finds the output.
   */
  lemma OutputIsSeenIff(plan: Plan, i: nat)
    requires Valid(plan) && i < |plan.entries|
    requires var p := OutputDelete(plan, i); !IsPrivate(p) && p !in plan.deletePaths
    ensures var p := OutputDelete(plan, i);
            && plan.PhysicalDelete(p) == plan.entries[i].destination
            && (!Valid(plan.(deletePaths := plan.deletePaths + [p])) <==>
                exists j :: 0 <= j < |plan.entries| && FindsOutput(plan, i, j))
  {
    var p := OutputDelete(plan, i);
    var more := plan.(deletePaths := plan.deletePaths + [p]);
    OutputDeleteIsPhysical(plan, i);
    assert ValidRoots(plan) && ValidEntry(plan, plan.entries[i]);
    forall k | 0 <= k < |p| ensures SafeComponent(p[k]) {
      assert k >= |plan.vfsBase| ==> p[k] == plan.entries[i].name[k - |plan.vfsBase|];
    }
    SeenIff(plan, more, p, i);
    MoreIsValidIff(plan, more, p);
  }

  lemma SeenIff(plan: Plan, more: Plan, p: Path, i: nat)
    requires Valid(plan) && i < |plan.entries| && p == OutputDelete(plan, i) && SafeRelative(p) && !IsPrivate(p)
    requires more == plan.(deletePaths := plan.deletePaths + [p])
    ensures !ValidDelete(more, p) <==> exists j :: 0 <= j < |plan.entries| && FindsOutput(plan, i, j)
  {
    hide Valid, SafeRelative, FindsOutput, IsPrivate;
    forall j: nat | j < |plan.entries|
      ensures plan.installRoot + p == plan.LogicalOutput(plan.entries[j]) <==> FindsOutput(plan, i, j)
    {
      FindsOutputIff(plan, i, j);
    }
    assert forall e :: more.LogicalOutput(e) == plan.LogicalOutput(e);
    if !ValidDelete(more, p) {
      var e :| e in plan.entries && plan.installRoot + p == plan.LogicalOutput(e);
      var j :| 0 <= j < |plan.entries| && plan.entries[j] == e;
      assert FindsOutput(plan, i, j);
    }
    if j :| 0 <= j < |plan.entries| && FindsOutput(plan, i, j) {
      assert plan.entries[j] in more.entries;
    }
  }

  lemma MoreIsValidIff(plan: Plan, more: Plan, p: Path)
    requires Valid(plan) && more == plan.(deletePaths := plan.deletePaths + [p]) && p !in plan.deletePaths
    ensures Valid(more) <==> ValidDelete(more, p)
  {
    assert more.deletePaths[|plan.deletePaths|] == p;
    assert forall i :: 0 <= i < |plan.entries| ==> ValidEntry(plan, plan.entries[i]) && ValidEntry(more, plan.entries[i]);
    forall k | 0 <= k < |plan.deletePaths| ensures ValidDelete(more, more.deletePaths[k]) {
      assert ValidDelete(plan, plan.deletePaths[k]);
    }
  }

  lemma RootedName()
    ensures Parse("/" + "a.bin") == Some(["a.bin"]) && Written("/" + "a.bin") == [ROOT] + ["a.bin"]
  {
    Names();
    hide SafeComponent, Parse, Written;
    assert "a.bin"[4] == 'n' && Joined(["a.bin"]) == "a.bin";
    RootedParses(["a.bin"]);
  }

  /** An entry named with a leading separator hides its output from the check, and the plan may delete just that. */
  lemma PlanMayDeleteItsRootedOutput() returns (codec: Codec, plan: Plan, d0: Disk)
    ensures SoundButForDeletes(codec, plan, d0) && !AlwaysGood(codec, plan, d0)
    ensures |plan.deletePaths| == |plan.entries| == 1
    ensures Parse("/" + "a.bin") == Some(plan.entries[0].name) && plan.entries[0].written == Written("/" + "a.bin")
    ensures plan.PhysicalDelete(plan.deletePaths[0]) == plan.entries[0].destination
  {
    Names();
    PublicNames();
    RootedName();
    hide SafeComponent, SafeName, IsPrivate, SoundButForDeletes, AlwaysGood, DistinctPayloads, BasesApart, Parse, Written;
    var e := PlainEntry("a.bin", AlreadyPresent).(written := [ROOT] + ["a.bin"]);
    plan := PlainPlan([e], [["VFS", "a.bin"]], []);
    codec, d0 := PlainCodec(), Disk(map[DESTINATION + ["a.bin"] := [7]], map[], map[]);
    PlainEntryIsValid(plan, "a.bin", AlreadyPresent);
    assert plan.LogicalOutput(e) == ["/", "a.bin"];
    assert plan.PhysicalDelete(["VFS", "a.bin"]) == ["/", "game", "VFS", "a.bin"] == DESTINATION + ["a.bin"];
    assert |plan.installRoot + ["VFS", "a.bin"]| == 4;
    SingleIsInOrder(codec, plan, d0);
    UnsafeDeleteGoesWrong(codec, plan, d0, 0, 0);
  }

  /** A sound plan whose two entries share a payload: some run fails, and some crash cannot be resumed from. */
  lemma SoundPlanMaySharePayload() returns (codec: Codec, plan: Plan, d0: Disk)
    ensures Sound(codec, plan, d0) && !DistinctPayloads(plan, GoalsOf(codec, plan, d0))
    ensures plan.deletePaths == [] && plan.deferredPaths == []
    ensures !AlwaysGood(codec, plan, d0) && !AlwaysRecoverable(codec, plan, d0) && !AlwaysCompletable(codec, plan, d0)
  {
    codec, plan, d0 := SharingPlan();
    hide DistinctPayloads, AlwaysGood, AlwaysRecoverable, AlwaysCompletable;
    if AlwaysGood(codec, plan, d0) {
      PayloadsAreDistinct(codec, plan, d0);
    }
    RecoverableIffDistinctPayloads(codec, plan, d0);
    CompletableIff(codec, plan, d0);
  }

  lemma SharingPlan() returns (codec: Codec, plan: Plan, d0: Disk)
    ensures Sound(codec, plan, d0) && !DistinctPayloads(plan, GoalsOf(codec, plan, d0))
    ensures plan.deletePaths == [] && plan.deferredPaths == []
  {
    Names();
    hide SafeComponent, SafeName;
    var payload: Path := ["vfs_files", "p.diff"];
    var a, b := PlainEntry("a.bin", Local(payload)), PlainEntry("b.bin", Local(payload));
    plan := PlainPlan([a, b], [], []);
    codec, d0 := PlainCodec(), Disk(map[], map[payload := [7]], map[]);
    PlainPlanRoots(plan);
    PlainEntryIsValid(plan, "a.bin", a.source);
    PlainEntryIsValid(plan, "b.bin", b.source);
    NoDiffIsAcyclic(plan);
    SeparateRootsHaveUniqueWriters(plan);
    var g := GoalsOf(codec, plan, d0);
    assert g.needed[0] && g.needed[1];
  }

  lemma NoDiffIsAcyclic(plan: Plan)
    requires forall i :: 0 <= i < |plan.entries| ==> !plan.entries[i].source.Hdiff?
    ensures Acyclic(Dependencies(plan))
  {
    forall c ensures !Cycle(Dependencies(plan), c) {
      if Cycle(Dependencies(plan), c) {
        CycleIsHdiffOverwrites(plan, c, 0);
      }
    }
  }

  /** A sound plan that defers a file: some crash is reported as missing data. */
  lemma SoundPlanMayDefer() returns (codec: Codec, plan: Plan, d0: Disk)
    ensures Sound(codec, plan, d0) && DistinctPayloads(plan, GoalsOf(codec, plan, d0))
    ensures plan.deferredPaths == [CONFIG_INI] && !AlwaysReady(codec, plan, d0)
  {
    codec, plan, d0 := DeferringPlan([CONFIG_INI]);
    hide Sound, DistinctPayloads, AlwaysReady;
    AlwaysReadyIff(codec, plan, d0);
  }

  /** A sound plan that defers one file twice: no run of it, crashes or not, can be completed. */
  lemma SoundPlanMayRepeatDeferred() returns (codec: Codec, plan: Plan, d0: Disk)
    ensures Sound(codec, plan, d0) && DistinctPayloads(plan, GoalsOf(codec, plan, d0))
    ensures plan.deferredPaths == [CONFIG_INI, CONFIG_INI] && !CanComplete(codec, plan, Begin(plan, d0))
  {
    codec, plan, d0 := DeferringPlan([CONFIG_INI, CONFIG_INI]);
    hide Sound, DistinctPayloads, CanComplete;
    assert plan.deferredPaths[0] == plan.deferredPaths[1];
    NeverCompletes(codec, plan, d0);
  }

  lemma DeferringPlan(deferred: seq<Path>) returns (codec: Codec, plan: Plan, d0: Disk)
    requires forall r :: r in deferred ==> r == CONFIG_INI
    ensures Sound(codec, plan, d0) && DistinctPayloads(plan, GoalsOf(codec, plan, d0)) && plan.deferredPaths == deferred
  {
    Names();
    PublicNames();
    ConfigIsOrdinary();
    hide SafeComponent, SafeName, IsPrivate, IsControlPath;
    forall k | 0 <= k < |deferred| ensures deferred[k] == CONFIG_INI {
      assert deferred[k] in deferred;
    }
    plan := PlainPlan([PlainEntry("a.bin", AlreadyPresent)], [], deferred);
    codec, d0 := PlainCodec(), Disk(map[DESTINATION + ["a.bin"] := [7]], map[CONFIG_INI := [1]], map[]);
    PlainPlanRoots(plan);
    PlainEntryIsValid(plan, "a.bin", AlreadyPresent);
    SingleIsAcyclic(plan);
  }

  lemma ConfigIsOrdinary()
    ensures SafeComponent("config.ini") && !IsControlPath(CONFIG_INI)
  {
    assert SafeName("config.ini");
    assert "config.ini"[0] == 'c' && PATCH_MANIFEST_NAME[0] == 'p' && DELETE_FILES_MANIFEST_NAME[0] == 'd';
    assert PATCH_STAGE_DIR[0] == 'v';
  }
}
