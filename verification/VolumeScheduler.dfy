/** The batch scheduler: targets that share a volume run one after another, in input order. */
module VolumeScheduler {
  import opened Collections

  /** Every item's volume keys, possibly repeated. */
  type Items = seq<seq<string>>

  // ----- predecessors

  /** `j` is the last item before `i` that uses `v`. */
  ghost predicate LastUser(items: Items, i: nat, v: string, j: nat) {
    && j < i < |items| && v in items[i] && v in items[j]
    && forall k :: j < k < i ==> v !in items[k]
  }

  ghost predicate IsPredecessor(items: Items, i: nat, j: nat) {
    exists v :: LastUser(items, i, v, j)
  }

  ghost function Predecessors(items: Items, i: nat): set<nat> {
    set j: nat | j < i && IsPredecessor(items, i, j)
  }

  /** `lastUser` maps every volume of the first `n` items to the last of them that uses it. */
  ghost predicate TracksLastUsers(items: Items, lastUser: map<string, nat>, n: nat)
    requires n <= |items|
  {
    && (forall v :: v in lastUser ==> lastUser[v] < n && v in items[lastUser[v]])
    && (forall v, k :: 0 <= k < n && v in items[k] ==> v in lastUser && k <= lastUser[v])
  }

  lemma TrackedIsLastUser(items: Items, lastUser: map<string, nat>, i: nat, v: string)
    requires i < |items| && TracksLastUsers(items, lastUser, i) && v in items[i]
    ensures v in lastUser ==> LastUser(items, i, v, lastUser[v])
    ensures forall j: nat :: LastUser(items, i, v, j) ==> v in lastUser && j == lastUser[v]
  {
    forall j: nat | LastUser(items, i, v, j) ensures v in lastUser && j == lastUser[v] {
      assert j <= lastUser[v] < i;
    }
  }

  /** Only the last user of each volume is recorded. */
  method VolumePredecessors(items: Items) returns (predecessors: seq<seq<nat>>)
    ensures |predecessors| == |items|
    ensures forall i :: 0 <= i < |items| ==> predecessors[i] == Ascending(|items|, Predecessors(items, i))
  {
    predecessors := [];
    var lastUser: map<string, nat> := map[];
    for index := 0 to |items|
      invariant |predecessors| == index && TracksLastUsers(items, lastUser, index)
      invariant forall i :: 0 <= i < index ==> predecessors[i] == Ascending(|items|, Predecessors(items, i))
    {
      var dependencies: set<nat>;
      dependencies, lastUser := VisitItem(items, index, lastUser);
      predecessors := predecessors + [Ascending(|items|, dependencies)];
    }
  }

  method VisitItem(items: Items, index: nat, lastUser: map<string, nat>)
    returns (dependencies: set<nat>, lastUser': map<string, nat>)
    requires index < |items| && TracksLastUsers(items, lastUser, index)
    ensures dependencies == Predecessors(items, index)
    ensures TracksLastUsers(items, lastUser', index + 1)
  {
    dependencies, lastUser' := {}, lastUser;
    var itemVolumes: set<string> := {};
    for p := 0 to |items[index]|
      invariant forall v :: v in itemVolumes <==> v in items[index][..p]
      invariant forall v :: v in lastUser' <==> v in lastUser || v in itemVolumes
      invariant forall v :: v in lastUser' ==>
        lastUser'[v] == if v in itemVolumes then index else lastUser[v]
      invariant forall j :: j in dependencies <==> exists v :: v in itemVolumes && v in lastUser && lastUser[v] == j
    {
      var volume := items[index][p];
      assert items[index][..p + 1] == items[index][..p] + [volume];
      if volume in itemVolumes {
        continue;
      }
      itemVolumes := itemVolumes + {volume};
      if volume in lastUser' {
        dependencies := dependencies + {lastUser'[volume]};
      }
      lastUser' := lastUser'[volume := index];
    }
    assert items[index][..|items[index]|] == items[index];
    forall j: nat ensures j in dependencies <==> j in Predecessors(items, index) {
      if j in dependencies {
        var v :| v in itemVolumes && v in lastUser && lastUser[v] == j;
        TrackedIsLastUser(items, lastUser, index, v);
      }
      if j in Predecessors(items, index) {
        var v :| LastUser(items, index, v, j);
        TrackedIsLastUser(items, lastUser, index, v);
      }
    }
  }

  // ----- the machine

  /** `results` lists finished items in the order in which they finished. */
  datatype Sched = Sched(remaining: seq<nat>, ready: seq<nat>, running: set<nat>, results: seq<nat>)

  datatype Event = Started | Done(i: nat)

  ghost function Init(items: Items): Sched {
    Sched(seq(|items|, i requires 0 <= i < |items| => |Predecessors(items, i)|),
          Ascending(|items|, set i: nat | i < |items| && Predecessors(items, i) == {}), {}, [])
  }

  ghost predicate Enabled(maxParallel: nat, s: Sched, e: Event) {
    match e
    case Started => |s.running| < maxParallel && s.ready != []
    case Done(i) => i in s.running
  }

  /** Successors of `i` whose last dependency was `i`. */
  ghost function Released(items: Items, s: Sched, i: nat): set<nat> {
    set j: nat | j < |items| && j < |s.remaining| && i in Predecessors(items, j) && s.remaining[j] == 1
  }

  ghost function Next(items: Items, s: Sched, e: Event): Sched
    requires e.Started? ==> s.ready != []
  {
    match e
    case Started => s.(ready := s.ready[1..], running := s.running + {s.ready[0]})
    case Done(i) =>
      Sched(seq(|s.remaining|, j requires 0 <= j < |s.remaining| =>
              if i in Predecessors(items, j) then SaturatingSub(s.remaining[j], 1) else s.remaining[j]),
            s.ready + Ascending(|items|, Released(items, s, i)), s.running - {i}, s.results + [i])
  }

  ghost predicate Runs(items: Items, maxParallel: nat, s: Sched, events: seq<Event>, s': Sched)
    decreases |events|
  {
    if events == [] then
      s' == s
    else
      && Enabled(maxParallel, s, events[0])
      && Runs(items, maxParallel, Next(items, s, events[0]), events[1..], s')
  }

  ghost predicate Reachable(items: Items, maxParallel: nat, s: Sched) {
    exists events :: Runs(items, maxParallel, Init(items), events, s)
  }

  // ----- the invariant

  ghost function Finished(s: Sched): set<nat> {
    set i | i in s.results
  }

  ghost predicate CountOk(items: Items, s: Sched, j: nat) {
    j < |s.remaining| && s.remaining[j] == |Predecessors(items, j) - Finished(s)|
  }

  ghost predicate Admitted(s: Sched, j: nat) {
    j in s.ready || j in s.running || j in s.results
  }

  ghost predicate PlaceOk(items: Items, s: Sched, j: nat) {
    && j < |s.remaining|
    && (Admitted(s, j) <==> s.remaining[j] == 0)
    && !(j in s.ready && j in s.running) && !(j in s.ready && j in s.results) && !(j in s.running && j in s.results)
  }

  ghost predicate Inv(items: Items, maxParallel: nat, s: Sched) {
    && |s.remaining| == |items| && |s.running| <= maxParallel
    && Distinct(s.ready) && Distinct(s.results)
    && (forall j: nat :: Admitted(s, j) ==> j < |items|)
    && (forall j: nat {:trigger CountOk(items, s, j)} :: j < |items| ==> CountOk(items, s, j))
    && (forall j: nat {:trigger PlaceOk(items, s, j)} :: j < |items| ==> PlaceOk(items, s, j))
  }

  lemma InitHolds(items: Items, maxParallel: nat)
    ensures Inv(items, maxParallel, Init(items))
  {
    var s := Init(items);
    var free := set i: nat | i < |items| && Predecessors(items, i) == {};
    forall j: nat, k: nat | j < k < |s.ready| ensures s.ready[j] != s.ready[k] {
      AscendingOrder(|items|, free, j, k);
    }
    forall j: nat | j < |items| ensures CountOk(items, s, j) && PlaceOk(items, s, j) {
      assert Finished(s) == {};
      assert Predecessors(items, j) - {} == Predecessors(items, j);
    }
  }

  lemma StartHolds(items: Items, maxParallel: nat, s: Sched)
    requires Inv(items, maxParallel, s) && Enabled(maxParallel, s, Started)
    ensures Inv(items, maxParallel, Next(items, s, Started))
    ensures s.ready[0] !in s.running && s.ready[0] !in s.results
  {
    var s', index := Next(items, s, Started), s.ready[0];
    assert index !in s'.ready by {
      assert forall k :: 0 <= k < |s'.ready| ==> s'.ready[k] == s.ready[k + 1];
    }
    assert Admitted(s, index);
    assert PlaceOk(items, s, index);
    assert s.ready == [index] + s'.ready;
    assert Finished(s') == Finished(s);
    forall j: nat | j < |items| ensures CountOk(items, s', j) && PlaceOk(items, s', j) {
      assert CountOk(items, s, j) && PlaceOk(items, s, j);
      assert j in s.ready <==> j == index || j in s'.ready;
    }
    forall j: nat | Admitted(s', j) ensures j < |items| {
      assert Admitted(s, j);
    }
  }

  /** No dependency counter underflows: whoever waits for a running item still counts it. */
  lemma WaitingCountsRunning(items: Items, maxParallel: nat, s: Sched, i: nat, j: nat)
    requires Inv(items, maxParallel, s) && i in s.running && j < |items| && i in Predecessors(items, j)
    ensures s.remaining[j] > 0 && !Admitted(s, j)
    ensures |Predecessors(items, j) - (Finished(s) + {i})| + 1 == s.remaining[j]
  {
    assert Admitted(s, i);
    assert PlaceOk(items, s, i) && CountOk(items, s, j) && PlaceOk(items, s, j);
    assert Predecessors(items, j) - Finished(s) == (Predecessors(items, j) - (Finished(s) + {i})) + {i};
  }

  lemma DoneCounts(items: Items, maxParallel: nat, s: Sched, i: nat, j: nat)
    requires Inv(items, maxParallel, s) && Enabled(maxParallel, s, Done(i)) && j < |items|
    ensures var s' := Next(items, s, Done(i)); CountOk(items, s', j) && PlaceOk(items, s', j)
  {
    hide Predecessors, Ascending;
    var s' := Next(items, s, Done(i));
    assert Admitted(s, i);
    assert PlaceOk(items, s, i);
    assert CountOk(items, s, j) && PlaceOk(items, s, j);
    assert Finished(s') == Finished(s) + {i};
    var added := Ascending(|items|, Released(items, s, i));
    assert s'.ready == s.ready + added;
    assert j in s'.ready <==> j in s.ready || j in added;
    if i in Predecessors(items, j) {
      WaitingCountsRunning(items, maxParallel, s, i, j);
    } else {
      assert Predecessors(items, j) - Finished(s') == Predecessors(items, j) - Finished(s);
    }
  }

  lemma DoneReady(items: Items, maxParallel: nat, s: Sched, i: nat)
    requires Inv(items, maxParallel, s) && Enabled(maxParallel, s, Done(i))
    ensures Distinct(Next(items, s, Done(i)).ready)
  {
    var s', released := Next(items, s, Done(i)), Released(items, s, i);
    var added := Ascending(|items|, released);
    forall j: nat, k: nat | j < k < |s'.ready| ensures s'.ready[j] != s'.ready[k] {
      if |s.ready| <= j {
        AscendingOrder(|items|, released, j - |s.ready|, k - |s.ready|);
      } else if |s.ready| <= k {
        assert s'.ready[k] == added[k - |s.ready|] && s'.ready[k] in added;
        WaitingCountsRunning(items, maxParallel, s, i, s'.ready[k]);
      }
    }
  }

  lemma DoneHolds(items: Items, maxParallel: nat, s: Sched, i: nat)
    requires Inv(items, maxParallel, s) && Enabled(maxParallel, s, Done(i))
    ensures Inv(items, maxParallel, Next(items, s, Done(i)))
  {
    var s' := Next(items, s, Done(i));
    assert Admitted(s, i);
    assert PlaceOk(items, s, i);
    DoneReady(items, maxParallel, s, i);
    forall j: nat | j < |items| ensures CountOk(items, s', j) && PlaceOk(items, s', j) {
      DoneCounts(items, maxParallel, s, i, j);
    }
    var added := Ascending(|items|, Released(items, s, i));
    forall j: nat | Admitted(s', j) ensures j < |items| {
      assert j in added || Admitted(s, j);
    }
  }

  lemma {:induction false} RunHolds(items: Items, maxParallel: nat, s: Sched, events: seq<Event>, s': Sched)
    requires Inv(items, maxParallel, s) && Runs(items, maxParallel, s, events, s')
    ensures Inv(items, maxParallel, s')
    decreases |events|
  {
    if events != [] {
      match events[0] {
        case Started => StartHolds(items, maxParallel, s);
        case Done(i) => DoneHolds(items, maxParallel, s, i);
      }
      RunHolds(items, maxParallel, Next(items, s, events[0]), events[1..], s');
    }
  }

  lemma ReachableHolds(items: Items, maxParallel: nat, s: Sched)
    requires Reachable(items, maxParallel, s)
    ensures Inv(items, maxParallel, s)
  {
    var events :| Runs(items, maxParallel, Init(items), events, s);
    InitHolds(items, maxParallel);
    RunHolds(items, maxParallel, Init(items), events, s);
  }

  // ----- mutual exclusion and input order

  lemma LastUserExists(items: Items, i: nat, j: nat, v: string) returns (k: nat)
    requires i < j < |items| && v in items[i] && v in items[j]
    ensures i <= k && LastUser(items, j, v, k)
  {
    k := j - 1;
    while v !in items[k]
      invariant i <= k < j
      invariant forall m :: k < m < j ==> v !in items[m]
      decreases k
    {
      k := k - 1;
    }
  }

  /**
   * An item starts only after every earlier item that shares a volume with it has finished, although only
   * the last earlier user of each volume is recorded.
   */
  lemma {:induction false} EarlierSharersFinished(items: Items, maxParallel: nat, s: Sched, i: nat, j: nat, v: string)
    requires Inv(items, maxParallel, s) && (j in s.running || j in s.results)
    requires i < j && i < |items| && j < |items| && v in items[i] && v in items[j]
    ensures i in s.results
    decreases j
  {
    var k := LastUserExists(items, i, j, v);
    assert k in Predecessors(items, j);
    assert Admitted(s, j);
    assert PlaceOk(items, s, j) && CountOk(items, s, j);
    assert Predecessors(items, j) - Finished(s) == {};
    assert k !in Predecessors(items, j) - Finished(s);
    if i < k {
      EarlierSharersFinished(items, maxParallel, s, i, k, v);
    }
  }

  ghost predicate DisjointVolumes(items: Items, i: nat, j: nat)
    requires i < |items| && j < |items|
  {
    forall v :: !(v in items[i] && v in items[j])
  }

  /** In every reachable state no two running items share a volume, and at most `maxParallel` run. */
  lemma RunningVolumesAreDisjoint(items: Items, maxParallel: nat, s: Sched)
    requires Reachable(items, maxParallel, s)
    ensures |s.running| <= maxParallel
    ensures forall i, j :: i in s.running && j in s.running && i != j ==>
      i < |items| && j < |items| && DisjointVolumes(items, i, j)
  {
    ReachableHolds(items, maxParallel, s);
    forall i, j | i in s.running && j in s.running && i != j
      ensures i < |items| && j < |items| && DisjointVolumes(items, i, j)
    {
      assert Admitted(s, i) && Admitted(s, j);
      forall v ensures !(v in items[i] && v in items[j]) {
        if v in items[i] && v in items[j] {
          var lo, hi := if i < j then i else j, if i < j then j else i;
          assert PlaceOk(items, s, lo);
          EarlierSharersFinished(items, maxParallel, s, lo, hi, v);
          assert false;
        }
      }
    }
  }

  // ----- no deadlock, exactly once

  lemma FinishedFit(items: Items, maxParallel: nat, s: Sched)
    requires Inv(items, maxParallel, s)
    ensures |Finished(s)| == |s.results| <= |items|
    ensures |s.results| == |items| <==> forall i: nat :: i < |items| ==> i in s.results
  {
    DistinctFits(s.results, Finished(s));
    CardinalityOfDistinct(s.results);
    forall i | i in Finished(s) ensures i < |items| {
      assert Admitted(s, i);
    }
    IndexSetSize(Finished(s), |items|);
    assert forall i: nat :: i in Finished(s) <==> i in s.results;
  }

  /** While results are missing, something is running or ready. */
  lemma NeverStuck(items: Items, maxParallel: nat, s: Sched)
    requires Inv(items, maxParallel, s) && |s.results| < |items|
    ensures s.ready != [] || s.running != {}
  {
    if s.ready == [] && s.running == {} {
      var j := 0;
      while j < |items|
        invariant j <= |items|
        invariant forall i: nat :: i < j ==> i in s.results
      {
        assert CountOk(items, s, j) && PlaceOk(items, s, j);
        assert Predecessors(items, j) - Finished(s) == {};
        assert Admitted(s, j);
        j := j + 1;
      }
      FinishedFit(items, maxParallel, s);
    }
  }

  /** Results are distinct items; when there are as many as items, every item ran, exactly once. */
  lemma ResultsFit(items: Items, maxParallel: nat, s: Sched)
    requires Inv(items, maxParallel, s)
    ensures |s.results| + |s.running| <= |items|
    ensures |s.results| == |items| ==> forall i: nat :: i < |items| ==> i in s.results
  {
    FinishedFit(items, maxParallel, s);
    forall i | i in Finished(s) + s.running ensures i < |items| {
      assert Admitted(s, i);
    }
    forall i | i in Finished(s) ensures i !in s.running {
      assert Admitted(s, i);
      assert PlaceOk(items, s, i);
    }
    IndexSetSize(Finished(s) + s.running, |items|);
  }

  // ----- the parallelism bound

  ghost function AllVolumes(items: Items): set<string> {
    set i, v | 0 <= i < |items| && v in items[i] :: v
  }

  ghost function Bare(items: Items): set<nat> {
    set i: nat | i < |items| && items[i] == []
  }

  function Min(a: nat, b: nat): nat {
    if a < b then a else b
  }

  ghost function Bound(items: Items, maxParallel: nat): nat {
    var m := Min(Min(maxParallel, |items|), |AllVolumes(items)| + |Bare(items)|);
    if m < 1 then 1 else m
  }

  method VolumeParallelismBound(items: Items, maxParallel: nat) returns (bound: nat)
    ensures bound == Bound(items, maxParallel)
    ensures bound == 1 ||
      (1 < bound && bound <= maxParallel && bound <= |items| && bound <= |AllVolumes(items)| + |Bare(items)|)
    ensures bound >= maxParallel || bound >= |items| || bound >= |AllVolumes(items)| + |Bare(items)|
  {
    var volumes: set<string> := {};
    var withoutVolume := 0;
    ghost var bare: set<nat> := {};
    for i := 0 to |items|
      invariant forall v :: v in volumes <==> exists j :: 0 <= j < i && v in items[j]
      invariant forall j: nat :: j in bare <==> j < i && items[j] == []
      invariant withoutVolume == |bare|
    {
      var keys := items[i];
      if keys == [] {
        withoutVolume, bare := withoutVolume + 1, bare + {i};
      } else {
        volumes := volumes + set v | v in keys;
      }
    }
    assert volumes == AllVolumes(items) && bare == Bare(items);
    var m := Min(Min(maxParallel, |items|), |volumes| + withoutVolume);
    bound := if m < 1 then 1 else m;
  }

  /** Pigeonhole: items with pairwise disjoint, non-empty volume sets are no more than there are volumes. */
  lemma {:induction false} DisjointItemsFit(items: Items, chosen: set<nat>, volumes: set<string>, bare: set<nat>)
    requires forall i :: i in chosen ==> i < |items|
    requires forall i, v :: i in chosen && v in items[i] ==> v in volumes
    requires forall i :: i in chosen && items[i] == [] ==> i in bare
    requires forall i, j :: i in chosen && j in chosen && i != j ==> DisjointVolumes(items, i, j)
    ensures |chosen| <= |volumes| + |bare|
    decreases chosen
  {
    if chosen != {} {
      var i :| i in chosen;
      if items[i] == [] {
        DisjointItemsFit(items, chosen - {i}, volumes, bare - {i});
      } else {
        var v := items[i][0];
        forall j, w | j in chosen - {i} && w in items[j] ensures w in volumes - {v} {
          assert DisjointVolumes(items, i, j);
        }
        DisjointItemsFit(items, chosen - {i}, volumes - {v}, bare);
      }
    }
  }

  /** Capping at the bound takes nothing away: no reachable state runs more items than the bound. */
  lemma RunningWithinBound(items: Items, maxParallel: nat, s: Sched)
    requires Reachable(items, maxParallel, s)
    ensures |s.running| <= Bound(items, maxParallel)
  {
    ReachableHolds(items, maxParallel, s);
    RunningVolumesAreDisjoint(items, maxParallel, s);
    ResultsFit(items, maxParallel, s);
    forall i | i in s.running ensures i < |items| {
      assert Admitted(s, i);
    }
    DisjointItemsFit(items, s.running, AllVolumes(items), Bare(items));
  }

  lemma {:induction false} SameRunUnderCap(items: Items, maxParallel: nat, s: Sched, events: seq<Event>, s': Sched)
    requires Reachable(items, maxParallel, s) && Runs(items, maxParallel, s, events, s')
    ensures Runs(items, Bound(items, maxParallel), s, events, s')
    decreases |events|
  {
    if events != [] {
      var next := Next(items, s, events[0]);
      ReachableStep(items, maxParallel, s, events[0]);
      RunningWithinBound(items, maxParallel, next);
      if events[0].Started? {
        ReachableHolds(items, maxParallel, s);
        StartHolds(items, maxParallel, s);
        assert |next.running| == |s.running| + 1;
      }
      SameRunUnderCap(items, maxParallel, next, events[1..], s');
    }
  }

  lemma ReachableStep(items: Items, maxParallel: nat, s: Sched, e: Event)
    requires Reachable(items, maxParallel, s) && Enabled(maxParallel, s, e)
    ensures Reachable(items, maxParallel, Next(items, s, e))
  {
    var events :| Runs(items, maxParallel, Init(items), events, s);
    RunsAppend(items, maxParallel, Init(items), events, s, e);
  }

  lemma {:induction false} RunsAppend(items: Items, maxParallel: nat, s: Sched, events: seq<Event>, mid: Sched, e: Event)
    requires Runs(items, maxParallel, s, events, mid) && Enabled(maxParallel, mid, e)
    ensures Runs(items, maxParallel, s, events + [e], Next(items, mid, e))
    decreases |events|
  {
    var longer := events + [e];
    if events == [] {
      assert longer[1..] == [];
    } else {
      RunsAppend(items, maxParallel, Next(items, s, events[0]), events[1..], mid, e);
      assert longer[1..] == events[1..] + [e];
    }
  }

  lemma {:induction false} LooserLimit(items: Items, low: nat, high: nat, s: Sched, events: seq<Event>, s': Sched)
    requires low <= high && Runs(items, low, s, events, s')
    ensures Runs(items, high, s, events, s')
    decreases |events|
  {
    if events != [] {
      LooserLimit(items, low, high, Next(items, s, events[0]), events[1..], s');
    }
  }

  /** The capped scheduler reaches exactly the states of the uncapped one. */
  lemma CapKeepsReachableStates(items: Items, maxParallel: nat, s: Sched)
    requires maxParallel > 0
    ensures Reachable(items, maxParallel, s) <==> Reachable(items, Bound(items, maxParallel), s)
  {
    if Reachable(items, maxParallel, s) {
      var events :| Runs(items, maxParallel, Init(items), events, s);
      assert Runs(items, maxParallel, Init(items), [], Init(items));
      SameRunUnderCap(items, maxParallel, Init(items), events, s);
    }
    if Reachable(items, Bound(items, maxParallel), s) {
      var events :| Runs(items, Bound(items, maxParallel), Init(items), events, s);
      LooserLimit(items, Bound(items, maxParallel), maxParallel, Init(items), events, s);
    }
  }

  // ----- the loop

  ghost function Successors(items: Items, d: nat): set<nat> {
    set j: nat | j < |items| && d in Predecessors(items, j)
  }

  method BuildSuccessors(items: Items, predecessors: seq<seq<nat>>) returns (successors: seq<seq<nat>>)
    requires |predecessors| == |items|
    requires forall i :: 0 <= i < |items| ==> predecessors[i] == Ascending(|items|, Predecessors(items, i))
    ensures |successors| == |items|
    ensures forall d :: 0 <= d < |items| ==> successors[d] == Ascending(|items|, Successors(items, d))
  {
    successors := seq(|items|, _ => []);
    for index: nat := 0 to |items|
      invariant |successors| == |items|
      invariant forall d :: 0 <= d < |items| ==> successors[d] == Ascending(index, Successors(items, d))
    {
      var own := predecessors[index];
      for p := 0 to |own|
        invariant |successors| == |items|
        invariant forall d :: 0 <= d < |items| ==>
          successors[d] == Ascending(index, Successors(items, d)) + if d in own[..p] then [index] else []
      {
        assert own[p] in own;
        forall k: nat | k < p ensures own[k] != own[p] {
          AscendingOrder(|items|, Predecessors(items, index), k, p);
        }
        assert own[..p + 1] == own[..p] + [own[p]];
        successors := successors[own[p] := successors[own[p]] + [index]];
      }
      assert own[..|own|] == own;
      forall d | 0 <= d < |items| ensures successors[d] == Ascending(index + 1, Successors(items, d)) {
        assert d in own <==> index in Successors(items, d);
      }
    }
  }

  lemma {:induction false} AscendingGap(lo: nat, hi: nat, s: set<nat>)
    requires lo <= hi && forall i: nat :: lo <= i < hi ==> i !in s
    ensures Ascending(hi, s) == Ascending(lo, s)
    decreases hi
  {
    if lo < hi {
      AscendingGap(lo, hi - 1, s);
    }
  }

  lemma GapBefore(n: nat, s: set<nat>, p: nat, seen: nat)
    requires p < |Ascending(n, s)| && forall k :: 0 <= k < p ==> Ascending(n, s)[k] < seen
    ensures Ascending(n, s)[p] in s && Ascending(n, s)[p] < n
    ensures forall j: nat :: seen <= j < Ascending(n, s)[p] ==> j !in s
  {
    hide Ascending;
    var all := Ascending(n, s);
    assert all[p] in all;
    forall k: nat | p < k < |all| ensures all[p] < all[k] {
      AscendingOrder(n, s, p, k);
    }
    forall j: nat | seen <= j < all[p] ensures j !in all {
    }
  }

  /** The counters and the queue after the successors below `seen` have been released. */
  ghost predicate PartlyReleased(items: Items, finished: nat, s: Sched, seen: nat, remaining: seq<nat>, ready: seq<nat>) {
    && |remaining| == |s.remaining| == |items| && seen <= |items|
    && (forall j: nat :: j < |items| ==>
          remaining[j] == if j in Successors(items, finished) && j < seen then SaturatingSub(s.remaining[j], 1)
                          else s.remaining[j])
    && ready == s.ready + Ascending(seen, Released(items, s, finished))
  }

  lemma ReleaseOne(items: Items, finished: nat, s: Sched, seen: nat, remaining: seq<nat>, ready: seq<nat>, j: nat)
    requires PartlyReleased(items, finished, s, seen, remaining, ready)
    requires seen <= j < |items| && j in Successors(items, finished) && s.remaining[j] > 0
    requires forall k: nat :: seen <= k < j ==> k !in Successors(items, finished)
    ensures var less := SaturatingSub(remaining[j], 1);
            PartlyReleased(items, finished, s, j + 1, remaining[j := less], if less == 0 then ready + [j] else ready)
  {
    hide Predecessors;
    var released := Released(items, s, finished);
    assert forall k :: k in released ==> k in Successors(items, finished);
    AscendingGap(seen, j, released);
  }

  lemma ReleasedAll(items: Items, finished: nat, s: Sched, seen: nat, remaining: seq<nat>, ready: seq<nat>)
    requires PartlyReleased(items, finished, s, seen, remaining, ready)
    requires forall k: nat :: seen <= k < |items| ==> k !in Successors(items, finished)
    ensures remaining == Next(items, s, Done(finished)).remaining && ready == Next(items, s, Done(finished)).ready
  {
    hide Predecessors;
    assert forall k :: k in Released(items, s, finished) ==> k in Successors(items, finished);
    AscendingGap(seen, |items|, Released(items, s, finished));
  }

  lemma ReleasedNone(items: Items, finished: nat, s: Sched)
    requires |s.remaining| == |items|
    ensures PartlyReleased(items, finished, s, 0, s.remaining, s.ready)
  {
    hide Successors, Released;
  }

  /** Takes one dependency off every successor; those left with none join the queue. */
  method ReleaseSuccessors(items: Items, successors: seq<nat>, finished: nat, ghost s: Sched,
                           remaining: seq<nat>, ready: seq<nat>)
    returns (remaining': seq<nat>, ready': seq<nat>)
    requires successors == Ascending(|items|, Successors(items, finished))
    requires |remaining| == |items| && s.remaining == remaining && s.ready == ready
    requires forall j :: j in Successors(items, finished) ==> remaining[j] > 0
    ensures remaining' == Next(items, s, Done(finished)).remaining && ready' == Next(items, s, Done(finished)).ready
  {
    hide Successors, Released, Ascending, Next;
    remaining', ready' := remaining, ready;
    ghost var all := Successors(items, finished);
    ghost var seen := 0;
    ReleasedNone(items, finished, s);
    for p := 0 to |successors|
      invariant PartlyReleased(items, finished, s, seen, remaining', ready')
      invariant forall k :: 0 <= k < p ==> successors[k] < seen
      invariant forall k :: p <= k < |successors| ==> seen <= successors[k]
    {
      var successor := successors[p];
      GapBefore(|items|, all, p, seen);
      ReleaseOne(items, finished, s, seen, remaining', ready', successor);
      remaining' := remaining'[successor := SaturatingSub(remaining'[successor], 1)];
      if remaining'[successor] == 0 {
        ready' := ready' + [successor];
      }
      forall k: nat | p < k < |successors| ensures successor < successors[k] {
        AscendingOrder(|items|, all, p, k);
      }
      seen := successor + 1;
    }
    forall k: nat | seen <= k < |items| ensures k !in all {
      assert k in all ==> k in successors;
    }
    ReleasedAll(items, finished, s, seen, remaining', ready');
  }

  /**
   * Runs all items; `finished` may be any running item. The loop is a run of the machine above (`events`
   * records it) that ends with every item finished exactly once, whatever the order of completion.
   */
  method RunVolumeDependencyGraph(items: Items, maxParallel: nat) returns (results: seq<nat>, ghost events: seq<Event>)
    requires maxParallel > 0
    ensures |results| == |items| && Distinct(results) && forall i: nat :: i < |items| ==> i in results
    ensures exists s :: Runs(items, maxParallel, Init(items), events, s) && s.results == results
  {
    if items == [] {
      events := [];
      assert Runs(items, maxParallel, Init(items), [], Init(items));
      return [], [];
    }
    var predecessors := VolumePredecessors(items);
    var successors := BuildSuccessors(items, predecessors);
    var remaining: seq<nat> := seq(|items|, i requires 0 <= i < |items| => |predecessors[i]|);
    var ready := ReadyAtStart(items, remaining, predecessors);
    var running: set<nat> := {};
    results, events := [], [];
    InitHolds(items, maxParallel);
    ghost var s := Init(items);
    while |results| < |items|
      invariant s == Sched(remaining, ready, running, results)
      invariant Inv(items, maxParallel, s) && Runs(items, maxParallel, Init(items), events, s)
      decreases |items| - |results|
    {
      NeverStuck(items, maxParallel, s);
      while |running| < maxParallel && ready != []
        invariant s == Sched(remaining, ready, running, results) && |results| < |items|
        invariant Inv(items, maxParallel, s) && Runs(items, maxParallel, Init(items), events, s)
        invariant ready != [] || running != {}
        decreases |ready|
      {
        StartHolds(items, maxParallel, s);
        RunsAppend(items, maxParallel, Init(items), events, s, Started);
        running, ready := running + {ready[0]}, ready[1..];
        events, s := events + [Started], Next(items, s, Started);
      }
      assert running != {};
      var finished :| finished in running;
      assert Admitted(s, finished);
      forall j | j in Successors(items, finished) ensures remaining[j] > 0 {
        WaitingCountsRunning(items, maxParallel, s, finished, j);
      }
      DoneHolds(items, maxParallel, s, finished);
      RunsAppend(items, maxParallel, Init(items), events, s, Done(finished));
      remaining, ready := ReleaseSuccessors(items, successors[finished], finished, s, remaining, ready);
      running, results := running - {finished}, results + [finished];
      events, s := events + [Done(finished)], Next(items, s, Done(finished));
    }
    ResultsFit(items, maxParallel, s);
  }

  method ReadyAtStart(items: Items, remaining: seq<nat>, predecessors: seq<seq<nat>>) returns (ready: seq<nat>)
    requires |remaining| == |predecessors| == |items|
    requires forall i :: 0 <= i < |items| ==>
      remaining[i] == |predecessors[i]| && predecessors[i] == Ascending(|items|, Predecessors(items, i))
    ensures ready == Init(items).ready && remaining == Init(items).remaining
  {
    ready := [];
    ghost var free := set i: nat | i < |items| && Predecessors(items, i) == {};
    for i := 0 to |items|
      invariant ready == Ascending(i, free)
      invariant forall j :: 0 <= j < i ==> remaining[j] == |Predecessors(items, j)|
    {
      AscendingLength(|items|, Predecessors(items, i));
      if remaining[i] == 0 {
        ready := ready + [i];
      }
    }
  }

  lemma {:induction false} AscendingLength(n: nat, s: set<nat>)
    requires forall i :: i in s ==> i < n
    ensures |Ascending(n, s)| == |s|
  {
    if n > 0 {
      AscendingIgnores(n - 1, s, n - 1);
      AscendingLength(n - 1, s - {n - 1});
      if n - 1 !in s {
        assert s - {n - 1} == s;
      }
    } else {
      assert s == {};
    }
  }

  lemma {:induction false} AscendingIgnores(n: nat, s: set<nat>, x: nat)
    requires n <= x
    ensures Ascending(n, s) == Ascending(n, s - {x})
  {
    if n > 0 {
      AscendingIgnores(n - 1, s, x);
    }
  }
}
