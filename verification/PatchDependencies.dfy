/** Which entries must run before which: a writer waits for every HDiff consumer of the path it replaces. */
module PatchDependencies {
  import opened Collections
  import opened DependencyGraph
  import opened PatchPlan
  import opened SafePath

  datatype DependencyError =
    | MultipleWriters(path: Path)
    | OverwriteCycle(blocked: seq<nat>)

  /** Entry `w` replaces the base that the HDiff entry `c` reads. */
  predicate Overwrites(plan: Plan, w: nat, c: nat) {
    && w < |plan.entries| && c < |plan.entries|
    && plan.entries[c].source.Hdiff? && plan.entries[c].source.base in plan.Aliases(w)
  }

  /** `c` must finish before `w` starts. */
  predicate MustPrecede(plan: Plan, c: nat, w: nat) {
    c != w && Overwrites(plan, w, c)
  }

  ghost function Dependencies(plan: Plan): (deps: Deps)
    ensures |deps| == |plan.entries| && WellFormed(deps)
    ensures forall w: nat, c: nat :: Waits(deps, w, c) <==> MustPrecede(plan, c, w)
  {
    seq(|plan.entries|, w requires 0 <= w < |plan.entries| =>
      set c: nat | c < |plan.entries| && MustPrecede(plan, c, w))
  }

  ghost predicate UniqueWriters(plan: Plan) {
    forall i: nat, j: nat, p :: i < j < |plan.entries| && p in plan.Aliases(i) ==> p !in plan.Aliases(j)
  }

  /** `writers` maps every path that one of the first `n` entries replaces to that entry. */
  ghost predicate WriterMap(plan: Plan, writers: map<Path, nat>, n: nat) {
    && n <= |plan.entries|
    && (forall p :: p in writers ==> writers[p] < n && p in plan.Aliases(writers[p]))
    && (forall i: nat, p :: i < n && p in plan.Aliases(i) ==> p in writers && writers[p] == i)
  }

  lemma WriterMapMeansUnique(plan: Plan, writers: map<Path, nat>)
    requires WriterMap(plan, writers, |plan.entries|)
    ensures UniqueWriters(plan)
  {
    forall i: nat, j: nat, p | i < j < |plan.entries| && p in plan.Aliases(i) ensures p !in plan.Aliases(j) {
      assert writers[p] == i;
    }
  }

  /** Registers one entry as the writer of its aliases, or reports an alias that already has a writer. */
  method ClaimAliases(plan: Plan, writers: map<Path, nat>, index: nat)
    returns (r: Result<map<Path, nat>, Path>)
    requires index < |plan.entries| && WriterMap(plan, writers, index)
    ensures r.Ok? ==> WriterMap(plan, r.value, index + 1)
    ensures r.Err? ==> exists i: nat :: i < index && r.error in plan.Aliases(i) && r.error in plan.Aliases(index)
  {
    var claimed := writers;
    var aliases := plan.Aliases(index);
    while aliases != {}
      invariant aliases <= plan.Aliases(index)
      invariant forall p :: p in claimed <==> p in writers || p in plan.Aliases(index) - aliases
      invariant forall p :: p in plan.Aliases(index) - aliases ==> p !in writers && claimed[p] == index
      invariant forall p :: p in writers ==> claimed[p] == writers[p]
      decreases aliases
    {
      var destination :| destination in aliases;
      if destination in claimed {
        assert destination in plan.Aliases(writers[destination]) && destination in plan.Aliases(index);
        return Err(destination);
      }
      claimed := claimed[destination := index];
      aliases := aliases - {destination};
    }
    return Ok(claimed);
  }

  method CollectWriters(plan: Plan) returns (r: Result<map<Path, nat>, DependencyError>)
    ensures r.Ok? <==> UniqueWriters(plan)
    ensures r.Ok? ==> WriterMap(plan, r.value, |plan.entries|)
    ensures r.Err? ==> r.error.MultipleWriters? && exists i: nat, j: nat ::
      i < j < |plan.entries| && r.error.path in plan.Aliases(i) && r.error.path in plan.Aliases(j)
  {
    var writers: map<Path, nat> := map[];
    for index := 0 to |plan.entries|
      invariant WriterMap(plan, writers, index)
    {
      var claimed := ClaimAliases(plan, writers, index);
      match claimed {
        case Err(destination) => return Err(MultipleWriters(destination));
        case Ok(extended) => writers := extended;
      }
    }
    WriterMapMeansUnique(plan, writers);
    return Ok(writers);
  }

  method BuildDependencies(plan: Plan) returns (r: Result<Deps, DependencyError>)
    ensures !UniqueWriters(plan) ==> r.Err? && r.error.MultipleWriters? && exists i: nat, j: nat ::
      i < j < |plan.entries| && r.error.path in plan.Aliases(i) && r.error.path in plan.Aliases(j)
    ensures UniqueWriters(plan) ==> r == if Acyclic(Dependencies(plan)) then Ok(Dependencies(plan))
      else Err(OverwriteCycle(Ascending(|plan.entries|, BlockedNodes(Dependencies(plan)))))
    ensures r.Err? && r.error.OverwriteCycle? ==> r.error.blocked != []
  {
    var collected := CollectWriters(plan);
    if collected.Err? {
      return Err(collected.error);
    }
    var writers := collected.value;
    var dependencies: Deps := seq(|plan.entries|, _ => {});
    for consumer: nat := 0 to |plan.entries|
      invariant |dependencies| == |plan.entries|
      invariant forall w: nat, c: nat :: Waits(dependencies, w, c) <==> c < consumer && MustPrecede(plan, c, w)
    {
      ghost var before := dependencies;
      var source := plan.entries[consumer].source;
      if source.Hdiff? && source.base in writers && writers[source.base] != consumer {
        var writer := writers[source.base];
        dependencies := dependencies[writer := dependencies[writer] + {consumer}];
        assert forall w: nat, c: nat ::
          Waits(dependencies, w, c) <==> Waits(before, w, c) || (w == writer && c == consumer);
      }
      forall w: nat ensures MustPrecede(plan, consumer, w) <==>
        source.Hdiff? && source.base in writers && w == writers[source.base] != consumer
      {
        if w < |plan.entries| && source.Hdiff? && source.base in plan.Aliases(w) {
          assert writers[source.base] == w;
        }
      }
    }
    EqualDeps(dependencies, Dependencies(plan));
    var checked := ValidateAcyclic(dependencies);
    match checked
    case Ok(_) => return Ok(dependencies);
    case Err(blocked) => return Err(OverwriteCycle(blocked));
  }

  lemma EqualDeps(a: Deps, b: Deps)
    requires |a| == |b| && forall w: nat, c: nat :: Waits(a, w, c) <==> Waits(b, w, c)
    ensures a == b
  {
    forall w: nat | w < |a| ensures a[w] == b[w] {
      forall c: nat ensures c in a[w] <==> c in b[w] {
        assert Waits(a, w, c) <==> Waits(b, w, c);
      }
    }
  }

  /** The prerequisites of every entry, ascending; or the doubly written path; or the entries behind a cycle. */
  method EntryDependencyIndices(plan: Plan) returns (r: Result<seq<seq<nat>>, DependencyError>)
    ensures r.Ok? <==> UniqueWriters(plan) && Acyclic(Dependencies(plan))
    ensures r.Ok? ==> |r.value| == |plan.entries| && forall w :: 0 <= w < |r.value| ==>
      r.value[w] == Ascending(|plan.entries|, Dependencies(plan)[w])
    ensures r.Err? ==> (r.error.MultipleWriters? <==> !UniqueWriters(plan))
    ensures r.Err? && r.error.MultipleWriters? ==> exists i: nat, j: nat ::
      i < j < |plan.entries| && r.error.path in plan.Aliases(i) && r.error.path in plan.Aliases(j)
    ensures r.Err? && r.error.OverwriteCycle? ==>
      r.error.blocked == Ascending(|plan.entries|, BlockedNodes(Dependencies(plan))) != []
  {
    var built := BuildDependencies(plan);
    match built
    case Err(error) => return Err(error);
    case Ok(deps) =>
      return Ok(seq(|deps|, w requires 0 <= w < |deps| => Ascending(|deps|, deps[w])));
  }

  /** Wave `k` lists, in ascending order, the entries whose longest prerequisite chain has `k + 1` entries. */
  method EntryWaveIndices(plan: Plan) returns (r: Result<seq<seq<nat>>, DependencyError>)
    ensures r.Ok? <==> UniqueWriters(plan) && Acyclic(Dependencies(plan))
    ensures r.Ok? ==> forall k :: 0 <= k < |r.value| ==>
      r.value[k] == Ascending(|plan.entries|, Layer(Dependencies(plan), k)) != []
    ensures r.Ok? ==> forall i: nat :: i < |plan.entries| ==> Settles(Dependencies(plan), i, |r.value|)
  {
    var built := BuildDependencies(plan);
    match built
    case Err(error) => return Err(error);
    case Ok(deps) =>
      var waves := Waves(deps);
      return Ok(waves);
  }

  // ----- what the dependencies mean

  /** Along a dependency cycle every entry is an HDiff entry whose base the next one overwrites. */
  lemma CycleIsHdiffOverwrites(plan: Plan, c: seq<nat>, k: nat)
    requires Cycle(Dependencies(plan), c) && k < |c|
    ensures |c| >= 2
    ensures var next := c[(k + 1) % |c|]; c[k] != next && Overwrites(plan, next, c[k])
  {
    var deps := Dependencies(plan);
    var n := if k + 1 < |c| then k + 1 else 0;
    assert n == (k + 1) % |c|;
    CycleStep(deps, c, k, n);
    hide Cycle, Overwrites;
    assert MustPrecede(plan, c[k], c[n]);
  }

  lemma CycleStep(deps: Deps, c: seq<nat>, k: nat, n: nat)
    requires Cycle(deps, c) && k < |c| && n == if k + 1 < |c| then k + 1 else 0
    ensures Waits(deps, c[n], c[k])
  {
    if k + 1 < |c| {
      assert c[k] in deps[c[k + 1]];
    }
  }

  /** In sequential order `order`, no entry finds its base already replaced by an earlier entry. */
  ghost predicate KeepsBases(plan: Plan, order: seq<nat>) {
    && |order| == |plan.entries| && Distinct(order) && (forall i :: i in order ==> i < |plan.entries|)
    && forall p, q :: 0 <= p < q < |order| ==> !Overwrites(plan, order[p], order[q])
  }

  /** Acceptance is exact: some sequential whole-entry order keeps all bases iff the graph is acyclic. */
  lemma {:induction false} SomeOrderKeepsBasesIffAcyclic(plan: Plan)
    ensures (exists order :: KeepsBases(plan, order)) <==> Acyclic(Dependencies(plan))
  {
    var deps := Dependencies(plan);
    OrderExistsIffAcyclic(deps);
    forall order ensures KeepsBases(plan, order) <==> Order(deps, order) {
      if KeepsBases(plan, order) {
        forall p, q | 0 <= p < |order| && 0 <= q < |order| && Waits(deps, order[p], order[q]) ensures q < p {
          assert MustPrecede(plan, order[q], order[p]);
        }
      }
      if Order(deps, order) {
        forall p, q | 0 <= p < q < |order| ensures !Overwrites(plan, order[p], order[q]) {
          assert order[p] != order[q];
          assert Waits(deps, order[p], order[q]) <==> MustPrecede(plan, order[q], order[p]);
        }
      }
    }
  }

  /** The two outputs are mistaken for each other under the logical root. */
  predicate LogicalClash(plan: Plan, i: nat, j: nat)
    requires i < |plan.entries| && j < |plan.entries|
  {
    var output := plan.LogicalOutput(plan.entries[j]);
    plan.entries[i].destination == output || plan.LogicalOutput(plan.entries[i]) == output
  }

  lemma DestinationsDiffer(plan: Plan, i: nat, j: nat)
    requires Valid(plan) && i < |plan.entries| && j < |plan.entries| && i != j
    ensures plan.entries[i].destination != plan.entries[j].destination
  {
    assert plan.entries[i].name != plan.entries[j].name;
    assert ValidEntry(plan, plan.entries[i]) && ValidEntry(plan, plan.entries[j]);
    if plan.entries[i].destination == plan.entries[j].destination {
      JoinInjective(plan.vfsDestination, plan.entries[i].name, plan.entries[j].name);
    }
  }

  /** For a valid plan, two entries write one path only when one is the logical output of the other. */
  lemma ValidPlanWriters(plan: Plan)
    requires Valid(plan)
    ensures UniqueWriters(plan) <==> forall i: nat, j: nat ::
      i < |plan.entries| && j < |plan.entries| && i != j ==> !LogicalClash(plan, i, j)
  {
    forall i: nat, j: nat | i < |plan.entries| && j < |plan.entries| && i != j
      ensures plan.entries[i].destination != plan.entries[j].destination
    {
      DestinationsDiffer(plan, i, j);
    }
    if UniqueWriters(plan) {
      forall i: nat, j: nat | i < |plan.entries| && j < |plan.entries| && i != j ensures !LogicalClash(plan, i, j) {
        var p := plan.LogicalOutput(plan.entries[j]);
        assert p in plan.Aliases(j) && p !in plan.Aliases(i);
      }
    } else {
      var i: nat, j: nat, p :| i < j < |plan.entries| && p in plan.Aliases(i) && p in plan.Aliases(j);
      assert LogicalClash(plan, i, j) || LogicalClash(plan, j, i);
    }
  }

  /** The asset tree stays in place, or is moved to a root unrelated to the logical one. */
  predicate SeparateRoots(plan: Plan) {
    var logical := plan.LogicalRoot();
    plan.vfsDestination == logical || (!(plan.vfsDestination <= logical) && !(logical <= plan.vfsDestination))
  }

  /** Joining a name unchecked amounts to joining what it is checked down to. */
  predicate PlainNames(plan: Plan) {
    forall e :: e in plan.entries ==> e.written == e.name
  }

  lemma PlainOutput(plan: Plan, i: nat)
    requires Valid(plan) && PlainNames(plan) && i < |plan.entries|
    ensures plan.LogicalOutput(plan.entries[i]) == plan.LogicalRoot() + plan.entries[i].name
  {
    assert ValidEntry(plan, plan.entries[i]) && SafeComponent(plan.entries[i].name[0]);
  }

  lemma BelowLogicalRoot(plan: Plan, path: Path, x: Path, i: nat)
    requires Valid(plan) && PlainNames(plan) && SeparateRoots(plan) && i < |plan.entries|
    requires path == plan.vfsDestination + x && path == plan.LogicalOutput(plan.entries[i])
    ensures path == plan.entries[i].destination
  {
    PlainOutput(plan, i);
    PrefixesAreRelated(plan.vfsDestination, x, plan.LogicalRoot(), plan.entries[i].name);
    assert ValidEntry(plan, plan.entries[i]);
  }

  /** Then writers are unique, and only the destination itself can be somebody's base. */
  lemma SeparateRootsHaveUniqueWriters(plan: Plan)
    requires Valid(plan) && SeparateRoots(plan) && PlainNames(plan)
    ensures UniqueWriters(plan)
    ensures forall w: nat, c: nat :: Overwrites(plan, w, c) ==>
      plan.entries[c].source.base == plan.entries[w].destination
  {
    forall i: nat, j: nat | i < |plan.entries| && j < |plan.entries| && i != j ensures !LogicalClash(plan, i, j) {
      assert ValidEntry(plan, plan.entries[i]);
      DestinationsDiffer(plan, i, j);
      if plan.entries[i].destination == plan.LogicalOutput(plan.entries[j]) {
        BelowLogicalRoot(plan, plan.entries[i].destination, plan.entries[i].name, j);
      }
      PlainOutput(plan, i);
      PlainOutput(plan, j);
      if plan.LogicalOutput(plan.entries[i]) == plan.LogicalOutput(plan.entries[j]) {
        JoinInjective(plan.LogicalRoot(), plan.entries[i].name, plan.entries[j].name);
      }
    }
    ValidPlanWriters(plan);
    forall w: nat, c: nat | Overwrites(plan, w, c)
      ensures plan.entries[c].source.base == plan.entries[w].destination
    {
      assert ValidEntry(plan, plan.entries[c]);
      var base := plan.entries[c].source.base;
      if base == plan.LogicalOutput(plan.entries[w]) {
        BelowLogicalRoot(plan, base, base[|plan.vfsDestination|..], w);
      }
    }
  }

  lemma PrefixesAreRelated(a: Path, x: Path, b: Path, y: Path)
    requires a + x == b + y
    ensures a <= b || b <= a
  {
    assert a == (a + x)[..|a|];
    assert b == (a + x)[..|b|];
    if |a| <= |b| {
      assert a == b[..|a|];
    } else {
      assert b == a[..|b|];
    }
  }
}
