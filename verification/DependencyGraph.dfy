/** Ordering of plan entries: Kahn's algorithm, its waves, and what they say about cycles. */
module DependencyGraph {
  import opened Collections

  /** `deps[i]` holds the entries that must finish before entry `i` starts. */
  type Deps = seq<set<nat>>

  ghost predicate WellFormed(deps: Deps) {
    forall i, j :: 0 <= i < |deps| && j in deps[i] ==> j < |deps|
  }

  /** `p` is a prerequisite of `d`. */
  ghost predicate Waits(deps: Deps, d: nat, p: nat) {
    d < |deps| && p in deps[d]
  }

  /** Every node of `c` is a prerequisite of the next one. */
  ghost predicate Chain(deps: Deps, c: seq<nat>) {
    && (forall k :: 0 <= k < |c| ==> c[k] < |deps|)
    && (forall k :: 0 <= k < |c| - 1 ==> c[k] in deps[c[k + 1]])
  }

  ghost predicate ChainTo(deps: Deps, c: seq<nat>, i: nat) {
    |c| > 0 && Chain(deps, c) && c[|c| - 1] == i
  }

  /** A chain whose last node is in turn a prerequisite of its first. */
  ghost predicate Cycle(deps: Deps, c: seq<nat>) {
    |c| > 0 && Chain(deps, c) && c[|c| - 1] in deps[c[0]]
  }

  ghost predicate Acyclic(deps: Deps) {
    forall c :: !Cycle(deps, c)
  }

  /** Node `i` can be reached in `k` rounds (see SettlesIffChainsShort). */
  ghost predicate Settles(deps: Deps, i: nat, k: nat)
    decreases k
  {
    k > 0 && i < |deps| && forall j :: j in deps[i] ==> Settles(deps, j, k - 1)
  }

  /** A node that no number of rounds reaches. */
  ghost predicate Blocked(deps: Deps, i: nat) {
    i < |deps| && forall k :: !Settles(deps, i, k)
  }

  ghost function BlockedNodes(deps: Deps): set<nat> {
    set i: nat | i < |deps| && Blocked(deps, i)
  }

  // ----- levels and chains

  lemma {:induction false} SettlesMonotone(deps: Deps, i: nat, j: nat, k: nat)
    requires j <= k && Settles(deps, i, j)
    ensures Settles(deps, i, k)
    decreases k
  {
    forall p | p in deps[i] ensures Settles(deps, p, k - 1) {
      SettlesMonotone(deps, p, j - 1, k - 1);
    }
  }

  lemma {:induction false} SettledBoundsChains(deps: Deps, c: seq<nat>, i: nat, k: nat)
    requires ChainTo(deps, c, i) && Settles(deps, i, k)
    ensures |c| <= k
    decreases k
  {
    if |c| > 1 {
      assert c[|c| - 2] in deps[c[|c| - 2 + 1]];
      SettledBoundsChains(deps, c[..|c| - 1], c[|c| - 2], k - 1);
    }
  }

  lemma {:induction false} UnsettledHasChain(deps: Deps, i: nat, k: nat) returns (c: seq<nat>)
    requires WellFormed(deps) && i < |deps| && !Settles(deps, i, k)
    ensures ChainTo(deps, c, i) && |c| == k + 1
    decreases k
  {
    if k == 0 {
      c := [i];
    } else {
      var j :| j in deps[i] && !Settles(deps, j, k - 1);
      var p := UnsettledHasChain(deps, j, k - 1);
      c := p + [i];
      assert forall x :: 0 <= x < |c| - 1 ==> c[x] == p[x];
    }
  }

  /** Settling in `k` rounds is exactly "no prerequisite chain ending here has more than `k` nodes". */
  lemma {:induction false} SettlesIffChainsShort(deps: Deps, i: nat, k: nat)
    requires WellFormed(deps) && i < |deps|
    ensures Settles(deps, i, k) <==> forall c :: ChainTo(deps, c, i) ==> |c| <= k
  {
    if Settles(deps, i, k) {
      forall c | ChainTo(deps, c, i) ensures |c| <= k {
        SettledBoundsChains(deps, c, i, k);
      }
    } else {
      var c := UnsettledHasChain(deps, i, k);
      assert ChainTo(deps, c, i) && |c| > k;
    }
  }

  // ----- cycles

  /** Nodes that each wait for another of them are never reached. */
  lemma {:induction false} MutualWaitNeverSettles(deps: Deps, waiting: set<nat>, i: nat, k: nat)
    requires forall x :: x in waiting ==> x < |deps| && deps[x] * waiting != {}
    requires i in waiting
    ensures !Settles(deps, i, k)
    decreases k
  {
    if k > 0 {
      var j :| j in deps[i] * waiting;
      MutualWaitNeverSettles(deps, waiting, j, k - 1);
    }
  }

  lemma {:induction false} CycleIsBlocked(deps: Deps, y: seq<nat>, x: nat)
    requires Cycle(deps, y) && x in y
    ensures Blocked(deps, x)
  {
    var members := set e | e in y;
    forall i | i in members ensures i < |deps| && deps[i] * members != {} {
      var k :| 0 <= k < |y| && y[k] == i;
      var j := if k == 0 then y[|y| - 1] else y[k - 1];
      assert k > 0 ==> y[k - 1] in deps[y[k - 1 + 1]];
      assert j in deps[i] * members;
    }
    forall k: nat ensures !Settles(deps, x, k) {
      MutualWaitNeverSettles(deps, members, x, k);
    }
  }

  /** Waiting on a blocked node, through any chain, blocks. */
  lemma {:induction false} BlockedPropagates(deps: Deps, c: seq<nat>, i: nat)
    requires ChainTo(deps, c, i) && Blocked(deps, c[0])
    ensures Blocked(deps, i)
  {
    if |c| > 1 {
      var p := c[|c| - 2];
      assert p in deps[c[|c| - 2 + 1]];
      BlockedPropagates(deps, c[..|c| - 1], p);
      forall k: nat ensures !Settles(deps, i, k) {
        if k > 0 {
          assert !Settles(deps, p, k - 1);
        }
      }
    }
  }

  lemma SliceIsChain(deps: Deps, c: seq<nat>, lo: nat, hi: nat)
    requires Chain(deps, c) && lo <= hi <= |c|
    ensures Chain(deps, c[lo..hi])
  {
    var s := c[lo..hi];
    forall k | 0 <= k < |s| - 1 ensures s[k] in deps[s[k + 1]] {
      assert c[lo + k] in deps[c[lo + k + 1]];
    }
  }

  /** A chain longer than the graph runs through a cycle. */
  lemma {:induction false} LongChainRepeats(deps: Deps, c: seq<nat>) returns (a: nat, b: nat)
    requires Chain(deps, c) && |c| > |deps|
    ensures a < b < |c| && c[a] == c[b]
    ensures Cycle(deps, c[a + 1..b + 1])
  {
    if Distinct(c) {
      assert forall x :: x in c ==> x in Below(|deps|);
      DistinctFits(c, Below(|deps|));
      assert false;
    }
    a, b :| 0 <= a < b < |c| && c[a] == c[b];
    assert c[a] in deps[c[a + 1]];
    SliceIsChain(deps, c, a + 1, b + 1);
  }

  /** The entries Kahn's algorithm cannot reach are exactly those behind a cycle. */
  lemma {:induction false} BlockedIffBehindCycle(deps: Deps, i: nat)
    requires WellFormed(deps) && i < |deps|
    ensures Blocked(deps, i) <==>
            exists c, y :: ChainTo(deps, c, i) && Cycle(deps, y) && c[0] in y
  {
    if Blocked(deps, i) {
      var c := UnsettledHasChain(deps, i, |deps|);
      var a, b := LongChainRepeats(deps, c);
      var y, tail := c[a + 1..b + 1], c[a + 1..|c|];
      SliceIsChain(deps, c, a + 1, |c|);
      assert y[0] == tail[0];
      assert ChainTo(deps, tail, i) && Cycle(deps, y) && tail[0] in y;
    }
    if c, y :| ChainTo(deps, c, i) && Cycle(deps, y) && c[0] in y {
      CycleIsBlocked(deps, y, c[0]);
      BlockedPropagates(deps, c, i);
    }
  }

  lemma {:induction false} AcyclicIffNoneBlocked(deps: Deps)
    requires WellFormed(deps)
    ensures Acyclic(deps) <==> forall i: nat :: i < |deps| ==> !Blocked(deps, i)
  {
    if !Acyclic(deps) {
      var y :| Cycle(deps, y);
      CycleIsBlocked(deps, y, y[0]);
    } else {
      forall i: nat | i < |deps| ensures !Blocked(deps, i) {
        BlockedIffBehindCycle(deps, i);
      }
    }
  }

  lemma {:induction false} AcyclicSettles(deps: Deps, i: nat)
    requires WellFormed(deps) && Acyclic(deps) && i < |deps|
    ensures Settles(deps, i, |deps|)
  {
    if !Settles(deps, i, |deps|) {
      var c := UnsettledHasChain(deps, i, |deps|);
      var a, b := LongChainRepeats(deps, c);
    }
  }

  // ----- layers

  /** The nodes whose longest prerequisite chain has exactly `k + 1` nodes (see LayerIsLongestChain). */
  ghost function Layer(deps: Deps, k: nat): set<nat> {
    set i: nat | i < |deps| && Settles(deps, i, k + 1) && !Settles(deps, i, k)
  }

  lemma {:induction false} LayerIsLongestChain(deps: Deps, i: nat, k: nat)
    requires WellFormed(deps) && i < |deps|
    ensures i in Layer(deps, k) <==>
            (exists c :: ChainTo(deps, c, i) && |c| == k + 1) && forall c :: ChainTo(deps, c, i) ==> |c| <= k + 1
  {
    SettlesIffChainsShort(deps, i, k);
    SettlesIffChainsShort(deps, i, k + 1);
    if !Settles(deps, i, k) {
      var c := UnsettledHasChain(deps, i, k);
      assert ChainTo(deps, c, i) && |c| == k + 1;
    }
  }

  /** Everything that settles lies in exactly one layer. */
  lemma {:induction false} LayersPartition(deps: Deps, i: nat, n: nat) returns (k: nat)
    requires Settles(deps, i, n)
    ensures k < n && i in Layer(deps, k)
    ensures forall m: nat :: i in Layer(deps, m) ==> m == k
  {
    k := n - 1;
    while Settles(deps, i, k)
      invariant Settles(deps, i, k + 1) && k < n
      decreases k
    {
      k := k - 1;
    }
    forall m: nat | i in Layer(deps, m) ensures m == k {
      if m < k {
        SettlesMonotone(deps, i, m + 1, k);
      } else if k < m {
        SettlesMonotone(deps, i, k + 1, m);
      }
    }
  }

  /** Prerequisites lie in strictly earlier layers, so no layer has an internal edge. */
  lemma {:induction false} PrerequisitesInEarlierLayers(deps: Deps, i: nat, j: nat, k: nat) returns (m: nat)
    requires i in Layer(deps, k) && j in deps[i]
    ensures m < k && j in Layer(deps, m)
    ensures j !in Layer(deps, k)
  {
    m := LayersPartition(deps, j, k);
  }

  // ----- sequential orders

  /** An order of all nodes that puts every node after its prerequisites. */
  ghost predicate Order(deps: Deps, order: seq<nat>) {
    && |order| == |deps| && Distinct(order)
    && (forall i :: i in order ==> i < |deps|)
    && (forall p, q :: 0 <= p < |order| && 0 <= q < |order| && Waits(deps, order[p], order[q]) ==> q < p)
  }

  lemma OrderIsComplete(deps: Deps, order: seq<nat>, i: nat)
    requires |order| == |deps| && Distinct(order) && (forall x :: x in order ==> x < |deps|)
    requires i < |deps|
    ensures i in order
  {
    if i !in order {
      var longer := order + [i];
      assert forall x :: x in longer ==> x in Below(|deps|);
      DistinctFits(longer, Below(|deps|));
    }
  }

  lemma {:induction false} OrderFollowsChain(deps: Deps, order: seq<nat>, c: seq<nat>, i: nat, p: nat)
    returns (q: nat)
    requires Order(deps, order) && ChainTo(deps, c, i) && p < |order| && order[p] == i
    ensures q <= p && order[q] == c[0]
  {
    q := p;
    if |c| > 1 {
      var j := c[|c| - 2];
      assert j in deps[c[|c| - 2 + 1]];
      OrderIsComplete(deps, order, j);
      var r :| 0 <= r < |order| && order[r] == j;
      q := OrderFollowsChain(deps, order, c[..|c| - 1], j, r);
    }
  }

  /** In an acyclic graph, as long as something is left, something left waits for nothing that is left. */
  lemma {:induction false} NextFree(deps: Deps, done: set<nat>) returns (i: nat)
    requires WellFormed(deps) && Acyclic(deps)
    requires exists x: nat :: x < |deps| && x !in done
    ensures i < |deps| && i !in done && deps[i] <= done
  {
    var rest := set x: nat | x < |deps| && x !in done;
    var x: nat :| x < |deps| && x !in done;
    AcyclicSettles(deps, x);
    if forall y :: y in rest ==> deps[y] * rest != {} {
      MutualWaitNeverSettles(deps, rest, x, |deps|);
    }
    i :| i in rest && deps[i] * rest == {};
    forall j | j in deps[i] ensures j in done {
      assert j !in deps[i] * rest;
    }
  }

  lemma {:induction false} ExtendOrder(deps: Deps, prefix: seq<nat>) returns (order: seq<nat>)
    requires WellFormed(deps) && Acyclic(deps) && Distinct(prefix)
    requires forall i :: i in prefix ==> i < |deps|
    requires forall p, j :: 0 <= p < |prefix| && Waits(deps, prefix[p], j) ==> j in prefix[..p]
    ensures Order(deps, order)
    decreases |deps| - |prefix|
  {
    var done := set x | x in prefix;
    CardinalityOfDistinct(prefix);
    DistinctFits(prefix, done);
    IndexSetSize(done, |deps|);
    if |prefix| == |deps| {
      order := prefix;
      forall p, q | 0 <= p < |order| && 0 <= q < |order| && Waits(deps, order[p], order[q]) ensures q < p {
        var r :| 0 <= r < p && order[r] == order[q];
      }
    } else {
      var i := NextFree(deps, done);
      var longer := prefix + [i];
      forall p, j | 0 <= p < |longer| && Waits(deps, longer[p], j) ensures j in longer[..p] {
        assert longer[..p] == prefix[..p];
      }
      order := ExtendOrder(deps, longer);
    }
  }

  /** Some sequential order respects the dependencies exactly when there is no cycle. */
  lemma {:induction false} OrderExistsIffAcyclic(deps: Deps)
    requires WellFormed(deps)
    ensures (exists order :: Order(deps, order)) <==> Acyclic(deps)
  {
    if Acyclic(deps) {
      var order := ExtendOrder(deps, []);
    }
    if order, c :| Order(deps, order) && Cycle(deps, c) {
      OrderIsComplete(deps, order, c[0]);
      OrderIsComplete(deps, order, c[|c| - 1]);
      var p :| 0 <= p < |order| && order[p] == c[|c| - 1];
      var q := OrderFollowsChain(deps, order, c, c[|c| - 1], p);
    }
  }

  // ----- the loops

  ghost predicate Inverse(deps: Deps, outgoing: seq<set<nat>>) {
    && |outgoing| == |deps|
    && forall p: nat, d: nat :: p < |deps| ==> (d in outgoing[p] <==> Waits(deps, d, p))
  }

  /** `indegree` counts the prerequisites of every node that are not yet in `done`. */
  ghost predicate Counts(deps: Deps, done: set<nat>, indegree: seq<nat>) {
    && |indegree| == |deps|
    && forall i {:trigger Remaining(deps, done, i, indegree[i])} ::
         0 <= i < |deps| ==> Remaining(deps, done, i, indegree[i])
  }

  ghost predicate Remaining(deps: Deps, done: set<nat>, i: nat, count: nat)
    requires i < |deps|
  {
    count == |deps[i] - done|
  }

  lemma ZeroCount(deps: Deps, done: set<nat>, indegree: seq<nat>, i: nat)
    requires Counts(deps, done, indegree) && i < |deps|
    ensures indegree[i] == 0 <==> deps[i] <= done
  {
    assert Remaining(deps, done, i, indegree[i]);
    if deps[i] <= done {
      assert deps[i] - done == {};
    } else {
      var j :| j in deps[i] && j !in done;
      assert j in deps[i] - done;
    }
  }

  lemma CountStep(deps: Deps, done: set<nat>, indegree: seq<nat>, index: nat, indegree': seq<nat>)
    requires Counts(deps, done, indegree) && index !in done && |indegree'| == |deps|
    requires forall i :: 0 <= i < |deps| ==> indegree[i] == indegree'[i] + if Waits(deps, i, index) then 1 else 0
    ensures Counts(deps, done + {index}, indegree')
  {
    forall i | 0 <= i < |deps| ensures Remaining(deps, done + {index}, i, indegree'[i]) {
      assert Remaining(deps, done, i, indegree[i]);
      if Waits(deps, i, index) {
        assert deps[i] - done == (deps[i] - (done + {index})) + {index};
      } else {
        assert deps[i] - done == deps[i] - (done + {index});
      }
    }
  }

  lemma WaitingCounts(deps: Deps, done: set<nat>, indegree: seq<nat>, index: nat)
    requires Counts(deps, done, indegree) && index !in done
    ensures forall i: nat :: Waits(deps, i, index) ==> indegree[i] > 0
  {
    forall i: nat | Waits(deps, i, index) ensures indegree[i] > 0 {
      ZeroCount(deps, done, indegree, i);
    }
  }

  /** The inverse edges: who waits for each node. */
  method InvertEdges(deps: Deps) returns (outgoing: seq<set<nat>>)
    requires WellFormed(deps)
    ensures Inverse(deps, outgoing)
  {
    outgoing := seq(|deps|, _ => {});
    for dependent: nat := 0 to |deps|
      invariant |outgoing| == |deps|
      invariant forall p: nat, d: nat :: p < |deps| ==> (d in outgoing[p] <==> d < dependent && Waits(deps, d, p))
    {
      ghost var earlier := outgoing;
      var pending := deps[dependent];
      while pending != {}
        invariant pending <= deps[dependent]
        invariant |outgoing| == |deps|
        invariant forall p: nat :: p < |deps| ==>
          outgoing[p] == earlier[p] + if p in deps[dependent] - pending then {dependent} else {}
        decreases pending
      {
        var prerequisite :| prerequisite in pending;
        outgoing := outgoing[prerequisite := outgoing[prerequisite] + {dependent}];
        pending := pending - {prerequisite};
      }
    }
  }

  method InitialIndegrees(deps: Deps) returns (indegree: seq<nat>, ready: set<nat>)
    ensures Counts(deps, {}, indegree)
    ensures forall i: nat :: i in ready <==> i < |deps| && indegree[i] == 0
  {
    indegree := seq(|deps|, i requires 0 <= i < |deps| => |deps[i]|);
    assert forall i :: 0 <= i < |deps| ==> deps[i] - {} == deps[i];
    ready := set i: nat | i < |deps| && indegree[i] == 0;
  }

  /** A finished node takes one prerequisite off each of its dependents and releases those left with none. */
  method ReleaseDependents(dependents: set<nat>, indegree: seq<nat>, ready: set<nat>)
    returns (indegree': seq<nat>, ready': set<nat>)
    requires forall d :: d in dependents ==> d < |indegree| && indegree[d] > 0
    ensures |indegree'| == |indegree|
    ensures forall i: nat :: i < |indegree| ==> indegree'[i] == indegree[i] - if i in dependents then 1 else 0
    ensures forall i: nat :: i in ready' <==> i in ready || (i in dependents && indegree'[i] == 0)
  {
    indegree', ready' := indegree, ready;
    var pending := dependents;
    while pending != {}
      invariant pending <= dependents && |indegree'| == |indegree|
      invariant forall i: nat :: i < |indegree| ==>
        indegree'[i] == indegree[i] - if i in dependents - pending then 1 else 0
      invariant forall i: nat :: i in ready' <==> i in ready || (i in dependents - pending && indegree'[i] == 0)
      decreases pending
    {
      var dependent :| dependent in pending;
      indegree' := indegree'[dependent := SaturatingSub(indegree'[dependent], 1)];
      if indegree'[dependent] == 0 {
        ready' := ready' + {dependent};
      }
      pending := pending - {dependent};
    }
  }

  /** Every finished node is ranked above its prerequisites, all of which are finished. */
  ghost predicate Ranked(deps: Deps, rank: map<nat, nat>) {
    && (forall i :: i in rank ==> i < |deps|)
    && (forall i, j :: i in rank && j in deps[i] ==> j in rank && rank[j] < rank[i])
  }

  lemma {:induction false} RankedSettles(deps: Deps, rank: map<nat, nat>, i: nat)
    requires Ranked(deps, rank) && i in rank
    ensures Settles(deps, i, rank[i] + 1)
    decreases rank[i]
  {
    forall j | j in deps[i] ensures Settles(deps, j, rank[i]) {
      RankedSettles(deps, rank, j);
      SettlesMonotone(deps, j, rank[j] + 1, rank[i]);
    }
  }

  /** When Kahn's loop ends, exactly the nodes it did not finish are blocked. */
  lemma {:induction false} StuckIsBlocked(deps: Deps, rank: map<nat, nat>, indegree: seq<nat>, stuck: set<nat>)
    requires WellFormed(deps) && Ranked(deps, rank) && Counts(deps, rank.Keys, indegree)
    requires forall i: nat :: i in stuck <==> i < |deps| && indegree[i] > 0
    requires forall i: nat :: i < |deps| ==> (i in rank <==> indegree[i] == 0)
    ensures stuck == BlockedNodes(deps)
    ensures Acyclic(deps) <==> stuck == {}
    ensures |rank.Keys| == |deps| <==> stuck == {}
  {
    forall i | i in stuck ensures deps[i] * stuck != {} {
      ZeroCount(deps, rank.Keys, indegree, i);
      var j :| j in deps[i] && j !in rank;
      assert j in deps[i] * stuck;
    }
    forall i | i in stuck ensures Blocked(deps, i) {
      forall k: nat ensures !Settles(deps, i, k) {
        MutualWaitNeverSettles(deps, stuck, i, k);
      }
    }
    forall i | i in rank ensures !Blocked(deps, i) {
      RankedSettles(deps, rank, i);
    }
    AcyclicIffNoneBlocked(deps);
    IndexSetSize(rank.Keys, |deps|);
  }

  lemma RankKeys(deps: Deps, rank: map<nat, nat>, index: nat)
    requires (forall i :: i in rank ==> i < |deps|) && index < |deps| && index !in rank
    ensures rank[index := |rank|].Keys == rank.Keys + {index} && |rank[index := |rank|]| == |rank| + 1 <= |deps|
  {
    IndexSetSize(rank.Keys + {index}, |deps|);
    assert |rank[index := |rank|].Keys| == |rank.Keys + {index}|;
  }

  lemma RankStep(deps: Deps, rank: map<nat, nat>, indegree: seq<nat>, index: nat)
    requires Ranked(deps, rank) && Counts(deps, rank.Keys, indegree)
    requires forall i :: i in rank ==> rank[i] < |rank|
    requires index < |deps| && index !in rank && indegree[index] == 0
    ensures Ranked(deps, rank[index := |rank|])
    ensures rank[index := |rank|].Keys == rank.Keys + {index} && |rank[index := |rank|]| == |rank| + 1 <= |deps|
  {
    RankKeys(deps, rank, index);
    ZeroCount(deps, rank.Keys, indegree, index);
    hide Counts;
    var next := rank[index := |rank|];
    forall i, j | i in next && j in deps[i] ensures j in next && next[j] < next[i] {
      if i != index {
        assert i in rank;
        assert j in rank;
      }
    }
  }

  /** Succeeds exactly on acyclic graphs; otherwise names, in order, every node behind a cycle. */
  method ValidateAcyclic(deps: Deps) returns (r: Result<(), seq<nat>>)
    requires WellFormed(deps)
    ensures r == if Acyclic(deps) then Ok(()) else Err(Ascending(|deps|, BlockedNodes(deps)))
    ensures r.Err? ==> r.error != []
  {
    var outgoing := InvertEdges(deps);
    var indegree, ready := InitialIndegrees(deps);
    var finished := 0;
    ghost var rank: map<nat, nat> := map[];
    while ready != {}
      invariant Ranked(deps, rank) && |rank| == finished
      invariant Counts(deps, rank.Keys, indegree)
      invariant forall i :: i in rank ==> rank[i] < |rank| && indegree[i] == 0
      invariant forall i: nat :: i in ready <==> i < |deps| && indegree[i] == 0 && i !in rank
      decreases |deps| - finished
    {
      var smallest := Ascending(|deps|, ready);
      assert exists i :: i in ready;
      var index := smallest[0];
      ready := ready - {index};
      finished := finished + 1;
      ghost var before := indegree;
      WaitingCounts(deps, rank.Keys, indegree, index);
      RankStep(deps, rank, indegree, index);
      indegree, ready := ReleaseDependents(outgoing[index], indegree, ready);
      CountStep(deps, rank.Keys, before, index, indegree);
      rank := rank[index := |rank|];
    }
    var blocked := set i: nat | i < |deps| && indegree[i] > 0;
    StuckIsBlocked(deps, rank, indegree, blocked);
    if finished == |deps| {
      return Ok(());
    }
    assert exists b :: b in blocked;
    return Err(Ascending(|deps|, blocked));
  }

  /** Runs one wave: afterwards exactly the nodes that waited for it and for nothing else are ready. */
  method CompleteWave(deps: Deps, outgoing: seq<set<nat>>, wave: seq<nat>, indegree: seq<nat>,
                      ghost base: set<nat>, ghost members: set<nat>)
    returns (indegree': seq<nat>, ready: set<nat>)
    requires Inverse(deps, outgoing) && Counts(deps, base, indegree)
    requires wave == Ascending(|deps|, members) && members !! base
    requires forall i :: i in members ==> i < |deps|
    ensures Counts(deps, base + members, indegree')
    ensures forall i: nat :: i in ready <==> i < |deps| && indegree'[i] == 0 && indegree[i] > 0
  {
    indegree', ready := indegree, {};
    ghost var done := base;
    forall j: nat, k: nat | j < k < |wave| ensures wave[j] < wave[k] {
      AscendingOrder(|deps|, members, j, k);
    }
    for p := 0 to |wave|
      invariant forall i: nat :: i in done <==> i in base || i in wave[..p]
      invariant Counts(deps, done, indegree')
      invariant forall i :: 0 <= i < |deps| ==> indegree'[i] <= indegree[i]
      invariant forall i: nat :: i in ready <==> i < |deps| && indegree'[i] == 0 && indegree[i] > 0
    {
      var index := wave[p];
      assert index in wave;
      ghost var before := indegree';
      WaitingCounts(deps, done, indegree', index);
      indegree', ready := ReleaseDependents(outgoing[index], indegree', ready);
      CountStep(deps, done, before, index, indegree');
      done := done + {index};
    }
    assert wave[..|wave|] == wave;
    assert done == base + members;
  }

  /** What the first `k` waves finished is what settles in `k` rounds. */
  ghost predicate Finished(deps: Deps, settled: set<nat>, k: nat) {
    forall i: nat :: i in settled <==> Settles(deps, i, k)
  }

  lemma {:induction false} NextRound(deps: Deps, k: nat, settled: set<nat>, indegree: seq<nat>, ready: set<nat>)
    requires Finished(deps, settled, k) && Counts(deps, settled, indegree)
    requires forall i: nat :: i in ready <==> i < |deps| && indegree[i] == 0 && i !in settled
    ensures Finished(deps, settled + ready, k + 1) && ready == Layer(deps, k)
    ensures forall i :: i in settled ==> i < |deps| && indegree[i] == 0
    ensures |settled + ready| == |settled| + |ready| <= |deps|
  {
    forall i: nat | i < |deps|
      ensures indegree[i] == 0 <==> Settles(deps, i, k + 1)
      ensures i in settled ==> indegree[i] == 0
    {
      ZeroCount(deps, settled, indegree, i);
      if i in settled {
        SettlesMonotone(deps, i, k, k + 1);
      }
    }
    IndexSetSize(settled + ready, |deps|);
  }

  /** Wave `k` is layer `k`, in ascending order; every node is in some wave. */
  method Waves(deps: Deps) returns (waves: seq<seq<nat>>)
    requires WellFormed(deps) && Acyclic(deps)
    ensures forall k :: 0 <= k < |waves| ==> waves[k] == Ascending(|deps|, Layer(deps, k)) != []
    ensures forall i: nat :: i < |deps| ==> Settles(deps, i, |waves|)
  {
    hide Settles, Counts, Finished, Acyclic, Layer, Ascending, Inverse, WellFormed;
    var outgoing := InvertEdges(deps);
    var indegree, ready := InitialIndegrees(deps);
    waves := [];
    ghost var settled: set<nat> := {};
    NothingFinished(deps);
    CountsLength(deps, settled, indegree);
    while ready != {}
      invariant |settled| <= |deps| && Finished(deps, settled, |waves|)
      invariant Counts(deps, settled, indegree) && |indegree| == |deps|
      invariant forall i: nat :: i in ready <==> i < |deps| && indegree[i] == 0 && i !in settled
      invariant forall k :: 0 <= k < |waves| ==> waves[k] == Ascending(|deps|, Layer(deps, k)) != []
      decreases |deps| - |settled|
    {
      var wave := Ascending(|deps|, ready);
      assert exists i :: i in ready;
      NextRound(deps, |waves|, settled, indegree, ready);
      ghost var released := ready;
      indegree, ready := CompleteWave(deps, outgoing, wave, indegree, settled, released);
      waves, settled := waves + [wave], settled + released;
      CountsLength(deps, settled, indegree);
    }
    LastRound(deps, |waves|, settled, indegree);
  }

  lemma NothingFinished(deps: Deps)
    ensures Finished(deps, {}, 0)
  {
  }

  lemma CountsLength(deps: Deps, done: set<nat>, indegree: seq<nat>)
    requires Counts(deps, done, indegree)
    ensures |indegree| == |deps|
  {
  }

  lemma {:induction false} LastRound(deps: Deps, k: nat, settled: set<nat>, indegree: seq<nat>)
    requires WellFormed(deps) && Acyclic(deps)
    requires Finished(deps, settled, k) && Counts(deps, settled, indegree)
    requires forall i: nat :: i < |deps| && indegree[i] == 0 ==> i in settled
    ensures forall i: nat :: i < |deps| ==> Settles(deps, i, k)
  {
    var stuck := set i: nat | i < |deps| && i !in settled;
    forall i | i in stuck ensures deps[i] * stuck != {} {
      ZeroCount(deps, settled, indegree, i);
      var j :| j in deps[i] && j !in settled;
      assert j in deps[i] * stuck;
    }
    forall i: nat | i < |deps| ensures i in settled {
      AcyclicSettles(deps, i);
      if i in stuck {
        MutualWaitNeverSettles(deps, stuck, i, |deps|);
      }
    }
  }
}
