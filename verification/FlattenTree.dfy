/** Numbering a widget tree in preorder, and reading the tree back from the numbers. */
module FlattenTree {
  import opened Collections

  /** `payload` stands for everything that is copied from a node to its entry. */
  datatype Tree<P> = Node(payload: P, z: Option<int>, children: seq<Tree<P>>)

  datatype Flat<P> = Flat(id: nat, parent: int, z: int, payload: P)

  const U16_COUNT: nat := 0x1_0000
  const I16_COUNT: nat := 0x8000

  /** `id as i16`. */
  function AsI16(id: nat): int
    requires id < U16_COUNT
  {
    if id < I16_COUNT then id else id - U16_COUNT
  }

  function Nodes<P>(t: Tree<P>): nat {
    1 + NodesOf(t.children)
  }

  function NodesOf<P>(ts: seq<Tree<P>>): nat {
    if ts == [] then 0 else Nodes(ts[0]) + NodesOf(ts[1..])
  }

  // ----- specification: the entries of a tree whose root is the `n`-th node

  function Entry<P>(t: Tree<P>, parent: int, n: nat): Flat<P> {
    var id := n % U16_COUNT;
    Flat(id, parent, if t.z.Some? then t.z.value else id, t.payload)
  }

  function FlatTree<P>(t: Tree<P>, parent: int, n: nat): seq<Flat<P>>
    decreases t, 0
  {
    [Entry(t, parent, n)] + FlatForest(t.children, AsI16(n % U16_COUNT), n + 1)
  }

  function FlatForest<P>(ts: seq<Tree<P>>, parent: int, n: nat): seq<Flat<P>> {
    if ts == [] then [] else FlatTree(ts[0], parent, n) + FlatForest(ts[1..], parent, n + Nodes(ts[0]))
  }

  lemma {:induction false} FlatLength<P>(t: Tree<P>, parent: int, n: nat)
    ensures |FlatTree(t, parent, n)| == Nodes(t)
    decreases t, 0
  {
    ForestLength(t.children, AsI16(n % U16_COUNT), n + 1);
  }

  lemma {:induction false} ForestLength<P>(ts: seq<Tree<P>>, parent: int, n: nat)
    ensures |FlatForest(ts, parent, n)| == NodesOf(ts)
  {
    if ts != [] {
      FlatLength(ts[0], parent, n);
      ForestLength(ts[1..], parent, n + Nodes(ts[0]));
    }
  }

  lemma {:induction false} ForestAppend<P>(ts: seq<Tree<P>>, t: Tree<P>, parent: int, n: nat)
    ensures FlatForest(ts + [t], parent, n) == FlatForest(ts, parent, n) + FlatTree(t, parent, n + NodesOf(ts))
    ensures NodesOf(ts + [t]) == NodesOf(ts) + Nodes(t)
  {
    if ts == [] {
      assert ts + [t] == [t] && [t][1..] == [];
      assert FlatTree(t, parent, n) + [] == FlatTree(t, parent, n);
    } else {
      hide FlatTree, Nodes;
      var first, m := FlatTree(ts[0], parent, n), n + Nodes(ts[0]);
      assert (ts + [t])[0] == ts[0] && (ts + [t])[1..] == ts[1..] + [t];
      ForestAppend(ts[1..], t, parent, m);
      Regroup(first, FlatForest(ts[1..], parent, m), FlatTree(t, parent, m + NodesOf(ts[1..])));
    }
  }

  // ----- the operation

  class Flattener<P> {
    var nextId: nat
    var out: seq<Flat<P>>

    ghost predicate Valid()
      reads this
    {
      nextId == |out| % U16_COUNT
    }

    constructor ()
      ensures Valid() && out == []
    {
      nextId, out := 0, [];
    }

    /** Appends the entries of the whole subtree, numbered on from what is there. */
    method Flatten(node: Tree<P>, parent: int)
      requires Valid()
      modifies this
      ensures Valid() && out == old(out) + FlatTree(node, parent, |old(out)|)
      decreases node
    {
      var id := nextId;
      nextId := (nextId + 1) % U16_COUNT;
      out := out + [Flat(id, parent, if node.z.Some? then node.z.value else id, node.payload)];
      ghost var base := out;
      hide FlatTree, FlatForest, Nodes, NodesOf;
      ForestOfNone(node, AsI16(id), base);
      for k := 0 to |node.children|
        invariant Valid() && out == base + FlatForest(node.children[..k], AsI16(id), |base|)
        invariant |out| == |base| + NodesOf(node.children[..k])
      {
        ghost var before := out;
        Flatten(node.children[k], AsI16(id));
        ForestStep(base, node.children, k, AsI16(id));
        FlatLength(node.children[k], AsI16(id), |before|);
      }
      ForestDone(node, parent, old(out), out);
    }
  }

  lemma ForestOfNone<P>(node: Tree<P>, own: int, base: seq<Flat<P>>)
    ensures base + FlatForest(node.children[..0], own, |base|) == base && NodesOf(node.children[..0]) == 0
  {
  }

  lemma ForestStep<P>(base: seq<Flat<P>>, ts: seq<Tree<P>>, k: nat, own: int)
    requires k < |ts|
    ensures var before := base + FlatForest(ts[..k], own, |base|);
            before + FlatTree(ts[k], own, |base| + NodesOf(ts[..k])) == base + FlatForest(ts[..k + 1], own, |base|)
    ensures NodesOf(ts[..k + 1]) == NodesOf(ts[..k]) + Nodes(ts[k])
  {
    hide FlatTree, FlatForest, Nodes, NodesOf;
    assert ts[..k + 1] == ts[..k] + [ts[k]];
    ForestAppend(ts[..k], ts[k], own, |base|);
    Regroup(base, FlatForest(ts[..k], own, |base|), FlatTree(ts[k], own, |base| + NodesOf(ts[..k])));
  }

  lemma ForestDone<P>(node: Tree<P>, parent: int, before: seq<Flat<P>>, after: seq<Flat<P>>)
    requires var own := AsI16(|before| % U16_COUNT);
             after == before + [Entry(node, parent, |before|)]
                      + FlatForest(node.children[..|node.children|], own, |before| + 1)
    ensures after == before + FlatTree(node, parent, |before|)
  {
    assert node.children[..|node.children|] == node.children;
    var below := FlatForest(node.children, AsI16(|before| % U16_COUNT), |before| + 1);
    Regroup(before, [Entry(node, parent, |before|)], below);
  }

  lemma Regroup<T>(a: seq<T>, b: seq<T>, c: seq<T>)
    ensures a + b + c == a + (b + c)
  {
  }

  method Flattened<P>(root: Tree<P>) returns (flat: seq<Flat<P>>)
    ensures flat == FlatTree(root, -1, 0)
  {
    var flattener := new Flattener<P>();
    flattener.Flatten(root, -1);
    flat := flattener.out;
  }

  // ----- reading the tree back

  /** The forest of entries from `pos` on that name `parent`, each with the forest below it, and where it ends. */
  function ReadForest<P>(flat: seq<Flat<P>>, pos: nat, parent: int): (r: (seq<Tree<P>>, nat))
    requires pos <= |flat|
    ensures pos <= r.1 <= |flat|
    decreases |flat| - pos
  {
    if pos == |flat| || flat[pos].parent != parent then ([], pos)
    else
      var below := ReadForest(flat, pos + 1, pos);
      var after := ReadForest(flat, below.1, parent);
      ([Node(flat[pos].payload, Some(flat[pos].z), below.0)] + after.0, after.1)
  }

  /** The tree with its drawing order made explicit, which is all that flattening adds to it. */
  function Explicit<P>(t: Tree<P>, n: nat): Tree<P>
    decreases t, 0
  {
    var z := if t.z == None then n % 65536 else t.z.value;
    Node(t.payload, Some(z), ExplicitForest(t.children, n + 1))
  }

  function ExplicitForest<P>(ts: seq<Tree<P>>, n: nat): seq<Tree<P>> {
    if ts == [] then [] else [Explicit(ts[0], n)] + ExplicitForest(ts[1..], n + Nodes(ts[0]))
  }

  /** Every node that has children can name itself as a parent in 16 signed bits. */
  predicate Nameable<P>(t: Tree<P>, n: nat)
    decreases t, 0
  {
    (t.children != [] ==> n < I16_COUNT) && NameableForest(t.children, n + 1)
  }

  predicate NameableForest<P>(ts: seq<Tree<P>>, n: nat) {
    ts == [] || (Nameable(ts[0], n) && NameableForest(ts[1..], n + Nodes(ts[0])))
  }

  ghost predicate Ends<P>(rest: seq<Flat<P>>, parent: int) {
    rest == [] || rest[0].parent < parent
  }

  lemma SkipFirst<T>(flat: seq<T>, n: nat, first: seq<T>, rest: seq<T>)
    requires n <= |flat| && flat[n..] == first + rest
    ensures n + |first| <= |flat| && flat[n + |first|..] == rest
  {
    assert flat[n + |first|..] == flat[n..][|first|..];
  }

  /** From position `n` on, the entries of a forest are read back as that forest, and reading stops where they end. */
  lemma {:induction false} ReadsBack<P>(flat: seq<Flat<P>>, n: nat, ts: seq<Tree<P>>, parent: int, rest: seq<Flat<P>>)
    requires n <= |flat| && flat[n..] == FlatForest(ts, parent, n) + rest
    requires parent < n && NameableForest(ts, n) && Ends(rest, parent)
    ensures ReadForest(flat, n, parent) == (ExplicitForest(ts, n), n + NodesOf(ts))
    decreases ts, 0
  {
    hide ReadForest, ExplicitForest, Entry, FlatTree, FlatForest, Nodes, NodesOf, Ends;
    if ts == [] {
      ReadNone(flat, n, ts, parent, rest);
    } else {
      ForestUnfolds(ts, parent, n);
      var t, m := ts[0], n + Nodes(ts[0]);
      var after := FlatForest(ts[1..], parent, m);
      Regroup(FlatTree(t, parent, n), after, rest);
      SkipFirst(flat, n, FlatTree(t, parent, n), after + rest);
      FlatLength(t, parent, n);
      NodesArePositive(t);
      RestEnds(ts[1..], parent, n, m, rest);
      TreeReadsBack(flat, n, t, parent, after + rest);
      ReadsBack(flat, m, ts[1..], parent, rest);
      ReadOne(flat, n, ts, parent);
    }
  }

  lemma ReadNone<P>(flat: seq<Flat<P>>, n: nat, ts: seq<Tree<P>>, parent: int, rest: seq<Flat<P>>)
    requires ts == [] && n <= |flat| && flat[n..] == FlatForest(ts, parent, n) + rest && Ends(rest, parent)
    ensures ReadForest(flat, n, parent) == (ExplicitForest(ts, n), n + NodesOf(ts))
  {
    assert flat[n..] == rest;
    assert n < |flat| ==> flat[n] == rest[0];
  }

  lemma ForestUnfolds<P>(ts: seq<Tree<P>>, parent: int, n: nat)
    requires ts != []
    ensures FlatForest(ts, parent, n) == FlatTree(ts[0], parent, n) + FlatForest(ts[1..], parent, n + Nodes(ts[0]))
  {
  }

  /** One step of reading: an entry, what is below it, and what comes after that. */
  lemma {:induction false} ReadOne<P>(flat: seq<Flat<P>>, n: nat, ts: seq<Tree<P>>, parent: int)
    requires ts != [] && n < |flat| && flat[n] == Entry(ts[0], parent, n) && n + Nodes(ts[0]) <= |flat|
    requires ReadForest(flat, n + 1, n) == (ExplicitForest(ts[0].children, n + 1), n + Nodes(ts[0]))
    requires ReadForest(flat, n + Nodes(ts[0]), parent)
             == (ExplicitForest(ts[1..], n + Nodes(ts[0])), n + Nodes(ts[0]) + NodesOf(ts[1..]))
    ensures ReadForest(flat, n, parent) == (ExplicitForest(ts, n), n + NodesOf(ts))
  {
    hide Nodes;
  }

  lemma {:induction false} TreeReadsBack<P>(flat: seq<Flat<P>>, n: nat, t: Tree<P>, parent: int, rest: seq<Flat<P>>)
    requires n <= |flat| && flat[n..] == FlatTree(t, parent, n) + rest && Nameable(t, n) && Ends(rest, n)
    ensures n < |flat| && flat[n] == Entry(t, parent, n)
    ensures ReadForest(flat, n + 1, n) == (ExplicitForest(t.children, n + 1), n + Nodes(t))
    decreases t, 0
  {
    var below := FlatForest(t.children, AsI16(n % U16_COUNT), n + 1);
    Regroup([Entry(t, parent, n)], below, rest);
    SkipFirst(flat, n, [Entry(t, parent, n)], below + rest);
    assert flat[n] == flat[n..][0];
    if t.children != [] {
      ReadsBack(flat, n + 1, t.children, n, rest);
    } else {
      assert flat[n + 1..] == rest;
      assert n + 1 < |flat| ==> flat[n + 1] == rest[0];
    }
  }

  lemma RestEnds<P>(ts: seq<Tree<P>>, parent: int, n: nat, m: nat, rest: seq<Flat<P>>)
    requires parent < n && Ends(rest, parent)
    ensures Ends(FlatForest(ts, parent, m) + rest, n)
  {
    FirstNamesParent(ts, parent, m);
  }

  lemma FirstNamesParent<P>(ts: seq<Tree<P>>, parent: int, n: nat)
    ensures ts != [] ==> FlatForest(ts, parent, n) != [] && FlatForest(ts, parent, n)[0].parent == parent
  {
  }

  /** Flattening loses nothing: the tree is read back from its entries, whatever its size, if its parents can be named. */
  lemma FlattenedTreeReadsBack<P>(root: Tree<P>)
    requires Nameable(root, 0)
    ensures ReadForest(FlatTree(root, -1, 0), 0, -1) == ([Explicit(root, 0)], Nodes(root))
  {
    assert [root][1..] == [];
    var flat := FlatTree(root, -1, 0);
    assert flat[0..] == flat + [] + [];
    ReadsBack(flat, 0, [root], -1, []);
    assert [Explicit(root, 0)] + [] == [Explicit(root, 0)];
  }

  // ----- numbers and parents

  ghost predicate Numbered<P>(flat: seq<Flat<P>>, from: nat) {
    forall k :: 0 <= k < |flat| ==> flat[k].id == (from + k) % U16_COUNT
  }

  lemma {:induction false} ForestIsNumbered<P>(ts: seq<Tree<P>>, parent: int, n: nat)
    ensures Numbered(FlatForest(ts, parent, n), n)
  {
    if ts != [] {
      var below := FlatForest(ts[0].children, AsI16(n % U16_COUNT), n + 1);
      ForestIsNumbered(ts[0].children, AsI16(n % U16_COUNT), n + 1);
      ForestIsNumbered(ts[1..], parent, n + Nodes(ts[0]));
      FlatLength(ts[0], parent, n);
      assert FlatTree(ts[0], parent, n) == [Entry(ts[0], parent, n)] + below;
      forall k | 0 <= k < |FlatTree(ts[0], parent, n)| ensures FlatTree(ts[0], parent, n)[k].id == (n + k) % U16_COUNT {
        assert k > 0 ==> FlatTree(ts[0], parent, n)[k] == below[k - 1];
      }
    }
  }

  /** Every entry names a parent that stands before it. */
  ghost predicate ParentsEarlier<P>(flat: seq<Flat<P>>, from: nat) {
    forall k :: 0 <= k < |flat| ==> 0 <= flat[k].parent < from + k
  }

  lemma {:induction false} ParentsEarlierIff<P>(ts: seq<Tree<P>>, parent: int, n: nat)
    requires 0 <= parent < n && n + NodesOf(ts) <= U16_COUNT
    ensures ParentsEarlier(FlatForest(ts, parent, n), n) <==> NameableForest(ts, n)
  {
    if ts != [] {
      var t := ts[0];
      hide Nodes, FlatForest, ParentsEarlier, Nameable, NodesOf;
      var head, below := [Entry(t, parent, n)], FlatForest(t.children, AsI16(n), n + 1);
      var after := FlatForest(ts[1..], parent, n + Nodes(t));
      FlatLength(t, parent, n);
      NodesArePositive(t);
      ParentsEarlierIff(ts[1..], parent, n + Nodes(t));
      SplitParents(head, below, n);
      SplitParents(head + below, after, n);
      ForestSplits(ts, parent, n);
      FirstIsEarlier(t, parent, n);
      BelowIff(t, n);
    }
  }

  lemma ForestSplits<P>(ts: seq<Tree<P>>, parent: int, n: nat)
    requires ts != [] && n < U16_COUNT
    ensures FlatForest(ts, parent, n)
            == [Entry(ts[0], parent, n)] + FlatForest(ts[0].children, AsI16(n), n + 1)
               + FlatForest(ts[1..], parent, n + Nodes(ts[0]))
    ensures |[Entry(ts[0], parent, n)] + FlatForest(ts[0].children, AsI16(n), n + 1)| == Nodes(ts[0])
    ensures NodesOf(ts) == Nodes(ts[0]) + NodesOf(ts[1..])
  {
    FlatLength(ts[0], parent, n);
  }

  lemma FirstIsEarlier<P>(t: Tree<P>, parent: int, n: nat)
    requires 0 <= parent < n
    ensures ParentsEarlier([Entry(t, parent, n)], n)
  {
  }

  lemma NodesArePositive<P>(t: Tree<P>)
    ensures Nodes(t) >= 1
  {
  }

  lemma {:induction false} BelowIff<P>(t: Tree<P>, n: nat)
    requires n + Nodes(t) <= U16_COUNT
    ensures ParentsEarlier(FlatForest(t.children, AsI16(n), n + 1), n + 1) <==> Nameable(t, n)
    decreases t, 0
  {
    var below := FlatForest(t.children, AsI16(n), n + 1);
    if t.children != [] {
      if n < I16_COUNT {
        ParentsEarlierIff(t.children, AsI16(n), n + 1);
      } else {
        FirstNamesParent(t.children, AsI16(n), n + 1);
        assert below[0].parent < 0;
      }
    }
  }

  lemma SplitParents<P>(first: seq<Flat<P>>, second: seq<Flat<P>>, n: nat)
    ensures ParentsEarlier(first + second, n) <==> ParentsEarlier(first, n) && ParentsEarlier(second, n + |first|)
  {
    var both := first + second;
    assert forall k :: 0 <= k < |first| ==> both[k] == first[k];
    forall k | 0 <= k < |second| ensures both[|first| + k] == second[k] {
    }
    if ParentsEarlier(both, n) {
      forall k | 0 <= k < |second| ensures 0 <= second[k].parent < n + |first| + k {
        assert both[|first| + k] == second[k];
      }
    }
  }

  /**
   * Entry `k` has number `k`; and all entries but the root name an earlier one as parent exactly when every node with
   * children is among the first 32768, which no tree of at most that size can miss.
   */
  lemma NumbersAndParents<P>(root: Tree<P>)
    requires Nodes(root) <= U16_COUNT
    ensures var flat := FlatTree(root, -1, 0);
            |flat| == Nodes(root) && (forall k :: 0 <= k < |flat| ==> flat[k].id == k)
            && (ParentsEarlier(flat[1..], 1) <==> Nameable(root, 0))
    ensures Nodes(root) <= I16_COUNT ==> Nameable(root, 0)
  {
    var flat := FlatTree(root, -1, 0);
    FlatLength(root, -1, 0);
    assert [root][1..] == [] && flat + [] == flat;
    assert FlatForest([root], -1, 0) == flat;
    ForestIsNumbered([root], -1, 0);
    assert flat[1..] == FlatForest(root.children, 0, 1);
    ParentsEarlierIff(root.children, 0, 1);
    if Nodes(root) <= I16_COUNT {
      SmallIsNameable(root.children, 1);
    }
  }

  lemma {:induction false} SmallIsNameable<P>(ts: seq<Tree<P>>, n: nat)
    requires n + NodesOf(ts) <= I16_COUNT
    ensures NameableForest(ts, n)
  {
    if ts != [] {
      SmallIsNameable(ts[0].children, n + 1);
      SmallIsNameable(ts[1..], n + Nodes(ts[0]));
    }
  }
}
