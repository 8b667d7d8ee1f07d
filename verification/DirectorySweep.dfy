/** Removing the empty directories below a root, and adding up the sizes of what it holds. */
module DirectorySweep {
  import opened Collections
  import opened SafePath

  // ----- the tree on disk

  predicate IsChild(dir: Path, p: Path) {
    |p| == |dir| + 1 && dir <= p
  }

  /** Every entry stands in a directory. */
  ghost predicate Rooted(dirs: set<Path>, others: set<Path>) {
    dirs !! others && forall p :: p in dirs + others && p != [] ==> p[..|p| - 1] in dirs
  }

  lemma {:induction false} AncestorIsDirectory(dirs: set<Path>, others: set<Path>, p: Path, d: Path)
    requires Rooted(dirs, others) && p in dirs + others && d <= p && d != p
    ensures d in dirs
    decreases |p|
  {
    var parent := p[..|p| - 1];
    if d != parent {
      AncestorIsDirectory(dirs, others, parent, d);
    }
  }

  /** A directory stays if something that cannot go away stands in it, however deep. */
  ghost predicate Anchored(anchors: set<Path>, d: Path) {
    exists a :: a in anchors && d <= a
  }

  // ----- listing the directories

  predicate Pending(stack: seq<Path>, d: Path) {
    exists s :: s in stack && s <= d
  }

  /** No directory on the stack is inside another. */
  ghost predicate Apart(stack: seq<Path>) {
    forall j, k :: 0 <= j < |stack| && 0 <= k < |stack| && j != k ==> !(stack[j] <= stack[k])
  }

  ghost predicate Inside(dirs: set<Path>, root: Path, paths: seq<Path>) {
    forall p :: p in paths ==> p in dirs && root <= p
  }

  ghost predicate Covered(dirs: set<Path>, root: Path, listed: seq<Path>, stack: seq<Path>) {
    forall d :: d in dirs && root <= d ==> d in listed || Pending(stack, d)
  }

  ghost predicate Fresh(listed: seq<Path>, stack: seq<Path>) {
    forall d :: d in listed ==> !Pending(stack, d)
  }

  /** What has been listed together with what hangs below the stack is everything below the root, once. */
  ghost predicate Listing(dirs: set<Path>, root: Path, listed: seq<Path>, stack: seq<Path>) {
    && Inside(dirs, root, listed) && Inside(dirs, root, stack)
    && Covered(dirs, root, listed, stack) && Fresh(listed, stack) && Apart(stack) && Distinct(listed)
  }

  ghost predicate ChildrenOf(dirs: set<Path>, d: Path, children: seq<Path>) {
    Distinct(children) && forall c :: c in children <==> c in dirs && IsChild(d, c)
  }

  lemma CoveredStep(dirs: set<Path>, others: set<Path>, root: Path, listed: seq<Path>, stack: seq<Path>, s: Path,
                    children: seq<Path>)
    requires Rooted(dirs, others) && Covered(dirs, root, listed, stack + [s]) && ChildrenOf(dirs, s, children)
    ensures Covered(dirs, root, listed + [s], stack + children)
  {
    forall d | d in dirs && root <= d ensures d in listed + [s] || Pending(stack + children, d) {
      if d !in listed && d != s {
        var t :| t in stack + [s] && t <= d;
        if t == s {
          var c := d[..|s| + 1];
          assert c in dirs by {
            if c != d {
              AncestorIsDirectory(dirs, others, d, c);
            }
          }
          assert c in stack + children && c <= d;
        } else {
          assert t in stack + children;
        }
      }
    }
  }

  lemma PendingBy(stack: seq<Path>, s: Path, d: Path)
    requires s in stack
    ensures s <= d ==> Pending(stack, d)
  {
  }

  lemma FreshStep(dirs: set<Path>, listed: seq<Path>, stack: seq<Path>, s: Path, children: seq<Path>)
    requires Fresh(listed, stack + [s]) && Apart(stack + [s]) && ChildrenOf(dirs, s, children)
    ensures Fresh(listed + [s], stack + children) && s !in listed
  {
    var all := stack + [s];
    assert all[|stack|] == s;
    PendingBy(all, s, s);
    forall d, t | d in listed + [s] && t in stack + children ensures !(t <= d) {
      if t in children {
        PendingBy(all, s, d);
        assert t <= d ==> s <= d && |d| > |s|;
      } else {
        var j :| 0 <= j < |stack| && stack[j] == t;
        assert all[j] == t;
        PendingBy(all, t, d);
      }
    }
  }

  lemma ApartStep(dirs: set<Path>, stack: seq<Path>, s: Path, children: seq<Path>)
    requires Apart(stack + [s]) && ChildrenOf(dirs, s, children)
    ensures Apart(stack + children)
  {
    var all, next := stack + [s], stack + children;
    assert all[|stack|] == s;
    forall j, k | 0 <= j < |next| && 0 <= k < |next| && j != k ensures !(next[j] <= next[k]) {
      if k < |stack| {
        assert next[k] == all[k] && !(s <= all[k]);
        assert j < |stack| ==> next[j] == all[j];
        assert j >= |stack| ==> next[j] in children && s <= next[j];
        PrefixesCompose(s, next[j], next[k]);
      } else if j < |stack| {
        assert next[j] == all[j] && !(all[j] <= s) && !(s <= all[j]);
        assert next[k] in children;
        PrefixesCompare(next[j], s, next[k]);
      } else {
        assert next[j] == children[j - |stack|] && next[k] == children[k - |stack|];
        assert next[j] in children && next[k] in children;
        PrefixOfSameLength(next[j], next[k]);
      }
    }
  }

  lemma PrefixesCompose(a: Path, b: Path, c: Path)
    ensures a <= b && b <= c ==> a <= c
  {
  }

  lemma PrefixOfSameLength(a: Path, b: Path)
    ensures a <= b && |a| == |b| ==> a == b
  {
  }

  lemma PrefixesCompare(t: Path, s: Path, c: Path)
    requires s <= c
    ensures t <= c ==> t <= s || s <= t
  {
    assert t <= c && |t| <= |s| ==> t == s[..|t|];
    assert t <= c && |s| <= |t| ==> s == t[..|s|];
  }

  lemma ListStep(dirs: set<Path>, others: set<Path>, root: Path, listed: seq<Path>, stack: seq<Path>, s: Path,
                 children: seq<Path>)
    requires Rooted(dirs, others) && Listing(dirs, root, listed, stack + [s]) && ChildrenOf(dirs, s, children)
    ensures Listing(dirs, root, listed + [s], stack + children)
  {
    hide Rooted, Covered, Fresh, Apart;
    CoveredStep(dirs, others, root, listed, stack, s, children);
    FreshStep(dirs, listed, stack, s, children);
    ApartStep(dirs, stack, s, children);
    assert s in stack + [s];
    forall p | p in stack ensures p in dirs && root <= p {
      assert p in stack + [s];
    }
  }

  lemma ListingStarts(dirs: set<Path>, root: Path)
    requires root in dirs
    ensures Listing(dirs, root, [], [root])
  {
    forall d | d in dirs && root <= d ensures Pending([root], d) {
      PendingBy([root], root, d);
    }
  }

  lemma ListingFits(dirs: set<Path>, root: Path, listed: seq<Path>, stack: seq<Path>)
    requires Listing(dirs, root, listed, stack)
    ensures |listed| <= |dirs|
  {
    hide Covered, Fresh, Apart;
    DistinctFits(listed, dirs);
  }

  lemma ListingEnds(dirs: set<Path>, root: Path, listed: seq<Path>)
    requires Listing(dirs, root, listed, [])
    ensures Distinct(listed) && forall d :: d in listed <==> d in dirs && root <= d
  {
    hide Fresh, Apart;
    assert forall d :: !Pending([], d);
  }

  // ----- deepest first

  ghost predicate DeepestFirst(s: seq<Path>) {
    forall j, k :: 0 <= j < k < |s| ==> |s[j]| >= |s[k]|
  }

  function Insert(p: Path, s: seq<Path>): (r: seq<Path>)
    ensures forall x :: x in r <==> x == p || x in s
  {
    if s == [] || |p| >= |s[0]| then [p] + s else [s[0]] + Insert(p, s[1..])
  }

  function ByDepth(s: seq<Path>): (r: seq<Path>)
    ensures forall x :: x in r <==> x in s
  {
    if s == [] then [] else Insert(s[0], ByDepth(s[1..]))
  }

  lemma {:induction false} InsertKeepsOrder(p: Path, s: seq<Path>)
    requires DeepestFirst(s)
    ensures DeepestFirst(Insert(p, s))
  {
    if s != [] && |p| < |s[0]| {
      InsertKeepsOrder(p, s[1..]);
      var rest := Insert(p, s[1..]);
      forall k | 0 <= k < |rest| ensures |s[0]| >= |rest[k]| {
        assert rest[k] in rest;
      }
    }
  }

  lemma {:induction false} ByDepthOrders(s: seq<Path>)
    ensures DeepestFirst(ByDepth(s))
  {
    if s != [] {
      ByDepthOrders(s[1..]);
      InsertKeepsOrder(s[0], ByDepth(s[1..]));
    }
  }

  // ----- the sweep

  /** Removing `d` was tried for the first `n` of `order`; what is not anchored is gone, everything else stands. */
  ghost predicate SweptTo(before: set<Path>, anchors: set<Path>, order: seq<Path>, n: nat, now: set<Path>)
    requires n <= |order|
  {
    forall d :: d in now <==> d in before && !(d in order[..n] && !Anchored(anchors, d))
  }

  predicate IsEmpty(dirs: set<Path>, others: set<Path>, d: Path) {
    forall p :: p in dirs + others ==> !IsChild(d, p)
  }

  /** Below `d` every directory is tried, unless it is to stay. */
  ghost predicate TriedOrStuck(before: set<Path>, stuck: set<Path>, order: seq<Path>, d: Path) {
    forall c :: c in before && IsChild(d, c) ==> c in order || c in stuck
  }

  /** When every deeper directory has been tried, a directory is empty exactly when nothing anchors it. */
  lemma EmptyIffUnanchored(before: set<Path>, others: set<Path>, stuck: set<Path>, order: seq<Path>, n: nat,
                           now: set<Path>)
    requires Rooted(before, others) && n < |order| && DeepestFirst(order) && order[n] in before && order[n] !in stuck
    requires TriedOrStuck(before, stuck, order, order[n])
    requires SweptTo(before, others + stuck * before, order, n, now)
    ensures IsEmpty(now, others, order[n]) <==> !Anchored(others + stuck * before, order[n])
  {
    var d := order[n];
    var anchors := others + stuck * before;
    if Anchored(anchors, d) {
      var a :| a in anchors && d <= a;
      assert a != d;
      var c := a[..|d| + 1];
      assert c in before + others by {
        if c != a {
          AncestorIsDirectory(before, others, a, c);
        }
      }
      assert IsChild(d, c) && c <= a;
      assert Anchored(anchors, c);
    }
    forall c | c in now + others && IsChild(d, c) ensures Anchored(anchors, d) {
      if c in anchors {
        assert d <= c;
      } else {
        DeeperIsTried(order, n, c);
        assert Anchored(anchors, c);
      }
    }
  }

  lemma DeeperIsTried(order: seq<Path>, n: nat, c: Path)
    requires n < |order| && DeepestFirst(order) && c in order && |c| > |order[n]|
    ensures c in order[..n]
  {
    var k :| 0 <= k < |order| && order[k] == c;
    assert k < n;
    assert order[..n][k] == c;
  }

  lemma SweepOne(before: set<Path>, anchors: set<Path>, order: seq<Path>, n: nat, now: set<Path>)
    requires n < |order| && SweptTo(before, anchors, order, n, now)
    ensures SweptTo(before, anchors, order, n + 1, if !Anchored(anchors, order[n]) then now - {order[n]} else now)
  {
    hide Anchored;
    assert order[..n + 1] == order[..n] + [order[n]];
  }

  lemma SweepStarts(before: set<Path>, anchors: set<Path>, order: seq<Path>)
    ensures SweptTo(before, anchors, order, 0, before)
  {
  }

  lemma StuckIsAnchored(before: set<Path>, others: set<Path>, stuck: set<Path>, d: Path)
    requires d in before
    ensures d in stuck ==> Anchored(others + stuck * before, d)
  {
    assert d in stuck ==> d in others + stuck * before && d <= d;
  }

  /** What is left is a tree again. */
  lemma SweepEnds(before: set<Path>, others: set<Path>, stuck: set<Path>, order: seq<Path>, now: set<Path>)
    requires Rooted(before, others) && SweptTo(before, others + stuck * before, order, |order|, now)
    requires forall d :: d in order ==> TriedOrStuck(before, stuck, order, d)
    ensures forall d :: d in now <==> d in before && (d in order ==> Anchored(others + stuck * before, d))
    ensures Rooted(now, others)
  {
    var anchors := others + stuck * before;
    assert order[..|order|] == order;
    forall p | p in now + others && p != [] ensures p[..|p| - 1] in now {
      var d := p[..|p| - 1];
      if d in order {
        if p in anchors {
          assert d <= p;
        } else {
          assert TriedOrStuck(before, stuck, order, d) && p in before && IsChild(d, p);
          assert Anchored(anchors, p);
        }
      }
    }
  }

  /** Goes through directories, deepest first, and removes those it finds empty, except the stuck ones. */
  method RemoveInOrder(before: set<Path>, others: set<Path>, stuck: set<Path>, order: seq<Path>) returns (now: set<Path>)
    requires Rooted(before, others) && DeepestFirst(order)
    requires forall d :: d in order ==> d in before && TriedOrStuck(before, stuck, order, d)
    ensures forall d :: d in now <==> d in before && (d in order ==> Anchored(others + stuck * before, d))
    ensures Rooted(now, others)
  {
    hide Anchored, DeepestFirst, Rooted, SweptTo, IsEmpty, TriedOrStuck;
    now := before;
    ghost var anchors := others + stuck * before;
    SweepStarts(before, anchors, order);
    for n := 0 to |order|
      invariant SweptTo(before, anchors, order, n, now)
    {
      assert order[n] in order;
      StuckIsAnchored(before, others, stuck, order[n]);
      SweepOne(before, anchors, order, n, now);
      if order[n] !in stuck {
        EmptyIffUnanchored(before, others, stuck, order, n, now);
        if IsEmpty(now, others, order[n]) {
          now := now - {order[n]};
        }
      }
    }
    SweepEnds(before, others, stuck, order, now);
  }

  lemma RootIsNoAnchor(others: set<Path>, stuck: set<Path>, before: set<Path>, root: Path, d: Path)
    requires root <= d && d != root
    ensures Anchored(others + (stuck + {root}) * before, d) <==> Anchored(others + stuck * before, d)
  {
    var few, more := others + stuck * before, others + (stuck + {root}) * before;
    if a :| a in more && d <= a {
      assert a in few;
    }
    if a :| a in few && d <= a {
      assert a in more;
    }
  }

  class Tree {
    var dirs: set<Path>
    var others: set<Path>

    ghost predicate Valid()
      reads this
    {
      Rooted(dirs, others)
    }

    constructor (dirs: set<Path>, others: set<Path>)
      requires Rooted(dirs, others)
      ensures Valid() && this.dirs == dirs && this.others == others
    {
      this.dirs, this.others := dirs, others;
    }

    /** The directories directly below one, in whatever order the file system gives them. */
    method SubDirectories(d: Path) returns (children: seq<Path>)
      ensures ChildrenOf(dirs, d, children)
    {
      children := [];
      var rest := set p | p in dirs && IsChild(d, p);
      while rest != {}
        invariant Distinct(children) && forall c :: c in children ==> c !in rest
        invariant forall c :: c in children || c in rest <==> c in dirs && IsChild(d, c)
      {
        var c :| c in rest;
        children, rest := children + [c], rest - {c};
      }
    }

    method ListDirectories(root: Path) returns (listed: seq<Path>)
      requires Valid() && root in dirs
      ensures Distinct(listed) && forall d :: d in listed <==> d in dirs && root <= d
    {
      hide Rooted, Inside, Covered, Fresh, Apart, IsChild, ChildrenOf;
      listed := [];
      var stack := [root];
      ListingStarts(dirs, root);
      while stack != []
        invariant Listing(dirs, root, listed, stack)
        decreases |dirs| - |listed|
      {
        var last := |stack| - 1;
        var dir := stack[last];
        assert stack == stack[..last] + [dir];
        var children := SubDirectories(dir);
        ListStep(dirs, others, root, listed, stack[..last], dir, children);
        listed, stack := listed + [dir], stack[..last] + children;
        ListingFits(dirs, root, listed, stack);
      }
      ListingEnds(dirs, root, listed);
    }

    /**
     * Afterwards every directory below the root holds, somewhere below it, an entry that is not a directory, or is or
     * holds a directory that could not be removed; no other directory is left, and nothing else has changed.
     */
    method RemoveEmptyDirs(root: Path, stuck: set<Path>)
      requires Valid()
      modifies this`dirs
      ensures Valid()
      ensures forall d :: d in dirs <==>
        d in old(dirs) && (root in old(dirs) && root <= d && d != root ==> Anchored(others + stuck * old(dirs), d))
    {
      if root !in dirs {
        return;
      }
      var listed := ListDirectories(root);
      var order := ByDepth(listed);
      ByDepthOrders(listed);
      ghost var before := dirs;
      dirs := RemoveInOrder(dirs, others, stuck + {root}, order);
      forall d | d in before && root <= d ensures d in dirs <==> d == root || Anchored(others + stuck * before, d) {
        if d == root {
          StuckIsAnchored(before, others, stuck + {root}, d);
        } else {
          RootIsNoAnchor(others, stuck, before, root, d);
        }
      }
    }
  }

  // ----- sizes

  const U64_MAX: nat := 0xFFFF_FFFF_FFFF_FFFF

  datatype Node = File(size: nat) | Link | Directory(entries: seq<Node>)

  /** Links are not followed and count nothing. */
  function Size(n: Node): nat {
    match n
    case File(size) => size
    case Link => 0
    case Directory(entries) => SizeOfAll(entries)
  }

  function SizeOfAll(nodes: seq<Node>): nat {
    if nodes == [] then 0 else Size(nodes[0]) + SizeOfAll(nodes[1..])
  }

  function Count(n: Node): nat {
    1 + if n.Directory? then CountAll(n.entries) else 0
  }

  function CountAll(nodes: seq<Node>): nat {
    if nodes == [] then 0 else Count(nodes[0]) + CountAll(nodes[1..])
  }

  lemma {:induction false} AppendNode(nodes: seq<Node>, n: Node)
    ensures SizeOfAll(nodes + [n]) == SizeOfAll(nodes) + Size(n)
    ensures CountAll(nodes + [n]) == CountAll(nodes) + Count(n)
  {
    if nodes == [] {
      assert [n][1..] == [];
    } else {
      assert (nodes + [n])[1..] == nodes[1..] + [n];
      AppendNode(nodes[1..], n);
    }
  }

  function Saturated(n: nat): nat {
    if n < U64_MAX then n else U64_MAX
  }

  ghost predicate OnlyDirectories(nodes: seq<Node>) {
    forall d :: d in nodes ==> d.Directory?
  }

  /** The size found so far together with what the worklist still holds. */
  function Reckoned(total: nat, pending: seq<Node>): nat {
    Saturated(total + SizeOfAll(pending))
  }

  /** One directory is read: its directories join the worklist, its files are counted. */
  method ReadDirectory(found: seq<Node>, worklist: seq<Node>, before: nat) returns (pending: seq<Node>, total: nat)
    requires OnlyDirectories(worklist) && before <= U64_MAX
    ensures OnlyDirectories(pending) && total <= U64_MAX
    ensures Reckoned(total, pending) == Saturated(before + SizeOfAll(worklist) + SizeOfAll(found))
    ensures CountAll(pending) <= CountAll(worklist) + CountAll(found)
  {
    pending, total := worklist, before;
    assert found[0..] == found;
    for k := 0 to |found|
      invariant OnlyDirectories(pending) && total <= U64_MAX
      invariant Saturated(total + SizeOfAll(pending) + SizeOfAll(found[k..]))
                == Saturated(before + SizeOfAll(worklist) + SizeOfAll(found))
      invariant CountAll(pending) + CountAll(found[k..]) <= CountAll(worklist) + CountAll(found)
    {
      assert found[k..][0] == found[k] && found[k..][1..] == found[k + 1..];
      if found[k].Directory? {
        AppendNode(pending, found[k]);
        pending := pending + [found[k]];
      } else if found[k].File? {
        total := Saturated(total + found[k].size);
      }
    }
    assert found[|found|..] == [];
  }

  /** The worklist ends with the size of the whole tree, or the largest `u64` if that is less. */
  method DirectorySize(entries: Option<seq<Node>>) returns (total: nat)
    ensures total == if entries.Some? then Saturated(SizeOfAll(entries.value)) else 0
  {
    if entries.None? {
      return 0;
    }
    total := 0;
    var pending := [Directory(entries.value)];
    AppendNode([], pending[0]);
    assert [] + pending == pending;
    while pending != []
      invariant OnlyDirectories(pending) && total <= U64_MAX
      invariant Reckoned(total, pending) == Saturated(SizeOfAll(entries.value))
      decreases CountAll(pending)
    {
      var last := |pending| - 1;
      var directory := pending[last];
      assert directory in pending && pending == pending[..last] + [directory];
      AppendNode(pending[..last], directory);
      pending, total := ReadDirectory(directory.entries, pending[..last], total);
    }
  }
}
