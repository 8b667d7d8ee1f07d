/** Result types and the few facts about finite sets and sequences that several modules share. */
module Collections {

  datatype Option<+T> = None | Some(value: T)

  /** File contents. */
  type Bytes = seq<bv8>

  datatype Result<+T, +E> = Ok(value: T) | Err(error: E)

  /** `usize::saturating_sub`. */
  function SaturatingSub(a: nat, b: nat): nat {
    if a < b then 0 else a - b
  }

  /** The members of `s` below `n` in ascending order: how a `BTreeSet` of indices is read. */
  function Ascending(n: nat, s: set<nat>): (r: seq<nat>)
    ensures forall i: nat :: i in r <==> i in s && i < n
  {
    if n == 0 then [] else if n - 1 in s then Ascending(n - 1, s) + [n - 1] else Ascending(n - 1, s)
  }

  lemma {:induction false} AscendingOrder(n: nat, s: set<nat>, j: nat, k: nat)
    requires j < k < |Ascending(n, s)|
    ensures Ascending(n, s)[j] < Ascending(n, s)[k]
  {
    var r := Ascending(n - 1, s);
    if k < |r| {
      AscendingOrder(n - 1, s, j, k);
    } else {
      assert r[j] in r;
    }
  }

  /** The set `{0, ..., n - 1}`. */
  function Below(n: nat): (r: set<nat>)
    ensures forall i: nat :: i in r <==> i < n
    ensures |r| == n
  {
    if n == 0 then {} else Below(n - 1) + {n - 1}
  }

  ghost predicate Distinct<T>(s: seq<T>) {
    forall j, k :: 0 <= j < k < |s| ==> s[j] != s[k]
  }

  lemma {:induction false} DistinctFits<T>(c: seq<T>, s: set<T>)
    requires Distinct(c)
    requires forall x :: x in c ==> x in s
    ensures |c| <= |s|
  {
    if c != [] {
      var rest := c[1..];
      forall x | x in rest ensures x in s - {c[0]} {
        var k :| 0 <= k < |rest| && rest[k] == x;
        assert rest[k] == c[k + 1];
      }
      DistinctFits(rest, s - {c[0]});
    }
  }

  lemma {:induction false} CardinalityOfDistinct<T>(c: seq<T>)
    ensures |set x | x in c| <= |c|
  {
    if c != [] {
      CardinalityOfDistinct(c[1..]);
      assert (set x | x in c) == {c[0]} + set x | x in c[1..];
    }
  }

  lemma SubsetCardinality<T>(a: set<T>, b: set<T>)
    requires a <= b
    ensures |a| <= |b|
    ensures |a| == |b| ==> a == b
  {
    assert b == a + (b - a);
    assert |b| == |a| + |b - a|;
    if a != b {
      assert b - a != {};
    }
  }

  /** A set of indices below `n` has at most `n` members, and `n` only when it holds them all. */
  lemma IndexSetSize(s: set<nat>, n: nat)
    requires forall i :: i in s ==> i < n
    ensures |s| <= n
    ensures |s| == n <==> forall i: nat :: i < n ==> i in s
  {
    SubsetCardinality(s, Below(n));
    if forall i: nat :: i < n ==> i in s {
      assert s == Below(n);
    }
  }

  /** The members of `s` that pass `keep`, in order: what `Vec::retain` leaves. */
  function Retained<T>(s: seq<T>, keep: T -> bool): seq<T> {
    if s == [] then [] else (if keep(s[0]) then [s[0]] else []) + Retained(s[1..], keep)
  }

  lemma {:induction false} RetainedAppend<T>(s: seq<T>, x: T, keep: T -> bool)
    ensures Retained(s + [x], keep) == Retained(s, keep) + if keep(x) then [x] else []
  {
    if s == [] {
      assert [x] == [x] + [];
    } else {
      assert (s + [x])[1..] == s[1..] + [x] && (s + [x])[0] == s[0];
      RetainedAppend(s[1..], x, keep);
      var head, last := if keep(s[0]) then [s[0]] else [], if keep(x) then [x] else [];
      assert head + (Retained(s[1..], keep) + last) == head + Retained(s[1..], keep) + last;
    }
  }

  lemma {:induction false} RetainedTwice<T>(s: seq<T>, first: T -> bool, second: T -> bool, both: T -> bool)
    requires forall x :: x in s ==> (both(x) <==> first(x) && second(x))
    ensures Retained(Retained(s, first), second) == Retained(s, both)
  {
    if s != [] {
      RetainedTwice(s[1..], first, second, both);
      if first(s[0]) {
        assert ([s[0]] + Retained(s[1..], first))[1..] == Retained(s[1..], first);
      } else {
        assert [] + Retained(s[1..], first) == Retained(s[1..], first);
      }
      assert s[0] in s;
    }
  }

  lemma {:induction false} RetainedMembers<T>(s: seq<T>, keep: T -> bool)
    ensures forall x :: x in Retained(s, keep) <==> x in s && keep(x)
  {
    if s != [] {
      RetainedMembers(s[1..], keep);
      assert forall x :: x in s <==> x == s[0] || x in s[1..];
    }
  }
}
