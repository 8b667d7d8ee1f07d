/** Normalising the entries of a game manifest and rejecting those that cannot live side by side. */
module ManifestEntries {
  import opened Collections
  import opened LogicalPath
  import opened SafePath
  import opened Text

  datatype Entry = Entry(path: string, md5: string, size: nat)

  datatype EntryError = UnsafePath | PrivatePath | InvalidDigest | DuplicatePath | FileBelowFile

  /** Order of strings: by code point, which is also the order of their UTF-8 bytes. */
  predicate Less(a: string, b: string) {
    b != [] && (a == [] || a[0] < b[0] || (a[0] == b[0] && Less(a[1..], b[1..])))
  }

  lemma {:induction false} LessIsTotal(a: string, b: string)
    ensures Less(a, b) || a == b || Less(b, a)
  {
    if a != [] && b != [] && a[0] == b[0] {
      LessIsTotal(a[1..], b[1..]);
      assert a == [a[0]] + a[1..] && b == [b[0]] + b[1..];
    }
  }

  lemma {:induction false} LessIsStrict(a: string, b: string)
    requires Less(a, b)
    ensures !Less(b, a) && a != b
  {
    if a != [] && a[0] == b[0] {
      LessIsStrict(a[1..], b[1..]);
    }
  }

  lemma {:induction false} LessIsTransitive(a: string, b: string, c: string)
    requires Less(a, b) && Less(b, c)
    ensures Less(a, c)
  {
    if a != [] && a[0] == b[0] && b[0] == c[0] {
      LessIsTransitive(a[1..], b[1..], c[1..]);
    }
  }

  /** `q` continues `p` with a character below, at or above `bound`. */
  predicate Continues(p: string, q: string, at: char) {
    p + [at] <= q
  }

  /** Everything between a string and one of its continuations continues it too, with a smaller character or the same. */
  lemma {:induction false} BetweenContinues(p: string, r: string, q: string, at: char)
    requires Continues(p, q, at) && Less(p, r) && !Less(q, r)
    ensures |r| > |p| && p <= r && r[|p|] <= at
  {
    if p == [] {
      assert q[0] == at;
    } else {
      assert (p + [at])[1..] == p[1..] + [at] && p[1..] + [at] <= q[1..];
      assert p[0] == q[0];
      BetweenContinues(p[1..], r[1..], q[1..], at);
      assert p == [p[0]] + p[1..];
      assert r == [r[0]] + r[1..];
    }
  }

  lemma {:induction false} ContinuationsAreOrdered(p: string, r: string, q: string, low: char, at: char)
    requires Continues(p, r, low) && Continues(p, q, at) && low < at
    ensures Less(p, r) && Less(r, q)
  {
    if p != [] {
      assert (p + [at])[1..] == p[1..] + [at] && (p + [low])[1..] == p[1..] + [low];
      ContinuationsAreOrdered(p[1..], r[1..], q[1..], low, at);
    }
  }

  // ----- sorting

  ghost predicate Sorted(s: seq<string>) {
    forall j, k :: 0 <= j < k < |s| ==> !Less(s[k], s[j])
  }

  function Insert(p: string, s: seq<string>): (r: seq<string>)
    ensures multiset(r) == multiset(s) + multiset{p}
  {
    if s == [] || !Less(s[0], p) then [p] + s
    else assert s == [s[0]] + s[1..]; [s[0]] + Insert(p, s[1..])
  }

  function Sort(s: seq<string>): (r: seq<string>)
    ensures multiset(r) == multiset(s)
  {
    if s == [] then [] else assert s == [s[0]] + s[1..]; Insert(s[0], Sort(s[1..]))
  }

  lemma {:induction false} InsertKeepsSorted(p: string, s: seq<string>)
    requires Sorted(s)
    ensures Sorted(Insert(p, s))
  {
    var r := Insert(p, s);
    if s == [] {
    } else if Less(s[0], p) {
      var rest := Insert(p, s[1..]);
      InsertKeepsSorted(p, s[1..]);
      forall k | 0 <= k < |rest| ensures !Less(rest[k], s[0]) {
        assert rest[k] in multiset(rest);
        if rest[k] == p {
          LessIsStrict(s[0], p);
        } else {
          assert rest[k] in s[1..];
        }
      }
    } else {
      forall k | 0 <= k < |s| ensures !Less(s[k], p) {
        if Less(s[k], p) && k > 0 {
          LessIsTotal(s[0], p);
          if s[0] != p {
            LessIsTransitive(s[k], p, s[0]);
          }
        }
      }
    }
  }

  lemma {:induction false} SortSorts(s: seq<string>)
    ensures Sorted(Sort(s))
  {
    if s != [] {
      SortSorts(s[1..]);
      InsertKeepsSorted(s[0], Sort(s[1..]));
    }
  }

  // ----- what the adjacent comparison finds

  predicate Clash(p: string, q: string) {
    p == q || Continues(p, q, '/')
  }

  predicate AdjacentClash(s: seq<string>) {
    exists k :: 0 <= k < |s| - 1 && Clash(s[k], s[k + 1])
  }

  /** `p` is both a file and a directory of the manifest. */
  predicate IsDirectory(p: string, paths: seq<string>) {
    p in paths && exists q :: q in paths && Continues(p, q, '/')
  }

  /** Some path goes on from `p` with a character that sorts before the separator, such as a dot. */
  ghost predicate Shadowed(p: string, paths: seq<string>) {
    exists r, c :: r in paths && c < '/' && Continues(p, r, c)
  }

  /** Paths that can be laid out side by side, as far as the comparison of neighbours can tell. */
  ghost predicate Compatible(paths: seq<string>) {
    Distinct(paths) && forall p :: IsDirectory(p, paths) ==> Shadowed(p, paths)
  }

  lemma SortedNeighbours(s: seq<string>, j: nat, k: nat)
    requires Sorted(s) && j < k < |s| && s[j] == s[k]
    ensures s[j] == s[j + 1]
  {
    LessIsTotal(s[j], s[j + 1]);
    assert !Less(s[j + 1], s[j]);
    assert j + 1 < k ==> !Less(s[k], s[j + 1]);
  }

  lemma AdjacentIsExposed(s: seq<string>, k: nat)
    requires Sorted(s) && Distinct(s) && k + 1 < |s| && Continues(s[k], s[k + 1], '/')
    ensures IsDirectory(s[k], s) && !Shadowed(s[k], s)
  {
    assert s[k] in s && s[k + 1] in s;
    forall r, c | r in s && c < '/' ensures !Continues(s[k], r, c) {
      if Continues(s[k], r, c) {
        ContinuationsAreOrdered(s[k], r, s[k + 1], c, '/');
        var j :| 0 <= j < |s| && s[j] == r;
        LessIsStrict(s[k], r);
        LessIsStrict(r, s[k + 1]);
        assert false;
      }
    }
  }

  lemma ExposedIsAdjacent(s: seq<string>, k: nat, q: string)
    requires Sorted(s) && Distinct(s) && k < |s| && q in s && Continues(s[k], q, '/') && !Shadowed(s[k], s)
    ensures k + 1 < |s| && Continues(s[k], s[k + 1], '/')
  {
    var j :| 0 <= j < |s| && s[j] == q;
    assert Less(s[k], q) by {
      ContinuesIsLater(s[k], q);
    }
    assert j > k by {
      LessIsStrict(s[k], q);
    }
    var r := s[k + 1];
    LessIsTotal(s[k], r);
    assert !Less(r, s[k]) && r != s[k];
    assert !Less(q, r) by {
      if j == k + 1 && Less(q, r) {
        LessIsStrict(q, r);
      }
    }
    BetweenContinues(s[k], r, q, '/');
    var c := r[|s[k]|];
    assert Continues(s[k], r, c) by {
      assert r[..|s[k]| + 1] == s[k] + [c];
    }
    assert r in s;
  }

  lemma {:induction false} ContinuesIsLater(p: string, q: string)
    requires Continues(p, q, '/')
    ensures Less(p, q)
  {
    if p != [] {
      assert (p + ['/'])[1..] == p[1..] + ['/'];
      ContinuesIsLater(p[1..], q[1..]);
    }
  }

  lemma {:induction false} DistinctIsMultiplicity<T(!new)>(s: seq<T>)
    ensures Distinct(s) <==> forall x :: multiset(s)[x] <= 1
  {
    if s != [] {
      var rest := s[1..];
      assert s == [s[0]] + rest;
      DistinctIsMultiplicity(rest);
      DistinctTail(s);
      assert multiset(s) == multiset{s[0]} + multiset(rest);
      forall x ensures multiset(s)[x] == multiset(rest)[x] + if x == s[0] then 1 else 0 {
      }
      assert s[0] in rest <==> multiset(rest)[s[0]] > 0;
      assert forall x :: multiset(s)[x] >= multiset(rest)[x];
    }
  }

  lemma DistinctTail<T>(s: seq<T>)
    requires s != []
    ensures Distinct(s) <==> Distinct(s[1..]) && s[0] !in s[1..]
  {
    var rest := s[1..];
    assert forall k :: 0 <= k < |rest| ==> rest[k] == s[k + 1];
    if Distinct(rest) && s[0] !in rest {
      forall j, k | 0 <= j < k < |s| ensures s[j] != s[k] {
        assert s[k] == rest[k - 1];
        assert j > 0 ==> s[j] == rest[j - 1];
      }
    }
  }

  lemma SortedClashIff(s: seq<string>)
    requires Sorted(s)
    ensures AdjacentClash(s) <==> !Compatible(s)
  {
    hide Continues, IsDirectory, Shadowed, Sorted, Less;
    if !Distinct(s) {
      var j, k :| 0 <= j < k < |s| && s[j] == s[k];
      SortedNeighbours(s, j, k);
      assert Clash(s[j], s[j + 1]);
    } else {
      forall k | 0 <= k < |s| - 1 && Clash(s[k], s[k + 1]) ensures IsDirectory(s[k], s) && !Shadowed(s[k], s) {
        AdjacentIsExposed(s, k);
      }
      forall p | IsDirectory(p, s) && !Shadowed(p, s) ensures AdjacentClash(s) {
        DirectoryIsAdjacent(s, p);
      }
    }
  }

  lemma DirectoryIsAdjacent(s: seq<string>, p: string)
    requires Sorted(s) && Distinct(s) && IsDirectory(p, s) && !Shadowed(p, s)
    ensures AdjacentClash(s)
  {
    hide Sorted, Distinct, Shadowed;
    var q :| q in s && Continues(p, q, '/');
    var k :| 0 <= k < |s| && s[k] == p;
    ExposedIsAdjacent(s, k, q);
    assert Clash(s[k], s[k + 1]);
  }

  lemma SortKeepsMeaning(paths: seq<string>)
    ensures Distinct(Sort(paths)) <==> Distinct(paths)
    ensures forall p :: IsDirectory(p, Sort(paths)) <==> IsDirectory(p, paths)
    ensures forall p :: Shadowed(p, Sort(paths)) <==> Shadowed(p, paths)
  {
    hide Continues, Sort;
    DistinctIsMultiplicity(paths);
    DistinctIsMultiplicity(Sort(paths));
    assert forall p :: p in Sort(paths) <==> p in multiset(paths);
  }

  /**
   * Exactly what the comparison of neighbours in sorted order rejects: a path listed twice, or a file that is also a
   * directory and has no sibling that sorts between the two.
   */
  lemma NeighboursClashIff(paths: seq<string>)
    ensures AdjacentClash(Sort(paths)) <==> !Compatible(paths)
  {
    hide IsDirectory, Shadowed, AdjacentClash, Distinct;
    SortSorts(paths);
    SortedClashIff(Sort(paths));
    SortKeepsMeaning(paths);
  }

  /** A file below a file gets through when, and only when, another path sorts between them. */
  lemma ShadowedClashIsMissed()
    ensures IsDirectory("a", ["a", "a.b", "a/c"]) && Compatible(["a", "a.b", "a/c"])
  {
    var paths := ["a", "a.b", "a/c"];
    assert "a" + ['/'] <= paths[2] && "a" + ['.'] <= paths[1];
    assert Continues("a", paths[2], '/') && Continues("a", paths[1], '.');
    assert paths[0] == "a";
    forall p | IsDirectory(p, paths) ensures Shadowed(p, paths) {
      assert p in paths;
      assert |paths[1]| == 3 && |paths[2]| == 3;
    }
  }

  // ----- the operation

  /** The path is checked and written out again; the digest is put in lower case. */
  function Checked(e: Entry): Result<Entry, EntryError> {
    match Parse(e.path)
    case None => Err(UnsafePath)
    case Some(path) =>
      if IsPrivate(path) then Err(PrivatePath)
      else if !IsMd5(e.md5) then Err(InvalidDigest)
      else Ok(Entry(Joined(path), Lowercase(e.md5), e.size))
  }

  /**
   * An entry passes exactly when its path is safe and not in the private directory and its digest is 32 hexadecimal
   * digits; what is kept is the checked path written out, the digest in lower case, and the size.
   */
  lemma CheckedIff(e: Entry, f: Entry)
    ensures Checked(e) == Ok(f) <==>
      && Parse(e.path).Some? && !EqualUpToCase(Parse(e.path).value[0], ".griffr")
      && |e.md5| == 32 && (forall k :: 0 <= k < 32 ==> IsHexDigit(e.md5[k]))
      && f.path == Joined(Parse(e.path).value) && f.size == e.size
      && EqualUpToCase(f.md5, e.md5) && forall c :: c in f.md5 ==> !('A' <= c <= 'Z')
  {
    assert Parse(e.path).Some? ==> Parse(e.path).value != [];
    hide Parse, Joined, Lowercase, EqualUpToCase;
    LoweredIff(e.md5, f.md5);
    DigestIff(e.md5);
    if Parse(e.path).Some? {
      PrivateIff(Parse(e.path).value);
    }
  }

  lemma DigestIff(s: string)
    ensures IsMd5(s) <==> |s| == 32 && forall k :: 0 <= k < 32 ==> IsHexDigit(s[k])
  {
    assert forall k :: 0 <= k < |s| ==> s[k] in s;
  }

  /** `u8::is_ascii_hexdigit`. */
  predicate IsHexDigit(c: char) {
    '0' <= c <= '9' || 'a' <= c <= 'f' || 'A' <= c <= 'F'
  }

  lemma CheckedIsCanonical(e: Entry)
    ensures Checked(e).Ok? ==> Canonical(Checked(e).value.path)
  {
    if Parse(e.path).Some? {
      ParsedIsSafe(e.path);
      JoinedIsCanonical(Parse(e.path).value);
    }
  }

  function Keys(entries: seq<Entry>): (r: seq<string>)
    ensures |r| == |entries| && forall k :: 0 <= k < |r| ==> r[k] == Normalize(entries[k].path)
  {
    seq(|entries|, k requires 0 <= k < |entries| => Normalize(entries[k].path))
  }

  /** The first thing wrong with two neighbours, if any. */
  method CompareNeighbours(sorted: seq<string>) returns (r: Option<EntryError>)
    ensures r.Some? <==> AdjacentClash(sorted)
    ensures r == Some(DuplicatePath) || r == Some(FileBelowFile) || r == None
    ensures r == Some(DuplicatePath) ==> !Distinct(sorted)
    ensures r == Some(FileBelowFile) ==> exists p :: IsDirectory(p, sorted)
  {
    var k := 0;
    while k < |sorted| - 1
      invariant 0 <= k && forall j :: 0 <= j < k && j < |sorted| - 1 ==> !Clash(sorted[j], sorted[j + 1])
    {
      if sorted[k] == sorted[k + 1] {
        return Some(DuplicatePath);
      }
      if sorted[k] + "/" <= sorted[k + 1] {
        assert Continues(sorted[k], sorted[k + 1], '/');
        assert IsDirectory(sorted[k], sorted);
        return Some(FileBelowFile);
      }
      k := k + 1;
    }
    return None;
  }

  predicate AllPass(entries: seq<Entry>) {
    forall k :: 0 <= k < |entries| ==> Checked(entries[k]).Ok?
  }

  function Rewritten(entries: seq<Entry>): seq<Entry>
    requires AllPass(entries)
  {
    seq(|entries|, k requires 0 <= k < |entries| => Checked(entries[k]).value)
  }

  /**
   * Every entry is checked and rewritten, in order; then the paths are compared. Whatever is rejected as a clash is
   * one, no duplicate gets through, and a file that is also a directory gets through only when it is shadowed.
   */
  method NormalizeEntries(entries: seq<Entry>) returns (r: Result<seq<Entry>, EntryError>)
    ensures r.Ok? <==> AllPass(entries) && Compatible(Keys(Rewritten(entries)))
    ensures r.Ok? ==> r.value == Rewritten(entries)
    ensures r == Err(DuplicatePath) ==> AllPass(entries) && !Distinct(Keys(Rewritten(entries)))
    ensures r == Err(FileBelowFile) ==>
      AllPass(entries) && exists p :: IsDirectory(p, Keys(Rewritten(entries)))
  {
    var out: seq<Entry> := [];
    for k := 0 to |entries|
      invariant |out| == k && forall j :: 0 <= j < k ==> Checked(entries[j]) == Ok(out[j])
    {
      var checked := Checked(entries[k]);
      if checked.Err? {
        return Err(checked.error);
      }
      out := out + [checked.value];
    }
    assert out == Rewritten(entries);
    var keys := Keys(out);
    var sorted := Sort(keys);
    var clash := CompareNeighbours(sorted);
    NeighboursClashIff(keys);
    SortKeepsMeaning(keys);
    return if clash.Some? then Err(clash.value) else Ok(out);
  }
}
