/** Removing the files a YoStar release no longer lists: first those in the way of its layout, later the rest. */
module ObsoleteCleanup {
  import opened Collections
  import opened LogicalPath
  import opened SafePath
  import opened Text
  import opened DirectorySweep

  /** `hash` is the CRC-64/XZ of the file. */
  datatype FileEntry = FileEntry(path: string, size: nat, hash: nat)

  type Manifest = seq<FileEntry>

  /** The checksum, as a function of the contents. */
  type Crc = Bytes -> nat

  datatype Summary = Summary(removed: nat, retained: nat)

  datatype CleanupError = InvalidManifest | ModifiedFileBlocks(entry: FileEntry)

  // ----- manifests

  predicate EntryValid(e: FileEntry) {
    Parse(e.path).Some? && !IsPrivate(Parse(e.path).value) && !IsLauncherMetadata(e.path)
  }

  predicate SameKey(e: FileEntry, f: FileEntry) {
    Normalize(e.path) == Normalize(f.path)
  }

  ghost predicate ManifestValid(m: Manifest) {
    && (forall k :: 0 <= k < |m| ==> EntryValid(m[k]))
    && (forall j, k :: 0 <= j < k < |m| ==> !SameKey(m[j], m[k]))
  }

  method ValidateManifest(m: Manifest) returns (ok: bool)
    ensures ok <==> ManifestValid(m)
  {
    hide EntryValid, Normalize;
    var paths: set<string> := {};
    for k := 0 to |m|
      invariant forall p :: p in paths <==> exists j :: 0 <= j < k && Normalize(m[j].path) == p
      invariant forall j :: 0 <= j < k ==> EntryValid(m[j])
      invariant forall i, j :: 0 <= i < j < k ==> !SameKey(m[i], m[j])
    {
      if !EntryValid(m[k]) {
        return false;
      }
      if Normalize(m[k].path) in paths {
        var j :| 0 <= j < k && Normalize(m[j].path) == Normalize(m[k].path);
        assert SameKey(m[j], m[k]);
        return false;
      }
      paths := paths + {Normalize(m[k].path)};
    }
    return true;
  }

  // ----- which entries a pass handles

  /** Listed by the installed release but not by the new one. */
  predicate Obsolete(target: Manifest, e: FileEntry) {
    forall t :: t in target ==> !SameKey(e, t)
  }

  /** One of the two would have to be a directory for the other to exist. */
  predicate InTheWay(e: FileEntry, t: FileEntry) {
    Normalize(e.path) + "/" <= Normalize(t.path) || Normalize(t.path) + "/" <= Normalize(e.path)
  }

  predicate Blocks(target: Manifest, e: FileEntry) {
    exists t :: t in target && InTheWay(e, t)
  }

  predicate Handled(target: Manifest, blockingOnly: bool, e: FileEntry) {
    Obsolete(target, e) && Blocks(target, e) == blockingOnly
  }

  // ----- what a pass does to the files

  type Files = map<Path, Bytes>

  /** Where the file of an entry lies below the install root. */
  function PlaceOf(e: FileEntry): Path {
    if Parse(e.path).Some? then Parse(e.path).value else []
  }

  predicate Present(files: Files, e: FileEntry) {
    PlaceOf(e) in files
  }

  predicate Fits(crc: Crc, e: FileEntry, content: Bytes) {
    |content| == e.size && crc(content) == e.hash
  }

  /** The file at the entry's place is still the one its manifest describes. */
  predicate Intact(crc: Crc, files: Files, e: FileEntry) {
    Present(files, e) && Fits(crc, e, files[PlaceOf(e)])
  }

  predicate Removes(crc: Crc, files: Files, target: Manifest, blockingOnly: bool, e: FileEntry, p: Path) {
    Handled(target, blockingOnly, e) && Intact(crc, files, e) && PlaceOf(e) == p
  }

  predicate Doomed(crc: Crc, files: Files, current: Manifest, target: Manifest, blockingOnly: bool, p: Path) {
    exists e :: e in current && Removes(crc, files, target, blockingOnly, e, p)
  }

  /** The intact files of the entries the pass handles are gone, every other file is untouched. */
  ghost predicate Swept(crc: Crc, files: Files, current: Manifest, target: Manifest, blockingOnly: bool, left: Files) {
    && (forall p :: p in left <==> p in files && !Doomed(crc, files, current, target, blockingOnly, p))
    && (forall p :: p in left ==> left[p] == files[p])
  }

  ghost predicate Cleared(entries: Manifest, target: Manifest, blockingOnly: bool, files: Files) {
    forall e :: e in entries && Handled(target, blockingOnly, e) ==> !Present(files, e)
  }

  ghost predicate DistinctPlaces(m: Manifest) {
    forall j, k :: 0 <= j < k < |m| ==> PlaceOf(m[j]) != PlaceOf(m[k])
  }

  /** The handled entries whose files are still there. */
  function LeftBehind(m: Manifest, target: Manifest, blockingOnly: bool, files: Files): Manifest {
    Retained(m, (e: FileEntry) => Handled(target, blockingOnly, e) && Present(files, e))
  }

  /** The files after the pass has come to one more entry. */
  function Handle(crc: Crc, target: Manifest, blockingOnly: bool, files: Files, e: FileEntry): Files {
    if Handled(target, blockingOnly, e) && Intact(crc, files, e) then files - {PlaceOf(e)} else files
  }

  /** A pass for files in the way refuses to go on at one that has been modified. */
  predicate Stops(crc: Crc, target: Manifest, blockingOnly: bool, files: Files, e: FileEntry) {
    blockingOnly && Handled(target, blockingOnly, e) && Present(files, e) && !Intact(crc, files, e)
  }

  /** What a pass over `entries` leaves, whether it comes to its end or stops. */
  function AfterPass(crc: Crc, target: Manifest, blockingOnly: bool, files: Files, entries: Manifest): Files
    decreases |entries|
  {
    if entries == [] || Stops(crc, target, blockingOnly, files, entries[0]) then files
    else AfterPass(crc, target, blockingOnly, Handle(crc, target, blockingOnly, files, entries[0]), entries[1..])
  }

  lemma PassStep(crc: Crc, target: Manifest, blockingOnly: bool, files: Files, entries: Manifest, i: nat)
    requires i < |entries|
    ensures AfterPass(crc, target, blockingOnly, files, entries[i..]) ==
            var e := entries[i];
            if Stops(crc, target, blockingOnly, files, e) then files
            else AfterPass(crc, target, blockingOnly, Handle(crc, target, blockingOnly, files, e), entries[i + 1..])
  {
    assert entries[i..][1..] == entries[i + 1..];
  }

  lemma SweepStep(crc: Crc, files: Files, current: Manifest, target: Manifest, blockingOnly: bool, i: nat, left: Files)
    requires i < |current| && Swept(crc, files, current[..i], target, blockingOnly, left)
    ensures Swept(crc, files, current[..i + 1], target, blockingOnly, Handle(crc, target, blockingOnly, left, current[i]))
  {
    hide Handled, PlaceOf;
    var e := current[i];
    assert current[..i + 1] == current[..i] + [e];
    forall p ensures Doomed(crc, files, current[..i + 1], target, blockingOnly, p) <==>
      Doomed(crc, files, current[..i], target, blockingOnly, p) || Removes(crc, files, target, blockingOnly, e, p)
    {
      assert forall f :: f in current[..i + 1] <==> f in current[..i] || f == e;
    }
  }

  lemma ClearedStep(crc: Crc, current: Manifest, target: Manifest, blockingOnly: bool, i: nat, files: Files)
    requires i < |current| && Cleared(current[..i], target, blockingOnly, files)
    requires Handled(target, blockingOnly, current[i]) ==> Present(files, current[i]) ==> Intact(crc, files, current[i])
    ensures Cleared(current[..i + 1], target, blockingOnly, Handle(crc, target, blockingOnly, files, current[i]))
  {
    hide Handled, PlaceOf;
    assert current[..i + 1] == current[..i] + [current[i]];
    assert forall f :: f in current[..i + 1] <==> f in current[..i] || f == current[i];
  }

  lemma LeftBehindStep(crc: Crc, current: Manifest, target: Manifest, blockingOnly: bool, i: nat, files: Files)
    requires i < |current| && DistinctPlaces(current)
    ensures var e := current[i];
            var after := Handle(crc, target, blockingOnly, files, e);
            |LeftBehind(current[..i + 1], target, blockingOnly, after)|
            == |LeftBehind(current[..i], target, blockingOnly, files)|
               + if Handled(target, blockingOnly, e) && Present(files, e) && !Intact(crc, files, e) then 1 else 0
  {
    hide Handled, PlaceOf;
    var e := current[i];
    var after := Handle(crc, target, blockingOnly, files, e);
    assert current[..i + 1] == current[..i] + [e];
    RetainedAppend(current[..i], e, (f: FileEntry) => Handled(target, blockingOnly, f) && Present(after, f));
    forall f | f in current[..i] ensures Present(after, f) == Present(files, f) {
      var j :| 0 <= j < i && current[j] == f;
    }
    RetainedSame(current[..i], (f: FileEntry) => Handled(target, blockingOnly, f) && Present(after, f),
                 (f: FileEntry) => Handled(target, blockingOnly, f) && Present(files, f));
  }

  lemma {:induction false} RetainedSame<T>(s: seq<T>, first: T -> bool, second: T -> bool)
    requires forall x :: x in s ==> first(x) == second(x)
    ensures Retained(s, first) == Retained(s, second)
  {
    if s != [] {
      assert s[0] in s;
      RetainedSame(s[1..], first, second);
    }
  }

  lemma RemoveOne(crc: Crc, files: Files, e: FileEntry)
    requires Intact(crc, files, e)
    ensures |files - {PlaceOf(e)}| == |files| - 1
  {
    var p := PlaceOf(e);
    assert (files - {p}).Keys == files.Keys - {p};
    assert |files.Keys| == |files| && |(files - {p}).Keys| == |files - {p}|;
  }

  lemma NothingSwept(crc: Crc, files: Files, current: Manifest, target: Manifest, blockingOnly: bool)
    ensures Swept(crc, files, current[..0], target, blockingOnly, files)
    ensures Cleared(current[..0], target, blockingOnly, files)
    ensures LeftBehind(current[..0], target, blockingOnly, files) == []
  {
  }

  // ----- the directories files were removed from

  function Parent(p: Path): Path {
    if p == [] then [] else p[..|p| - 1]
  }

  function Vacated(before: Files, after: Files): set<Path> {
    set p | p in before && p !in after :: Parent(p)
  }

  /** Directories that files were removed from are gone unless something stays in them; all others stand. */
  ghost predicate Tidied(dirs: set<Path>, before: Files, after: Files, now: set<Path>) {
    var tried := Vacated(before, after);
    forall d :: d in now <==> d in dirs && (d in tried ==> Anchored(after.Keys + (dirs - tried), d))
  }

  method Tidy(dirs: set<Path>, ghost before: Files, after: Files, candidates: seq<Path>) returns (now: set<Path>)
    requires Rooted(dirs, before.Keys) && after.Keys <= before.Keys && [] !in before
    requires forall d :: d in candidates <==> d in Vacated(before, after)
    ensures Tidied(dirs, before, after, now) && Rooted(now, after.Keys)
  {
    hide Rooted, Parent, Anchored, ByDepth;
    var order := ByDepth(candidates);
    ByDepthOrders(candidates);
    var stuck := set d | d in dirs && d !in candidates;
    FewerFilesAreRooted(dirs, before, after);
    forall d | d in order ensures d in dirs && TriedOrStuck(dirs, stuck, order, d) {
      VacatedIsDirectory(dirs, before, after, d);
    }
    now := RemoveInOrder(dirs, after.Keys, stuck, order);
    assert stuck * dirs == dirs - Vacated(before, after);
  }

  lemma VacatedIsDirectory(dirs: set<Path>, before: Files, after: Files, d: Path)
    requires Rooted(dirs, before.Keys) && [] !in before && d in Vacated(before, after)
    ensures d in dirs
  {
    var p :| p in before && p !in after && Parent(p) == d;
    assert p in dirs + before.Keys;
  }

  class Install {
    var files: Files
    var dirs: set<Path>

    ghost predicate Valid()
      reads this
    {
      Rooted(dirs, files.Keys) && [] !in files
    }

    constructor (files: Files, dirs: set<Path>)
      requires Rooted(dirs, files.Keys) && [] !in files
      ensures Valid() && this.files == files && this.dirs == dirs
    {
      this.files, this.dirs := files, dirs;
    }

    /**
     * A pass that succeeds removes exactly the intact files it handles and the directories this has emptied, and counts
     * the modified files it keeps; a blocking pass that succeeds leaves none of its files behind. One that fails has
     * met a modified file, and has removed nothing it should not.
     */
    method Cleanup(crc: Crc, current: Manifest, target: Manifest, blockingOnly: bool)
      returns (r: Result<Summary, CleanupError>)
      requires Valid()
      modifies this
      ensures Valid()
      ensures r == Err(InvalidManifest) <==> !ManifestValid(current) || !ManifestValid(target)
      ensures r == Err(InvalidManifest) ==> files == old(files)
      ensures r != Err(InvalidManifest) ==> files == AfterPass(crc, target, blockingOnly, old(files), current)
      ensures r.Ok? ==> Swept(crc, old(files), current, target, blockingOnly, files)
      ensures r.Ok? ==> Tidied(old(dirs), old(files), files, dirs)
      ensures r.Err? ==> dirs == old(dirs)
      ensures r.Ok? && blockingOnly ==> Cleared(current, target, true, files)
      ensures r.Ok? ==> r.value.removed == |old(files)| - |files|
      ensures r.Ok? && DistinctPlaces(current) ==>
        r.value.retained == |LeftBehind(current, target, blockingOnly, files)|
      ensures r.Err? && r.error.ModifiedFileBlocks? ==>
        blockingOnly && r.error.entry in current && Handled(target, true, r.error.entry)
        && Present(files, r.error.entry) && !Intact(crc, files, r.error.entry)
      ensures r.Err? && r.error.ModifiedFileBlocks? ==>
        exists n :: 0 <= n <= |current| && Swept(crc, old(files), current[..n], target, true, files)
    {
      hide Handled, Fits, Swept, Cleared, PlaceOf, ManifestValid, DistinctPlaces, LeftBehind, Rooted, Tidied, Parent;
      var valid := ValidateManifest(current);
      if valid {
        valid := ValidateManifest(target);
      }
      if !valid {
        return Err(InvalidManifest);
      }
      var removed, retained := 0, 0;
      var candidates: seq<Path> := [];
      NothingSwept(crc, files, current, target, blockingOnly);
      assert current[0..] == current;
      for i := 0 to |current|
        invariant Swept(crc, old(files), current[..i], target, blockingOnly, files)
        invariant blockingOnly ==> Cleared(current[..i], target, true, files)
        invariant AfterPass(crc, target, blockingOnly, old(files), current)
               == AfterPass(crc, target, blockingOnly, files, current[i..])
        invariant removed == |old(files)| - |files|
        invariant files.Keys <= old(files).Keys && dirs == old(dirs)
        invariant forall d :: d in candidates <==> d in Vacated(old(files), files)
        invariant DistinctPlaces(current) ==> retained == |LeftBehind(current[..i], target, blockingOnly, files)|
      {
        var e := current[i];
        PassStep(crc, target, blockingOnly, files, current, i);
        SweepStep(crc, old(files), current, target, blockingOnly, i, files);
        if DistinctPlaces(current) {
          LeftBehindStep(crc, current, target, blockingOnly, i, files);
        }
        if Handled(target, blockingOnly, e) && !Intact(crc, files, e) && Present(files, e) && blockingOnly {
          FewerFilesAreRooted(old(dirs), old(files), files);
          return Err(ModifiedFileBlocks(e));
        }
        if blockingOnly {
          ClearedStep(crc, current, target, true, i, files);
        }
        if Handled(target, blockingOnly, e) {
          if Intact(crc, files, e) {
            RemoveOne(crc, files, e);
            VacatedByOne(old(files), files, PlaceOf(e));
            files := files - {PlaceOf(e)};
            removed := removed + 1;
            candidates := candidates + [Parent(PlaceOf(e))];
          } else if Present(files, e) {
            retained := retained + 1;
          }
        }
      }
      assert current[..|current|] == current && current[|current|..] == [];
      dirs := Tidy(dirs, old(files), files, candidates);
      return Ok(Summary(removed, retained));
    }
  }

  lemma FewerFilesAreRooted(dirs: set<Path>, before: Files, after: Files)
    requires Rooted(dirs, before.Keys) && after.Keys <= before.Keys
    ensures Rooted(dirs, after.Keys)
  {
  }

  lemma VacatedByOne(before: Files, now: Files, p: Path)
    requires now.Keys <= before.Keys && p in now
    ensures Vacated(before, now - {p}) == Vacated(before, now) + {Parent(p)}
  {
    forall d | d in Vacated(before, now) + {Parent(p)} ensures d in Vacated(before, now - {p}) {
      if d == Parent(p) {
        assert p in before && p !in now - {p};
      } else {
        var q :| q in before && q !in now && Parent(q) == d;
        assert q !in now - {p};
      }
    }
  }

  // ----- when a pass spares the new release

  /** Whatever is installed, a pass deletes no file of the new release. */
  ghost predicate SparesTargets(crc: Crc, current: Manifest, target: Manifest, blockingOnly: bool) {
    forall files, t {:trigger Present(AfterPass(crc, target, blockingOnly, files, current), t)} ::
      t in target && Present(files, t) ==> Present(AfterPass(crc, target, blockingOnly, files, current), t)
  }

  predicate HandledAt(target: Manifest, blockingOnly: bool, entries: Manifest, n: nat, p: Path) {
    n < |entries| && Handled(target, blockingOnly, entries[n]) && PlaceOf(entries[n]) == p
  }

  /** The pass comes to entry `n`, whatever lies at the place of the entry. */
  ghost predicate ComesTo(target: Manifest, blockingOnly: bool, entries: Manifest, n: nat, p: Path) {
    && HandledAt(target, blockingOnly, entries, n, p)
    && (blockingOnly ==> forall m: nat :: m < n ==> !HandledAt(target, blockingOnly, entries, m, p))
  }

  /**
   * An obsolete entry names the place of a file of the new release, some content is what it describes, and the pass
   * does not come to another entry of that place first at which it would stop.
   */
  ghost predicate Aliased(crc: Crc, current: Manifest, target: Manifest, blockingOnly: bool) {
    exists n: nat, t, content ::
      && n < |current| && ComesTo(target, blockingOnly, current, n, PlaceOf(t)) && t in target
      && Fits(crc, current[n], content)
  }

  /** A file that is gone was what the first entry that handles its place describes. */
  lemma {:induction false} LostToEntry(crc: Crc, target: Manifest, blockingOnly: bool, files: Files, entries: Manifest,
                                       p: Path)
    returns (n: nat)
    requires p in files && p !in AfterPass(crc, target, blockingOnly, files, entries)
    ensures n < |entries| && ComesTo(target, blockingOnly, entries, n, p) && Fits(crc, entries[n], files[p])
    decreases |entries|
  {
    hide Handled, PlaceOf, Fits;
    var e, rest := entries[0], entries[1..];
    var next := Handle(crc, target, blockingOnly, files, e);
    if p !in next {
      n := 0;
    } else {
      var k := LostToEntry(crc, target, blockingOnly, next, rest, p);
      n := k + 1;
      forall m: nat | m < n && blockingOnly ensures !HandledAt(target, blockingOnly, entries, m, p) {
        assert m > 0 ==> entries[m] == rest[m - 1] && !HandledAt(target, blockingOnly, rest, m - 1, p);
      }
    }
  }

  lemma {:induction false} PassOnlyRemoves(crc: Crc, target: Manifest, blockingOnly: bool, files: Files,
                                           entries: Manifest, p: Path)
    requires p in AfterPass(crc, target, blockingOnly, files, entries)
    ensures p in files && AfterPass(crc, target, blockingOnly, files, entries)[p] == files[p]
    decreases |entries|
  {
    hide Handled, PlaceOf, Fits;
    if entries != [] && !Stops(crc, target, blockingOnly, files, entries[0]) {
      PassOnlyRemoves(crc, target, blockingOnly, Handle(crc, target, blockingOnly, files, entries[0]), entries[1..], p);
    }
  }

  /** A pass that comes to an entry removes the only file there is, if that is what the entry describes. */
  lemma {:induction false} OnlyFileIsLost(crc: Crc, target: Manifest, blockingOnly: bool, entries: Manifest, n: nat,
                                          p: Path, content: Bytes)
    requires ComesTo(target, blockingOnly, entries, n, p) && Fits(crc, entries[n], content)
    ensures p !in AfterPass(crc, target, blockingOnly, map[p := content], entries)
    decreases n
  {
    hide Handled, PlaceOf, Fits;
    var files: Files := map[p := content];
    var e, rest := entries[0], entries[1..];
    var next := Handle(crc, target, blockingOnly, files, e);
    assert HandledAt(target, blockingOnly, entries, 0, p) <==> Handled(target, blockingOnly, e) && PlaceOf(e) == p;
    if p !in next {
      if p in AfterPass(crc, target, blockingOnly, next, rest) {
        PassOnlyRemoves(crc, target, blockingOnly, next, rest, p);
      }
    } else {
      assert n > 0 && next == files && rest[n - 1] == entries[n];
      forall m: nat | m < n - 1 && blockingOnly ensures !HandledAt(target, blockingOnly, rest, m, p) {
        assert !HandledAt(target, blockingOnly, entries, m + 1, p);
      }
      OnlyFileIsLost(crc, target, blockingOnly, rest, n - 1, p, content);
    }
  }

  /** Whatever is installed, a pass deletes no file of the new release if and only if it comes to no alias. */
  lemma PassSparesTargetsIff(crc: Crc, current: Manifest, target: Manifest, blockingOnly: bool)
    ensures SparesTargets(crc, current, target, blockingOnly) <==> !Aliased(crc, current, target, blockingOnly)
  {
    hide PlaceOf, AfterPass, ComesTo, Fits;
    if !Aliased(crc, current, target, blockingOnly) {
      forall files, t | t in target && Present(files, t)
        ensures Present(AfterPass(crc, target, blockingOnly, files, current), t)
      {
        if !Present(AfterPass(crc, target, blockingOnly, files, current), t) {
          var n := LostToEntry(crc, target, blockingOnly, files, current, PlaceOf(t));
        }
      }
    }
    if n: nat, t, content :|
      && n < |current| && ComesTo(target, blockingOnly, current, n, PlaceOf(t)) && t in target
      && Fits(crc, current[n], content)
    {
      OnlyFileIsLost(crc, target, blockingOnly, current, n, PlaceOf(t), content);
      assert !Present(AfterPass(crc, target, blockingOnly, map[PlaceOf(t) := content], current), t);
    }
  }

  /** Hence a pass over manifests without aliases leaves every file of the new release as it is. */
  lemma PassKeepsTargets(crc: Crc, files: Files, current: Manifest, target: Manifest, blockingOnly: bool, t: FileEntry)
    requires !Aliased(crc, current, target, blockingOnly) && t in target
    ensures var left := AfterPass(crc, target, blockingOnly, files, current);
            && (Present(left, t) <==> Present(files, t))
            && (Present(left, t) ==> left[PlaceOf(t)] == files[PlaceOf(t)])
  {
    hide PlaceOf, AfterPass, Aliased;
    PassSparesTargetsIff(crc, current, target, blockingOnly);
    if PlaceOf(t) in AfterPass(crc, target, blockingOnly, files, current) {
      PassOnlyRemoves(crc, target, blockingOnly, files, current, PlaceOf(t));
    }
  }

  /** The files a pass that comes to its end has removed. */
  lemma LostOnlyByAlias(crc: Crc, current: Manifest, target: Manifest, blockingOnly: bool, files: Files, left: Files,
                        t: FileEntry)
    requires Swept(crc, files, current, target, blockingOnly, left) && t in target
    ensures Present(files, t) && !Present(left, t) <==>
      exists e :: e in current && Removes(crc, files, target, blockingOnly, e, PlaceOf(t))
  {
    hide Handled, PlaceOf;
  }

  // ----- paths without aliases

  /** The key of the path is the key of the place it names: no component is written that does not count. */
  predicate PlainlySpelled(e: FileEntry) {
    Parse(e.path).Some? && Normalize(e.path) == Lowercase(Joined(Parse(e.path).value))
  }

  ghost predicate AllPlain(m: Manifest) {
    forall e :: e in m ==> PlainlySpelled(e)
  }

  lemma PlainPathsHaveNoAliases(crc: Crc, current: Manifest, target: Manifest, blockingOnly: bool)
    requires AllPlain(current) && AllPlain(target)
    ensures !Aliased(crc, current, target, blockingOnly)
  {
    hide Normalize, Parse, Lowercase;
    forall e, t | e in current && t in target && PlaceOf(e) == PlaceOf(t) ensures !Obsolete(target, e) {
      assert PlainlySpelled(e) && PlainlySpelled(t);
      assert SameKey(e, t);
    }
  }

  /** For plain paths, keys tell places apart as a file system without case does. */
  lemma PlainKeysTellPlaces(e: FileEntry, t: FileEntry)
    requires PlainlySpelled(e) && PlainlySpelled(t)
    ensures SameKey(e, t) <==> SamePlace(PlaceOf(e), PlaceOf(t))
    ensures InTheWay(e, t) <==> Above(PlaceOf(e), PlaceOf(t)) || Above(PlaceOf(t), PlaceOf(e))
  {
    ParsedIsSafe(e.path);
    ParsedIsSafe(t.path);
    hide Parse, Normalize, SafeRelative, Above, SamePlace, Lowercase;
    PlacesCompare(PlaceOf(e), PlaceOf(t));
    PlacesCompare(PlaceOf(t), PlaceOf(e));
  }

  ghost predicate ListsPlace(m: Manifest, p: Path) {
    exists t :: t in m && SamePlace(p, PlaceOf(t))
  }

  /** Some file of the release has to be above or below `p`. */
  ghost predicate Disturbs(m: Manifest, p: Path) {
    exists t :: t in m && (Above(p, PlaceOf(t)) || Above(PlaceOf(t), p))
  }

  lemma HandledByPlace(current: Manifest, target: Manifest, blockingOnly: bool, e: FileEntry)
    requires AllPlain(current) && AllPlain(target) && e in current
    ensures Handled(target, blockingOnly, e) <==>
      !ListsPlace(target, PlaceOf(e)) && Disturbs(target, PlaceOf(e)) == blockingOnly
  {
    hide PlainlySpelled, PlaceOf, SameKey, InTheWay, SamePlace, Above;
    forall t | t in target
      ensures SameKey(e, t) <==> SamePlace(PlaceOf(e), PlaceOf(t))
      ensures InTheWay(e, t) <==> Above(PlaceOf(e), PlaceOf(t)) || Above(PlaceOf(t), PlaceOf(e))
    {
      PlainKeysTellPlaces(e, t);
    }
  }

  /**
   * Once the blocking pass has come to its end, nothing of the old release stands where the new one needs a directory,
   * or below a place where it needs a file.
   */
  lemma BlockingPassClears(crc: Crc, current: Manifest, target: Manifest, left: Files, e: FileEntry, t: FileEntry)
    requires AllPlain(current) && AllPlain(target) && Cleared(current, target, true, left)
    requires e in current && t in target && (Above(PlaceOf(e), PlaceOf(t)) || Above(PlaceOf(t), PlaceOf(e)))
    ensures PlaceOf(e) in left ==> ListsPlace(target, PlaceOf(e))
  {
    hide AllPlain, PlaceOf, SamePlace, Above;
    HandledByPlace(current, target, true, e);
    assert Disturbs(target, PlaceOf(e));
  }

  /**
   * A pass removes a file only if the old release lists the place with the size and checksum the file has, the new one
   * does not list it, and has files above or below it in the blocking pass and none in the other; a pass that comes to
   * its end removes every such file.
   */
  lemma PassRemovesIff(crc: Crc, current: Manifest, target: Manifest, blockingOnly: bool, files: Files, left: Files,
                       p: Path)
    requires AllPlain(current) && AllPlain(target) && p in files
    requires Swept(crc, files, current, target, blockingOnly, left)
    ensures p !in left <==>
      && (exists e :: e in current && PlaceOf(e) == p && |files[p]| == e.size && crc(files[p]) == e.hash)
      && !ListsPlace(target, p) && Disturbs(target, p) == blockingOnly
  {
    hide AllPlain, PlaceOf, Handled, ListsPlace, Disturbs;
    forall e | e in current
      ensures Handled(target, blockingOnly, e) <==>
        !ListsPlace(target, PlaceOf(e)) && Disturbs(target, PlaceOf(e)) == blockingOnly
    {
      HandledByPlace(current, target, blockingOnly, e);
    }
    forall e ensures Removes(crc, files, target, blockingOnly, e, p) <==>
      Handled(target, blockingOnly, e) && PlaceOf(e) == p && |files[p]| == e.size && crc(files[p]) == e.hash
    {
    }
  }

  /** A pass that stops has not touched a file without a new one above or below it, nor one that was modified. */
  lemma StoppedPassSpares(crc: Crc, current: Manifest, target: Manifest, files: Files, p: Path)
    requires AllPlain(current) && AllPlain(target) && p in files
    requires ListsPlace(target, p) || !Disturbs(target, p)
      || forall e :: e in current && PlaceOf(e) == p ==> !(|files[p]| == e.size && crc(files[p]) == e.hash)
    ensures p in AfterPass(crc, target, true, files, current)
    ensures AfterPass(crc, target, true, files, current)[p] == files[p]
  {
    hide AllPlain, PlaceOf, Handled, ListsPlace, Disturbs, AfterPass;
    if p !in AfterPass(crc, target, true, files, current) {
      var n := LostToEntry(crc, target, true, files, current, p);
      HandledByPlace(current, target, true, current[n]);
    } else {
      PassOnlyRemoves(crc, target, true, files, current, p);
    }
  }

  /** A path in the form the check gives it is plainly spelled. */
  lemma CheckedPathIsPlain(p: Path, size: nat, hash: nat)
    requires SafeRelative(p) && Trim(Joined(p)) == Joined(p)
    ensures PlainlySpelled(FileEntry(Joined(p), size, hash))
  {
    JoinedParses(p);
    JoinedIsCanonical(p);
    CanonicalNormalizes(Joined(p));
  }

  // ----- files that no release owns

  /** Whatever is installed, a pass deletes nothing at `p` if and only if it comes to no entry there that a file fits. */
  lemma PassSparesPlaceIff(crc: Crc, current: Manifest, target: Manifest, blockingOnly: bool, p: Path)
    ensures (forall files: Files :: p in files ==> p in AfterPass(crc, target, blockingOnly, files, current)) <==>
      !exists n: nat, content ::
        n < |current| && ComesTo(target, blockingOnly, current, n, p) && Fits(crc, current[n], content)
  {
    hide AfterPass, ComesTo, Fits;
    forall files: Files | p in files && p !in AfterPass(crc, target, blockingOnly, files, current)
      ensures exists n: nat, content ::
        n < |current| && ComesTo(target, blockingOnly, current, n, p) && Fits(crc, current[n], content)
    {
      var n := LostToEntry(crc, target, blockingOnly, files, current, p);
    }
    if n: nat, content :|
      n < |current| && ComesTo(target, blockingOnly, current, n, p) && Fits(crc, current[n], content)
    {
      OnlyFileIsLost(crc, target, blockingOnly, current, n, p, content);
      assert p in map[p := content];
    }
  }

  /** An accepted manifest never lets a pass touch the private directory. */
  lemma PrivateIsSpared(crc: Crc, current: Manifest, target: Manifest, blockingOnly: bool, files: Files, p: Path)
    requires ManifestValid(current) && p in files && p != [] && EqualUpToCase(p[0], ".griffr")
    ensures p in AfterPass(crc, target, blockingOnly, files, current)
  {
    hide AfterPass, Parse, Handled, Fits;
    PrivateIff(p);
    assert forall k :: 0 <= k < |current| ==> EntryValid(current[k]) && !IsPrivate(PlaceOf(current[k]));
    if p !in AfterPass(crc, target, blockingOnly, files, current) {
      var n := LostToEntry(crc, target, blockingOnly, files, current, p);
    }
  }

  /** Nor, if its paths are plainly spelled, one of the files the launcher keeps at the root. */
  lemma MetadataIsSpared(crc: Crc, current: Manifest, target: Manifest, blockingOnly: bool, files: Files, p: Path)
    requires ManifestValid(current) && AllPlain(current) && p in files && SafeRelative(p) && IsLauncherMetadata(Joined(p))
    ensures p in AfterPass(crc, target, blockingOnly, files, current)
  {
    hide AfterPass, Parse, Handled, Fits, Normalize;
    if p !in AfterPass(crc, target, blockingOnly, files, current) {
      var n := LostToEntry(crc, target, blockingOnly, files, current, p);
      assert EntryValid(current[n]) && PlainlySpelled(current[n]);
      JoinedIsCanonical(p);
      CanonicalNormalizes(Joined(p));
    }
  }

  lemma ConfigParses()
    ensures Parse("config.ini/") == Some(["config.ini"])
  {
    assert SafeComponent("config.ini") && SafeRelative(["config.ini"]);
    assert Joined(["config.ini"]) + "/" == "config.ini/";
    hide Parse, SafeComponent, SafeRelative, Joined;
    TrailingParses(["config.ini"]);
  }

  lemma ConfigIsPublic()
    ensures !IsPrivate(["config.ini"])
  {
    assert Lowercase("config.ini")[0] == 'c' && GRIFFR_DIR[0] == '.';
  }

  lemma SingleIsValid(e: FileEntry, p: Path)
    requires Parse(e.path) == Some(p) && !IsPrivate(p) && !IsLauncherMetadata(e.path)
    ensures ManifestValid([e]) && ManifestValid([]) && PlaceOf(e) == p
  {
    hide Parse, IsPrivate, IsLauncherMetadata, Normalize;
  }

  lemma TrailingIsOrdinary()
    ensures !IsLauncherMetadata("config.ini/")
  {
    hide Normalize, Lowercase;
    CanonicalNormalizes("config.ini/");
    assert Lowercase("config.ini/")[10] == LowerChar('/') && |Lowercase("config.ini/")| == 11;
    assert |"config.ini"| == 10 && |"game_files"| == 10 && |"package_files"| == 13 && |"manifest.json"| == 13;
    assert |"game-launcher-config.json"| == 25;
  }

  /** With a separator behind it, `config.ini` is not recognised: the manifest is accepted and the file is deleted. */
  lemma MetadataMayBeDeleted(crc: Crc, e: FileEntry, content: Bytes, p: Path)
    requires e.path == "config.ini/" && p == ["config.ini"] && Fits(crc, e, content)
    ensures ManifestValid([e]) && ManifestValid([]) && p !in AfterPass(crc, [], false, map[p := content], [e])
  {
    ConfigParses();
    ConfigIsPublic();
    TrailingIsOrdinary();
    SingleIsValid(e, p);
    DeletedAlone(crc, e, content, p);
  }

  lemma DeletedAlone(crc: Crc, e: FileEntry, content: Bytes, p: Path)
    requires PlaceOf(e) == p && Fits(crc, e, content)
    ensures p !in AfterPass(crc, [], false, map[p := content], [e])
  {
    hide AfterPass, PlaceOf, Fits;
    assert HandledAt([], false, [e], 0, p);
    OnlyFileIsLost(crc, [], false, [e], 0, p, content);
  }

  // ----- the two passes of an update

  predicate NamedBy(target: Manifest, p: Path) {
    exists t :: t in target && PlaceOf(t) == p
  }

  /** Between the passes only files of the new release are written or removed. */
  ghost predicate Materialized(target: Manifest, before: Files, after: Files) {
    forall p :: !NamedBy(target, p) ==> (p in after <==> p in before) && (p in after ==> after[p] == before[p])
  }

  /**
   * Over both passes, whatever is written between them: a file of the new release is lost only to an alias, no
   * modified file is deleted, and every file only the old release lists is gone, or modified and counted as retained,
   * or it lies where the new release has a file of its own.
   */
  lemma TwoPassesSettle(crc: Crc, current: Manifest, target: Manifest, files: Files, first: Files, middle: Files,
                        last: Files)
    requires Swept(crc, files, current, target, true, first) && Cleared(current, target, true, first)
    requires Materialized(target, first, middle) && Swept(crc, middle, current, target, false, last)
    ensures forall t :: t in target && Present(middle, t) && !Present(last, t) ==>
      exists e :: e in current && Removes(crc, middle, target, false, e, PlaceOf(t))
    ensures forall e :: e in current && Obsolete(target, e) && Present(last, e) && !NamedBy(target, PlaceOf(e)) ==>
      !Intact(crc, last, e) && e in LeftBehind(current, target, false, last)
  {
    hide Swept, Materialized, Obsolete, Blocks, InTheWay, Normalize, PlaceOf;
    forall t | t in target && Present(middle, t) && !Present(last, t)
      ensures exists e :: e in current && Removes(crc, middle, target, false, e, PlaceOf(t))
    {
      LostOnlyByAlias(crc, current, target, false, middle, last, t);
    }
    forall e | e in current && Obsolete(target, e) && Present(last, e) && !NamedBy(target, PlaceOf(e))
      ensures !Intact(crc, last, e) && e in LeftBehind(current, target, false, last)
    {
      StillThere(crc, current, target, first, middle, last, e);
      RetainedMembers(current, (f: FileEntry) => Handled(target, false, f) && Present(last, f));
    }
  }

  lemma StillThere(crc: Crc, current: Manifest, target: Manifest, first: Files, middle: Files, last: Files, e: FileEntry)
    requires Cleared(current, target, true, first)
    requires Materialized(target, first, middle) && Swept(crc, middle, current, target, false, last)
    requires e in current && Obsolete(target, e) && Present(last, e) && !NamedBy(target, PlaceOf(e))
    ensures !Blocks(target, e) && !Intact(crc, last, e)
  {
    hide Obsolete, Blocks, InTheWay, Normalize, PlaceOf, NamedBy;
    var p := PlaceOf(e);
    assert p in middle && p in first;
    assert Blocks(target, e) ==> Handled(target, true, e);
    assert !Blocks(target, e) && Intact(crc, last, e) ==> Removes(crc, middle, target, false, e, p);
  }

  // ----- an alias that both manifests may contain

  lemma AliasPaths()
    ensures Parse("a/./b") == Parse("a/b") == Some(["a", "b"])
    ensures Normalize("a/./b") == "a/./b" && Normalize("a/b") == "a/b"
  {
    AliasParses();
    AliasKeys();
  }

  lemma AliasParses()
    ensures Parse("a/./b") == Parse("a/b") == Some(["a", "b"])
  {
    assert SafeComponent("a") && SafeComponent("b") && SafeRelative(["a", "b"]);
    assert "a/./b" == "a" + "/" + ("." + "/" + "b") && Joined(["a", "b"]) == "a/b";
    hide Parse;
    DottedParses("a", "b");
    NothingToTrim("a/b");
    JoinedParses(["a", "b"]);
  }

  lemma AliasKeys()
    ensures Normalize("a/./b") == "a/./b" && Normalize("a/b") == "a/b"
  {
    hide Normalize, Lowercase;
    CanonicalNormalizes("a/./b");
    CanonicalNormalizes("a/b");
    assert Lowercase("a/./b") == "a/./b" && Lowercase("a/b") == "a/b";
  }

  lemma AliasManifestsAreValid(size: nat, hash: nat)
    ensures ManifestValid([FileEntry("a/./b", size, hash)]) && ManifestValid([FileEntry("a/b", size, hash)])
  {
    AliasPaths();
    hide Parse, Normalize;
    assert Lowercase("a")[0] == 'a' && GRIFFR_DIR[0] == '.';
    assert "config.ini"[0] == 'c' && "game_files"[0] == 'g' && "package_files"[0] == 'p';
    assert "game-launcher-config.json"[0] == 'g' && "manifest.json"[0] == 'm';
  }

  /** Both manifests are accepted, and the pass deletes the file of the new release as obsolete. */
  lemma AliasedTargetIsDeleted(crc: Crc, content: Bytes, installed: FileEntry, listed: FileEntry, left: Files)
    requires installed.path == "a/./b" && listed == installed.(path := "a/b") && Fits(crc, installed, content)
    requires Swept(crc, map[PlaceOf(listed) := content], [installed], [listed], false, left)
    ensures ManifestValid([installed]) && ManifestValid([listed]) && !Present(left, listed)
  {
    AliasManifestsAreValid(installed.size, installed.hash);
    AliasFacts(installed, listed);
    hide ManifestValid, PlaceOf, SameKey, InTheWay, Swept;
    HandledIsRemoved(crc, map[PlaceOf(listed) := content], installed, listed, left);
  }

  lemma HandledIsRemoved(crc: Crc, files: Files, installed: FileEntry, listed: FileEntry, left: Files)
    requires Swept(crc, files, [installed], [listed], false, left) && Intact(crc, files, installed)
    requires !SameKey(installed, listed) && !InTheWay(installed, listed)
    ensures PlaceOf(installed) !in left
  {
    hide PlaceOf, SameKey, InTheWay;
    assert Handled([listed], false, installed);
    assert Removes(crc, files, [listed], false, installed, PlaceOf(installed));
    assert installed in [installed];
  }

  lemma AliasFacts(installed: FileEntry, listed: FileEntry)
    requires installed.path == "a/./b" && listed.path == "a/b"
    ensures PlaceOf(installed) == PlaceOf(listed) && !SameKey(installed, listed) && !InTheWay(installed, listed)
  {
    AliasPaths();
    hide Parse, Normalize;
    assert "a/./b"[2] == '.' && ("a/b" + "/")[2] == 'b' && |"a/./b"| == 5 && |"a/b"| == 3;
  }
}
