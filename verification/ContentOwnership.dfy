/** Which files the core game owns: once when a content plan is built, and again when an integrity run is selected. */
module ContentOwnership {
  import opened Collections
  import opened LogicalPath
  import opened ManifestEntries

  /** A file claimed by the resource index; `path` is physical, `logical` is how the index names it. */
  datatype Claim = Claim(path: string, logical: string, md5: string, size: Option<nat>)

  datatype Domain = CoreGame | ResourceBaseline | LauncherMetadata

  datatype Planned = Planned(logical: string, md5: string, size: Option<nat>, domain: Domain)

  datatype OwnershipError = Rejected(error: EntryError) | DuplicateTarget | ConflictingContent

  /** Where the game is installed, and the function that tells physical paths apart. */
  datatype Place = Place(root: string, key: string -> string)

  function KeyOf(at: Place, e: Entry): string {
    at.key(at.root + "/" + e.path)
  }

  predicate AllCanonical(entries: seq<Entry>) {
    forall e :: e in entries ==> Canonical(e.path)
  }

  // ----- specification

  /** The earliest claim on a file. */
  function FirstClaim(at: Place, claims: seq<Claim>, key: string): Option<Claim> {
    if claims == [] then None
    else if at.key(claims[0].path) == key then Some(claims[0])
    else FirstClaim(at, claims[1..], key)
  }

  predicate Claimed(at: Place, claims: seq<Claim>, key: string) {
    exists c :: c in claims && at.key(c.path) == key
  }

  /** Outside the resource baseline a claim must ask for the very content the manifest asks for. */
  predicate Contradicts(e: Entry, c: Claim) {
    !IsResourceBaseline(e.path) && !IsResourceBaseline(c.logical) && !(c.md5 == e.md5 && c.size == Some(e.size))
  }

  predicate Settled(at: Place, claims: seq<Claim>, e: Entry) {
    var claim := FirstClaim(at, claims, KeyOf(at, e));
    claim.Some? ==> !Contradicts(e, claim.value)
  }

  predicate SameTarget(at: Place, e: Entry, f: Entry) {
    KeyOf(at, e) == KeyOf(at, f)
  }

  /** The first `n` manifest entries are different files. */
  ghost predicate DistinctTargets(at: Place, entries: seq<Entry>, n: nat)
    requires n <= |entries|
  {
    forall j, k :: 0 <= j < k < n ==> !SameTarget(at, entries[j], entries[k])
  }

  function DomainOf(e: Entry): Domain {
    if IsLauncherMetadata(e.path) then LauncherMetadata else CoreGame
  }

  function FromManifest(e: Entry): Planned {
    Planned(Normalize(e.path), e.md5, Some(e.size), DomainOf(e))
  }

  function FromClaim(c: Claim): Planned {
    Planned(c.logical, c.md5, c.size, ResourceBaseline)
  }

  lemma {:induction false} FirstClaimIff(at: Place, claims: seq<Claim>, key: string)
    ensures FirstClaim(at, claims, key).Some? <==> Claimed(at, claims, key)
  {
    if claims != [] {
      FirstClaimIff(at, claims[1..], key);
      assert forall c :: c in claims <==> c == claims[0] || c in claims[1..];
    }
  }

  lemma {:induction false} FirstClaimExtends(at: Place, claims: seq<Claim>, c: Claim, key: string)
    ensures FirstClaim(at, claims + [c], key)
            == if FirstClaim(at, claims, key).Some? then FirstClaim(at, claims, key)
               else if at.key(c.path) == key then Some(c) else None
  {
    if claims != [] {
      assert (claims + [c])[1..] == claims[1..] + [c];
      FirstClaimExtends(at, claims[1..], c, key);
    }
  }

  // ----- building the content plan

  /** Claim `j` is the last one on a file. */
  ghost predicate LastClaimOn(at: Place, claims: seq<Claim>, key: string, j: nat) {
    && j < |claims| && at.key(claims[j].path) == key
    && forall k :: j < k < |claims| ==> at.key(claims[k].path) != key
  }

  /** What is planned for a claimed file is what its last claim asks for. */
  ghost predicate AsClaimed(at: Place, claims: seq<Claim>, key: string, planned: Planned) {
    exists j: nat :: LastClaimOn(at, claims, key, j)
      && planned == Planned(claims[j].logical, claims[j].md5, claims[j].size, ResourceBaseline)
  }

  /** The first `n` claims have taken over their files; every other file is as the manifest left it. */
  ghost predicate Overlaid(at: Place, claims: seq<Claim>, n: nat, manifest: map<string, Planned>,
                           files: map<string, Planned>)
    requires n <= |claims|
  {
    && (forall key :: key in files <==> key in manifest || Claimed(at, claims[..n], key))
    && (forall key :: key in files && Claimed(at, claims[..n], key) ==> AsClaimed(at, claims[..n], key, files[key]))
    && (forall key :: key in manifest && !Claimed(at, claims[..n], key) ==> files[key] == manifest[key])
  }

  predicate Placed(at: Place, e: Entry, files: map<string, Planned>) {
    KeyOf(at, e) in files && files[KeyOf(at, e)] == FromManifest(e)
  }

  predicate Targets(at: Place, e: Entry, key: string) {
    KeyOf(at, e) == key
  }

  /** What the plan holds once the first `n` manifest entries have been placed, and nothing else. */
  ghost predicate PlacedEntries(at: Place, entries: seq<Entry>, n: nat, files: map<string, Planned>)
    requires n <= |entries|
  {
    && (forall j :: 0 <= j < n ==> Placed(at, entries[j], files))
    && (forall key :: key in files ==> exists j :: 0 <= j < n && Targets(at, entries[j], key))
  }

  lemma PlaceOne(at: Place, entries: seq<Entry>, n: nat, files: map<string, Planned>)
    requires n < |entries| && PlacedEntries(at, entries, n, files) && KeyOf(at, entries[n]) !in files
    ensures PlacedEntries(at, entries, n + 1, files[KeyOf(at, entries[n]) := FromManifest(entries[n])])
  {
    hide Placed, Targets;
    var key := KeyOf(at, entries[n]);
    var more := files[key := FromManifest(entries[n])];
    forall j | 0 <= j < n + 1 ensures Placed(at, entries[j], more) {
      assert j < n ==> Placed(at, entries[j], files);
      StaysPlaced(at, entries[j], entries[n], files);
    }
    forall k | k in more ensures exists j :: 0 <= j < n + 1 && Targets(at, entries[j], k) {
      ItsTarget(at, entries[n]);
      if k != key {
        var j :| 0 <= j < n && Targets(at, entries[j], k);
      }
    }
  }

  lemma ItsTarget(at: Place, e: Entry)
    ensures Targets(at, e, KeyOf(at, e))
  {
  }

  lemma StaysPlaced(at: Place, e: Entry, f: Entry, files: map<string, Planned>)
    requires e == f || (Placed(at, e, files) && KeyOf(at, f) !in files)
    ensures Placed(at, e, files[KeyOf(at, f) := FromManifest(f)])
  {
  }

  lemma OccupiedIffRepeated(at: Place, entries: seq<Entry>, n: nat, files: map<string, Planned>)
    requires n < |entries| && DistinctTargets(at, entries, n) && PlacedEntries(at, entries, n, files)
    ensures KeyOf(at, entries[n]) in files <==> !DistinctTargets(at, entries, n + 1)
  {
    hide FromManifest;
    var key := KeyOf(at, entries[n]);
    if key in files {
      var j :| 0 <= j < n && Targets(at, entries[j], key);
      assert SameTarget(at, entries[j], entries[n]);
    } else {
      forall j | 0 <= j < n ensures !SameTarget(at, entries[j], entries[n]) {
        assert Placed(at, entries[j], files);
      }
    }
  }

  method PlaceEntries(at: Place, entries: seq<Entry>) returns (r: Result<map<string, Planned>, OwnershipError>)
    ensures r.Ok? <==> DistinctTargets(at, entries, |entries|)
    ensures r.Ok? ==> PlacedEntries(at, entries, |entries|, r.value)
    ensures r.Err? ==> r.error == DuplicateTarget
  {
    hide FromManifest, KeyOf, SameTarget, Placed, Targets;
    var files: map<string, Planned> := map[];
    for i := 0 to |entries|
      invariant DistinctTargets(at, entries, i) && PlacedEntries(at, entries, i, files)
    {
      OccupiedIffRepeated(at, entries, i, files);
      if KeyOf(at, entries[i]) in files {
        return Err(DuplicateTarget);
      }
      PlaceOne(at, entries, i, files);
      files := files[KeyOf(at, entries[i]) := FromManifest(entries[i])];
    }
    return Ok(files);
  }

  /** What is checked before a claim takes over a planned file. */
  predicate Clashes(previous: Planned, claim: Claim) {
    var baseline :=
      previous.domain.ResourceBaseline? || IsResourceBaseline(claim.logical) || IsResourceBaseline(previous.logical);
    !baseline && (previous.md5 != claim.md5 || previous.size != claim.size)
  }

  ghost predicate AllSettled(at: Place, claims: seq<Claim>, entries: seq<Entry>) {
    forall e :: e in entries ==> Settled(at, claims, e)
  }

  lemma BaselineOfNormalized(path: string)
    requires Canonical(path)
    ensures IsResourceBaseline(Normalize(path)) == IsResourceBaseline(path)
  {
    CanonicalNormalizes(path);
  }

  /** The comparison with what is planned so far is the comparison of the first claim with the manifest entry. */
  lemma ClashIffFirstContradicts(at: Place, entries: seq<Entry>, e: Entry, claims: seq<Claim>, n: nat,
                                 manifest: map<string, Planned>, files: map<string, Planned>)
    requires e in entries && AllCanonical(entries) && PlacedEntries(at, entries, |entries|, manifest)
    requires n < |claims| && Overlaid(at, claims, n, manifest, files) && KeyOf(at, e) == at.key(claims[n].path)
    ensures KeyOf(at, e) in files
    ensures Clashes(files[KeyOf(at, e)], claims[n])
            <==> FirstClaim(at, claims[..n], KeyOf(at, e)).None? && Contradicts(e, claims[n])
  {
    hide IsResourceBaseline, Normalize;
    FirstClaimIff(at, claims[..n], KeyOf(at, e));
    BaselineOfNormalized(e.path);
    var j :| 0 <= j < |entries| && entries[j] == e;
    assert Placed(at, entries[j], manifest);
  }

  lemma SettledStep(at: Place, e: Entry, claims: seq<Claim>, n: nat)
    requires n < |claims|
    ensures Settled(at, claims[..n + 1], e) <==>
      Settled(at, claims[..n], e)
      && (KeyOf(at, e) == at.key(claims[n].path) && FirstClaim(at, claims[..n], KeyOf(at, e)).None?
          ==> !Contradicts(e, claims[n]))
  {
    hide KeyOf, Contradicts;
    assert claims[..n + 1] == claims[..n] + [claims[n]];
    FirstClaimExtends(at, claims[..n], claims[n], KeyOf(at, e));
  }

  lemma {:induction false} UnsettledStays(at: Place, e: Entry, claims: seq<Claim>, n: nat)
    requires n <= |claims| && !Settled(at, claims[..n], e)
    ensures !Settled(at, claims, e)
    decreases |claims| - n
  {
    if n < |claims| {
      SettledStep(at, e, claims, n);
      UnsettledStays(at, e, claims, n + 1);
    } else {
      assert claims[..n] == claims;
    }
  }

  lemma ClaimStep(at: Place, entries: seq<Entry>, claims: seq<Claim>, n: nat, manifest: map<string, Planned>,
                  files: map<string, Planned>)
    requires AllCanonical(entries) && PlacedEntries(at, entries, |entries|, manifest)
    requires n < |claims| && Overlaid(at, claims, n, manifest, files) && AllSettled(at, claims[..n], entries)
    ensures at.key(claims[n].path) in files && Clashes(files[at.key(claims[n].path)], claims[n])
            <==> !AllSettled(at, claims[..n + 1], entries)
  {
    hide KeyOf, Clashes, Contradicts, FirstClaim, Settled;
    var key := at.key(claims[n].path);
    forall e | e in entries
      ensures !Settled(at, claims[..n + 1], e) <==> KeyOf(at, e) == key && key in files && Clashes(files[key], claims[n])
    {
      SettledStep(at, e, claims, n);
      if KeyOf(at, e) == key {
        ClashIffFirstContradicts(at, entries, e, claims, n, manifest, files);
      }
    }
    if key in files && Clashes(files[key], claims[n]) {
      ClashNeedsEntry(at, entries, claims, n, manifest, files);
      var e :| e in entries && Targets(at, e, key);
    }
  }

  lemma ClashNeedsEntry(at: Place, entries: seq<Entry>, claims: seq<Claim>, n: nat, manifest: map<string, Planned>,
                        files: map<string, Planned>)
    requires PlacedEntries(at, entries, |entries|, manifest)
    requires n < |claims| && Overlaid(at, claims, n, manifest, files)
    requires at.key(claims[n].path) in files && Clashes(files[at.key(claims[n].path)], claims[n])
    ensures exists e :: e in entries && Targets(at, e, at.key(claims[n].path))
  {
    hide IsResourceBaseline, Placed, KeyOf, Claimed;
    var key := at.key(claims[n].path);
    assert !Claimed(at, claims[..n], key);
    assert key in manifest;
    var j :| 0 <= j < |entries| && Targets(at, entries[j], key);
    assert entries[j] in entries;
  }

  lemma OverlayOne(at: Place, claims: seq<Claim>, n: nat, manifest: map<string, Planned>, files: map<string, Planned>)
    requires n < |claims| && Overlaid(at, claims, n, manifest, files)
    ensures Overlaid(at, claims, n + 1, manifest, files[at.key(claims[n].path) := FromClaim(claims[n])])
  {
    var before, after := claims[..n], claims[..n + 1];
    var more := files[at.key(claims[n].path) := FromClaim(claims[n])];
    assert after == before + [claims[n]];
    forall key
      ensures Claimed(at, after, key) <==> Claimed(at, before, key) || at.key(claims[n].path) == key
    {
      assert forall c :: c in after <==> c in before || c == claims[n];
    }
    forall key | key in more && Claimed(at, after, key) ensures AsClaimed(at, after, key, more[key]) {
      if at.key(claims[n].path) == key {
        assert LastClaimOn(at, after, key, n);
      } else {
        var j: nat :| LastClaimOn(at, before, key, j)
          && files[key] == Planned(before[j].logical, before[j].md5, before[j].size, ResourceBaseline);
        assert LastClaimOn(at, after, key, j);
      }
    }
  }

  /** A claim is compared with the manifest entry it displaces, but not with an earlier claim. */
  method AddClaims(at: Place, entries: seq<Entry>, claims: seq<Claim>, manifest: map<string, Planned>)
    returns (r: Result<map<string, Planned>, OwnershipError>)
    requires AllCanonical(entries) && PlacedEntries(at, entries, |entries|, manifest)
    ensures r.Ok? <==> AllSettled(at, claims, entries)
    ensures r.Ok? ==> Overlaid(at, claims, |claims|, manifest, r.value)
    ensures r.Err? ==> r.error == ConflictingContent
  {
    hide Settled, PlacedEntries, AllCanonical, FromClaim, Clashes, Claimed;
    var files := manifest;
    NothingClaimed(at, entries, claims, manifest);
    for i := 0 to |claims|
      invariant Overlaid(at, claims, i, manifest, files) && AllSettled(at, claims[..i], entries)
    {
      ClaimStep(at, entries, claims, i, manifest, files);
      var key := at.key(claims[i].path);
      if key in files && Clashes(files[key], claims[i]) {
        var e :| e in entries && !Settled(at, claims[..i + 1], e);
        UnsettledStays(at, e, claims, i + 1);
        return Err(ConflictingContent);
      }
      OverlayOne(at, claims, i, manifest, files);
      files := files[key := FromClaim(claims[i])];
    }
    assert claims[..|claims|] == claims;
    return Ok(files);
  }

  lemma NothingClaimed(at: Place, entries: seq<Entry>, claims: seq<Claim>, manifest: map<string, Planned>)
    ensures Overlaid(at, claims, 0, manifest, manifest) && AllSettled(at, claims[..0], entries)
  {
    assert claims[..0] == [];
  }

  // ----- the two computations

  datatype ContentPlan = ContentPlan(entries: seq<Entry>, claims: seq<Claim>, files: map<string, Planned>)

  lemma RewrittenIsCanonical(entries: seq<Entry>)
    requires AllPass(entries)
    ensures AllCanonical(Rewritten(entries))
  {
    hide Checked, Canonical;
    forall e | e in Rewritten(entries) ensures Canonical(e.path) {
      var k :| 0 <= k < |entries| && Checked(entries[k]).value == e;
      CheckedIsCanonical(entries[k]);
    }
  }

  /** The entries pass their own checks, are different files, and every first claim agrees with its entry. */
  ghost predicate Plannable(at: Place, entries: seq<Entry>, claims: seq<Claim>) {
    AllPass(entries) && Compatible(Keys(Rewritten(entries)))
    && DistinctTargets(at, Rewritten(entries), |entries|) && AllSettled(at, claims, Rewritten(entries))
  }

  /** The entries are normalised first; after that the plan exists exactly when nothing clashes. */
  method FromSnapshot(at: Place, entries: seq<Entry>, claims: seq<Claim>)
    returns (r: Result<ContentPlan, OwnershipError>)
    ensures r.Ok? <==> Plannable(at, entries, claims)
    ensures r.Ok? ==> r.value.entries == Rewritten(entries) && r.value.claims == claims && Accepted(at, r.value)
    ensures r.Err? && r.error.Rejected? <==> !AllPass(entries) || !Compatible(Keys(Rewritten(entries)))
  {
    hide DistinctTargets, AllSettled, PlacedEntries, Overlaid, AllCanonical, Checked, Compatible;
    var normalized := NormalizeEntries(entries);
    if normalized.Err? {
      return Err(Rejected(normalized.error));
    }
    RewrittenIsCanonical(entries);
    var manifest := PlaceEntries(at, normalized.value);
    if manifest.Err? {
      return Err(manifest.error);
    }
    var files := AddClaims(at, normalized.value, claims, manifest.value);
    if files.Err? {
      return Err(files.error);
    }
    return Ok(ContentPlan(normalized.value, claims, files.value));
  }

  /** What is known of every plan that could be built. */
  ghost predicate Accepted(at: Place, plan: ContentPlan) {
    && AllSettled(at, plan.claims, plan.entries)
    && exists manifest ::
         PlacedEntries(at, plan.entries, |plan.entries|, manifest)
         && Overlaid(at, plan.claims, |plan.claims|, manifest, plan.files)
  }

  predicate OwnedByCore(at: Place, plan: ContentPlan, e: Entry) {
    KeyOf(at, e) in plan.files && plan.files[KeyOf(at, e)].domain.CoreGame?
  }

  function CoreGameEntries(at: Place, plan: ContentPlan): seq<Entry> {
    Retained(plan.entries, e => OwnedByCore(at, plan, e))
  }

  function RemoveLauncherMetadata(entries: seq<Entry>): seq<Entry> {
    Retained(entries, (e: Entry) => !IsLauncherMetadata(e.path))
  }

  /** Entries that a claim owns are dropped; a first claim that contradicts its entry is an error. */
  method RemoveOwnedByClaims(at: Place, entries: seq<Entry>, claims: seq<Claim>)
    returns (r: Result<seq<Entry>, OwnershipError>)
    ensures r.Ok? <==> AllSettled(at, claims, entries)
    ensures r.Ok? ==> r.value == Unclaimed(at, entries, claims)
  {
    if claims == [] {
      UnclaimedByNothing(at, entries);
      return Ok(entries);
    }
    var conflict, kept: seq<Entry> := false, [];
    for i := 0 to |entries|
      invariant kept == Unclaimed(at, entries[..i], claims)
      invariant conflict <==> !AllSettled(at, claims, entries[..i])
    {
      var e := entries[i];
      var claim := FirstClaim(at, claims, KeyOf(at, e));
      assert entries[..i + 1] == entries[..i] + [e];
      SettledAppend(at, claims, entries[..i], e);
      RetainedAppend(entries[..i], e, (x: Entry) => FirstClaim(at, claims, KeyOf(at, x)).None?);
      if claim.None? {
        kept := kept + [e];
      } else if Contradicts(e, claim.value) {
        conflict := true;
      }
    }
    assert entries[..|entries|] == entries;
    return if conflict then Err(ConflictingContent) else Ok(kept);
  }

  lemma SettledAppend(at: Place, claims: seq<Claim>, entries: seq<Entry>, e: Entry)
    ensures AllSettled(at, claims, entries + [e]) <==> AllSettled(at, claims, entries) && Settled(at, claims, e)
  {
    hide Settled;
    assert forall f :: f in entries + [e] <==> f in entries || f == e;
  }

  function Unclaimed(at: Place, entries: seq<Entry>, claims: seq<Claim>): seq<Entry> {
    Retained(entries, (e: Entry) => FirstClaim(at, claims, KeyOf(at, e)).None?)
  }

  lemma {:induction false} UnclaimedByNothing(at: Place, entries: seq<Entry>)
    ensures Unclaimed(at, entries, []) == entries
  {
    if entries != [] {
      UnclaimedByNothing(at, entries[1..]);
      assert entries == [entries[0]] + entries[1..];
    }
  }

  lemma EntryIsPlaced(at: Place, entries: seq<Entry>, e: Entry, files: map<string, Planned>)
    requires PlacedEntries(at, entries, |entries|, files) && e in entries
    ensures Placed(at, e, files)
  {
    hide Placed, Targets;
    var j :| 0 <= j < |entries| && entries[j] == e;
    assert Placed(at, entries[j], files);
  }

  lemma OverlaidAt(at: Place, claims: seq<Claim>, manifest: map<string, Planned>, files: map<string, Planned>,
                   key: string)
    requires Overlaid(at, claims, |claims|, manifest, files) && key in manifest
    ensures key in files
    ensures if Claimed(at, claims, key) then AsClaimed(at, claims, key, files[key]) else files[key] == manifest[key]
  {
    hide Claimed;
    assert claims[..|claims|] == claims;
  }

  /** What is planned for a file is what its manifest entry asks for. */
  predicate AsListed(e: Entry, planned: Planned) {
    && planned.logical == Normalize(e.path) && planned.md5 == e.md5 && planned.size == Some(e.size)
    && planned.domain == if IsLauncherMetadata(e.path) then LauncherMetadata else CoreGame
  }

  /**
   * What a plan that could be built says of a file: what the last claim on it asks for, else what the one manifest entry
   * installed there does; nothing else is planned.
   */
  lemma PlanDescribes(at: Place, plan: ContentPlan, key: string)
    requires Accepted(at, plan)
    ensures key in plan.files <==>
      || (exists j :: 0 <= j < |plan.claims| && at.key(plan.claims[j].path) == key)
      || (exists k :: 0 <= k < |plan.entries| && at.key(at.root + "/" + plan.entries[k].path) == key)
    ensures if exists j :: 0 <= j < |plan.claims| && at.key(plan.claims[j].path) == key
            then AsClaimed(at, plan.claims, key, plan.files[key])
            else forall k :: 0 <= k < |plan.entries| && at.key(at.root + "/" + plan.entries[k].path) == key ==>
              AsListed(plan.entries[k], plan.files[key])
  {
    hide IsLauncherMetadata, Normalize, AllSettled;
    var manifest :| PlacedEntries(at, plan.entries, |plan.entries|, manifest)
                    && Overlaid(at, plan.claims, |plan.claims|, manifest, plan.files);
    assert plan.claims[..|plan.claims|] == plan.claims;
    assert Claimed(at, plan.claims, key) <==> exists j :: 0 <= j < |plan.claims| && at.key(plan.claims[j].path) == key;
    forall k | 0 <= k < |plan.entries| && at.key(at.root + "/" + plan.entries[k].path) == key
      ensures key in manifest && manifest[key] == FromManifest(plan.entries[k])
    {
      assert Placed(at, plan.entries[k], manifest);
    }
  }

  /** In a plan that could be built, the core game owns what is neither launcher metadata nor claimed. */
  lemma CoreIffUnclaimed(at: Place, plan: ContentPlan, e: Entry)
    requires Accepted(at, plan) && e in plan.entries
    ensures OwnedByCore(at, plan, e)
            <==> !IsLauncherMetadata(e.path) && FirstClaim(at, plan.claims, KeyOf(at, e)).None?
  {
    hide IsLauncherMetadata, AllSettled, KeyOf, FirstClaim, Normalize, PlacedEntries, Overlaid, Claimed;
    var manifest :| PlacedEntries(at, plan.entries, |plan.entries|, manifest)
                    && Overlaid(at, plan.claims, |plan.claims|, manifest, plan.files);
    EntryIsPlaced(at, plan.entries, e, manifest);
    OverlaidAt(at, plan.claims, manifest, plan.files, KeyOf(at, e));
    FirstClaimIff(at, plan.claims, KeyOf(at, e));
  }

  /**
   * The integrity run selects, in the same order, exactly the entries the content plan assigns to the core game,
   * and after a plan was built it never reports a conflict.
   */
  lemma OwnershipsAgree(at: Place, plan: ContentPlan)
    requires Accepted(at, plan)
    ensures var entries := RemoveLauncherMetadata(plan.entries);
            AllSettled(at, plan.claims, entries) && Unclaimed(at, entries, plan.claims) == CoreGameEntries(at, plan)
  {
    hide Accepted, IsLauncherMetadata, OwnedByCore, Settled;
    var keep := (e: Entry) => !IsLauncherMetadata(e.path);
    var free := (e: Entry) => FirstClaim(at, plan.claims, KeyOf(at, e)).None?;
    RetainedMembers(plan.entries, keep);
    forall e | e in plan.entries ensures OwnedByCore(at, plan, e) <==> keep(e) && free(e) {
      CoreIffUnclaimed(at, plan, e);
    }
    assert AllSettled(at, plan.claims, plan.entries) by {
      AcceptedIsSettled(at, plan);
    }
    RetainedTwice(plan.entries, keep, free, e => OwnedByCore(at, plan, e));
  }

  lemma AcceptedIsSettled(at: Place, plan: ContentPlan)
    requires Accepted(at, plan)
    ensures AllSettled(at, plan.claims, plan.entries)
  {
  }
}
