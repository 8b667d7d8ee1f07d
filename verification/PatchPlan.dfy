/** The patch plan: paths, entries, and the shape `PatchPlan::validate` accepts. */
module PatchPlan {
  import opened Collections
  import opened SafePath
  import opened Text

  const PATCH_STAGE_DIR := "vfs_files"
  const PATCH_MANIFEST_NAME := "patch.json"
  const DELETE_FILES_MANIFEST_NAME := "delete_files.txt"
  const SCHEMA_VERSION := 2

  datatype Source =
    | AlreadyPresent
    | Local(payload: Path)
    | Hdiff(base: Path, payload: Path, baseMd5: string, baseSize: nat)

  /** `name` is what the name of the entry is checked down to, `written` what joining it unchecked amounts to. */
  datatype Entry = Entry(name: Path, written: Path, destination: Path, md5: string, size: nat, source: Source)

  datatype Plan = Plan(
    schemaVersion: nat,
    installRoot: Path,
    stageRoot: Path,
    vfsBase: Path,
    vfsDestination: Path,
    workDir: Option<Path>,
    entries: seq<Entry>,
    deletePaths: seq<Path>,
    deferredPaths: seq<Path>)
  {
    /** Where the game itself looks for the VFS; a link to `vfsDestination` when assets live elsewhere. */
    function LogicalRoot(): Path {
      installRoot + vfsBase
    }

    /** Where an entry's output is taken to be under the logical root, its name being joined unchecked. */
    function LogicalOutput(e: Entry): Path {
      JoinWritten(LogicalRoot(), e.written)
    }

    /** The two names under which an entry's output is replaced. */
    function Aliases(i: nat): set<Path>
      requires i < |entries|
    {
      {entries[i].destination, LogicalOutput(entries[i])}
    }

    /** Where a delete path lives on disk. */
    function PhysicalDelete(relative: Path): Path {
      if vfsDestination != LogicalRoot() && vfsBase <= relative then
        vfsDestination + relative[|vfsBase|..]
      else
        installRoot + relative
    }
  }

  predicate IsAbsolute(p: Path) {
    p != [] && p[0] == ROOT
  }

  predicate ValidSource(plan: Plan, source: Source) {
    match source
    case AlreadyPresent => true
    case Local(payload) => SafeRelative(payload)
    case Hdiff(base, payload, baseMd5, baseSize) =>
      plan.vfsDestination <= base && SafeRelative(payload) && !Blank(baseMd5) && baseSize > 0
  }

  predicate ValidEntry(plan: Plan, entry: Entry) {
    && SafeRelative(entry.name)
    && !Blank(entry.md5) && entry.size > 0
    && entry.destination == plan.vfsDestination + entry.name
    && ValidSource(plan, entry.source)
  }

  predicate ValidRoots(plan: Plan) {
    && plan.schemaVersion == SCHEMA_VERSION
    && IsAbsolute(plan.installRoot) && IsAbsolute(plan.stageRoot) && IsAbsolute(plan.vfsDestination)
    && (plan.workDir.Some? ==> IsAbsolute(plan.workDir.value))
    && !(plan.stageRoot <= plan.installRoot)
    && SafeRelative(plan.vfsBase)
  }

  predicate ValidDelete(plan: Plan, relative: Path) {
    && SafeRelative(relative) && !IsPrivate(relative)
    && forall e :: e in plan.entries ==> plan.installRoot + relative != plan.LogicalOutput(e)
  }

  ghost predicate Valid(plan: Plan) {
    && ValidRoots(plan)
    && (forall i :: 0 <= i < |plan.entries| ==> ValidEntry(plan, plan.entries[i]))
    && (forall i, j :: 0 <= i < j < |plan.entries| ==> plan.entries[i].name != plan.entries[j].name)
    && (forall k :: 0 <= k < |plan.deletePaths| ==> ValidDelete(plan, plan.deletePaths[k]))
    && Distinct(plan.deletePaths)
    && (forall k :: 0 <= k < |plan.deferredPaths| ==>
          SafeRelative(plan.deferredPaths[k]) && !IsPrivate(plan.deferredPaths[k]))
  }

  lemma JoinInjective(root: Path, a: Path, b: Path)
    requires root + a == root + b
    ensures a == b
  {
    assert a == (root + a)[|root|..];
    assert b == (root + b)[|root|..];
  }

  // ----- what is accepted, spelled out

  predicate Rooted(p: Path) {
    p != [] && p[0] == "/"
  }

  /** Every root is absolute, and removing the staging area never removes the install. */
  ghost predicate RootsFit(plan: Plan) {
    && plan.schemaVersion == 2
    && Rooted(plan.installRoot) && Rooted(plan.stageRoot) && Rooted(plan.vfsDestination)
    && (plan.workDir == None || Rooted(plan.workDir.value))
    && (forall below: Path :: plan.installRoot != plan.stageRoot + below)
    && SafeRelative(plan.vfsBase)
  }

  /** Outputs lie in the tree at their names, and so do the bases that are read. */
  ghost predicate EntryFits(plan: Plan, e: Entry) {
    && SafeRelative(e.name) && e.destination == plan.vfsDestination + e.name
    && Trim(e.md5) != "" && e.size >= 1
    && (e.source.Local? ==> SafeRelative(e.source.payload))
    && (e.source.Hdiff? ==>
          && SafeRelative(e.source.payload) && Trim(e.source.baseMd5) != "" && e.source.baseSize >= 1
          && exists below: Path :: e.source.base == plan.vfsDestination + below)
  }

  /** No delete path repeats, touches the private directory, or is what joining the name of an entry gives. */
  ghost predicate DeletesFit(plan: Plan) {
    && (forall j, k :: 0 <= j < k < |plan.deletePaths| ==> plan.deletePaths[j] != plan.deletePaths[k])
    && forall r :: r in plan.deletePaths ==>
         && SafeRelative(r) && !EqualUpToCase(r[0], ".griffr")
         && forall e :: e in plan.entries ==>
              plan.installRoot + r !=
                if e.written != [] && e.written[0] == "/" then e.written else plan.installRoot + plan.vfsBase + e.written
  }

  lemma PrefixIff(p: Path, q: Path)
    ensures p <= q <==> exists below: Path :: q == p + below
  {
    if p <= q {
      assert q == p + q[|p|..];
    }
  }

  lemma BlankIff(s: string)
    ensures Blank(s) <==> Trim(s) == ""
  {
    var before, after := TrimKeepsMiddle(s);
  }

  lemma EntryFitsIff(plan: Plan, e: Entry)
    ensures EntryFits(plan, e) <==> ValidEntry(plan, e)
  {
    hide Trim, Blank, SafeRelative;
    BlankIff(e.md5);
    if e.source.Hdiff? {
      BlankIff(e.source.baseMd5);
      PrefixIff(plan.vfsDestination, e.source.base);
    }
  }

  lemma DeletesFitIff(plan: Plan)
    ensures DeletesFit(plan) <==>
      (forall k :: 0 <= k < |plan.deletePaths| ==> ValidDelete(plan, plan.deletePaths[k])) && Distinct(plan.deletePaths)
  {
    hide IsPrivate, SafeComponent, EqualUpToCase;
    forall r | r in plan.deletePaths && r != [] ensures IsPrivate(r) <==> EqualUpToCase(r[0], ".griffr") {
      PrivateIff(r);
    }
    if DeletesFit(plan) {
      forall k | 0 <= k < |plan.deletePaths| ensures ValidDelete(plan, plan.deletePaths[k]) {
        assert plan.deletePaths[k] in plan.deletePaths;
      }
    }
  }

  /** What makes a plan acceptable. */
  lemma AcceptedIff(plan: Plan)
    ensures Valid(plan) <==>
      && RootsFit(plan) && DeletesFit(plan) && (forall e :: e in plan.entries ==> EntryFits(plan, e))
      && (forall i, j :: 0 <= i < j < |plan.entries| ==> plan.entries[i].name != plan.entries[j].name)
      && (forall r :: r in plan.deferredPaths ==> SafeRelative(r) && !EqualUpToCase(r[0], ".griffr"))
  {
    hide SafeComponent, IsPrivate, EqualUpToCase, ValidEntry, EntryFits, ValidDelete, DeletesFit;
    forall e ensures EntryFits(plan, e) <==> ValidEntry(plan, e) {
      EntryFitsIff(plan, e);
    }
    forall r: Path | r != [] ensures IsPrivate(r) <==> EqualUpToCase(r[0], ".griffr") {
      PrivateIff(r);
    }
    PrefixIff(plan.stageRoot, plan.installRoot);
    DeletesFitIff(plan);
    assert forall k :: 0 <= k < |plan.entries| ==> plan.entries[k] in plan.entries;
    assert forall k :: 0 <= k < |plan.deferredPaths| ==> plan.deferredPaths[k] in plan.deferredPaths;
  }

  /** Accepts exactly the valid plans. */
  method Validate(plan: Plan) returns (ok: bool)
    ensures ok <==> Valid(plan)
  {
    if !ValidRoots(plan) {
      return false;
    }
    var names: set<Path>, destinations: set<Path> := {}, {};
    for i := 0 to |plan.entries|
      invariant forall j :: 0 <= j < i ==> ValidEntry(plan, plan.entries[j])
      invariant names == set j | 0 <= j < i :: plan.entries[j].name
      invariant forall d :: d in destinations ==> exists n :: n in names && d == plan.vfsDestination + n
      invariant forall j, k :: 0 <= j < k < i ==> plan.entries[j].name != plan.entries[k].name
    {
      var entry := plan.entries[i];
      if !SafeRelative(entry.name) || Blank(entry.md5) || entry.size == 0 {
        return false;
      }
      if entry.name in names || entry.destination in destinations {
        forall n | plan.vfsDestination + n == plan.vfsDestination + entry.name ensures n == entry.name {
          JoinInjective(plan.vfsDestination, n, entry.name);
        }
        return false;
      }
      if entry.destination != plan.vfsDestination + entry.name || !ValidSource(plan, entry.source) {
        return false;
      }
      names, destinations := names + {entry.name}, destinations + {entry.destination};
    }
    var deletes: set<Path> := {};
    for k := 0 to |plan.deletePaths|
      invariant forall j :: 0 <= j < k ==> ValidDelete(plan, plan.deletePaths[j])
      invariant deletes == set j | 0 <= j < k :: plan.deletePaths[j]
      invariant Distinct(plan.deletePaths[..k])
    {
      var relative := plan.deletePaths[k];
      if !SafeRelative(relative) || IsPrivate(relative) || relative in deletes || !ValidDelete(plan, relative) {
        return false;
      }
      deletes := deletes + {relative};
    }
    assert plan.deletePaths[..|plan.deletePaths|] == plan.deletePaths;
    return forall k :: 0 <= k < |plan.deferredPaths| ==>
        SafeRelative(plan.deferredPaths[k]) && !IsPrivate(plan.deferredPaths[k]);
  }
}
