/** The persisted marker that guards an install while a change to it is unfinished. */
module InstallChange {
  import opened Collections
  import opened Text

  datatype Region = Cn | Sg | Kr | En | Jp

  datatype Target =
    | Hypergryph(game: string, region: Region, channel: string, subChannel: string)
    | Yostar(game: string, region: Region)

  datatype Kind = Install | Update | Repair

  datatype Source = FullArchive | PatchArchive | Manifest | FromRepair

  datatype ManifestIdentity = ManifestIdentity(logicalPath: string, md5: string, size: nat)

  datatype ResourceIdentity = ResourceIdentity(resVersion: string, manifests: seq<ManifestIdentity>)

  datatype Marker = Marker(
    schema: nat, kind: Kind, source: Source, target: Target, fromVersion: Option<string>, targetVersion: string,
    gameFilesMd5: Option<string>, gameFilesPath: Option<string>, payloadMd5s: seq<string>, syncVfs: bool,
    resources: Option<ResourceIdentity>, startTime: string)

  datatype ChangeError = InvalidMarker | Conflict | MarkerMissing | MarkerMismatch | LaunchBlocked

  datatype Start = New | Resume | Advance

  const SCHEMA_VERSION: nat := 4

  // ----- validation

  predicate TargetValid(t: Target) {
    match t
    case Hypergryph(_, region, _, _) => region.Cn? || region.Sg?
    case Yostar(game, region) => (region.Kr? || region.En? || region.Jp?) && game == "arknights"
  }

  predicate SourceFits(kind: Kind, source: Source) {
    match kind
    case Install => source.FullArchive? || source.Manifest?
    case Update => true
    case Repair => source.FromRepair?
  }

  predicate VersionsFit(m: Marker) {
    && !Blank(m.targetVersion)
    && (m.fromVersion.Some? ==> !Blank(m.fromVersion.value))
    && (m.kind.Update? || m.kind.Repair? ==> m.fromVersion.Some?)
    && (m.kind.Repair? ==> m.fromVersion == Some(m.targetVersion))
  }

  predicate ResourcesValid(r: ResourceIdentity) {
    !Blank(r.resVersion) && forall f :: f in r.manifests ==> !Blank(f.logicalPath) && IsMd5(f.md5)
  }

  /** `isTime` stands for the RFC 3339 parser. */
  predicate Valid(isTime: string -> bool, m: Marker) {
    && m.schema == SCHEMA_VERSION && TargetValid(m.target) && VersionsFit(m) && SourceFits(m.kind, m.source)
    && isTime(m.startTime)
    && (m.gameFilesMd5.Some? ==> IsMd5(m.gameFilesMd5.value))
    && (m.gameFilesPath.Some? ==> !Blank(m.gameFilesPath.value))
    && (forall d :: d in m.payloadMd5s ==> IsMd5(d))
    && (m.resources.Some? ==> ResourcesValid(m.resources.value))
  }

  // ----- which change may follow which

  predicate SameChange(m: Marker, n: Marker) {
    && m.target == n.target && m.kind == n.kind && m.source == n.source
    && m.fromVersion == n.fromVersion && m.targetVersion == n.targetVersion
    && m.gameFilesMd5 == n.gameFilesMd5 && m.gameFilesPath == n.gameFilesPath && m.payloadMd5s == n.payloadMd5s
    && m.syncVfs == n.syncVfs && m.resources == n.resources
  }

  predicate CanAdvance(m: Marker, n: Marker) {
    if m.target != n.target then false
    else if m.targetVersion == n.targetVersion && (m.syncVfs != n.syncVfs || m.resources != n.resources) then false
    else if m.kind.Install? && n.kind.Install? then
      m.targetVersion != n.targetVersion || m.gameFilesMd5 == n.gameFilesMd5
    else if m.kind == n.kind && m.fromVersion == n.fromVersion && m.targetVersion == n.targetVersion then true
    else if n.kind.Update? then
      m.targetVersion != n.targetVersion
      && (n.fromVersion == Some(m.targetVersion) || n.fromVersion == m.fromVersion)
    else false
  }

  // ----- reading and writing the marker file

  function Read(isTime: string -> bool, stored: Option<Marker>): Result<Option<Marker>, ChangeError> {
    if stored.Some? && !Valid(isTime, stored.value) then Err(InvalidMarker) else Ok(stored)
  }

  predicate Ready(isTime: string -> bool, stored: Option<Marker>) {
    Read(isTime, stored) == Ok(None)
  }

  function StartOutcome(isTime: string -> bool, stored: Option<Marker>, requested: Marker): Result<Start, ChangeError> {
    if !Valid(isTime, requested) then Err(InvalidMarker)
    else match Read(isTime, stored)
      case Err(e) => Err(e)
      case Ok(None) => Ok(New)
      case Ok(Some(current)) =>
        if SameChange(current, requested) then Ok(Resume)
        else if CanAdvance(current, requested) then Ok(Advance)
        else Err(Conflict)
  }

  function FinishOutcome(isTime: string -> bool, stored: Option<Marker>, expected: Marker): Result<(), ChangeError> {
    match Read(isTime, stored)
    case Err(e) => Err(e)
    case Ok(None) => Err(MarkerMissing)
    case Ok(Some(current)) => if SameChange(current, expected) then Ok(()) else Err(MarkerMismatch)
  }

  /** A request is resumed, and a finished change is recognised, exactly when it differs in its start time at most. */
  lemma SameRequestIff(isTime: string -> bool, m: Marker, n: Marker)
    requires Valid(isTime, m) && Valid(isTime, n)
    ensures StartOutcome(isTime, Some(m), n) == Ok(Resume) <==> n == m.(startTime := n.startTime)
    ensures FinishOutcome(isTime, Some(m), n) ==
            if n == m.(startTime := n.startTime) then Ok(()) else Err(MarkerMismatch)
  {
  }

  /** Under the version that is pending, only another attempt at the same kind of change may take over. */
  lemma SameVersionOutcome(isTime: string -> bool, m: Marker, n: Marker)
    requires Valid(isTime, m) && Valid(isTime, n) && n != m.(startTime := n.startTime)
    requires n.targetVersion == m.targetVersion
    ensures StartOutcome(isTime, Some(m), n) ==
            if n.target == m.target && n.kind == m.kind && n.syncVfs == m.syncVfs && n.resources == m.resources
               && (if m.kind.Install? then n.gameFilesMd5 == m.gameFilesMd5 else n.fromVersion == m.fromVersion)
            then Ok(Advance) else Err(Conflict)
  {
  }

  /**
   * Under another version an install may take over an install, and an update any change of the install it starts from:
   * at the version that is pending, or where the pending change starts.
   */
  lemma OtherVersionOutcome(isTime: string -> bool, m: Marker, n: Marker)
    requires Valid(isTime, m) && Valid(isTime, n) && n.targetVersion != m.targetVersion
    ensures StartOutcome(isTime, Some(m), n) ==
            if n.target == m.target
               && ((m.kind.Install? && n.kind.Install?)
                   || (n.kind.Update? && n.fromVersion in {Some(m.targetVersion), m.fromVersion}))
            then Ok(Advance) else Err(Conflict)
  {
  }

  /** Whatever is not a valid marker stops everything; without a marker a valid request starts and nothing finishes. */
  lemma OtherOutcomes(isTime: string -> bool, stored: Option<Marker>, n: Marker)
    ensures StartOutcome(isTime, stored, n) == Err(InvalidMarker)
            <==> !Valid(isTime, n) || (stored.Some? && !Valid(isTime, stored.value))
    ensures StartOutcome(isTime, stored, n) == Ok(New) <==> Valid(isTime, n) && stored.None?
    ensures FinishOutcome(isTime, stored, n) == Err(InvalidMarker) <==> stored.Some? && !Valid(isTime, stored.value)
    ensures FinishOutcome(isTime, stored, n) == Err(MarkerMissing) <==> stored.None?
  {
  }

  /** The private state file of one install; replacing it is atomic. */
  class StateFile {
    var stored: Option<Marker>

    constructor ()
      ensures stored == None
    {
      stored := None;
    }

    /** A start either leaves a valid marker of the requested change behind, or fails and touches nothing. */
    method StartChange(isTime: string -> bool, requested: Marker) returns (r: Result<Start, ChangeError>)
      modifies this
      ensures r == StartOutcome(isTime, old(stored), requested)
      ensures r.Err? ==> stored == old(stored)
      ensures r.Ok? ==> stored.Some? && Valid(isTime, stored.value) && SameChange(stored.value, requested)
      ensures r == Ok(Resume) ==> stored == old(stored)
      ensures r == Ok(New) || r == Ok(Advance) ==> stored == Some(requested)
    {
      if !Valid(isTime, requested) {
        return Err(InvalidMarker);
      }
      var read := Read(isTime, stored);
      if read.Err? {
        return Err(read.error);
      }
      match read.value
      case Some(current) =>
        if SameChange(current, requested) {
          return Ok(Resume);
        }
        if CanAdvance(current, requested) {
          stored := Some(requested);
          return Ok(Advance);
        }
        return Err(Conflict);
      case None =>
        stored := Some(requested);
        return Ok(New);
    }

    /** Only the change that is pending can be finished; anything else keeps the marker. */
    method FinishChange(isTime: string -> bool, expected: Marker) returns (r: Result<(), ChangeError>)
      modifies this
      ensures r == FinishOutcome(isTime, old(stored), expected)
      ensures r.Ok? ==> Ready(isTime, stored)
      ensures r.Err? ==> stored == old(stored)
    {
      var read := Read(isTime, stored);
      if read.Err? {
        return Err(read.error);
      }
      if read.value.None? {
        return Err(MarkerMissing);
      }
      if !SameChange(read.value.value, expected) {
        return Err(MarkerMismatch);
      }
      stored := None;
      return Ok(());
    }

    method EnsureReady(isTime: string -> bool) returns (r: Result<(), ChangeError>)
      ensures r.Ok? <==> Ready(isTime, stored)
    {
      var read := Read(isTime, stored);
      if read.Err? {
        return Err(read.error);
      }
      return if read.value.Some? then Err(LaunchBlocked) else Ok(());
    }
  }

  // ----- runs of commands that may crash anywhere

  /**
   * `command` is the change the running command was granted; `unfinished` holds from a payload write until a change
   * is finished; `history` lists the markers written since the install was last free of one.
   */
  datatype World = World(stored: Option<Marker>, command: Option<Marker>, unfinished: bool, history: seq<Marker>)

  datatype Action = StartCommand(requested: Marker) | WritePayload | FinishCommand | Crash

  const FREE := World(None, None, false, [])

  /** One command runs at a time. */
  predicate Enabled(w: World, a: Action) {
    if a.StartCommand? then w.command.None? else w.command.Some?
  }

  function Next(isTime: string -> bool, w: World, a: Action): World
    requires Enabled(w, a)
  {
    match a
    case StartCommand(m) => (
      match StartOutcome(isTime, w.stored, m)
      case Err(_) => w
      case Ok(Resume) => w.(command := Some(m))
      case Ok(_) => w.(stored := Some(m), command := Some(m), history := w.history + [m])
    )
    case WritePayload => w.(unfinished := true)
    case FinishCommand =>
      if FinishOutcome(isTime, w.stored, w.command.value).Ok? then FREE else w.(command := None)
    case Crash => w.(command := None)
  }

  ghost predicate Runs(isTime: string -> bool, w: World, actions: seq<Action>, w': World)
    decreases |actions|
  {
    if actions == [] then w' == w
    else Enabled(w, actions[0]) && Runs(isTime, Next(isTime, w, actions[0]), actions[1..], w')
  }

  /** Every marker is valid, differs from the one before it, and was allowed to replace it. */
  ghost predicate Lineage(isTime: string -> bool, h: seq<Marker>) {
    && (forall k :: 0 <= k < |h| ==> Valid(isTime, h[k]))
    && (forall k :: 0 < k < |h| ==> Advances(h, k))
  }

  predicate Advances(h: seq<Marker>, k: nat)
    requires 0 < k < |h|
  {
    !SameChange(h[k - 1], h[k]) && CanAdvance(h[k - 1], h[k])
  }

  ghost predicate Inv(isTime: string -> bool, w: World) {
    && Lineage(isTime, w.history)
    && w.stored == (if w.history == [] then None else Some(w.history[|w.history| - 1]))
    && (w.unfinished || w.command.Some? ==> w.stored.Some?)
    && (w.command.Some? ==> SameChange(w.stored.value, w.command.value))
  }

  lemma LineageGrows(isTime: string -> bool, h: seq<Marker>, m: Marker)
    requires Lineage(isTime, h) && Valid(isTime, m)
    requires h != [] ==> !SameChange(h[|h| - 1], m) && CanAdvance(h[|h| - 1], m)
    ensures Lineage(isTime, h + [m])
  {
    hide Valid, CanAdvance;
    var longer := h + [m];
    forall k | 0 < k < |longer| ensures Advances(longer, k) {
      if k < |h| {
        assert Advances(h, k);
      }
    }
  }

  lemma StepHolds(isTime: string -> bool, w: World, a: Action)
    requires Inv(isTime, w) && Enabled(w, a)
    ensures Inv(isTime, Next(isTime, w, a))
  {
    hide Valid, CanAdvance;
    if a.StartCommand? && StartOutcome(isTime, w.stored, a.requested) in {Ok(New), Ok(Advance)} {
      LineageGrows(isTime, w.history, a.requested);
    }
  }

  lemma {:induction false} RunHolds(isTime: string -> bool, w: World, actions: seq<Action>, w': World)
    requires Inv(isTime, w) && Runs(isTime, w, actions, w')
    ensures Inv(isTime, w')
    decreases |actions|
  {
    if actions != [] {
      StepHolds(isTime, w, actions[0]);
      RunHolds(isTime, Next(isTime, w, actions[0]), actions[1..], w');
    }
  }

  // ----- main results

  /**
   * After any run, crashes included, launching is allowed only when no command runs and no change that wrote
   * anything is unfinished; and a command that reaches its end can always finish, which allows launching again.
   */
  lemma LaunchOnlyWhenFinished(isTime: string -> bool, actions: seq<Action>, w: World)
    requires Runs(isTime, FREE, actions, w)
    ensures Ready(isTime, w.stored) ==> w.command.None? && !w.unfinished
    ensures w.stored.Some? ==> Valid(isTime, w.stored.value)
    ensures w.command.Some? ==> Next(isTime, w, FinishCommand) == FREE && Ready(isTime, FREE.stored)
  {
    RunHolds(isTime, FREE, actions, w);
  }

  /** The game is served by the platform that sells it in the region. */
  predicate Serves(t: Target) {
    match t
    case Hypergryph(_, region, _, _) => region in {Cn, Sg}
    case Yostar(game, region) => region in {Kr, En, Jp} && game == "arknights"
  }

  /** What is known of where a change starts and where its files come from, by its kind. */
  predicate FitsKind(m: Marker) {
    match m.kind
    case Install => m.source in {FullArchive, Manifest} && (m.fromVersion.None? || !Blank(m.fromVersion.value))
    case Update => m.fromVersion.Some? && !Blank(m.fromVersion.value)
    case Repair => m.source == FromRepair && m.fromVersion == Some(m.targetVersion)
  }

  /** Every digest in a marker is one. */
  predicate DigestsFit(m: Marker) {
    && (m.gameFilesMd5 == None || IsMd5(m.gameFilesMd5.value))
    && (forall k :: 0 <= k < |m.payloadMd5s| ==> IsMd5(m.payloadMd5s[k]))
    && (m.resources == None || forall k :: 0 <= k < |m.resources.value.manifests| ==>
          IsMd5(m.resources.value.manifests[k].md5))
  }

  /** No name in a marker is blank. */
  predicate NamesFit(m: Marker) {
    && !Blank(m.targetVersion)
    && (m.gameFilesPath == None || !Blank(m.gameFilesPath.value))
    && (m.resources == None || (!Blank(m.resources.value.resVersion) &&
          forall k :: 0 <= k < |m.resources.value.manifests| ==> !Blank(m.resources.value.manifests[k].logicalPath)))
  }

  lemma ValidIff(isTime: string -> bool, m: Marker)
    ensures Valid(isTime, m) <==>
      m.schema == 4 && isTime(m.startTime) && Serves(m.target) && FitsKind(m) && DigestsFit(m) && NamesFit(m)
  {
    hide Blank, IsMd5;
  }

  ghost predicate MayBeStored(isTime: string -> bool, m: Marker) {
    exists actions, w :: Runs(isTime, FREE, actions, w) && w.stored == Some(m)
  }

  /** The markers that runs may leave in the state file are exactly these. */
  lemma StoredIff(isTime: string -> bool, m: Marker)
    ensures MayBeStored(isTime, m) <==>
      m.schema == 4 && isTime(m.startTime) && Serves(m.target) && FitsKind(m) && DigestsFit(m) && NamesFit(m)
  {
    ValidIff(isTime, m);
    hide Valid, Serves, FitsKind, DigestsFit, NamesFit;
    if Valid(isTime, m) {
      var actions, w := RunOfLineage(isTime, [m]);
      RunHolds(isTime, FREE, actions, w);
      assert w.history == [m] && w.stored == Some(m);
    }
    if MayBeStored(isTime, m) {
      var actions, w :| Runs(isTime, FREE, actions, w) && w.stored == Some(m);
      LaunchOnlyWhenFinished(isTime, actions, w);
    }
  }

  lemma {:induction false} RunGoesOn(isTime: string -> bool, w: World, actions: seq<Action>, w': World, a: Action)
    requires Runs(isTime, w, actions, w') && Enabled(w', a)
    ensures Runs(isTime, w, actions + [a], Next(isTime, w', a))
    decreases |actions|
  {
    if actions == [] {
      assert [a][1..] == [] && actions + [a] == [a];
    } else {
      assert (actions + [a])[0] == actions[0] && (actions + [a])[1..] == actions[1..] + [a];
      RunGoesOn(isTime, Next(isTime, w, actions[0]), actions[1..], w', a);
    }
  }

  /** Commands that crash as soon as they have written their markers leave any lineage behind. */
  lemma {:induction false} RunOfLineage(isTime: string -> bool, h: seq<Marker>) returns (actions: seq<Action>, w: World)
    requires Lineage(isTime, h)
    ensures Runs(isTime, FREE, actions, w) && w.history == h && w.command.None?
    decreases |h|
  {
    actions, w := [], FREE;
    if h != [] {
      var last := |h| - 1;
      var init, m := h[..last], h[last];
      assert h == init + [m];
      assert last > 0 ==> Advances(h, last);
      assert forall k :: 0 < k < |init| ==> Advances(h, k) && Advances(init, k) == Advances(h, k);
      actions, w := RunOfLineage(isTime, init);
      RunHolds(isTime, FREE, actions, w);
      RunGoesOn(isTime, FREE, actions, w, StartCommand(m));
      actions, w := actions + [StartCommand(m)], Next(isTime, w, StartCommand(m));
      RunGoesOn(isTime, FREE, actions, w, Crash);
      actions, w := actions + [Crash], Next(isTime, w, Crash);
    }
  }

  /** Some run, with crashes wherever, has written exactly these markers since the install was free of one. */
  ghost predicate Reached(isTime: string -> bool, h: seq<Marker>) {
    exists actions, w :: Runs(isTime, FREE, actions, w) && w.history == h
  }

  /** The markers of a pending stretch are the lineages: what holds of all lineages holds of all runs, and no more. */
  lemma ReachedIffLineage(isTime: string -> bool, h: seq<Marker>)
    ensures Reached(isTime, h) <==> Lineage(isTime, h)
  {
    if actions, w :| Runs(isTime, FREE, actions, w) && w.history == h {
      RunHolds(isTime, FREE, actions, w);
    }
    if Lineage(isTime, h) {
      var actions, w := RunOfLineage(isTime, h);
    }
  }

  /** Within one lineage the install never changes, and no change ever turns into an install or a repair. */
  lemma {:induction false} InstallNeverChanges(isTime: string -> bool, h: seq<Marker>, j: nat, k: nat)
    requires Lineage(isTime, h) && j <= k < |h|
    ensures h[k].target == h[j].target
    ensures h[k].kind == h[j].kind || h[k].kind.Update?
    decreases k - j
  {
    if j < k {
      InstallNeverChanges(isTime, h, j, k - 1);
      assert Advances(h, k);
    }
  }

  ghost predicate OneTarget(h: seq<Marker>, j: nat, k: nat)
    requires j <= k < |h|
  {
    forall i :: j <= i <= k ==> h[i].targetVersion == h[j].targetVersion
  }

  /**
   * While the target version stays the same, so do the resource policy, the resource identity and the kind of
   * change; an update or repair keeps its starting version, and an install keeps its manifest digest.
   */
  lemma {:induction false} OneTargetKeepsPlan(isTime: string -> bool, h: seq<Marker>, j: nat, k: nat)
    requires Lineage(isTime, h) && j <= k < |h| && OneTarget(h, j, k)
    ensures h[k].syncVfs == h[j].syncVfs && h[k].resources == h[j].resources && h[k].kind == h[j].kind
    ensures !h[j].kind.Install? ==> h[k].fromVersion == h[j].fromVersion
    ensures h[j].kind.Install? ==> h[k].gameFilesMd5 == h[j].gameFilesMd5
    decreases k - j
  {
    if j < k {
      OneTargetKeepsPlan(isTime, h, j, k - 1);
      assert Advances(h, k);
      assert h[k - 1].targetVersion == h[k].targetVersion;
    }
  }

  /** One of the earlier markers named this starting version: as its target, or as where its install started. */
  ghost predicate Names(m: Marker, from: Option<string>) {
    from == Some(m.targetVersion) || (m.kind.Install? && from == m.fromVersion)
  }

  /** An update starts where its lineage began, or from a version that an earlier marker of it names. */
  lemma {:induction false} UpdatesStartFromEarlier(isTime: string -> bool, h: seq<Marker>, k: nat)
    requires Lineage(isTime, h) && k < |h| && h[k].kind.Update?
    ensures h[k].fromVersion == h[0].fromVersion || exists i :: 0 <= i < k && Names(h[i], h[k].fromVersion)
  {
    if k > 0 {
      assert Advances(h, k);
      if h[k - 1].kind.Update? && h[k].fromVersion == h[k - 1].fromVersion {
        UpdatesStartFromEarlier(isTime, h, k - 1);
      } else {
        assert Valid(isTime, h[k - 1]);
        assert Names(h[k - 1], h[k].fromVersion);
      }
    }
  }

  // ----- what the protocol does not pin

  /** A change has come back to what it was, but for its resource identity. */
  ghost predicate ReturnsWith(h: seq<Marker>, m: Marker, resources: Option<ResourceIdentity>) {
    h != [] && h[0] == m && h[|h| - 1] == m.(resources := resources)
  }

  lemma {:induction false} RepairsKeepResources(isTime: string -> bool, h: seq<Marker>, k: nat)
    requires Lineage(isTime, h) && k < |h| && h[0].kind.Repair? && h[k].kind.Repair?
    ensures h[k].resources == h[0].resources
  {
    if k > 0 {
      InstallNeverChanges(isTime, h, 0, k - 1);
      assert Advances(h, k);
      RepairsKeepResources(isTime, h, k - 1);
    }
  }

  lemma DetourIsLineage(isTime: string -> bool, m: Marker, resources: Option<ResourceIdentity>) returns (h: seq<Marker>)
    requires Valid(isTime, m) && !m.kind.Repair? && (resources.Some? ==> ResourcesValid(resources.value))
    ensures Lineage(isTime, h) && ReturnsWith(h, m, resources)
  {
    hide ResourcesValid, IsMd5;
    var version := m.targetVersion + "+";
    h := [m, m.(targetVersion := version), m.(resources := resources)];
    assert |version| == |m.targetVersion| + 1;
    assert forall c :: c in m.targetVersion ==> c in version;
    assert Advances(h, 1) && Advances(h, 2);
  }

  /**
   * Going to another version and back changes the resource identity under the first version; some run does this if and
   * only if the change is an install or an update.
   */
  lemma IdentityMayChangeIffNotRepair(isTime: string -> bool, m: Marker, resources: Option<ResourceIdentity>)
    requires Valid(isTime, m) && resources != m.resources && (resources.Some? ==> ResourcesValid(resources.value))
    ensures (exists h :: Reached(isTime, h) && ReturnsWith(h, m, resources)) <==> !m.kind.Repair?
  {
    if !m.kind.Repair? {
      var h := DetourIsLineage(isTime, m, resources);
      ReachedIffLineage(isTime, h);
    }
    if h :| Reached(isTime, h) && ReturnsWith(h, m, resources) && m.kind.Repair? {
      ReachedIffLineage(isTime, h);
      RepairsKeepResources(isTime, h, |h| - 1);
    }
  }

  /**
   * Under one target version a change can be replaced by one with another manifest digest if and only if it is not
   * an install: for updates and repairs the digest is not compared.
   */
  lemma DigestMayChangeIffNotInstall(isTime: string -> bool, m: Marker, digest: Option<string>)
    requires Valid(isTime, m) && digest != m.gameFilesMd5 && (digest.Some? ==> IsMd5(digest.value))
    ensures StartOutcome(isTime, Some(m), m.(gameFilesMd5 := digest)) == Ok(Advance) <==> !m.kind.Install?
  {
  }

  // ----- matching a live release

  function BeforeQuery(s: string): (r: string) {
    if s == [] || s[0] == '?' || s[0] == '#' then [] else [s[0]] + BeforeQuery(s[1..])
  }

  function TrimSlashes(s: string): (r: string) {
    if s != [] && s[|s| - 1] == '/' then TrimSlashes(s[..|s| - 1]) else s
  }

  function NormalizePath(s: string): Option<string> {
    var path := TrimSlashes(BeforeQuery(TrimEnd(TrimStart(s))));
    if path == [] then None else Some(path)
  }

  /** What is compared is what stands before a query or fragment, without white space in front or separators behind. */
  lemma NormalizedIsBare(s: string)
    ensures NormalizePath(s).Some? ==>
      var path := NormalizePath(s).value;
      && path != [] && path[|path| - 1] != '/' && !IsWhitespace(path[0]) && !HasQuery(path)
    ensures NormalizePath(s) == None <==> forall c :: c in BeforeQuery(Trim(s)) ==> c == '/'
  {
    var before, after := TrimKeepsMiddle(s);
    CutIsPrefix(Trim(s));
    var cut := BeforeQuery(Trim(s));
    var slashes := SlashesSplit(cut);
    assert TrimSlashes(cut) != [] ==> TrimSlashes(cut)[|TrimSlashes(cut)| - 1] in cut;
  }

  lemma {:induction false} CutIsPrefix(s: string)
    ensures BeforeQuery(s) <= s && !HasQuery(BeforeQuery(s))
  {
    if s != [] && s[0] != '?' && s[0] != '#' {
      CutIsPrefix(s[1..]);
    }
  }

  lemma {:induction false} SlashesSplit(s: string) returns (slashes: string)
    ensures s == TrimSlashes(s) + slashes && forall c :: c in slashes ==> c == '/'
    ensures TrimSlashes(s) != [] ==> TrimSlashes(s)[|TrimSlashes(s)| - 1] != '/'
  {
    slashes := [];
    if s != [] && s[|s| - 1] == '/' {
      var rest := SlashesSplit(s[..|s| - 1]);
      slashes := rest + [s[|s| - 1]];
      assert s == s[..|s| - 1] + [s[|s| - 1]];
    }
  }

  predicate MatchesRelease(m: Marker, version: string, path: Option<string>, md5: Option<string>) {
    && m.targetVersion == version
    && (m.gameFilesPath.Some? ==> path.Some? && NormalizePath(path.value) == m.gameFilesPath)
    && (m.gameFilesMd5.Some? ==> md5.Some? && Lowercase(md5.value) == m.gameFilesMd5.value)
  }

  /** What a command stores for a release it read: digests in lower case, the path without its credentials. */
  function Capture(m: Marker, version: string, path: string, md5: Option<string>): Marker {
    m.(targetVersion := version, gameFilesPath := NormalizePath(path),
       gameFilesMd5 := if md5.Some? && !Blank(md5.value) then Some(Lowercase(md5.value)) else None)
  }

  predicate StartsQuery(s: string) {
    s != [] && (s[0] == '?' || s[0] == '#')
  }

  predicate HasQuery(s: string) {
    '?' in s || '#' in s
  }

  lemma {:induction false} TrimStartKeeps(s: string, query: string)
    requires StartsQuery(query)
    ensures TrimStart(s + query) == TrimStart(s) + query
  {
    if s == [] {
      assert s + query == query;
    } else if IsWhitespace(s[0]) {
      assert (s + query)[1..] == s[1..] + query;
      TrimStartKeeps(s[1..], query);
    }
  }

  lemma {:induction false} TrimEndKeeps(s: string, query: string) returns (kept: string)
    requires StartsQuery(query)
    ensures StartsQuery(kept) && TrimEnd(s + query) == s + kept
  {
    if IsWhitespace(query[|query| - 1]) {
      assert (s + query)[..|s + query| - 1] == s + query[..|query| - 1];
      kept := TrimEndKeeps(s, query[..|query| - 1]);
    } else {
      kept := query;
    }
  }

  lemma {:induction false} QueryIsCut(s: string, t: string)
    requires StartsQuery(t)
    ensures BeforeQuery(s + t) == BeforeQuery(s)
  {
    if s == [] {
      assert s + t == t;
    } else {
      assert (s + t)[1..] == s[1..] + t;
      QueryIsCut(s[1..], t);
    }
  }

  lemma {:induction false} WithoutQuery(s: string)
    requires !HasQuery(s)
    ensures BeforeQuery(s) == s
  {
    if s != [] {
      assert s[0] in s && forall c :: c in s[1..] ==> c in s;
      WithoutQuery(s[1..]);
    }
  }

  lemma {:induction false} BehindQuery(s: string, t: string)
    requires HasQuery(s)
    ensures BeforeQuery(s + t) == BeforeQuery(s)
  {
    if s[0] != '?' && s[0] != '#' {
      assert (s + t)[1..] == s[1..] + t;
      BehindQuery(s[1..], t);
    }
  }

  lemma {:induction false} TrimEndSplits(s: string)
    ensures TrimEnd(s) <= s && (HasQuery(TrimEnd(s)) <==> HasQuery(s))
  {
    if s != [] && IsWhitespace(s[|s| - 1]) {
      TrimEndSplits(s[..|s| - 1]);
      assert s == s[..|s| - 1] + [s[|s| - 1]];
    }
  }

  lemma {:induction false} TrimSlashesShortens(s: string)
    ensures |TrimSlashes(s)| <= |s|
  {
    if s != [] && s[|s| - 1] == '/' {
      TrimSlashesShortens(s[..|s| - 1]);
    }
  }

  /** No white space stands where a query would begin, or a query has begun before. */
  predicate TakesQuery(path: string) {
    var t := TrimStart(path);
    t == [] || !IsWhitespace(t[|t| - 1]) || HasQuery(t)
  }

  /** What follows a path as query or fragment is ignored if and only if no white space stands right before it. */
  lemma CredentialsAreIgnoredIff(path: string, query: string)
    requires StartsQuery(query)
    ensures NormalizePath(path + query) == NormalizePath(path) <==> TakesQuery(path)
  {
    var t := TrimStart(path);
    TrimStartKeeps(path, query);
    var kept := TrimEndKeeps(t, query);
    QueryIsCut(t, kept);
    assert NormalizePath(path + query) == Bare(BeforeQuery(t)) && NormalizePath(path) == Bare(BeforeQuery(TrimEnd(t)));
    hide NormalizePath, TrimStart, IsWhitespace;
    if t != [] && IsWhitespace(t[|t| - 1]) {
      SpaceCountsIff(t);
    } else {
      NothingToCut(t);
    }
  }

  function Bare(cut: string): Option<string> {
    if TrimSlashes(cut) == [] then None else Some(TrimSlashes(cut))
  }

  lemma NothingToCut(t: string)
    requires t == [] || !IsWhitespace(t[|t| - 1])
    ensures TrimEnd(t) == t
  {
  }

  /** White space at the end counts unless a query stands before it. */
  lemma SpaceCountsIff(t: string)
    requires t != [] && IsWhitespace(t[|t| - 1])
    ensures Bare(BeforeQuery(t)) == Bare(BeforeQuery(TrimEnd(t))) <==> HasQuery(t)
  {
    TrimEndSplits(t);
    hide TrimEnd, BeforeQuery, Bare, IsWhitespace;
    if HasQuery(t) {
      var rest := t[|TrimEnd(t)|..];
      assert t == TrimEnd(t) + rest;
      BehindQuery(TrimEnd(t), rest);
    } else {
      WithoutQuery(t);
      WithoutQuery(TrimEnd(t));
      SpaceCounts(t);
    }
  }

  lemma SpaceCounts(t: string)
    requires t != [] && IsWhitespace(t[|t| - 1])
    ensures Bare(t) != Bare(TrimEnd(t))
  {
    TrimEndSplits(t[..|t| - 1]);
    TrimSlashesShortens(TrimEnd(t));
    assert |TrimEnd(t)| < |t| && t[|t| - 1] != '/';
    hide TrimEnd, IsWhitespace;
    assert TrimSlashes(t) == t;
  }

  /**
   * A marker captured from one release matches another exactly when the versions are equal, and the paths but for their
   * credentials and the digests up to case are, as far as they were captured.
   */
  lemma CapturedMatchesIff(m: Marker, version: string, path: string, md5: Option<string>,
                           version': string, path': Option<string>, md5': Option<string>)
    ensures MatchesRelease(Capture(m, version, path, md5), version', path', md5') <==>
      && version == version'
      && (NormalizePath(path).Some? ==> path'.Some? && NormalizePath(path'.value) == NormalizePath(path))
      && (md5.Some? && !Blank(md5.value) ==> md5'.Some? && EqualUpToCase(md5'.value, md5.value))
  {
    if md5.Some? && md5'.Some? {
      LowercaseIff(md5'.value, md5.value);
    }
  }

  /**
   * A marker captured from a release matches the same release served later under other credentials and with its
   * digest in another case.
   */
  lemma CapturedReleaseMatches(m: Marker, version: string, path: string, query: string, later: string,
                               md5: Option<string>, md5Later: Option<string>)
    requires TakesQuery(path) && StartsQuery(query) && StartsQuery(later)
    requires md5.Some? ==> md5Later.Some? && Lowercase(md5.value) == Lowercase(md5Later.value)
    ensures MatchesRelease(Capture(m, version, path + query, md5), version, Some(path + later), md5Later)
  {
    CredentialsAreIgnoredIff(path, query);
    CredentialsAreIgnoredIff(path, later);
  }
}
