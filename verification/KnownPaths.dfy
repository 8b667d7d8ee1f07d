/** Which checked paths have a role of their own, by their components. */
module KnownPaths {
  import opened Collections
  import opened LogicalPath
  import opened SafePath
  import opened Text

  lemma {:induction false} SplitsAtSeparator(u: string, w: string)
    ensures Split(u + "/" + w) == Split(u) + Split(w)
  {
    if u == [] {
      assert u + "/" + w == "/" + w && ("/" + w)[1..] == w;
    } else {
      assert (u + "/" + w)[1..] == u[1..] + "/" + w && (u + "/" + w)[0] == u[0];
      SplitsAtSeparator(u[1..], w);
    }
  }

  lemma SplitsAtPair(a: string, b: string, v: string)
    requires '/' !in a && '/' !in b
    ensures Split(a + "/" + (b + "/" + v)) == [a, b] + Split(v)
  {
    SplitAtSeparator(a, b + "/" + v);
    SplitAtSeparator(b, v);
    assert [a] + ([b] + Split(v)) == [a, b] + Split(v);
  }

  /** Two components with something below them. */
  ghost predicate HasPair(p: Path, a: string, b: string) {
    exists k :: 0 <= k && k + 2 < |p| && IsPair(p, k, a, b)
  }

  predicate IsPair(p: Path, k: int, a: string, b: string)
    requires 0 <= k && k + 2 < |p|
  {
    p[k] == a && p[k + 1] == b
  }

  lemma PairIff(p: Path, a: string, b: string)
    requires SafeRelative(p) && SafeComponent(a) && SafeComponent(b)
    ensures var s, pair := Joined(p), a + "/" + (b + "/");
            (pair <= s || Contains(s, "/" + pair)) <==> HasPair(p, a, b)
  {
    hide Joined, Split;
    JoinedSplits(p);
    if a + "/" + (b + "/") <= Joined(p) {
      PairAtStart(p, a, b);
    }
    if Contains(Joined(p), "/" + (a + "/" + (b + "/"))) {
      PairInside(p, a, b);
    }
    if k :| 0 <= k && k + 2 < |p| && IsPair(p, k, a, b) {
      PairIsWritten(p, a, b, k);
    }
  }

  lemma PairAtStart(p: Path, a: string, b: string)
    requires SafeRelative(p) && SafeComponent(a) && SafeComponent(b) && a + "/" + (b + "/") <= Joined(p)
    ensures HasPair(p, a, b)
  {
    hide Joined, Split;
    JoinedSplits(p);
    var s, pair := Joined(p), a + "/" + (b + "/");
    var v := s[|pair|..];
    assert s == pair + v == a + "/" + (b + "/" + v);
    SplitsAtPair(a, b, v);
    assert p[0] == a && p[1] == b && |p| == 2 + |Split(v)|;
    assert IsPair(p, 0, a, b);
  }

  lemma PairInside(p: Path, a: string, b: string)
    requires SafeRelative(p) && SafeComponent(a) && SafeComponent(b)
    requires Contains(Joined(p), "/" + (a + "/" + (b + "/")))
    ensures HasPair(p, a, b)
  {
    hide Joined, Split, SafeRelative;
    JoinedSplits(p);
    var s, pair := Joined(p), a + "/" + (b + "/");
    var at :| 0 <= at <= |s| && "/" + pair <= s[at..];
    var u, v := s[..at], s[at..][1 + |pair|..];
    assert s[at..] == "/" + pair + v && s == u + s[at..];
    assert s == u + "/" + (a + "/" + (b + "/" + v));
    SplitsAtSeparator(u, a + "/" + (b + "/" + v));
    SplitsAtPair(a, b, v);
    var k := |Split(u)|;
    assert p == Split(u) + ([a, b] + Split(v));
    assert p[k] == ([a, b] + Split(v))[0] && p[k + 1] == ([a, b] + Split(v))[1];
    assert IsPair(p, k, a, b);
  }

  lemma PairIsWritten(p: Path, a: string, b: string, k: nat)
    requires SafeRelative(p) && k + 2 < |p| && p[k] == a && p[k + 1] == b
    ensures var s, pair := Joined(p), a + "/" + (b + "/"); pair <= s || Contains(s, "/" + pair)
  {
    hide Joined, SafeRelative, SafeComponent, Contains;
    var x, y, pair := p[..k], p[k + 2..], a + "/" + (b + "/");
    var tail := Joined(p[k..]);
    assert p[k..] == [a, b] + y;
    JoinedPair(a, b);
    JoinedAppend([a, b], y);
    assert tail == pair + Joined(y);
    if k > 0 {
      assert p == x + p[k..];
      JoinedAppend(x, p[k..]);
      Found(Joined(x), pair, Joined(y));
    } else {
      assert p[k..] == p;
    }
  }

  lemma Found(u: string, part: string, v: string)
    ensures Contains(u + "/" + (part + v), "/" + part)
  {
    var s := u + "/" + (part + v);
    assert s[|u|..] == "/" + part + v;
  }

  lemma JoinedPair(a: string, b: string)
    ensures Joined([a, b]) == a + "/" + b
  {
    assert [a, b][1..] == [b];
  }

  /** The path ends with these two components. */
  predicate EndsWithPair(p: Path, a: string, b: string) {
    |p| >= 2 && p[|p| - 2] == a && p[|p| - 1] == b
  }

  lemma EndIff(p: Path, a: string, b: string)
    requires SafeRelative(p) && SafeComponent(a) && SafeComponent(b)
    ensures Joined(p) == a + "/" + b || EndsWith(Joined(p), "/" + (a + "/" + b)) <==> EndsWithPair(p, a, b)
  {
    hide Joined, Split;
    JoinedSplits(p);
    var s, pair := Joined(p), a + "/" + b;
    SplitAtSeparator(a, b);
    SplitWithoutSeparator(b);
    assert Split(pair) == [a, b];
    if EndsWith(s, "/" + pair) {
      var u := s[..|s| - |"/" + pair|];
      assert s == u + "/" + pair;
      SplitsAtSeparator(u, pair);
    }
    if EndsWithPair(p, a, b) {
      EndIsWritten(p, a, b);
    }
  }

  lemma EndIsWritten(p: Path, a: string, b: string)
    requires EndsWithPair(p, a, b)
    ensures Joined(p) == a + "/" + b || EndsWith(Joined(p), "/" + (a + "/" + b))
  {
    var x := p[..|p| - 2];
    assert p == x + [a, b];
    JoinedPair(a, b);
    if x != [] {
      JoinedAppend(x, [a, b]);
      assert Joined(p) == Joined(x) + ("/" + (a + "/" + b));
    }
  }

  // ----- main results

  /** Two components next to each other, up to case. */
  predicate IsLikePair(p: Path, k: int, a: string, b: string) {
    0 <= k && k + 1 < |p| && EqualUpToCase(p[k], a) && EqualUpToCase(p[k + 1], b)
  }

  lemma LowerPairIff(p: Path, k: int, a: string, b: string)
    requires Lowercase(a) == a && Lowercase(b) == b
    ensures 0 <= k && k + 1 < |p| && LowerAll(p)[k] == a && LowerAll(p)[k + 1] == b <==> IsLikePair(p, k, a, b)
  {
    if 0 <= k && k + 1 < |p| {
      LowercaseIff(p[k], a);
      LowercaseIff(p[k + 1], b);
    }
  }

  lemma LowerSpelling(p: Path)
    requires SafeRelative(p)
    ensures Normalize(Joined(p)) == Joined(LowerAll(p)) && SafeRelative(LowerAll(p))
  {
    hide Normalize;
    JoinedIsCanonical(p);
    CanonicalNormalizes(Joined(p));
    LowerJoined(p);
    LowerAllIsSafe(p);
  }

  /** A name without separators or capitals, and not one of the dots. */
  predicate IsPlainName(name: string) {
    |name| > 2 && forall c :: c in name ==> 'a' <= c <= 'z' || c == '_' || c == '.' || c == '-'
  }

  lemma PlainName(name: string)
    requires IsPlainName(name)
    ensures SafeComponent(name) && Lowercase(name) == name
  {
    assert forall k :: 0 <= k < |name| ==> name[k] in name;
  }

  lemma BaselineNames()
    ensures IsPlainName("streamingassets") && IsPlainName("vfs")
    ensures IsPlainName("index_initial.json") && IsPlainName("index_main.json")
  {
  }

  lemma MetadataNames()
    ensures IsPlainName("config.ini") && IsPlainName("game_files") && IsPlainName("package_files")
    ensures IsPlainName("game-launcher-config.json") && IsPlainName("manifest.json")
  {
  }

  lemma BaselineSpelling()
    ensures ASSET_DIRECTORY == "streamingassets" + "/" + ("vfs" + "/")
    ensures INITIAL_INDEX == "streamingassets" + "/" + "index_initial.json"
    ensures MAIN_INDEX == "streamingassets" + "/" + "index_main.json"
  {
  }

  lemma DirectoryIff(p: Path, a: string, b: string)
    requires SafeRelative(p) && IsPlainName(a) && IsPlainName(b)
    ensures var n, pair := Normalize(Joined(p)), a + "/" + (b + "/");
            (pair <= n || Contains(n, "/" + pair)) <==> exists k :: k + 2 < |p| && IsLikePair(p, k, a, b)
  {
    PlainName(a);
    PlainName(b);
    hide Normalize, Joined, SafeRelative, SafeComponent, Contains, IsLikePair, LowerAll, Lowercase, IsPlainName;
    LowerSpelling(p);
    PairIff(LowerAll(p), a, b);
    LowerPairs(p, a, b);
  }

  lemma IndexIff(p: Path, a: string, b: string)
    requires SafeRelative(p) && IsPlainName(a) && IsPlainName(b)
    ensures var n, pair := Normalize(Joined(p)), a + "/" + b;
            (n == pair || EndsWith(n, "/" + pair)) <==> IsLikePair(p, |p| - 2, a, b)
  {
    PlainName(a);
    PlainName(b);
    hide Normalize, Joined, SafeRelative, SafeComponent, EndsWith, IsLikePair, Lowercase, IsPlainName;
    LowerSpelling(p);
    EndIff(LowerAll(p), a, b);
    LowerPairIff(p, |p| - 2, a, b);
  }

  /** The resource baseline is what lies in a `streamingassets/vfs`, at any depth, and two index files beside one. */
  lemma BaselineIff(p: Path)
    requires SafeRelative(p)
    ensures IsResourceBaseline(Joined(p)) <==>
      || (exists k :: k + 2 < |p| && IsLikePair(p, k, "streamingassets", "vfs"))
      || IsLikePair(p, |p| - 2, "streamingassets", "index_initial.json")
      || IsLikePair(p, |p| - 2, "streamingassets", "index_main.json")
  {
    BaselineNames();
    assert p != [];
    BaselineSpelling();
    hide Normalize, Joined, SafeRelative, Contains, EndsWith, IsLikePair, IsPlainName;
    DirectoryIff(p, "streamingassets", "vfs");
    IndexIff(p, "streamingassets", "index_initial.json");
    IndexIff(p, "streamingassets", "index_main.json");
  }

  lemma LowerPairs(p: Path, a: string, b: string)
    requires Lowercase(a) == a && Lowercase(b) == b
    ensures HasPair(LowerAll(p), a, b) <==> exists k :: k + 2 < |p| && IsLikePair(p, k, a, b)
  {
    hide IsLikePair, LowerAll, EqualUpToCase, Lowercase;
    var low := LowerAll(p);
    forall k ensures 0 <= k && k + 2 < |p| && IsPair(low, k, a, b) <==> k + 2 < |p| && IsLikePair(p, k, a, b) {
      LowerPairIff(p, k, a, b);
    }
    if k :| k + 2 < |p| && IsLikePair(p, k, a, b) {
      assert IsPair(low, k, a, b);
    }
  }

  lemma MetadataSpelling(s: string)
    ensures var n := Normalize(s);
            IsLauncherMetadata(s) <==>
              || n == "config.ini" || n == "game_files" || n == "package_files"
              || n == "game-launcher-config.json" || n == "manifest.json"
  {
    hide Normalize;
  }

  predicate IsCalled(p: Path, name: string) {
    |p| == 1 && EqualUpToCase(p[0], name)
  }

  /** Launcher metadata are five files at the root of the install. */
  lemma MetadataIff(p: Path)
    requires SafeRelative(p)
    ensures IsLauncherMetadata(Joined(p)) <==>
      || IsCalled(p, "config.ini") || IsCalled(p, "game_files") || IsCalled(p, "package_files")
      || IsCalled(p, "game-launcher-config.json") || IsCalled(p, "manifest.json")
  {
    MetadataNames();
    MetadataSpelling(Joined(p));
    hide Normalize, Joined, SafeRelative, IsPlainName, IsCalled, IsLauncherMetadata;
    CalledIff(p, "config.ini");
    CalledIff(p, "game_files");
    CalledIff(p, "package_files");
    CalledIff(p, "game-launcher-config.json");
    CalledIff(p, "manifest.json");
  }

  lemma CalledIff(p: Path, name: string)
    requires SafeRelative(p) && IsPlainName(name)
    ensures Normalize(Joined(p)) == name <==> IsCalled(p, name)
  {
    PlainName(name);
    LowerSpelling(p);
    assert Joined([name]) == name && SafeRelative([name]) && p != [];
    hide Joined, Normalize, SafeRelative, SafeComponent;
    JoinedPrefixIff(LowerAll(p), [name]);
    LowercaseIff(p[0], name);
    assert |p| == 1 ==> LowerAll(p) == [Lowercase(p[0])];
  }
}
