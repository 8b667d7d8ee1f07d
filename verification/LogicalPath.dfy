/** How paths of manifests are compared: by their spelling, with separators and ASCII case made equal. */
module LogicalPath {
  import opened Text

  function ForwardSlashes(s: string): (r: string)
    ensures |r| == |s| && forall k :: 0 <= k < |s| ==> r[k] == if s[k] == '\\' then '/' else s[k]
  {
    if s == [] then [] else [if s[0] == '\\' then '/' else s[0]] + ForwardSlashes(s[1..])
  }

  function TrimDots(s: string): string {
    if |s| >= 2 && s[0] == '.' && s[1] == '/' then TrimDots(s[2..]) else s
  }

  function TrimRoot(s: string): string {
    if s != [] && s[0] == '/' then TrimRoot(s[1..]) else s
  }

  function Normalize(path: string): string {
    Lowercase(TrimRoot(TrimDots(ForwardSlashes(path))))
  }

  /** What path validation leaves: forward slashes only, and no leading separator or dot component. */
  predicate Canonical(path: string) {
    path != [] && '\\' !in path && path[0] != '/' && !(|path| >= 2 && path[0] == '.' && path[1] == '/')
  }

  lemma LowercaseKeepsCanonical(path: string)
    requires Canonical(path)
    ensures Canonical(Lowercase(path)) && Lowercase(Lowercase(path)) == Lowercase(path)
  {
    var low := Lowercase(path);
    forall c | c in low ensures c != '\\' {
      var k :| 0 <= k < |low| && low[k] == c;
      assert path[k] in path;
    }
  }

  lemma CanonicalNormalizes(path: string)
    requires Canonical(path)
    ensures Normalize(path) == Lowercase(path) && Normalize(Normalize(path)) == Normalize(path)
  {
    hide Lowercase, ForwardSlashes;
    LowercaseKeepsCanonical(path);
    assert ForwardSlashes(path) == path;
    assert ForwardSlashes(Lowercase(path)) == Lowercase(path);
  }

  /** Which way separators lean does not count, nor do dots and separators in front. */
  lemma SpellingDoesNotCount(s: string)
    ensures Normalize(ForwardSlashes(s)) == Normalize(s)
    ensures Normalize("./" + s) == Normalize(s)
    ensures !("./" <= ForwardSlashes(s)) ==> Normalize("/" + s) == Normalize(s)
  {
    var t := ForwardSlashes(s);
    ForwardTwice(s);
    ForwardAfter("./", s);
    ForwardAfter("/", s);
    DotsInFront(t);
    SeparatorInFront(t);
    hide Lowercase, ForwardSlashes, TrimDots, TrimRoot;
  }

  lemma DotsInFront(t: string)
    ensures TrimDots("./" + t) == TrimDots(t)
  {
    assert ("./" + t)[2..] == t;
  }

  lemma SeparatorInFront(t: string)
    ensures !("./" <= t) ==> TrimRoot(TrimDots("/" + t)) == TrimRoot(TrimDots(t))
  {
    assert ("/" + t)[1..] == t;
    assert |t| >= 2 && t[0] == '.' && t[1] == '/' ==> "./" <= t;
  }

  lemma ForwardTwice(s: string)
    ensures ForwardSlashes(ForwardSlashes(s)) == ForwardSlashes(s)
  {
    hide ForwardSlashes;
  }

  lemma ForwardAfter(front: string, s: string)
    requires '\\' !in front
    ensures ForwardSlashes(front + s) == front + ForwardSlashes(s)
  {
    hide ForwardSlashes;
    assert forall k :: 0 <= k < |front| ==> front[k] in front;
  }

  predicate Contains(s: string, part: string) {
    exists k :: 0 <= k <= |s| && part <= s[k..]
  }

  predicate EndsWith(s: string, part: string) {
    |part| <= |s| && s[|s| - |part|..] == part
  }

  const ASSET_DIRECTORY := "streamingassets/vfs/"
  const INITIAL_INDEX := "streamingassets/index_initial.json"
  const MAIN_INDEX := "streamingassets/index_main.json"

  predicate IsResourceBaseline(path: string) {
    var n := Normalize(path);
    || ASSET_DIRECTORY <= n || Contains(n, "/" + ASSET_DIRECTORY)
    || n == INITIAL_INDEX || n == MAIN_INDEX
    || EndsWith(n, "/" + INITIAL_INDEX) || EndsWith(n, "/" + MAIN_INDEX)
  }

  predicate IsLauncherMetadata(path: string) {
    Normalize(path) in {"config.ini", "game_files", "package_files", "game-launcher-config.json", "manifest.json"}
  }

  predicate IsPrivateSpelling(path: string) {
    var n := Normalize(path);
    n == ".griffr" || ".griffr/" <= n
  }
}
