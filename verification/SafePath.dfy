/** How a path written in a manifest becomes a path below the install root. */
module SafePath {
  import opened Collections
  import opened LogicalPath
  import opened Text

  /** A path as its components; an absolute path starts with the root component. */
  type Path = seq<string>

  const ROOT := "/"

  /** The stretches between separators, empty ones included. */
  function Split(s: string): (r: seq<string>)
    ensures r != []
  {
    if s == [] then [""]
    else
      var rest := Split(s[1..]);
      if s[0] == '/' then [""] + rest else [[s[0]] + rest[0]] + rest[1..]
  }

  predicate IsNamed(part: string) {
    part != "" && part != "."
  }

  /** `Path::components` of a relative path: empty and `.` components do not appear. */
  function Components(s: string): seq<string> {
    Retained(Split(s), IsNamed)
  }

  /** The components a path is checked down to, or nothing if it is empty, absolute, or leads outside. */
  function Parse(raw: string): (r: Option<Path>)
    ensures r.Some? ==> r.value != []
  {
    var slashed := ForwardSlashes(Trim(raw));
    if slashed == [] || "//" <= slashed then None
    else
      var relative := if slashed[0] == '/' then slashed[1..] else slashed;
      var parts := Components(relative);
      if ':' in relative || ".." in parts || parts == [] then None else Some(parts)
  }

  /** What joining the path to another, without any check, appends to it or, if it is rooted, replaces it by. */
  function Written(raw: string): Path {
    if raw != [] && raw[0] == '/' then [ROOT] + Components(raw) else Components(raw)
  }

  function JoinWritten(root: Path, written: Path): Path {
    if written != [] && written[0] == ROOT then written else root + written
  }

  predicate SafeComponent(part: string) {
    IsNamed(part) && part != ".." && '/' !in part && '\\' !in part && ':' !in part
  }

  /** A path that the check returns. */
  predicate SafeRelative(p: Path) {
    p != [] && forall k :: 0 <= k < |p| ==> SafeComponent(p[k])
  }

  /** The components with separators between them. */
  function Joined(p: Path): string
    requires p != []
  {
    if |p| == 1 then p[0] else p[0] + "/" + Joined(p[1..])
  }

  // ----- what the check yields

  lemma {:induction false} SplitParts(s: string, k: nat)
    requires k < |Split(s)|
    ensures '/' !in Split(s)[k] && forall c :: c in Split(s)[k] ==> c in s
  {
    if s != [] {
      var rest := Split(s[1..]);
      if s[0] == '/' {
        if k > 0 {
          SplitParts(s[1..], k - 1);
        }
      } else {
        SplitParts(s[1..], k);
        assert k > 0 ==> Split(s)[k] == rest[k];
      }
    }
  }

  lemma {:induction false} ForwardSlashesHaveNoBackslash(s: string)
    ensures '\\' !in ForwardSlashes(s)
  {
    forall k | 0 <= k < |s| ensures ForwardSlashes(s)[k] != '\\' {
    }
  }

  /** The check yields components that stay below whatever they are joined to. */
  lemma ParsedIsSafe(raw: string)
    ensures Parse(raw).Some? ==> SafeRelative(Parse(raw).value)
  {
    if Parse(raw).Some? {
      var slashed := ForwardSlashes(Trim(raw));
      var relative := if slashed[0] == '/' then slashed[1..] else slashed;
      var parts := Components(relative);
      RetainedMembers(Split(relative), IsNamed);
      ForwardSlashesHaveNoBackslash(Trim(raw));
      forall k | 0 <= k < |parts| ensures SafeComponent(parts[k]) {
        assert parts[k] in parts;
        var j :| 0 <= j < |Split(relative)| && Split(relative)[j] == parts[k];
        SplitParts(relative, j);
      }
    }
  }

  predicate IsSeparator(c: char) {
    c == '/' || c == '\\'
  }

  /**
   * Which paths are refused: those that are blank or name nothing, start with two separators, lead upwards, or hold a
   * colon. Of any other, what counts are the components, whichever way its separators lean.
   */
  lemma ParseIff(raw: string)
    ensures var t := Trim(raw);
            var parts := Components(ForwardSlashes(t));
            Parse(raw) ==
              if (|t| >= 2 && IsSeparator(t[0]) && IsSeparator(t[1])) || ':' in t || ".." in parts || parts == []
              then None
              else Some(parts)
  {
    var t := Trim(raw);
    var slashed := ForwardSlashes(t);
    assert "//" <= slashed <==> |t| >= 2 && IsSeparator(t[0]) && IsSeparator(t[1]);
    assert ':' in t <==> ':' in slashed by {
      assert forall k :: 0 <= k < |t| ==> (t[k] == ':' <==> slashed[k] == ':');
      if ':' in t {
        var k :| 0 <= k < |t| && t[k] == ':';
        assert slashed[k] == ':';
      }
    }
    hide Trim, Components;
    NothingNamed();
    if slashed != [] && slashed[0] == '/' {
      assert slashed == "/" + slashed[1..];
      NamelessFirst(slashed[1..]);
    }
  }

  lemma NothingNamed()
    ensures Components("") == []
  {
    assert Split("") == [""] && [""][1..] == [];
  }

  // ----- paths in the form the check gives them

  lemma {:induction false} SplitAtSeparator(part: string, rest: string)
    requires '/' !in part
    ensures Split(part + "/" + rest) == [part] + Split(rest)
  {
    var whole := part + "/" + rest;
    if part == [] {
      assert whole[1..] == rest;
    } else {
      assert whole[1..] == part[1..] + "/" + rest;
      SplitAtSeparator(part[1..], rest);
      assert [part[0]] + part[1..] == part;
    }
  }

  lemma {:induction false} SplitWithoutSeparator(part: string)
    requires '/' !in part
    ensures Split(part) == [part]
  {
    if part != [] {
      SplitWithoutSeparator(part[1..]);
      assert [part[0]] + part[1..] == part;
    }
  }

  lemma {:induction false} JoinedSplits(p: Path)
    requires SafeRelative(p)
    ensures Split(Joined(p)) == p
  {
    assert SafeComponent(p[0]);
    if |p| == 1 {
      SplitWithoutSeparator(p[0]);
    } else {
      assert forall k :: 0 <= k < |p[1..]| ==> p[1..][k] == p[k + 1];
      JoinedSplits(p[1..]);
      SplitAtSeparator(p[0], Joined(p[1..]));
    }
  }

  lemma {:induction false} RetainedAll<T>(s: seq<T>, keep: T -> bool)
    requires forall x :: x in s ==> keep(x)
    ensures Retained(s, keep) == s
  {
    if s != [] {
      assert s[0] in s;
      RetainedAll(s[1..], keep);
    }
  }

  lemma {:induction false} JoinedChars(p: Path)
    requires SafeRelative(p)
    ensures Joined(p) != [] && p[0] <= Joined(p)
    ensures '\\' !in Joined(p) && ':' !in Joined(p)
  {
    assert SafeComponent(p[0]);
    if |p| > 1 {
      assert forall k :: 0 <= k < |p[1..]| ==> p[1..][k] == p[k + 1];
      JoinedChars(p[1..]);
    }
  }

  lemma JoinedIsCanonical(p: Path)
    requires SafeRelative(p)
    ensures Canonical(Joined(p)) && Components(Joined(p)) == p
  {
    hide Split, Retained;
    JoinedChars(p);
    JoinedSplits(p);
    RetainedAll(p, IsNamed);
    var s, first := Joined(p), p[0];
    assert SafeComponent(first);
    assert s[0] == first[0] && first[0] in first;
    assert |first| > 1 ==> s[1] == first[1] && first[1] in first;
    assert |first| == 1 && first[0] == '.' ==> first == ".";
  }

  lemma ParsesTo(raw: string, relative: string, p: Path)
    requires SafeRelative(p) && Components(relative) == p && ':' !in relative
    requires relative != [] && relative[0] != '/'
    requires var slashed := ForwardSlashes(Trim(raw)); slashed == relative || slashed == "/" + relative
    ensures Parse(raw) == Some(p)
  {
    hide Components, Trim;
    assert forall k :: 0 <= k < |p| ==> SafeComponent(p[k]) && p[k] != "..";
    assert ("/" + relative)[1..] == relative && ("/" + relative)[1] == relative[0];
  }

  /** A path without white space at its ends, written in its own form, is checked down to itself. */
  lemma JoinedParses(p: Path)
    requires SafeRelative(p) && Trim(Joined(p)) == Joined(p)
    ensures Parse(Joined(p)) == Some(p) && Written(Joined(p)) == p
  {
    hide Components, Trim, Joined, Parse;
    JoinedIsCanonical(p);
    JoinedChars(p);
    assert ForwardSlashes(Joined(p)) == Joined(p);
    ParsesTo(Joined(p), Joined(p), p);
  }

  /** With a separator in front it is checked down to the same, but joining it unchecked leaves the given root. */
  lemma RootedParses(p: Path)
    requires SafeRelative(p) && !IsWhitespace(Joined(p)[|Joined(p)| - 1])
    ensures Parse("/" + Joined(p)) == Some(p) && Written("/" + Joined(p)) == [ROOT] + p
  {
    hide Components, Trim, Joined, Parse;
    var s := Joined(p);
    var raw := "/" + s;
    JoinedIsCanonical(p);
    JoinedChars(p);
    assert raw[|raw| - 1] == s[|s| - 1];
    NothingToTrim(raw);
    assert ForwardSlashes(raw) == raw;
    NamelessFirst(s);
    ParsesTo(raw, s, p);
  }

  /** A dot between separators does not count. */
  lemma DottedParses(a: string, b: string)
    requires SafeComponent(a) && SafeComponent(b) && !IsWhitespace(a[0]) && !IsWhitespace(b[|b| - 1])
    ensures Parse(a + "/" + ("." + "/" + b)) == Some([a, b])
  {
    hide Parse, Trim;
    var tail := "." + "/" + b;
    var s := a + "/" + tail;
    SplitAtSeparator(a, tail);
    SplitAtSeparator(".", b);
    SplitWithoutSeparator(b);
    DottedComponents(a, b);
    assert Split(s) == [a, ".", b] by {
      assert [a] + (["."] + [b]) == [a, ".", b];
    }
    assert s[0] == a[0] && a[0] in a && s[|s| - 1] == b[|b| - 1];
    NothingToTrim(s);
    hide Split;
    assert ForwardSlashes(s) == s && ':' !in s;
    ParsesTo(s, s, [a, b]);
  }

  /** Nor does a separator at the end. */
  lemma TrailingParses(p: Path)
    requires SafeRelative(p) && !IsWhitespace(p[0][0])
    ensures Parse(Joined(p) + "/") == Some(p)
  {
    var s := Joined(p) + "/";
    JoinedChars(p);
    assert s == Joined(p) + "/" + "";
    SplitAfter(p, "");
    RetainedAppend(p, "", IsNamed);
    RetainedAll(p, IsNamed);
    assert s[0] == p[0][0] && p[0][0] in p[0] && SafeComponent(p[0]);
    NothingToTrim(s);
    hide Split, Trim, Parse;
    assert ForwardSlashes(s) == s && ':' !in s;
    ParsesTo(s, s, p);
  }

  lemma DottedComponents(a: string, b: string)
    requires IsNamed(a) && IsNamed(b)
    ensures Retained([a, ".", b], IsNamed) == [a, b]
  {
    assert [a, ".", b][1..] == [".", b] && [".", b][1..] == [b] && [b][1..] == [];
    assert Retained([b], IsNamed) == [b];
    assert Retained([".", b], IsNamed) == [b];
  }

  lemma NothingToTrim(s: string)
    requires s != [] && !IsWhitespace(s[0]) && !IsWhitespace(s[|s| - 1])
    ensures Trim(s) == s
  {
  }

  lemma NamelessFirst(s: string)
    ensures Components("/" + s) == Components(s)
  {
    assert "/" + s == "" + "/" + s;
    SplitAtSeparator("", s);
    assert ([""] + Split(s))[1..] == Split(s);
  }

  // ----- places that a file system without case tells apart

  predicate SamePlace(p: Path, q: Path) {
    |p| == |q| && forall k :: 0 <= k < |p| ==> EqualUpToCase(p[k], q[k])
  }

  /** A file at `p` stands in the way of one at `q`, which needs a directory there. */
  predicate Above(p: Path, q: Path) {
    |p| < |q| && SamePlace(p, q[..|p|])
  }

  function LowerAll(p: Path): (r: Path)
    ensures |r| == |p| && forall k :: 0 <= k < |p| ==> r[k] == Lowercase(p[k])
  {
    if p == [] then [] else [Lowercase(p[0])] + LowerAll(p[1..])
  }

  lemma LowerComponent(part: string)
    requires SafeComponent(part)
    ensures SafeComponent(Lowercase(part))
  {
    var low := Lowercase(part);
    forall k | 0 <= k < |low| ensures low[k] != '/' && low[k] != '\\' && low[k] != ':' {
      assert part[k] in part;
    }
    assert |part| == 1 ==> part == [part[0]] && low == [low[0]] && (low[0] == '.' <==> part[0] == '.');
    assert |part| == 2 ==> part == [part[0], part[1]] && low == [low[0], low[1]];
    assert |part| == 2 ==> (low[0] == '.' <==> part[0] == '.') && (low[1] == '.' <==> part[1] == '.');
  }

  lemma LowerAllIsSafe(p: Path)
    requires SafeRelative(p)
    ensures SafeRelative(LowerAll(p))
  {
    hide SafeComponent;
    forall k | 0 <= k < |p| ensures SafeComponent(LowerAll(p)[k]) {
      LowerComponent(p[k]);
    }
  }

  lemma LowercaseAppend(s: string, t: string)
    ensures Lowercase(s + t) == Lowercase(s) + Lowercase(t)
  {
    hide Lowercase;
    forall k | 0 <= k < |s + t| ensures Lowercase(s + t)[k] == (Lowercase(s) + Lowercase(t))[k] {
      assert (s + t)[k] == if k < |s| then s[k] else t[k - |s|];
    }
  }

  lemma {:induction false} LowerJoined(p: Path)
    requires p != []
    ensures Lowercase(Joined(p)) == Joined(LowerAll(p))
  {
    if |p| > 1 {
      LowerJoined(p[1..]);
      LowercaseAppend(p[0], "/" + Joined(p[1..]));
      LowercaseAppend("/", Joined(p[1..]));
      assert Lowercase("/") == "/";
      assert LowerAll(p)[1..] == LowerAll(p[1..]);
    }
  }

  lemma {:induction false} SplitAfter(p: Path, rest: string)
    requires SafeRelative(p)
    ensures Split(Joined(p) + "/" + rest) == p + Split(rest)
  {
    assert SafeComponent(p[0]);
    hide SafeComponent, Split;
    if |p| == 1 {
      SplitAtSeparator(p[0], rest);
    } else {
      assert forall k :: 0 <= k < |p[1..]| ==> p[1..][k] == p[k + 1];
      SplitAfter(p[1..], rest);
      SplitAtSeparator(p[0], Joined(p[1..]) + "/" + rest);
      assert Joined(p) + "/" + rest == p[0] + "/" + (Joined(p[1..]) + "/" + rest);
      assert [p[0]] + (p[1..] + Split(rest)) == p + Split(rest);
    }
  }

  lemma {:induction false} JoinedAppend(p: Path, q: Path)
    requires p != [] && q != []
    ensures Joined(p + q) == Joined(p) + "/" + Joined(q)
  {
    if |p| == 1 {
      assert (p + q)[0] == p[0] && (p + q)[1..] == q;
    } else {
      JoinedAppend(p[1..], q);
      assert (p + q)[0] == p[0] && (p + q)[1..] == p[1..] + q;
      assert p[0] + "/" + (Joined(p[1..]) + "/" + Joined(q)) == p[0] + "/" + Joined(p[1..]) + "/" + Joined(q);
    }
  }

  /** One written path continues another below it exactly when its components do. */
  lemma JoinedPrefixIff(p: Path, q: Path)
    requires SafeRelative(p) && SafeRelative(q)
    ensures Joined(p) + "/" <= Joined(q) <==> p < q
    ensures Joined(p) == Joined(q) <==> p == q
  {
    hide Split, Joined;
    JoinedSplits(p);
    JoinedSplits(q);
    if Joined(p) + "/" <= Joined(q) {
      var rest := Joined(q)[|Joined(p)| + 1..];
      assert Joined(q) == Joined(p) + "/" + rest;
      SplitAfter(p, rest);
    }
    if p < q {
      var rest := q[|p|..];
      assert q == p + rest;
      JoinedAppend(p, rest);
    }
  }

  /** Comparing written paths in lower case is comparing components up to case. */
  lemma PlacesCompare(p: Path, q: Path)
    requires SafeRelative(p) && SafeRelative(q)
    ensures Lowercase(Joined(p)) == Lowercase(Joined(q)) <==> SamePlace(p, q)
    ensures Lowercase(Joined(p)) + "/" <= Lowercase(Joined(q)) <==> Above(p, q)
  {
    assert p != [] && q != [];
    hide SafeRelative, EqualUpToCase, Joined, Lowercase;
    LowerAllIsSafe(p);
    LowerAllIsSafe(q);
    LowerJoined(p);
    LowerJoined(q);
    JoinedPrefixIff(LowerAll(p), LowerAll(q));
    forall k: nat | k < |p| && k < |q| ensures LowerAll(p)[k] == LowerAll(q)[k] <==> EqualUpToCase(p[k], q[k]) {
      LowercaseIff(p[k], q[k]);
    }
  }

  // ----- the private directory

  const GRIFFR_DIR := ".griffr"

  predicate IsPrivate(p: Path) {
    p != [] && Lowercase(p[0]) == GRIFFR_DIR
  }

  lemma PrivateIff(p: Path)
    requires p != []
    ensures IsPrivate(p) <==> EqualUpToCase(p[0], ".griffr")
  {
    LowercaseIff(p[0], ".griffr");
    assert Lowercase(".griffr") == ".griffr";
  }

  lemma UpToSeparator(s: string, end: nat, name: string)
    requires end <= |s| && '/' !in s[..end] && '/' !in name && (end == |s| || s[end] == '/')
    ensures s == name || name + "/" <= s <==> s[..end] == name
  {
    assert forall k :: 0 <= k < end ==> s[..end][k] != '/' && s[k] == s[..end][k];
    assert forall k :: 0 <= k < |name| ==> name[k] != '/' && (name + "/")[k] == name[k];
    assert (name + "/")[|name|] == '/';
    assert s[..end] == name && end < |s| ==> s[..end + 1] == name + "/";
    if name + "/" <= s {
      assert forall k :: 0 <= k <= |name| ==> s[k] == (name + "/")[k];
    }
  }

  /** The test on the spelling of a path is a test on its first component. */
  lemma PrivateSpelling(p: Path)
    requires SafeRelative(p)
    ensures IsPrivateSpelling(Joined(p)) <==> IsPrivate(p)
  {
    JoinedIsCanonical(p);
    CanonicalNormalizes(Joined(p));
    FirstEnds(p);
    hide Normalize, Lowercase, Joined;
    UpToSeparator(Lowercase(Joined(p)), |p[0]|, GRIFFR_DIR);
  }

  lemma FirstEnds(p: Path)
    requires SafeRelative(p)
    ensures var s, end := Lowercase(Joined(p)), |p[0]|;
            end <= |s| && s[..end] == Lowercase(p[0]) && '/' !in s[..end] && (end == |s| || s[end] == '/')
  {
    JoinedChars(p);
    var s, end := Joined(p), |p[0]|;
    assert SafeComponent(p[0]);
    assert Lowercase(s)[..end] == Lowercase(p[0]);
    assert |p| > 1 ==> s[end] == '/';
    forall k | 0 <= k < end ensures Lowercase(s)[k] != '/' {
      assert p[0][k] in p[0] && s[k] == p[0][k];
    }
  }
}
