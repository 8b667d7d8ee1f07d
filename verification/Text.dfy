/** Facts about strings that several parts of the program test: white space, ASCII case and digests in hexadecimal. */
module Text {

  /** The characters with the Unicode property White_Space, which `str::trim` removes. */
  predicate IsWhitespace(c: char) {
    var u := c as int;
    || 0x09 <= u <= 0x0D || u == 0x20 || u == 0x85 || u == 0xA0 || u == 0x1680 || 0x2000 <= u <= 0x200A
    || u == 0x2028 || u == 0x2029 || u == 0x202F || u == 0x205F || u == 0x3000
  }

  const WHITE_SPACE: set<int> := {
    9, 10, 11, 12, 13, 32, 133, 160, 5760, 8192, 8193, 8194, 8195, 8196, 8197, 8198, 8199, 8200, 8201, 8202, 8232, 8233,
    8239, 8287, 12288}

  /** The property holds of twenty-five characters. */
  lemma WhitespaceIff(c: char)
    ensures IsWhitespace(c) <==> c as int in WHITE_SPACE
  {
  }

  predicate Blank(s: string) {
    forall c :: c in s ==> IsWhitespace(c)
  }

  function LowerChar(c: char): char {
    if 'A' <= c <= 'Z' then (c as int + 32) as char else c
  }

  function Lowercase(s: string): (r: string)
    ensures |r| == |s| && forall k :: 0 <= k < |s| ==> r[k] == LowerChar(s[k])
  {
    if s == [] then [] else [LowerChar(s[0])] + Lowercase(s[1..])
  }

  /** The same character, or one letter in both cases. */
  predicate SameUpToCase(c: char, d: char) {
    || c == d
    || ('A' <= c <= 'Z' && d as int == c as int + 32)
    || ('A' <= d <= 'Z' && c as int == d as int + 32)
  }

  predicate EqualUpToCase(s: string, t: string) {
    |s| == |t| && forall k :: 0 <= k < |s| ==> SameUpToCase(s[k], t[k])
  }

  /** Lower case is one spelling of what is equal up to ASCII case, and only of that. */
  lemma LowercaseIff(s: string, t: string)
    ensures Lowercase(s) == Lowercase(t) <==> EqualUpToCase(s, t)
    ensures forall c :: c in Lowercase(s) ==> !('A' <= c <= 'Z')
    ensures EqualUpToCase(Lowercase(s), s)
  {
    var low := Lowercase(s);
    assert forall k :: 0 <= k < |s| ==> low[k] == LowerChar(s[k]) && SameUpToCase(low[k], s[k]);
    if Lowercase(s) == Lowercase(t) {
      forall k | 0 <= k < |s| ensures SameUpToCase(s[k], t[k]) {
        assert LowerChar(s[k]) == Lowercase(s)[k] == Lowercase(t)[k] == LowerChar(t[k]);
      }
    }
    if EqualUpToCase(s, t) {
      forall k | 0 <= k < |s| ensures Lowercase(s)[k] == Lowercase(t)[k] {
        assert SameUpToCase(s[k], t[k]);
      }
    }
  }

  /** What is equal up to case and has no capitals is the lower case. */
  lemma LoweredIff(s: string, low: string)
    ensures low == Lowercase(s) <==> EqualUpToCase(low, s) && forall c :: c in low ==> !('A' <= c <= 'Z')
  {
    LowercaseIff(s, low);
    if forall c :: c in low ==> !('A' <= c <= 'Z') {
      assert forall k :: 0 <= k < |low| ==> low[k] in low;
      assert Lowercase(low) == low;
    }
  }

  function TrimStart(s: string): (r: string) {
    if s != [] && IsWhitespace(s[0]) then TrimStart(s[1..]) else s
  }

  function TrimEnd(s: string): (r: string) {
    if s != [] && IsWhitespace(s[|s| - 1]) then TrimEnd(s[..|s| - 1]) else s
  }

  /** `str::trim`. */
  function Trim(s: string): string {
    TrimEnd(TrimStart(s))
  }

  /** Trimming takes white space from both ends and stops at what is none. */
  lemma {:induction false} TrimStartSplits(s: string) returns (space: string)
    ensures s == space + TrimStart(s) && Blank(space)
    ensures TrimStart(s) != [] ==> !IsWhitespace(TrimStart(s)[0])
  {
    space := [];
    if s != [] && IsWhitespace(s[0]) {
      var rest := TrimStartSplits(s[1..]);
      space := [s[0]] + rest;
      assert s == [s[0]] + s[1..];
    }
  }

  lemma {:induction false} TrimEndSplitsOff(s: string) returns (space: string)
    ensures s == TrimEnd(s) + space && Blank(space)
    ensures TrimEnd(s) != [] ==> !IsWhitespace(TrimEnd(s)[|TrimEnd(s)| - 1])
  {
    space := [];
    if s != [] && IsWhitespace(s[|s| - 1]) {
      var rest := TrimEndSplitsOff(s[..|s| - 1]);
      space := rest + [s[|s| - 1]];
      assert s == s[..|s| - 1] + [s[|s| - 1]];
    }
  }

  /** Trimming leaves what is between white space; nothing is left exactly of what is blank. */
  lemma TrimKeepsMiddle(s: string) returns (before: string, after: string)
    ensures s == before + Trim(s) + after && Blank(before) && Blank(after)
    ensures Trim(s) != [] ==> !IsWhitespace(Trim(s)[0]) && !IsWhitespace(Trim(s)[|Trim(s)| - 1])
    ensures Trim(s) == [] <==> Blank(s)
  {
    before := TrimStartSplits(s);
    after := TrimEndSplitsOff(TrimStart(s));
    assert Trim(s) != [] ==> Trim(s)[0] == TrimStart(s)[0] && Trim(s)[0] in s;
  }

  predicate IsMd5(s: string) {
    |s| == 32 && forall c :: c in s ==> '0' <= c <= '9' || 'a' <= c <= 'f' || 'A' <= c <= 'F'
  }
}
