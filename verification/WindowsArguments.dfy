/** Quoting command-line arguments so that the documented CommandLineToArgvW rules read them back. */
module WindowsArguments {

  /** A UTF-16 code unit. */
  type Unit = u: nat | u < 0x1_0000

  type Argument = seq<Unit>

  const BACKSLASH: Unit := 92
  const QUOTE: Unit := 34
  const SPACE: Unit := 32
  const TAB: Unit := 9
  const NUL: Unit := 0

  // ----- the reader: rules for the arguments after the program name

  predicate IsBlank(u: Unit) {
    u == SPACE || u == TAB
  }

  function Repeat(u: Unit, n: nat): (r: seq<Unit>)
    ensures |r| == n
  {
    if n == 0 then [] else Repeat(u, n - 1) + [u]
  }

  /** Between arguments, or inside one: in quotes or not, after some backslashes, with what was read so far. */
  datatype Mode = Between | Inside(quoted: bool, slashes: nat, soFar: seq<Unit>)

  /**
   * Blanks outside quotes separate arguments. Before a quote, 2n backslashes stand for n and the quote toggles
   * quoting; 2n + 1 stand for n and the quote is literal. Other backslashes stand for themselves.
   */
  function Scan(line: seq<Unit>, mode: Mode): seq<Argument>
    decreases |line|, if mode.Between? then 1 else 0
  {
    match mode
    case Between =>
      if line == [] then []
      else if IsBlank(line[0]) then Scan(line[1..], Between)
      else Scan(line, Inside(false, 0, []))
    case Inside(quoted, slashes, soFar) =>
      if line == [] then [soFar + Repeat(BACKSLASH, slashes)]
      else if line[0] == BACKSLASH then Scan(line[1..], Inside(quoted, slashes + 1, soFar))
      else if line[0] == QUOTE then
        var text := soFar + Repeat(BACKSLASH, slashes / 2);
        if slashes % 2 == 0 then Scan(line[1..], Inside(!quoted, 0, text))
        else Scan(line[1..], Inside(quoted, 0, text + [QUOTE]))
      else if IsBlank(line[0]) && !quoted then
        [soFar + Repeat(BACKSLASH, slashes)] + Scan(line[1..], Between)
      else Scan(line[1..], Inside(quoted, 0, soFar + Repeat(BACKSLASH, slashes) + [line[0]]))
  }

  function UntilNul(line: seq<Unit>): seq<Unit> {
    if line == [] || line[0] == NUL then [] else [line[0]] + UntilNul(line[1..])
  }

  /** The arguments a process receives from a NUL-terminated parameter line. */
  function ParseLine(line: seq<Unit>): seq<Argument> {
    Scan(UntilNul(line), Between)
  }

  // ----- the writer

  predicate NeedsQuotes(argument: Argument) {
    argument == [] || exists k :: 0 <= k < |argument| && argument[k] in {SPACE, TAB, QUOTE}
  }

  /** What follows the opening quote, `slashes` backslashes being held back. */
  function QuotedTail(argument: Argument, slashes: nat): seq<Unit>
    decreases argument
  {
    if argument == [] then Repeat(BACKSLASH, slashes * 2) + [QUOTE]
    else if argument[0] == BACKSLASH then QuotedTail(argument[1..], slashes + 1)
    else if argument[0] == QUOTE then
      Repeat(BACKSLASH, slashes * 2 + 1) + [QUOTE] + QuotedTail(argument[1..], 0)
    else Repeat(BACKSLASH, slashes) + [argument[0]] + QuotedTail(argument[1..], 0)
  }

  function Quoted(argument: Argument): (r: seq<Unit>)
    ensures r != []
  {
    if NeedsQuotes(argument) then [QUOTE] + QuotedTail(argument, 0) else argument
  }

  method QuoteArgument(argument: Argument) returns (quoted: seq<Unit>)
    ensures quoted == Quoted(argument)
  {
    if !NeedsQuotes(argument) {
      return argument;
    }
    quoted := [QUOTE];
    var backslashes := 0;
    for i := 0 to |argument|
      invariant quoted + QuotedTail(argument[i..], backslashes) == [QUOTE] + QuotedTail(argument, 0)
    {
      var value := argument[i];
      ghost var rest := argument[i..];
      assert rest[0] == value && rest[1..] == argument[i + 1..];
      if value == BACKSLASH {
        backslashes := backslashes + 1;
        continue;
      }
      if value == QUOTE {
        quoted := quoted + Repeat(BACKSLASH, backslashes * 2 + 1) + [QUOTE];
      } else {
        quoted := quoted + Repeat(BACKSLASH, backslashes) + [value];
      }
      backslashes := 0;
    }
    assert argument[|argument|..] == [];
    quoted := quoted + Repeat(BACKSLASH, backslashes * 2) + [QUOTE];
  }

  /** The arguments, each preceded by one space unless it is the first of the line. */
  function Joined(arguments: seq<Argument>, first: bool): seq<Unit> {
    if arguments == [] then [] else
      (if first then [] else [SPACE]) + Quoted(arguments[0]) + Joined(arguments[1..], false)
  }

  lemma Regroup(a: seq<Unit>, b: seq<Unit>, c: seq<Unit>, d: seq<Unit>)
    ensures a + b + c + d == a + (b + c + d)
  {
  }

  method CurrentParameterLine(arguments: seq<Argument>) returns (line: seq<Unit>)
    ensures line == Joined(arguments, true) + [NUL]
  {
    line := [];
    ghost var whole := Joined(arguments, true);
    for i := 0 to |arguments|
      invariant line == [] <==> i == 0
      invariant line + Joined(arguments[i..], i == 0) == whole
    {
      ghost var rest, before := arguments[i..], line;
      ghost var separator: seq<Unit> := if i == 0 then [] else [SPACE];
      assert rest[0] == arguments[i] && rest[1..] == arguments[i + 1..];
      if line != [] {
        line := line + [SPACE];
      }
      assert line == before + separator;
      var quoted := QuoteArgument(arguments[i]);
      Regroup(before, separator, quoted, Joined(rest[1..], false));
      line := line + quoted;
    }
    assert arguments[|arguments|..] == [];
    assert line == whole;
    line := line + [NUL];
  }

  // ----- reading back

  lemma {:induction false} RepeatAdds(n: nat, m: nat)
    ensures Repeat(BACKSLASH, n) + Repeat(BACKSLASH, m) == Repeat(BACKSLASH, n + m)
  {
    if m > 0 {
      RepeatAdds(n, m - 1);
      assert Repeat(BACKSLASH, n) + Repeat(BACKSLASH, m) ==
             Repeat(BACKSLASH, n) + Repeat(BACKSLASH, m - 1) + [BACKSLASH];
    }
  }

  lemma {:induction false} ScanSlashes(n: nat, rest: seq<Unit>, quoted: bool, slashes: nat, soFar: seq<Unit>)
    ensures Scan(Repeat(BACKSLASH, n) + rest, Inside(quoted, slashes, soFar))
         == Scan(rest, Inside(quoted, slashes + n, soFar))
  {
    if n == 0 {
      assert Repeat(BACKSLASH, 0) + rest == rest;
    } else {
      assert Repeat(BACKSLASH, n) + rest == Repeat(BACKSLASH, n - 1) + ([BACKSLASH] + rest);
      ScanSlashes(n - 1, [BACKSLASH] + rest, quoted, slashes, soFar);
      assert ([BACKSLASH] + rest)[1..] == rest;
    }
  }

  lemma ScanClosing(held: nat, soFar: seq<Unit>, rest: seq<Unit>)
    ensures Scan(Repeat(BACKSLASH, held * 2) + [QUOTE] + rest, Inside(true, 0, soFar))
         == Scan(rest, Inside(false, 0, soFar + Repeat(BACKSLASH, held)))
  {
    var more := [QUOTE] + rest;
    assert Repeat(BACKSLASH, held * 2) + [QUOTE] + rest == Repeat(BACKSLASH, held * 2) + more;
    ScanSlashes(held * 2, more, true, 0, soFar);
    assert more[1..] == rest;
  }

  /** How many backslashes are written before a character that is not one, when `held` were read. */
  function Written(value: Unit, held: nat): nat {
    if value == QUOTE then held * 2 + 1 else held
  }

  lemma ScanOne(value: Unit, held: nat, soFar: seq<Unit>, after: seq<Unit>)
    requires value != BACKSLASH
    ensures Scan(Repeat(BACKSLASH, Written(value, held)) + [value] + after, Inside(true, 0, soFar))
         == Scan(after, Inside(true, 0, soFar + Repeat(BACKSLASH, held) + [value]))
  {
    var more := [value] + after;
    assert Repeat(BACKSLASH, Written(value, held)) + [value] + after == Repeat(BACKSLASH, Written(value, held)) + more;
    ScanSlashes(Written(value, held), more, true, 0, soFar);
    assert more[1..] == after;
  }

  /** The tail of a quoted argument leaves the reader just after it, with exactly the argument in hand. */
  lemma {:induction false} ScanQuotedTail(argument: Argument, held: nat, soFar: seq<Unit>, rest: seq<Unit>)
    ensures Scan(QuotedTail(argument, held) + rest, Inside(true, 0, soFar))
         == Scan(rest, Inside(false, 0, soFar + Repeat(BACKSLASH, held) + argument))
    decreases argument
  {
    hide Scan, Repeat;
    if argument == [] {
      ScanClosing(held, soFar, rest);
      assert soFar + Repeat(BACKSLASH, held) + argument == soFar + Repeat(BACKSLASH, held);
    } else {
      var value, tail := argument[0], argument[1..];
      assert argument == [value] + tail;
      if value == BACKSLASH {
        ScanQuotedTail(tail, held + 1, soFar, rest);
        OneMoreHeld(held);
        assert soFar + Repeat(BACKSLASH, held) + argument == soFar + Repeat(BACKSLASH, held + 1) + tail;
      } else {
        var after := QuotedTail(tail, 0) + rest;
        var text := soFar + Repeat(BACKSLASH, held) + [value];
        assert QuotedTail(argument, held) + rest == Repeat(BACKSLASH, Written(value, held)) + [value] + after;
        ScanOne(value, held, soFar, after);
        ScanQuotedTail(tail, 0, text, rest);
        OneMoreHeld(0);
        assert text + [] + tail == soFar + Repeat(BACKSLASH, held) + argument;
      }
    }
  }

  lemma OneMoreHeld(held: nat)
    ensures Repeat(BACKSLASH, held + 1) == Repeat(BACKSLASH, held) + [BACKSLASH] && Repeat(BACKSLASH, 0) == []
  {
  }

  /** An argument that needs no quotes is read as it stands. */
  lemma {:induction false} ScanPlain(argument: Argument, slashes: nat, soFar: seq<Unit>, rest: seq<Unit>)
    requires forall k :: 0 <= k < |argument| ==> !IsBlank(argument[k]) && argument[k] != QUOTE
    requires rest == [] || IsBlank(rest[0])
    ensures Scan(argument + rest, Inside(false, slashes, soFar))
         == [soFar + Repeat(BACKSLASH, slashes) + argument] + if rest == [] then [] else Scan(rest[1..], Between)
    decreases argument
  {
    if argument == [] {
      assert argument + rest == rest;
      assert soFar + Repeat(BACKSLASH, slashes) + argument == soFar + Repeat(BACKSLASH, slashes);
    } else {
      var value, tail := argument[0], argument[1..];
      assert (argument + rest)[1..] == tail + rest;
      if value == BACKSLASH {
        ScanPlain(tail, slashes + 1, soFar, rest);
        assert soFar + Repeat(BACKSLASH, slashes) + argument == soFar + Repeat(BACKSLASH, slashes + 1) + tail;
      } else {
        var text := soFar + Repeat(BACKSLASH, slashes) + [value];
        ScanPlain(tail, 0, text, rest);
        assert text + Repeat(BACKSLASH, 0) + tail == soFar + Repeat(BACKSLASH, slashes) + argument;
      }
    }
  }

  /** What the reader makes of an argument followed by `rest`. */
  function Follows(argument: Argument, rest: seq<Unit>): seq<Argument> {
    [argument] + if rest == [] then [] else Scan(rest[1..], Between)
  }

  lemma ScanOpening(rest: seq<Unit>)
    ensures Scan([QUOTE] + rest, Between) == Scan(rest, Inside(true, 0, []))
  {
    var line := [QUOTE] + rest;
    assert line[0] == QUOTE && line[1..] == rest;
    assert Scan(line, Between) == Scan(line, Inside(false, 0, []));
    assert [] + Repeat(BACKSLASH, 0) == [];
  }

  lemma ScanInQuotes(argument: Argument, rest: seq<Unit>)
    requires rest == [] || IsBlank(rest[0])
    ensures Scan([QUOTE] + QuotedTail(argument, 0) + rest, Between) == Follows(argument, rest)
  {
    var tail := QuotedTail(argument, 0) + rest;
    assert [QUOTE] + QuotedTail(argument, 0) + rest == [QUOTE] + tail;
    ScanOpening(tail);
    ScanQuotedTail(argument, 0, [], rest);
    assert [] + Repeat(BACKSLASH, 0) + argument == argument;
    assert Scan(tail, Inside(true, 0, [])) == Scan(rest, Inside(false, 0, argument));
    assert argument + Repeat(BACKSLASH, 0) == argument;
  }

  lemma ScanBare(argument: Argument, rest: seq<Unit>)
    requires !NeedsQuotes(argument) && (rest == [] || IsBlank(rest[0]))
    ensures Scan(argument + rest, Between) == Follows(argument, rest)
  {
    assert (argument + rest)[0] == argument[0];
    assert Scan(argument + rest, Between) == Scan(argument + rest, Inside(false, 0, []));
    ScanPlain(argument, 0, [], rest);
    assert [] + Repeat(BACKSLASH, 0) + argument == argument;
  }

  /** One quoted argument, up to a blank or the end of the line, is read back as itself. */
  lemma ScanQuoted(argument: Argument, rest: seq<Unit>)
    requires rest == [] || IsBlank(rest[0])
    ensures Scan(Quoted(argument) + rest, Between) == Follows(argument, rest)
  {
    if NeedsQuotes(argument) {
      ScanInQuotes(argument, rest);
    } else {
      ScanBare(argument, rest);
    }
  }

  lemma {:induction false} ScanJoined(arguments: seq<Argument>)
    ensures Scan(Joined(arguments, true), Between) == arguments
  {
    if arguments != [] {
      var tail := Joined(arguments[1..], false);
      assert Joined(arguments, true) == Quoted(arguments[0]) + tail;
      ScanQuoted(arguments[0], tail);
      if |arguments| > 1 {
        assert tail[1..] == Joined(arguments[1..], true);
      }
      ScanJoined(arguments[1..]);
    }
  }

  predicate NulFree(s: seq<Unit>) {
    forall k :: 0 <= k < |s| ==> s[k] != NUL
  }

  lemma {:induction false} QuotedTailNulFree(argument: Argument, held: nat)
    requires NulFree(argument)
    ensures NulFree(QuotedTail(argument, held))
    decreases argument
  {
    RepeatNulFree(held);
    RepeatNulFree(held * 2);
    RepeatNulFree(held * 2 + 1);
    if argument != [] {
      QuotedTailNulFree(argument[1..], if argument[0] == BACKSLASH then held + 1 else 0);
    }
  }

  lemma {:induction false} RepeatNulFree(n: nat)
    ensures NulFree(Repeat(BACKSLASH, n))
  {
    if n > 0 {
      RepeatNulFree(n - 1);
    }
  }

  lemma {:induction false} JoinedNulFree(arguments: seq<Argument>, first: bool)
    requires forall a :: a in arguments ==> NulFree(a)
    ensures NulFree(Joined(arguments, first))
    decreases arguments
  {
    if arguments != [] {
      QuotedTailNulFree(arguments[0], 0);
      JoinedNulFree(arguments[1..], false);
    }
  }

  lemma {:induction false} UntilNulStops(s: seq<Unit>, rest: seq<Unit>)
    requires NulFree(s)
    ensures UntilNul(s + [NUL] + rest) == s
  {
    if s != [] {
      UntilNulStops(s[1..], rest);
      assert (s + [NUL] + rest)[1..] == s[1..] + [NUL] + rest;
    }
  }

  /** Round trip: the process started with the line receives exactly the arguments it was built from. */
  lemma ParameterLineRoundTrip(arguments: seq<Argument>)
    requires forall a :: a in arguments ==> NulFree(a)
    ensures ParseLine(Joined(arguments, true) + [NUL]) == arguments
  {
    JoinedNulFree(arguments, true);
    UntilNulStops(Joined(arguments, true), []);
    assert Joined(arguments, true) + [NUL] == Joined(arguments, true) + [NUL] + [];
    ScanJoined(arguments);
  }

  /** Hence different argument lists never give the same line. */
  lemma ParameterLinesDiffer(a: seq<Argument>, b: seq<Argument>)
    requires forall x :: x in a ==> NulFree(x)
    requires forall x :: x in b ==> NulFree(x)
    requires Joined(a, true) + [NUL] == Joined(b, true) + [NUL]
    ensures a == b
  {
    ParameterLineRoundTrip(a);
    ParameterLineRoundTrip(b);
  }
}
