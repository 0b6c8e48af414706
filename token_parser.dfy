/** The argument tokenizer: raw command arguments become quoted-string, unquoted-string and
    integer tokens, or the pass fails with a conflict at one argument index. */
module TokenParser {
  import opened Wrappers

  datatype ParseConflict = MalformedStringArgument | ExpectedInteger | MissingStringTermination

  datatype ArgumentParseException = ArgumentParseException(argumentIndex: nat, conflict: ParseConflict)

  /** Every token carries the index of the argument it came from (for a quoted string spanning
      several arguments, the index of the opening one). An integer token's value is `None` for
      the wildcard `*`. */
  datatype Token =
    | QuotedStringToken(argumentIndex: nat, text: string)
    | UnquotedStringToken(argumentIndex: nat, text: string)
    | IntegerToken(argumentIndex: nat, value: Option<int>, isDuration: bool)

  const IntegerWildcardChar: char := '*'

  // ---------------------------------------------------------------------------------------
  // Character and string helpers

  /** `String.indexOf(c, from)`: the first index at or after `from` holding `c`, or -1. */
  function IndexOf(s: string, c: char, from: nat): (r: int)
    ensures r == -1 <==> forall k :: from <= k < |s| ==> s[k] != c
    ensures r != -1 ==> from <= r < |s| && s[r] == c && forall k :: from <= k < r ==> s[k] != c
    decreases |s| - from
  {
    if from >= |s| then -1 else if s[from] == c then from else IndexOf(s, c, from + 1)
  }

  predicate IsAsciiDigit(c: char) {
    '0' <= c <= '9'
  }

  /** A `"` strictly between the first and the last character. */
  predicate HasInteriorQuote(arg: string) {
    exists k :: 1 <= k < |arg| - 1 && arg[k] == '"'
  }

  // ---------------------------------------------------------------------------------------
  // Integer and duration values

  /** `s` split at every `:`, left to right; there is always at least one (possibly empty) group. */
  function Groups(s: string): (r: seq<string>)
    ensures |r| >= 1
  {
    if s == [] then [""]
    else
      var rest := Groups(s[1..]);
      if s[0] == ':' then [""] + rest else [[s[0]] + rest[0]] + rest[1..]
  }

  /** The groups joined again with `:` in between. */
  function JoinColons(groups: seq<string>): string
    requires |groups| >= 1
  {
    if |groups| == 1 then groups[0] else groups[0] + ":" + JoinColons(groups[1..])
  }

  function Pow(base: nat, exponent: nat): nat {
    if exponent == 0 then 1 else base * Pow(base, exponent - 1)
  }

  function DigitValue(c: char): nat
    requires IsAsciiDigit(c)
  {
    c as int - '0' as int
  }

  /** Positional base-10 value: the digit at distance k from the right weighs 10^k. */
  function DecimalValue(digits: string): nat
    requires forall k :: 0 <= k < |digits| ==> IsAsciiDigit(digits[k])
  {
    if digits == [] then 0
    else DigitValue(digits[0]) * Pow(10, |digits| - 1) + DecimalValue(digits[1..])
  }

  /** Positional base-60 value: the group at distance k from the right weighs 60^k. */
  function SexagesimalValue(groups: seq<string>): nat
    requires forall g, k :: g in groups && 0 <= k < |g| ==> IsAsciiDigit(g[k])
  {
    if groups == [] then 0
    else DecimalValue(groups[0]) * Pow(60, |groups| - 1) + SexagesimalValue(groups[1..])
  }

  predicate OnlyDigitsAndColons(arg: string) {
    forall k :: 0 <= k < |arg| ==> IsAsciiDigit(arg[k]) || arg[k] == ':'
  }

  lemma {:induction false} GroupsOfDigits(s: string)
    requires OnlyDigitsAndColons(s)
    ensures forall g, k :: g in Groups(s) && 0 <= k < |g| ==> IsAsciiDigit(g[k])
    decreases |s|
  {
    if s != [] {
      GroupsOfDigits(s[1..]);
    }
  }

  /** What `parseIntegerToken` computes: `None` if any character other than `0`-`9` and `:`
      occurs, otherwise the base-60 value of the `:`-separated decimal groups, flagged as a
      duration exactly when there is a `:`. */
  function ParseInteger(arg: string, argumentIndex: nat): (r: Option<Token>)
    ensures r.Some? <==> OnlyDigitsAndColons(arg)
    ensures r.Some? ==> r.value.IntegerToken? && r.value.argumentIndex == argumentIndex && r.value.value.Some?
    ensures r.Some? ==> (r.value.isDuration <==> |Groups(arg)| > 1)
    ensures r.Some? && ':' !in arg ==> r.value.value == Some(DecimalValue(arg))
  {
    if OnlyDigitsAndColons(arg) then
      GroupsOfDigits(arg);
      GroupsCountColon(arg);
      ColonFreeValue(arg);
      Some(IntegerToken(argumentIndex, Some(SexagesimalValue(Groups(arg))), ':' in arg))
    else None
  }

  /** Without a `:` the argument is one group, whose base-60 value is its decimal value. */
  lemma {:induction false} ColonFreeValue(arg: string)
    requires OnlyDigitsAndColons(arg)
    ensures ':' !in arg ==> (GroupsOfDigits(arg); SexagesimalValue(Groups(arg)) == DecimalValue(arg))
  {
    GroupsOfDigits(arg);
    if ':' !in arg {
      GroupsWithoutColon(arg);
      assert Groups(arg)[1..] == [];
    }
  }

  /** Splitting at `:` and joining again gives back the argument. */
  lemma {:induction false} GroupsRoundTrip(s: string)
    ensures JoinColons(Groups(s)) == s
    decreases |s|
  {
    if s != [] {
      GroupsRoundTrip(s[1..]);
      var rest := Groups(s[1..]);
      var groups := Groups(s);
      if s[0] == ':' {
        assert groups == [""] + rest && groups[1..] == rest;
        assert JoinColons(groups) == "" + ":" + JoinColons(rest);
      } else {
        assert groups == [[s[0]] + rest[0]] + rest[1..];
        if |rest| == 1 {
          assert JoinColons(groups) == [s[0]] + rest[0];
        } else {
          assert groups[1..] == rest[1..];
          assert JoinColons(groups) == [s[0]] + rest[0] + ":" + JoinColons(rest[1..]);
          assert JoinColons(rest) == rest[0] + ":" + JoinColons(rest[1..]);
        }
      }
      assert s == [s[0]] + s[1..];
    }
  }

  /** No group contains a `:`. */
  lemma {:induction false} GroupsColonFree(s: string)
    ensures forall g :: g in Groups(s) ==> ':' !in g
    decreases |s|
  {
    if s != [] {
      GroupsColonFree(s[1..]);
      var rest := Groups(s[1..]);
      if s[0] != ':' {
        assert rest[0] in rest;
        forall g | g in rest[1..] ensures g in rest { }
      }
    }
  }

  /** Without a `:`, the argument is a single group. */
  lemma {:induction false} GroupsWithoutColon(s: string)
    requires ':' !in s
    ensures Groups(s) == [s]
    decreases |s|
  {
    if s != [] {
      assert s[0] != ':' && ':' !in s[1..];
      GroupsWithoutColon(s[1..]);
      assert [s[0]] + s[1..] == s;
    }
  }

  /** The first `:` ends the first group; the groups of what follows come after it. */
  lemma {:induction false} GroupsAtColon(a: string, b: string)
    requires ':' !in a
    ensures Groups(a + ":" + b) == [a] + Groups(b)
    decreases |a|
  {
    var s := a + ":" + b;
    if a == [] {
      assert s[0] == ':' && s[1..] == b;
    } else {
      assert s[0] == a[0] != ':' && s[1..] == a[1..] + ":" + b;
      assert ':' !in a[1..];
      GroupsAtColon(a[1..], b);
      assert [a[0]] + a[1..] == a;
    }
  }

  /** There is more than one group exactly when the argument contains a `:`. */
  lemma {:induction false} GroupsCountColon(s: string)
    ensures |Groups(s)| > 1 <==> ':' in s
    decreases |s|
  {
    if s != [] {
      GroupsCountColon(s[1..]);
      assert s == [s[0]] + s[1..];
    }
  }

  /** The state of the right-to-left scan once the suffix `done` is consumed: the leftmost group
      of `done` is still open, the others are complete. */
  ghost predicate ScanState(done: string, radixPower: nat, blockCounter: nat, currentNumber: nat, resultingNumber: nat)
    requires OnlyDigitsAndColons(done)
  {
    GroupsOfDigits(done);
    var groups := Groups(done);
    && radixPower == |groups[0]|
    && currentNumber == DecimalValue(groups[0])
    && blockCounter == |groups| - 1
    && resultingNumber == SexagesimalValue(groups[1..])
  }

  lemma {:induction false} ScanColon(done: string, radixPower: nat, blockCounter: nat, currentNumber: nat, resultingNumber: nat)
    requires OnlyDigitsAndColons(done)
    requires ScanState(done, radixPower, blockCounter, currentNumber, resultingNumber)
    ensures OnlyDigitsAndColons([':'] + done)
    ensures ScanState([':'] + done, 0, blockCounter + 1, 0, resultingNumber + currentNumber * Pow(60, blockCounter))
  {
    var s := [':'] + done;
    assert s[1..] == done;
    GroupsOfDigits(done);
    GroupsOfDigits(s);
    assert Groups(s) == [""] + Groups(done);
    assert Groups(s)[1..] == Groups(done);
  }

  lemma {:induction false} ScanDigit(c: char, done: string, radixPower: nat, blockCounter: nat, currentNumber: nat, resultingNumber: nat)
    requires IsAsciiDigit(c) && OnlyDigitsAndColons(done)
    requires ScanState(done, radixPower, blockCounter, currentNumber, resultingNumber)
    ensures OnlyDigitsAndColons([c] + done)
    ensures ScanState([c] + done, radixPower + 1, blockCounter, currentNumber + DigitValue(c) * Pow(10, radixPower), resultingNumber)
  {
    var s := [c] + done;
    assert s[1..] == done;
    GroupsOfDigits(done);
    GroupsOfDigits(s);
    var groups := Groups(done);
    assert Groups(s) == [[c] + groups[0]] + groups[1..];
    assert ([c] + groups[0])[1..] == groups[0];
  }

  lemma {:induction false} ScanFinish(arg: string, radixPower: nat, blockCounter: nat, currentNumber: nat, resultingNumber: nat)
    requires OnlyDigitsAndColons(arg)
    requires ScanState(arg, radixPower, blockCounter, currentNumber, resultingNumber)
    ensures ParseInteger(arg, 0).Some?
    ensures ParseInteger(arg, 0).value.value == Some(resultingNumber + currentNumber * Pow(60, blockCounter))
    ensures ParseInteger(arg, 0).value.isDuration == (blockCounter != 0)
  {
    GroupsOfDigits(arg);
    GroupsCountColon(arg);
  }

  /** `parseIntegerToken`: a right-to-left scan accumulating the current group's digits in
      `currentNumber` and the completed groups in `resultingNumber`. */
  method ParseIntegerToken(arg: string, argumentIndex: nat) returns (r: Option<Token>)
    ensures r == ParseInteger(arg, argumentIndex)
  {
    var argLength := |arg|;
    var radixPower: nat := 0;
    var blockCounter: nat := 0;
    var currentNumber: nat := 0;
    var resultingNumber: nat := 0;
    var argIndex := argLength - 1;
    assert arg[argLength..] == [];
    while argIndex >= 0
      invariant -1 <= argIndex < argLength
      invariant OnlyDigitsAndColons(arg[argIndex + 1..])
      invariant ScanState(arg[argIndex + 1..], radixPower, blockCounter, currentNumber, resultingNumber)
    {
      var argChar := arg[argIndex];
      ghost var done := arg[argIndex + 1..];
      assert arg[argIndex..] == [argChar] + done;
      if argChar == ':' {
        ScanColon(done, radixPower, blockCounter, currentNumber, resultingNumber);
        radixPower := 0;
        resultingNumber := resultingNumber + currentNumber * Pow(60, blockCounter);
        currentNumber := 0;
        blockCounter := blockCounter + 1;
        argIndex := argIndex - 1;
        continue;
      }
      if !('0' <= argChar <= '9') {
        assert !OnlyDigitsAndColons(arg);
        return None;
      }
      ScanDigit(argChar, done, radixPower, blockCounter, currentNumber, resultingNumber);
      currentNumber := currentNumber + DigitValue(argChar) * Pow(10, radixPower);
      radixPower := radixPower + 1;
      argIndex := argIndex - 1;
    }
    assert arg[0..] == arg;
    ScanFinish(arg, radixPower, blockCounter, currentNumber, resultingNumber);
    resultingNumber := resultingNumber + currentNumber * Pow(60, blockCounter);
    return Some(IntegerToken(argumentIndex, Some(resultingNumber), blockCounter != 0));
  }

  // ---------------------------------------------------------------------------------------
  // The tokenizer

  /** The pass's state between two arguments: the tokens emitted so far, the index of the
      argument that opened a still unterminated quoted string (`None` for -1), and the text
      accumulated for it. */
  datatype ParserState = ParserState(result: seq<Token>, stringBegin: Option<nat>, stringContents: string)

  const InitialState := ParserState([], None, "")

  function Emit(st: ParserState, token: Token): ParserState {
    st.(result := st.result + [token])
  }

  /** Emits the accumulated quoted string and closes it. */
  function CloseString(st: ParserState, contents: string): ParserState
    requires st.stringBegin.Some?
  {
    ParserState(st.result + [QuotedStringToken(st.stringBegin.value, contents)], None, "")
  }

  function Malformed<T>(argumentIndex: nat): Result<T, ArgumentParseException> {
    Failure(ArgumentParseException(argumentIndex, MalformedStringArgument))
  }

  /** One iteration of the loop of `parseTokens`, for argument `arg` at `argumentIndex`. */
  function Step(st: ParserState, argumentIndex: nat, arg: string, isDigit: char -> bool): (r: Result<ParserState, ArgumentParseException>)
    ensures r.Failure? ==> r.error.argumentIndex == argumentIndex
    ensures r.Success? ==> |st.result| <= |r.value.result| <= |st.result| + 1 && r.value.result[..|st.result|] == st.result
  {
    var argLength := |arg|;
    if argLength == 0 then Success(Emit(st, UnquotedStringToken(argumentIndex, "")))
    else if arg[0] == '"' then
      var terminationIndex := IndexOf(arg, '"', 1);
      if terminationIndex > 0 then
        if IndexOf(arg, '"', terminationIndex + 1) != -1 then Malformed(argumentIndex)
        else Success(Emit(st, QuotedStringToken(argumentIndex, arg[1..argLength - 1])))
      else if st.stringBegin.Some? then
        if argLength != 1 then Malformed(argumentIndex)
        else Success(CloseString(st, st.stringContents + " "))
      else if argLength == 1 then Success(st.(stringBegin := Some(argumentIndex)))
      else Success(st.(stringBegin := Some(argumentIndex), stringContents := st.stringContents + arg[1..]))
    else if arg[argLength - 1] == '"' then
      if st.stringBegin.None? then Malformed(argumentIndex)
      else Success(CloseString(st, st.stringContents + " " + arg[..argLength - 1]))
    else if st.stringBegin.Some? then Success(st.(stringContents := st.stringContents + " " + arg))
    else if arg[0] == IntegerWildcardChar && argLength == 1 then Success(Emit(st, IntegerToken(argumentIndex, None, false)))
    else if isDigit(arg[0]) then
      match ParseInteger(arg, argumentIndex)
      case None => Failure(ArgumentParseException(argumentIndex, ExpectedInteger))
      case Some(token) => Success(Emit(st, token))
    else if HasInteriorQuote(arg) then Malformed(argumentIndex)
    else Success(Emit(st, UnquotedStringToken(argumentIndex, arg)))
  }

  /** The rest of the pass from argument `k` on, in state `st`. */
  function ParseFrom(args: seq<string>, k: nat, st: ParserState, isDigit: char -> bool): Result<seq<Token>, ArgumentParseException>
    requires k <= |args|
    decreases |args| - k
  {
    if k == |args| then
      if st.stringBegin.Some? then Failure(ArgumentParseException(st.stringBegin.value, MissingStringTermination))
      else Success(st.result)
    else
      match Step(st, k, args[k], isDigit)
      case Failure(e) => Failure(e)
      case Success(next) => ParseFrom(args, k + 1, next, isDigit)
  }

  /** The rest of the pass from argument `k` on, in state `st`, as one value. */
  function RestOfPass(args: seq<string>, k: nat, st: ParserState, isDigit: char -> bool): Result<seq<Token>, ArgumentParseException>
    requires k <= |args|
  {
    ParseFrom(args, k, st, isDigit)
  }

  /** What `parseTokens` returns, or the exception it throws. */
  function Parse(args: seq<string>, isDigit: char -> bool): Result<seq<Token>, ArgumentParseException> {
    RestOfPass(args, 0, InitialState, isDigit)
  }

  /** `parseTokens`: a left-to-right pass over the arguments with the open quoted string held in
      `stringBeginArgumentIndex` and `stringContents`. */
  method ParseTokens(args: seq<string>, isDigit: char -> bool) returns (r: Result<seq<Token>, ArgumentParseException>)
    ensures r == Parse(args, isDigit)
  {
    var result: seq<Token> := [];
    var stringBeginArgumentIndex: Option<nat> := None;
    var stringContents: string := "";

    for argumentIndex := 0 to |args|
      invariant Parse(args, isDigit) == ParseFrom(args, argumentIndex, ParserState(result, stringBeginArgumentIndex, stringContents), isDigit)
    {
      ghost var st := ParserState(result, stringBeginArgumentIndex, stringContents);
      var arg := args[argumentIndex];
      var argLength := |arg|;

      if argLength == 0 {
        result := result + [UnquotedStringToken(argumentIndex, "")];
        continue;
      }

      var firstChar := arg[0];

      if firstChar == '"' {
        var terminationIndex := IndexOf(arg, '"', 1);

        // the argument holds both the opening and the closing quote
        if terminationIndex > 0 {
          if IndexOf(arg, '"', terminationIndex + 1) != -1 {
            return Failure(ArgumentParseException(argumentIndex, MalformedStringArgument));
          }
          result := result + [QuotedStringToken(argumentIndex, arg[1..argLength - 1])];
          continue;
        }

        // a lone quote closing a string that ends in a space
        if stringBeginArgumentIndex.Some? {
          if argLength != 1 {
            return Failure(ArgumentParseException(argumentIndex, MalformedStringArgument));
          }
          stringContents := stringContents + " ";
          result := result + [QuotedStringToken(stringBeginArgumentIndex.value, stringContents)];
          stringBeginArgumentIndex := None;
          stringContents := "";
          continue;
        }

        // a lone quote opening a string that starts with a space
        if argLength == 1 {
          stringBeginArgumentIndex := Some(argumentIndex);
          continue;
        }

        // the first argument of a multi-argument string
        stringBeginArgumentIndex := Some(argumentIndex);
        assert arg[1..argLength] == arg[1..];
        stringContents := stringContents + arg[1..argLength];
        continue;
      }

      if arg[argLength - 1] == '"' {
        if stringBeginArgumentIndex.None? {
          return Failure(ArgumentParseException(argumentIndex, MalformedStringArgument));
        }
        // the last argument of a multi-argument string
        stringContents := stringContents + " " + arg[..argLength - 1];
        result := result + [QuotedStringToken(stringBeginArgumentIndex.value, stringContents)];
        stringBeginArgumentIndex := None;
        stringContents := "";
        continue;
      }

      // inside a string
      if stringBeginArgumentIndex.Some? {
        stringContents := stringContents + " " + arg;
        continue;
      }

      if firstChar == IntegerWildcardChar && argLength == 1 {
        result := result + [IntegerToken(argumentIndex, None, false)];
        continue;
      }

      if isDigit(firstChar) {
        var integerArgument := ParseIntegerToken(arg, argumentIndex);
        if integerArgument.None? {
          return Failure(ArgumentParseException(argumentIndex, ExpectedInteger));
        }
        result := result + [integerArgument.value];
        continue;
      }

      // no quote may be wedged into a search term; the first and last characters are checked
      var argIndex := 1;
      while argIndex < argLength - 1
        invariant 1 <= argIndex
        invariant forall k :: 1 <= k < argIndex && k < argLength - 1 ==> arg[k] != '"'
      {
        if arg[argIndex] == '"' {
          return Failure(ArgumentParseException(argumentIndex, MalformedStringArgument));
        }
        argIndex := argIndex + 1;
      }
      assert !HasInteriorQuote(arg);

      result := result + [UnquotedStringToken(argumentIndex, arg)];
    }

    if stringBeginArgumentIndex.Some? {
      return Failure(ArgumentParseException(stringBeginArgumentIndex.value, MissingStringTermination));
    }
    return Success(result);
  }

  // ---------------------------------------------------------------------------------------
  // Properties of single arguments

  /** `Character.isDigit` agrees with the ASCII classification on ASCII characters (it accepts
      further digits beyond ASCII). */
  ghost predicate AgreesOnAscii(isDigit: char -> bool) {
    forall c :: c < 128 as char ==> (isDigit(c) <==> IsAsciiDigit(c))
  }

  /** An empty argument is an empty unquoted token, also inside an open string, whose state it
      leaves alone. */
  lemma {:induction false} EmptyArgument(st: ParserState, argumentIndex: nat, isDigit: char -> bool)
    ensures Step(st, argumentIndex, "", isDigit) == Success(st.(result := st.result + [UnquotedStringToken(argumentIndex, "")]))
  {
  }

  /** An argument that starts with a quote and holds a second one is a quoted token of its own,
      whose text drops the first and the last character, unless it holds a third quote. */
  lemma {:induction false} SelfContainedQuotedArgument(st: ParserState, argumentIndex: nat, arg: string, isDigit: char -> bool)
    requires |arg| >= 1 && arg[0] == '"'
    requires exists p :: 1 <= p < |arg| && arg[p] == '"'
    ensures Step(st, argumentIndex, arg, isDigit) ==
      if exists p, q :: 1 <= p < q < |arg| && arg[p] == '"' && arg[q] == '"' then Malformed(argumentIndex)
      else Success(Emit(st, QuotedStringToken(argumentIndex, arg[1..|arg| - 1])))
  {
    var t := IndexOf(arg, '"', 1);
    assert t > 0;
    if IndexOf(arg, '"', t + 1) != -1 {
      var q := IndexOf(arg, '"', t + 1);
      assert 1 <= t < q < |arg| && arg[t] == '"' && arg[q] == '"';
    }
  }

  /** A lone quote inside an open string adds a trailing space and closes the string. */
  lemma {:induction false} LoneQuoteCloses(st: ParserState, argumentIndex: nat, isDigit: char -> bool)
    requires st.stringBegin.Some?
    ensures Step(st, argumentIndex, "\"", isDigit) ==
      Success(ParserState(st.result + [QuotedStringToken(st.stringBegin.value, st.stringContents + " ")], None, ""))
  {
  }

  /** A lone quote outside a string opens one with no text yet, so that the next argument is
      appended after a space. */
  lemma {:induction false} LoneQuoteOpens(st: ParserState, argumentIndex: nat, isDigit: char -> bool)
    requires st.stringBegin.None?
    ensures Step(st, argumentIndex, "\"", isDigit) == Success(st.(stringBegin := Some(argumentIndex)))
  {
  }

  /** Inside an open string, an argument that starts with a quote and holds no other quote must
      be the lone quote. */
  lemma {:induction false} OpeningQuoteInsideString(st: ParserState, argumentIndex: nat, arg: string, isDigit: char -> bool)
    requires st.stringBegin.Some?
    requires |arg| > 1 && arg[0] == '"' && forall k :: 1 <= k < |arg| ==> arg[k] != '"'
    ensures Step(st, argumentIndex, arg, isDigit) == Malformed(argumentIndex)
  {
  }

  /** Outside a string, an argument that starts with a quote and holds no other quote opens a
      string with the rest of the argument as its text. */
  lemma {:induction false} OpeningQuote(st: ParserState, argumentIndex: nat, arg: string, isDigit: char -> bool)
    requires st.stringBegin.None?
    requires |arg| > 1 && arg[0] == '"' && forall k :: 1 <= k < |arg| ==> arg[k] != '"'
    ensures Step(st, argumentIndex, arg, isDigit) ==
      Success(st.(stringBegin := Some(argumentIndex), stringContents := st.stringContents + arg[1..]))
  {
  }

  /** Inside an open string, an argument that neither starts nor ends with a quote is appended
      after a space, with no check for quotes, digits or the wildcard. */
  lemma {:induction false} InsideStringAppends(st: ParserState, argumentIndex: nat, arg: string, isDigit: char -> bool)
    requires st.stringBegin.Some?
    requires |arg| > 0 && arg[0] != '"' && arg[|arg| - 1] != '"'
    ensures Step(st, argumentIndex, arg, isDigit) == Success(st.(stringContents := st.stringContents + " " + arg))
  {
  }

  /** An argument that ends (and does not start) with a quote closes the open string, and is
      malformed when no string is open. */
  lemma {:induction false} ClosingQuote(st: ParserState, argumentIndex: nat, arg: string, isDigit: char -> bool)
    requires |arg| > 0 && arg[0] != '"' && arg[|arg| - 1] == '"'
    ensures Step(st, argumentIndex, arg, isDigit) ==
      if st.stringBegin.None? then Malformed(argumentIndex)
      else Success(ParserState(st.result + [QuotedStringToken(st.stringBegin.value, st.stringContents + " " + arg[..|arg| - 1])], None, ""))
  {
  }

  /** Outside a string, `*` alone is the integer wildcard. */
  lemma {:induction false} Wildcard(st: ParserState, argumentIndex: nat, isDigit: char -> bool)
    requires st.stringBegin.None?
    ensures Step(st, argumentIndex, "*", isDigit) == Success(Emit(st, IntegerToken(argumentIndex, None, false)))
  {
  }

  /** Outside a string, a digit-led argument is an integer token if it consists of ASCII digits
      and colons only, and fails with EXPECTED_INTEGER otherwise. */
  lemma {:induction false} DigitLedArgument(st: ParserState, argumentIndex: nat, arg: string, isDigit: char -> bool)
    requires st.stringBegin.None?
    requires |arg| > 0 && isDigit(arg[0]) && arg[0] != '"' && arg[|arg| - 1] != '"' && arg != "*"
    ensures Step(st, argumentIndex, arg, isDigit) ==
      if OnlyDigitsAndColons(arg) then
        Success(Emit(st, IntegerToken(argumentIndex, ParseInteger(arg, argumentIndex).value.value, ':' in arg)))
      else Failure(ArgumentParseException(argumentIndex, ExpectedInteger))
  {
  }

  /** A first character that `Character.isDigit` accepts but that is not an ASCII digit passes
      the first test and fails the group scan. */
  lemma {:induction false} NonAsciiDigitLed(st: ParserState, argumentIndex: nat, arg: string, isDigit: char -> bool)
    requires st.stringBegin.None?
    requires |arg| > 0 && isDigit(arg[0]) && !IsAsciiDigit(arg[0]) && arg[0] != '"' && arg[0] != ':'
    requires arg[|arg| - 1] != '"' && arg != "*"
    ensures Step(st, argumentIndex, arg, isDigit) == Failure(ArgumentParseException(argumentIndex, ExpectedInteger))
  {
  }

  /** Outside a string, any other argument is an unquoted token unless a quote is wedged into
      it. */
  lemma {:induction false} UnquotedArgument(st: ParserState, argumentIndex: nat, arg: string, isDigit: char -> bool)
    requires st.stringBegin.None?
    requires |arg| > 0 && !isDigit(arg[0]) && arg[0] != '"' && arg[|arg| - 1] != '"' && arg != "*"
    ensures Step(st, argumentIndex, arg, isDigit) ==
      if exists k :: 1 <= k < |arg| - 1 && arg[k] == '"' then Malformed(argumentIndex)
      else Success(Emit(st, UnquotedStringToken(argumentIndex, arg)))
  {
  }

  /** Two groups of digits around one `:` are a duration of 60 times the first plus the second. */
  lemma {:induction false} TwoGroupDuration(a: string, b: string, argumentIndex: nat)
    requires forall k :: 0 <= k < |a| ==> IsAsciiDigit(a[k])
    requires forall k :: 0 <= k < |b| ==> IsAsciiDigit(b[k])
    ensures ParseInteger(a + ":" + b, argumentIndex) ==
      Some(IntegerToken(argumentIndex, Some(60 * DecimalValue(a) + DecimalValue(b)), true))
  {
    var s := a + ":" + b;
    assert ':' !in a && ':' !in b;
    assert OnlyDigitsAndColons(s) by {
      forall k | 0 <= k < |s| ensures IsAsciiDigit(s[k]) || s[k] == ':' {
        if k < |a| {
          assert s[k] == a[k];
        } else if k > |a| {
          assert s[k] == b[k - |a| - 1];
        }
      }
    }
    GroupsAtColon(a, b);
    GroupsWithoutColon(b);
    assert Groups(s) == [a, b];
    assert [a, b][1..] == [b] && [b][1..] == [];
    assert Pow(60, 1) == 60 && Pow(60, 0) == 1;
    assert SexagesimalValue([b]) == DecimalValue(b);
    assert SexagesimalValue([a, b]) == DecimalValue(a) * 60 + SexagesimalValue([b]);
    assert ':' in s by { assert s[|a|] == ':'; }
  }

  /** `12:34` is 12 * 60 + 34 and a duration. */
  lemma {:induction false} DurationExample()
    ensures ParseInteger("12:34", 7) == Some(IntegerToken(7, Some(754), true))
  {
    assert "12:34" == "12" + ":" + "34";
    TwoGroupDuration("12", "34", 7);
    assert "12"[1..] == "2" && "34"[1..] == "4";
    assert DecimalValue("12") == 12 && DecimalValue("34") == 34;
  }

  // ---------------------------------------------------------------------------------------
  // Properties of whole passes

  /** What holds of every state the pass reaches after `k` arguments. */
  ghost predicate Reachable(args: seq<string>, k: nat, st: ParserState)
    requires k <= |args|
  {
    && (st.stringBegin.None? ==> st.stringContents == "")
    && (st.stringBegin.Some? ==>
          var b := st.stringBegin.value;
          b < k && |args[b]| > 0 && args[b][0] == '"')
    && |st.result| + (if st.stringBegin.Some? then 1 else 0) <= k
    && forall t :: 0 <= t < |st.result| ==> st.result[t].argumentIndex < k
  }

  lemma {:induction false} StepReachable(args: seq<string>, k: nat, st: ParserState, isDigit: char -> bool)
    requires k < |args| && Reachable(args, k, st)
    ensures Step(st, k, args[k], isDigit).Success? ==> Reachable(args, k + 1, Step(st, k, args[k], isDigit).value)
    ensures Step(st, k, args[k], isDigit).Failure? ==> Step(st, k, args[k], isDigit).error.argumentIndex == k
  {
  }

  /** The outcome of the rest of the pass from a reachable state. */
  lemma {:induction false} ParseFromOutcome(args: seq<string>, k: nat, st: ParserState, isDigit: char -> bool)
    requires k <= |args| && Reachable(args, k, st)
    ensures ParseFrom(args, k, st, isDigit).Success? ==> |ParseFrom(args, k, st, isDigit).value| <= |args|
    ensures ParseFrom(args, k, st, isDigit).Success? ==>
      forall t :: 0 <= t < |ParseFrom(args, k, st, isDigit).value| ==> ParseFrom(args, k, st, isDigit).value[t].argumentIndex < |args|
    ensures ParseFrom(args, k, st, isDigit).Failure? ==>
      var e := ParseFrom(args, k, st, isDigit).error;
      e.argumentIndex < |args| &&
      (e.conflict == MissingStringTermination ==> |args[e.argumentIndex]| > 0 && args[e.argumentIndex][0] == '"')
    decreases |args| - k
  {
    if k < |args| {
      StepReachable(args, k, st, isDigit);
      if Step(st, k, args[k], isDigit).Success? {
        ParseFromOutcome(args, k + 1, Step(st, k, args[k], isDigit).value, isDigit);
      }
    }
  }

  /** At most one token per argument, and each token points at an argument; a failure points
      at an argument, and a missing termination points at the argument that opened the string. */
  lemma {:induction false} ParseOutcome(args: seq<string>, isDigit: char -> bool)
    ensures Parse(args, isDigit).Success? ==> |Parse(args, isDigit).value| <= |args|
    ensures Parse(args, isDigit).Success? ==>
      forall t :: 0 <= t < |Parse(args, isDigit).value| ==> Parse(args, isDigit).value[t].argumentIndex < |args|
    ensures Parse(args, isDigit).Failure? ==>
      var e := Parse(args, isDigit).error;
      e.argumentIndex < |args| &&
      (e.conflict == MissingStringTermination ==> |args[e.argumentIndex]| > 0 && args[e.argumentIndex][0] == '"')
  {
    ParseFromOutcome(args, 0, InitialState, isDigit);
  }

  /** One successful step moves the rest of the pass on by one argument. */
  lemma {:induction false} ParseFromStep(args: seq<string>, k: nat, st: ParserState, next: ParserState, isDigit: char -> bool)
    requires k < |args| && Step(st, k, args[k], isDigit) == Success(next)
    ensures RestOfPass(args, k, st, isDigit) == RestOfPass(args, k + 1, next, isDigit)
  {
  }

  /** Three arguments forming one quoted string give one token at the opening index, with the
      pieces joined by single spaces. */
  lemma {:induction false} MultiArgumentExample(isDigit: char -> bool)
    ensures Parse(["\"a", "b", "c\""], isDigit) == Success([QuotedStringToken(0, "a b c")])
  {
    var args := ["\"a", "b", "c\""];
    OpeningQuote(InitialState, 0, args[0], isDigit);
    assert InitialState.stringContents + args[0][1..] == "a";
    var s1 := ParserState([], Some(0), "a");
    assert InitialState.(stringBegin := Some(0), stringContents := "a") == s1;
    ParseFromStep(args, 0, InitialState, s1, isDigit);
    InsideStringAppends(s1, 1, args[1], isDigit);
    var s2 := ParserState([], Some(0), "a b");
    assert s1.stringContents + " " + args[1] == "a b";
    ParseFromStep(args, 1, s1, s2, isDigit);
    ClosingQuote(s2, 2, args[2], isDigit);
    assert |args[2]| == 2 && args[2][..1] == "c";
    assert s2.stringContents + " " + args[2][..|args[2]| - 1] == "a b c";
    var s3 := ParserState([QuotedStringToken(0, "a b c")], None, "");
    assert s2.result + [QuotedStringToken(0, "a b c")] == s3.result;
    ParseFromStep(args, 2, s2, s3, isDigit);
  }

  /** `3` is the integer 3 and not a duration. */
  lemma {:induction false} SingleDigitExample()
    ensures ParseInteger("3", 3) == Some(IntegerToken(3, Some(3), false))
  {
    assert "3"[1..] == "" && Groups("") == [""] && ['3'] + "" == "3" && [""][1..] == [];
    assert Groups("3") == ["3"];
    assert DecimalValue("3") == 3;
    assert OnlyDigitsAndColons("3") && ':' !in "3";
  }

  /** `find`, outside a string, is an unquoted token. */
  lemma {:induction false} FindArgument(isDigit: char -> bool)
    requires AgreesOnAscii(isDigit)
    ensures Step(InitialState, 0, "find", isDigit) == Success(ParserState([UnquotedStringToken(0, "find")], None, ""))
  {
    var arg := "find";
    assert !isDigit(arg[0]);
    UnquotedArgument(InitialState, 0, arg, isDigit);
    assert !exists k :: 1 <= k < |arg| - 1 && arg[k] == '"';
    assert Emit(InitialState, UnquotedStringToken(0, "find")) == ParserState([UnquotedStringToken(0, "find")], None, "");
  }

  /** `"red` opens a string. */
  lemma {:induction false} RedArgument(done: seq<Token>, isDigit: char -> bool)
    ensures Step(ParserState(done, None, ""), 1, "\"red", isDigit) == Success(ParserState(done, Some(1), "red"))
  {
    var st, arg := ParserState(done, None, ""), "\"red";
    OpeningQuote(st, 1, arg, isDigit);
    assert st.stringContents + arg[1..] == "red";
  }

  /** `sword"` closes the string opened by `"red`. */
  lemma {:induction false} SwordArgument(done: seq<Token>, isDigit: char -> bool)
    ensures Step(ParserState(done, Some(1), "red"), 2, "sword\"", isDigit) ==
      Success(ParserState(done + [QuotedStringToken(1, "red sword")], None, ""))
  {
    var st, arg := ParserState(done, Some(1), "red"), "sword\"";
    ClosingQuote(st, 2, arg, isDigit);
    assert |arg| == 6 && arg[..5] == "sword";
    assert st.stringContents + " " + arg[..|arg| - 1] == "red sword";
  }

  /** `3`, outside a string, is the integer 3. */
  lemma {:induction false} ThreeArgument(done: seq<Token>, isDigit: char -> bool)
    requires AgreesOnAscii(isDigit)
    ensures Step(ParserState(done, None, ""), 3, "3", isDigit) ==
      Success(ParserState(done + [IntegerToken(3, Some(3), false)], None, ""))
  {
    var arg := "3";
    assert isDigit(arg[0]);
    DigitLedArgument(ParserState(done, None, ""), 3, arg, isDigit);
    SingleDigitExample();
  }

  /** The example command `find "red sword" 3`. */
  lemma {:induction false} CommandExample(isDigit: char -> bool)
    requires AgreesOnAscii(isDigit)
    ensures Parse(["find", "\"red", "sword\"", "3"], isDigit) ==
      Success([UnquotedStringToken(0, "find"), QuotedStringToken(1, "red sword"), IntegerToken(3, Some(3), false)])
  {
    var args := ["find", "\"red", "sword\"", "3"];
    var t0, t1, t3 := UnquotedStringToken(0, "find"), QuotedStringToken(1, "red sword"), IntegerToken(3, Some(3), false);
    FindArgument(isDigit);
    ParseFromStep(args, 0, InitialState, ParserState([t0], None, ""), isDigit);
    RedArgument([t0], isDigit);
    ParseFromStep(args, 1, ParserState([t0], None, ""), ParserState([t0], Some(1), "red"), isDigit);
    SwordArgument([t0], isDigit);
    assert [t0] + [t1] == [t0, t1];
    ParseFromStep(args, 2, ParserState([t0], Some(1), "red"), ParserState([t0, t1], None, ""), isDigit);
    ThreeArgument([t0, t1], isDigit);
    assert [t0, t1] + [t3] == [t0, t1, t3];
    ParseFromStep(args, 3, ParserState([t0, t1], None, ""), ParserState([t0, t1, t3], None, ""), isDigit);
  }

  /** A lone quote with nothing to close it fails at its own index. */
  lemma {:induction false} StrayQuoteExample(isDigit: char -> bool)
    ensures Parse(["\""], isDigit) == Failure(ArgumentParseException(0, MissingStringTermination))
  {
    LoneQuoteOpens(InitialState, 0, isDigit);
  }

  /** Tokens need not come in argument order: an empty argument inside an open string is
      emitted at once, before the string it sits in. */
  lemma {:induction false} OutOfOrderExample(isDigit: char -> bool)
    ensures Parse(["\"a", "", "c\""], isDigit) == Success([UnquotedStringToken(1, ""), QuotedStringToken(0, "a c")])
  {
    var args := ["\"a", "", "c\""];
    OpeningQuote(InitialState, 0, args[0], isDigit);
    assert InitialState.stringContents + args[0][1..] == "a";
    var s1 := ParserState([], Some(0), "a");
    assert InitialState.(stringBegin := Some(0), stringContents := "a") == s1;
    ParseFromStep(args, 0, InitialState, s1, isDigit);
    EmptyArgument(s1, 1, isDigit);
    var s2 := ParserState([UnquotedStringToken(1, "")], Some(0), "a");
    assert s1.(result := s1.result + [UnquotedStringToken(1, "")]) == s2;
    ParseFromStep(args, 1, s1, s2, isDigit);
    ClosingQuote(s2, 2, args[2], isDigit);
    assert |args[2]| == 2 && args[2][..1] == "c";
    assert s2.stringContents + " " + args[2][..|args[2]| - 1] == "a c";
    var s3 := ParserState([UnquotedStringToken(1, ""), QuotedStringToken(0, "a c")], None, "");
    assert s2.result + [QuotedStringToken(0, "a c")] == s3.result;
    ParseFromStep(args, 2, s2, s3, isDigit);
  }

  // ---------------------------------------------------------------------------------------
  // Re-tokenizing a rendered quoted string

  /** Words joined with single spaces. */
  function JoinSpaces(words: seq<string>): string
    requires |words| >= 1
  {
    if |words| == 1 then words[0] else JoinSpaces(words[..|words| - 1]) + " " + words[|words| - 1]
  }

  /** The arguments a shell produces from `"w0 w1 ... wn"`: the text between the quotes split
      at every space, with the quotes attached to the first and the last piece. */
  function QuotedArguments(words: seq<string>): (args: seq<string>)
    requires |words| >= 1
    ensures |args| == |words|
  {
    if |words| == 1 then ["\"" + words[0] + "\""]
    else ["\"" + words[0]] + words[1..|words| - 1] + [words[|words| - 1] + "\""]
  }

  lemma {:induction false} QuotedArgumentsAt(words: seq<string>, m: nat)
    requires |words| >= 2 && m < |words|
    ensures QuotedArguments(words)[m] ==
      if m == 0 then "\"" + words[0]
      else if m == |words| - 1 then words[m] + "\""
      else words[m]
  {
    var first, middle, last := ["\"" + words[0]], words[1..|words| - 1], [words[|words| - 1] + "\""];
    assert QuotedArguments(words) == first + middle + last;
    if 0 < m < |words| - 1 {
      assert (first + middle + last)[m] == middle[m - 1];
    }
  }

  /** The last piece, with the closing quote attached, closes the string. */
  lemma {:induction false} ClosingPiece(contents: string, m: nat, w: string, isDigit: char -> bool)
    requires '"' !in w
    ensures Step(ParserState([], Some(0), contents), m, w + "\"", isDigit) ==
      Success(ParserState([QuotedStringToken(0, contents + " " + w)], None, ""))
  {
    var st := ParserState([], Some(0), contents);
    var arg := w + "\"";
    if w == "" {
      assert arg == "\"" && contents + " " + w == contents + " ";
      LoneQuoteCloses(st, m, isDigit);
      assert st.result + [QuotedStringToken(0, st.stringContents + " ")] == [QuotedStringToken(0, contents + " " + w)];
    } else {
      assert arg[0] == w[0];
      assert arg[..|arg| - 1] == w;
      ClosingQuote(st, m, arg, isDigit);
      assert st.result + [QuotedStringToken(0, st.stringContents + " " + w)] == [QuotedStringToken(0, contents + " " + w)];
    }
  }

  /** A middle piece is appended to the open string after a space. */
  lemma {:induction false} MiddlePiece(words: seq<string>, m: nat, isDigit: char -> bool)
    requires |words| >= 2 && 1 <= m < |words| - 1
    requires '"' !in words[m] && words[m] != ""
    ensures Step(ParserState([], Some(0), JoinSpaces(words[..m])), m, QuotedArguments(words)[m], isDigit) ==
      Success(ParserState([], Some(0), JoinSpaces(words[..m + 1])))
  {
    var arg := QuotedArguments(words)[m];
    QuotedArgumentsAt(words, m);
    assert words[..m + 1][..m] == words[..m];
    assert arg[0] != '"' && arg[|arg| - 1] != '"' by {
      assert arg[0] in words[m] && arg[|arg| - 1] in words[m];
    }
    InsideStringAppends(ParserState([], Some(0), JoinSpaces(words[..m])), m, arg, isDigit);
  }

  /** The last piece, with the closing quote attached, emits the whole text. */
  lemma {:induction false} LastPiece(words: seq<string>, isDigit: char -> bool)
    requires |words| >= 2 && '"' !in words[|words| - 1]
    ensures
      var m := |words| - 1;
      Step(ParserState([], Some(0), JoinSpaces(words[..m])), m, QuotedArguments(words)[m], isDigit) ==
      Success(ParserState([QuotedStringToken(0, JoinSpaces(words))], None, ""))
  {
    var m := |words| - 1;
    QuotedArgumentsAt(words, m);
    assert words[..m + 1] == words && words[..m + 1][..m] == words[..m];
    ClosingPiece(JoinSpaces(words[..m]), m, words[m], isDigit);
  }

  /** The pass from piece `m` on, with the pieces before it already collected, ends in the
      one quoted token. */
  lemma {:induction false} QuotedTail(args: seq<string>, words: seq<string>, m: nat, isDigit: char -> bool)
    requires |words| >= 2 && args == QuotedArguments(words)
    requires forall k :: 0 <= k < |words| ==> '"' !in words[k]
    requires forall k :: 0 < k < |words| - 1 ==> words[k] != ""
    requires 1 <= m < |words|
    ensures RestOfPass(args, m, ParserState([], Some(0), JoinSpaces(words[..m])), isDigit) ==
      Success([QuotedStringToken(0, JoinSpaces(words))])
    decreases |words| - m
  {
    var st := ParserState([], Some(0), JoinSpaces(words[..m]));
    if m == |words| - 1 {
      LastPiece(words, isDigit);
      ParseFromStep(args, m, st, ParserState([QuotedStringToken(0, JoinSpaces(words))], None, ""), isDigit);
    } else {
      MiddlePiece(words, m, isDigit);
      ParseFromStep(args, m, st, ParserState([], Some(0), JoinSpaces(words[..m + 1])), isDigit);
      QuotedTail(args, words, m + 1, isDigit);
    }
  }

  /** A single piece is one argument quoted at both ends. */
  lemma {:induction false} SinglePieceRoundTrip(w: string, isDigit: char -> bool)
    requires '"' !in w
    ensures Parse(["\"" + w + "\""], isDigit) == Success([QuotedStringToken(0, w)])
  {
    var arg := "\"" + w + "\"";
    assert arg[|w| + 1] == '"';
    assert arg[1..|arg| - 1] == w;
    assert !exists p, q :: 1 <= p < q < |arg| && arg[p] == '"' && arg[q] == '"' by {
      forall p | 1 <= p < |arg| - 1 ensures arg[p] != '"' {
        assert arg[p] == w[p - 1];
      }
    }
    SelfContainedQuotedArgument(InitialState, 0, arg, isDigit);
    var s1 := Emit(InitialState, QuotedStringToken(0, w));
    assert Step(InitialState, 0, arg, isDigit) == Success(s1);
    assert s1.result == [QuotedStringToken(0, w)] && s1.stringBegin.None?;
    ParseFromStep([arg], 0, InitialState, s1, isDigit);
  }

  /** The first of several pieces, with the opening quote attached, opens the string. */
  lemma {:induction false} OpeningPiece(w: string, isDigit: char -> bool)
    requires '"' !in w
    ensures Step(InitialState, 0, "\"" + w, isDigit) == Success(ParserState([], Some(0), w))
  {
    var arg := "\"" + w;
    if w == "" {
      assert arg == "\"";
      LoneQuoteOpens(InitialState, 0, isDigit);
    } else {
      assert forall k :: 1 <= k < |arg| ==> arg[k] == w[k - 1];
      OpeningQuote(InitialState, 0, arg, isDigit);
      assert arg[1..] == w;
      assert InitialState.stringContents + arg[1..] == w;
    }
  }

  /** Re-tokenizing the arguments of a rendered quoted string gives back one quoted token with
      the original text, provided the text holds no quote and no two adjacent spaces strictly
      inside it (an empty piece in the middle would become an unquoted token of its own). */
  lemma {:induction false} QuotedRoundTrip(words: seq<string>, isDigit: char -> bool)
    requires |words| >= 1
    requires forall k :: 0 <= k < |words| ==> '"' !in words[k]
    requires forall k :: 0 < k < |words| - 1 ==> words[k] != ""
    ensures Parse(QuotedArguments(words), isDigit) == Success([QuotedStringToken(0, JoinSpaces(words))])
  {
    var args := QuotedArguments(words);
    if |words| == 1 {
      SinglePieceRoundTrip(words[0], isDigit);
    } else {
      QuotedArgumentsAt(words, 0);
      assert words[..1] == [words[0]];
      OpeningPiece(words[0], isDigit);
      ParseFromStep(args, 0, InitialState, ParserState([], Some(0), words[0]), isDigit);
      QuotedTail(args, words, 1, isDigit);
    }
  }
}
