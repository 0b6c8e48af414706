/** The rich-text sanitizer of the translation resolver: one left-to-right pass that drops legacy
    `&`/`§` colour and format codes, `&#`/`§#` hex colour codes and MiniMessage-style `<...>`
    tags (whose quoted parameters may hold `>`), re-appends an unclosed tag verbatim and trims
    the result. */
module TranslationResolver {
  import opened Wrappers
  import opened Sequences

  // ---------------------------------------------------------------------------------------
  // Character classes

  /** `isAlphaNumeric`: despite its name, exactly the hexadecimal digits of either case. */
  predicate IsAlphaNumeric(c: char) {
    ('0' <= c <= '9') || ('a' <= c <= 'f') || ('A' <= c <= 'F')
  }

  const HexDigits: string := "0123456789abcdefABCDEF"

  /** The character ranges of `isAlphaNumeric` are the 22 hexadecimal digits; no letter past
      `f`, such as `g` or `z`, is accepted. */
  lemma {:induction false} AlphaNumericIsHexDigit(c: char)
    ensures IsAlphaNumeric(c) <==> c in HexDigits
  {
  }

  /** The second character of a two-character legacy code: a hex digit, `k`..`o` or `r`. */
  predicate IsFormatCode(c: char) {
    IsAlphaNumeric(c) || ('k' <= c <= 'o') || c == 'r'
  }

  predicate IsCodeMarker(c: char) {
    c == '§' || c == '&'
  }

  predicate IsQuote(c: char) {
    c == '"' || c == '\''
  }

  // ---------------------------------------------------------------------------------------
  // String.trim

  /** A character `String.trim` removes: any code point up to and including the space. */
  predicate IsTrimmable(c: char) {
    c <= ' '
  }

  predicate IsTrimmed(s: string) {
    s == [] || (!IsTrimmable(s[0]) && !IsTrimmable(s[|s| - 1]))
  }

  /** The first index at or after `i` whose character is not trimmable, or `|s|`: the forward
      loop of `String.trim`. */
  function FirstKept(s: string, i: nat): (a: nat)
    requires i <= |s|
    ensures i <= a <= |s| && (a == |s| || !IsTrimmable(s[a]))
    ensures forall k :: i <= k < a ==> IsTrimmable(s[k])
    decreases |s| - i
  {
    if i < |s| && IsTrimmable(s[i]) then FirstKept(s, i + 1) else i
  }

  /** The end of the kept text, moving back from `j` but not past `start`: the backward loop
      of `String.trim`. */
  function EndKept(s: string, start: nat, j: nat): (e: nat)
    requires start <= j <= |s|
    ensures start <= e <= j && (e == start || !IsTrimmable(s[e - 1]))
    ensures forall k :: e <= k < j ==> IsTrimmable(s[k])
    decreases j
  {
    if j > start && IsTrimmable(s[j - 1]) then EndKept(s, start, j - 1) else j
  }

  /** How many characters `String.trim` removes at the start. */
  function LeadingTrimmable(s: string): nat
    ensures LeadingTrimmable(s) <= |s|
  {
    FirstKept(s, 0)
  }

  /** `String.trim`: the slice of `s` between its first and its last non-trimmable character,
      empty when there is none. */
  function Trim(s: string): (r: string)
    ensures IsTrimmed(r)
    ensures LeadingTrimmable(s) + |r| <= |s| && r == s[LeadingTrimmable(s)..LeadingTrimmable(s) + |r|]
    ensures r == [] <==> forall k :: 0 <= k < |s| ==> IsTrimmable(s[k])
    ensures forall k :: LeadingTrimmable(s) + |r| <= k < |s| ==> IsTrimmable(s[k])
  {
    var a := FirstKept(s, 0);
    var e := EndKept(s, a, |s|);
    assert e == a ==> a == |s|;
    s[a..e]
  }

  /** Trimming is idempotent, and trimmed text is its own trim. */
  lemma {:induction false} TrimOfTrimmed(s: string)
    requires IsTrimmed(s)
    ensures Trim(s) == s
  {
    if s != [] {
      assert FirstKept(s, 0) == 0;
      assert EndKept(s, 0, |s|) == |s|;
    }
    assert s[0..|s|] == s;
  }

  // ---------------------------------------------------------------------------------------
  // The scanner

  /** The scanning state between two iterations of the loop of `sanitize`: the cursor, the
      index of a possibly opened tag (`None` for -1), the quote stack (top last), the character
      read by the previous iteration, and the output so far. */
  datatype Scanner = Scanner(i: nat, tagStart: Option<nat>, quotes: seq<char>, previous: char, out: string)

  const Start := Scanner(0, None, [], 0 as char, "")

  /** A tag start lies behind the cursor and inside the input, and quotes are only open
      inside a tag. */
  predicate Valid(input: string, s: Scanner) {
    && (s.tagStart.Some? ==> s.tagStart.value < s.i && s.tagStart.value < |input|)
    && (s.tagStart.None? ==> s.quotes == [])
  }

  /** The hex lookahead loop: counts hex digits read at the ABSOLUTE positions `2 + matched`,
      `3 + matched`, ..., for as long as fewer than `max` have matched. `None` when it reads
      past the end of the input, where `charAt` throws. */
  function HexRun(input: string, matched: nat, max: nat): (r: Option<nat>)
    requires matched <= max
    ensures r.Some? ==> matched <= r.value <= max
    decreases max - matched
  {
    if matched == max then Some(matched)
    else if 2 + matched >= |input| then None
    else if !IsAlphaNumeric(input[2 + matched]) then Some(matched)
    else HexRun(input, matched + 1, max)
  }

  /** What the lookahead counts: it overruns exactly when every character from index
      `2 + matched` to the end is a hex digit and the end comes before `max` are matched;
      otherwise it counts the hex digits from there, stopping at the first other character or
      at `max`. */
  lemma {:induction false} HexRunProperties(input: string, matched: nat, max: nat)
    requires matched <= max
    ensures var r := HexRun(input, matched, max);
      && (r.None? <==> matched < max && |input| < 2 + max && forall k :: 2 + matched <= k < |input| ==> IsAlphaNumeric(input[k]))
      && (r.Some? && r.value < max ==> 2 + r.value < |input| && !IsAlphaNumeric(input[2 + r.value]))
      && (r.Some? ==> (r.value == matched || 2 + r.value <= |input|) && forall k :: 2 + matched <= k < 2 + r.value ==> IsAlphaNumeric(input[k]))
    decreases max - matched
  {
    if matched < max && 2 + matched < |input| && IsAlphaNumeric(input[2 + matched]) {
      HexRunProperties(input, matched + 1, max);
    }
  }

  function Min(a: int, b: int): int {
    if a <= b then a else b
  }

  /** The tail of an iteration outside a tag that is not a code: an unescaped `<` opens a tag,
      anything else is appended. */
  function PlainStep(s: Scanner, c: char, isEscaped: bool): Scanner {
    if !isEscaped && c == '<' then Scanner(s.i + 1, Some(s.i), s.quotes, c, s.out)
    else Scanner(s.i + 1, s.tagStart, s.quotes, c, s.out + [c])
  }

  /** What one iteration can do: copy the current character outside a tag, open a tag at the
      cursor, keep or close an open tag, or skip characters outside a tag. */
  predicate Effect(input: string, s: Scanner, next: Scanner)
    requires s.i < |input|
  {
    || (s.tagStart.None? && next.tagStart.None? && next.i == s.i + 1 && next.out == s.out + [input[s.i]])
    || (s.tagStart.None? && next.tagStart == Some(s.i) && next.out == s.out)
    || (s.tagStart.None? && next.tagStart.None? && next.out == s.out)
    || (s.tagStart.Some? && (next.tagStart.None? || next.tagStart == s.tagStart) && next.out == s.out)
  }

  /** One iteration of the loop of `sanitize`, at cursor `s.i`; `None` for the exception of the
      hex lookahead. */
  function ScanStep(input: string, s: Scanner): (r: Option<Scanner>)
    requires s.i < |input| && Valid(input, s)
    ensures r.Some? ==> s.i < r.value.i <= |input| + 1 && Valid(input, r.value)
  {
    var c := input[s.i];
    var isEscaped := s.previous == '\\';
    if s.tagStart.Some? then
      var quotes :=
        if !isEscaped && IsQuote(c) then
          if |s.quotes| > 0 && s.quotes[|s.quotes| - 1] == c then s.quotes[..|s.quotes| - 1] else s.quotes + [c]
        else s.quotes;
      var tagStart := if |quotes| == 0 && !isEscaped && c == '>' then None else s.tagStart;
      Some(Scanner(s.i + 1, tagStart, quotes, c, s.out))
    else
      var isLastChar := s.i == |input| - 1;
      if !isLastChar && IsCodeMarker(c) && IsFormatCode(input[s.i + 1]) then Some(Scanner(s.i + 2, s.tagStart, s.quotes, c, s.out))
      else if !isLastChar && IsCodeMarker(c) && input[s.i + 1] == '#' then
        var remainingChars := |input| - 1 - s.i;
        match HexRun(input, 0, Min(6, remainingChars))
        case None => None
        case Some(matchedChars) =>
          if matchedChars == 3 || matchedChars == 6 then Some(Scanner(s.i + matchedChars + 2, s.tagStart, s.quotes, c, s.out))
          else Some(PlainStep(s, c, isEscaped))
      else Some(PlainStep(s, c, isEscaped))
  }

  /** The output once the cursor has passed the end: an unclosed tag is appended verbatim. */
  function Finish(input: string, s: Scanner): string
    requires Valid(input, s)
  {
    if s.tagStart.Some? then s.out + input[s.tagStart.value..] else s.out
  }

  /** The rest of the pass from state `s`. */
  function Scan(input: string, s: Scanner): Option<string>
    requires Valid(input, s)
    decreases |input| - s.i
  {
    if s.i >= |input| then Some(Finish(input, s))
    else
      match ScanStep(input, s)
      case None => None
      case Some(next) => Scan(input, next)
  }

  lemma {:induction false} ScanAdvances(input: string, s: Scanner, next: Scanner)
    requires s.i < |input| && Valid(input, s) && ScanStep(input, s) == Some(next)
    ensures Valid(input, next) && Rest(input, s) == Rest(input, next)
  {
  }

  /** The rest of the pass from state `s`, as one value. */
  function Rest(input: string, s: Scanner): Option<string>
    requires Valid(input, s)
  {
    Scan(input, s)
  }

  /** The untrimmed output of `sanitize`, or `None` where it throws. */
  function Raw(input: string): Option<string> {
    Rest(input, Start)
  }

  /** What `sanitize` returns, or `None` where it throws. */
  function Sanitized(input: string): Option<string> {
    match Raw(input)
    case None => None
    case Some(out) => Some(Trim(out))
  }

  /** The lookahead loop of `sanitize` for a `&#` or `§#` code; `None` where `charAt` throws. */
  method HexLookahead(input: string, maxMatchingChars: nat) returns (r: Option<nat>)
    ensures r == HexRun(input, 0, maxMatchingChars)
  {
    var matchedChars := 0;
    while matchedChars < maxMatchingChars
      invariant matchedChars <= maxMatchingChars
      invariant HexRun(input, 0, maxMatchingChars) == HexRun(input, matchedChars, maxMatchingChars)
      decreases maxMatchingChars - matchedChars
    {
      if 1 + (matchedChars + 1) >= |input| {
        // `charAt` throws StringIndexOutOfBoundsException
        return None;
      }
      if !IsAlphaNumeric(input[1 + (matchedChars + 1)]) {
        break;
      }
      matchedChars := matchedChars + 1;
    }
    r := Some(matchedChars);
  }

  /** One iteration of `sanitize` inside a possible tag: an unescaped quote is pushed, or pops
      the same quote from the top of the stack; an unescaped `>` with no open quote ends the
      tag. Nothing is appended. */
  method TagIteration(input: string, s: Scanner) returns (next: Scanner)
    requires s.i < |input| && Valid(input, s) && s.tagStart.Some?
    ensures ScanStep(input, s) == Some(next)
  {
    var currentChar := input[s.i];
    var isEscaped := s.previous == '\\';
    var quoteStack := s.quotes;
    var possibleTagBeginning := s.tagStart;
    if !isEscaped && (currentChar == '"' || currentChar == '\'') {
      if |quoteStack| > 0 && quoteStack[|quoteStack| - 1] == currentChar {
        quoteStack := quoteStack[..|quoteStack| - 1];
      } else {
        quoteStack := quoteStack + [currentChar];
      }
    }
    if |quoteStack| == 0 && !isEscaped && currentChar == '>' {
      possibleTagBeginning := None;
    }
    next := Scanner(s.i + 1, possibleTagBeginning, quoteStack, currentChar, s.out);
  }

  /** One iteration of `sanitize` outside a tag: a legacy format code or a 3- or 6-digit hex
      code is skipped, an unescaped `<` starts a possible tag, and any other character is
      appended; `None` where the hex lookahead throws. */
  method TextIteration(input: string, s: Scanner) returns (next: Option<Scanner>)
    requires s.i < |input| && Valid(input, s) && s.tagStart.None?
    ensures next == ScanStep(input, s)
  {
    var inputLength := |input|;
    var i := s.i;
    var currentChar := input[i];
    var isEscaped := s.previous == '\\';
    var isLastChar := i == inputLength - 1;
    if !isLastChar && (currentChar == '§' || currentChar == '&') {
      var nextChar := input[i + 1];
      if IsAlphaNumeric(nextChar) || ('k' <= nextChar <= 'o') || nextChar == 'r' {
        return Some(Scanner(i + 2, None, s.quotes, currentChar, s.out));
      }
      if nextChar == '#' {
        var remainingChars := inputLength - 1 - i;
        var maxMatchingChars := Min(6, remainingChars);
        var lookahead := HexLookahead(input, maxMatchingChars);
        if lookahead.None? {
          return None;
        }
        var matchedChars := lookahead.value;
        if matchedChars == 3 || matchedChars == 6 {
          return Some(Scanner(i + matchedChars + 2, None, s.quotes, currentChar, s.out));
        }
      }
    }
    if !isEscaped && currentChar == '<' {
      return Some(Scanner(i + 1, Some(i), s.quotes, currentChar, s.out));
    }
    return Some(Scanner(i + 1, None, s.quotes, currentChar, s.out + [currentChar]));
  }

  /** `sanitize`: the loop with a cursor advanced inside the body, the tag start, the quote
      stack, the previous character and the output buffer; each iteration is `TagIteration`
      or `TextIteration`. */
  method Sanitize(input: string) returns (r: Option<string>)
    ensures r == Sanitized(input)
  {
    var inputLength := |input|;
    var result := "";
    var possibleTagBeginning: Option<nat> := None;
    var quoteStack: seq<char> := [];
    var previousChar: char := 0 as char;
    var i: nat := 0;
    while i < inputLength
      invariant Valid(input, Scanner(i, possibleTagBeginning, quoteStack, previousChar, result))
      invariant Raw(input) == Rest(input, Scanner(i, possibleTagBeginning, quoteStack, previousChar, result))
      decreases inputLength - i
    {
      var state := Scanner(i, possibleTagBeginning, quoteStack, previousChar, result);
      var next: Scanner;
      if possibleTagBeginning.Some? {
        next := TagIteration(input, state);
      } else {
        var step := TextIteration(input, state);
        if step.None? {
          return None;
        }
        next := step.value;
      }
      ScanAdvances(input, state, next);
      i, possibleTagBeginning, quoteStack, previousChar, result := next.i, next.tagStart, next.quotes, next.previous, next.out;
    }
    if possibleTagBeginning.Some? {
      result := result + input[possibleTagBeginning.value..];
    }
    r := Some(Trim(result));
  }

  // ---------------------------------------------------------------------------------------
  // When `sanitize` throws

  /** The one input shape on which `sanitize` throws: a code marker at index 0, then `#`, then
      nothing but hex digits up to the end of a string of at most 7 characters, so that the
      lookahead (capped at `len - 1` characters but reading from index 2) runs off the end. */
  predicate HexLookaheadOverrun(input: string) {
    && 2 <= |input| <= 7
    && IsCodeMarker(input[0]) && input[1] == '#'
    && forall k :: 2 <= k < |input| ==> IsAlphaNumeric(input[k])
  }

  /** Once the cursor has left index 0 the lookahead stays inside the input. */
  lemma {:induction false} ScanPastStartSucceeds(input: string, s: Scanner)
    requires Valid(input, s) && s.i >= 1
    ensures Scan(input, s).Some?
    decreases |input| - s.i
  {
    if s.i < |input| {
      HexRunProperties(input, 0, Min(6, |input| - 1 - s.i));
      var next := ScanStep(input, s);
      assert next.Some?;
      ScanPastStartSucceeds(input, next.value);
    }
  }

  /** The first iteration throws exactly on the overrun shape. */
  lemma {:induction false} FirstStepFails(input: string)
    requires |input| > 0
    ensures ScanStep(input, Start).None? <==> HexLookaheadOverrun(input)
  {
    var max := Min(6, |input| - 1);
    HexRunProperties(input, 0, max);
    if |input| >= 2 && IsCodeMarker(input[0]) && input[1] == '#' {
      assert !IsFormatCode(input[1]);
      assert ScanStep(input, Start).None? <==> HexRun(input, 0, max).None?;
    }
  }

  /** `sanitize` throws exactly on the overrun shape. */
  lemma {:induction false} SanitizeFailsExactly(input: string)
    ensures Sanitized(input).None? <==> HexLookaheadOverrun(input)
  {
    if |input| > 0 {
      FirstStepFails(input);
      var next := ScanStep(input, Start);
      if next.Some? {
        ScanAdvances(input, Start, next.value);
        ScanPastStartSucceeds(input, next.value);
      }
    }
  }

  // ---------------------------------------------------------------------------------------
  // The output is part of the input

  /** How much of the input the output so far is drawn from: all of it before the open tag,
      or else all of it before the cursor. */
  function CollectedLength(input: string, s: Scanner): (n: nat)
    requires Valid(input, s)
    ensures n <= |input|
  {
    if s.tagStart.Some? then s.tagStart.value else Min(s.i, |input|)
  }

  /** The output so far is a subsequence of the input before the cursor, or before the open
      tag. */
  ghost predicate Collected(input: string, s: Scanner) {
    Valid(input, s) && IsSubsequence(s.out, input[..CollectedLength(input, s)])
  }

  lemma {:induction false} StepEffect(input: string, s: Scanner)
    requires s.i < |input| && Valid(input, s) && ScanStep(input, s).Some?
    ensures Effect(input, s, ScanStep(input, s).value)
  {
  }

  /** An iteration that appends nothing and reads further keeps the output collected. */
  lemma {:induction false} OutputKeptCollected(input: string, s: Scanner, next: Scanner)
    requires Collected(input, s) && Valid(input, next) && next.out == s.out
    requires CollectedLength(input, s) <= CollectedLength(input, next)
    ensures Collected(input, next)
  {
    SubsequenceOfLongerPrefix(s.out, input, CollectedLength(input, s), CollectedLength(input, next));
  }

  /** An iteration that appends the character at the cursor keeps the output collected. */
  lemma {:induction false} CharacterCopiedCollected(input: string, s: Scanner, next: Scanner)
    requires s.i < |input| && Collected(input, s) && Valid(input, next)
    requires s.tagStart.None? && next.tagStart.None? && next.i == s.i + 1 && next.out == s.out + [input[s.i]]
    ensures Collected(input, next)
  {
    var c := input[s.i];
    SubsequenceSnoc(s.out, input[..s.i], c);
    assert input[..s.i] + [c] == input[..s.i + 1];
  }

  /** Every effect an iteration can have keeps the output a subsequence of the input read. */
  lemma {:induction false} StepCollected(input: string, s: Scanner, next: Scanner)
    requires s.i < |input| && s.i < next.i && Collected(input, s) && Valid(input, next)
    requires Effect(input, s, next)
    ensures Collected(input, next)
  {
    if next.out == s.out {
      OutputKeptCollected(input, s, next);
    } else {
      CharacterCopiedCollected(input, s, next);
    }
  }

  lemma {:induction false} ScanCollected(input: string, s: Scanner)
    requires Collected(input, s)
    ensures Scan(input, s).Some? ==> IsSubsequence(Scan(input, s).value, input)
    decreases |input| - s.i
  {
    if s.i >= |input| {
      if s.tagStart.Some? {
        var t := s.tagStart.value;
        SubsequenceAppend(s.out, input[..t], input[t..]);
        assert input[..t] + input[t..] == input;
      } else {
        assert input[..Min(s.i, |input|)] == input;
      }
    } else if ScanStep(input, s).Some? {
      StepEffect(input, s);
      StepCollected(input, s, ScanStep(input, s).value);
      ScanCollected(input, ScanStep(input, s).value);
    }
  }

  /** Before trimming, the output is a subsequence of the input: characters are only dropped,
      never added or reordered; so the result is never longer than the input. */
  lemma {:induction false} RawIsSubsequence(input: string)
    ensures Raw(input).Some? ==> IsSubsequence(Raw(input).value, input)
    ensures Sanitized(input).Some? ==> |Sanitized(input).value| <= |input|
  {
    assert input[..0] == [];
    SubsequenceReflexive<char>([]);
    assert IsSubsequence<char>([], []);
    ScanCollected(input, Start);
    if Raw(input).Some? {
      SubsequenceLength(Raw(input).value, input);
    }
  }

  // ---------------------------------------------------------------------------------------
  // Runs of characters

  /** The character the loop saw just before position `k`, when it reached `s.i` in state `s`
      and read every character from there on. */
  function PreviousAt(input: string, s: Scanner, k: nat): char
    requires s.i <= k <= |input|
  {
    if k == s.i then s.previous else input[k - 1]
  }

  /** A code marker at `k` starts no code: it is the last character, or the next one is
      neither a format code nor `#`. */
  predicate StartsNoCode(text: string, k: nat)
    requires k < |text|
  {
    IsCodeMarker(text[k]) ==> k + 1 == |text| || (!IsFormatCode(text[k + 1]) && text[k + 1] != '#')
  }

  /** Outside a tag, a character that starts no code and is not an unescaped `<` is copied. */
  lemma {:induction false} LiteralStep(input: string, s: Scanner)
    requires Valid(input, s) && s.tagStart.None? && s.i < |input|
    requires StartsNoCode(input, s.i) && (input[s.i] == '<' ==> s.previous == '\\')
    ensures ScanStep(input, s) == Some(s.(i := s.i + 1, previous := input[s.i], out := s.out + [input[s.i]]))
  {
  }

  /** The character at `k` starts no code, and if it is `<` then it is escaped, given that the
      loop reached `s.i` in state `s`. */
  predicate CopiedAt(input: string, s: Scanner, k: nat)
    requires s.i <= k < |input|
  {
    StartsNoCode(input, k) && (input[k] == '<' ==> PreviousAt(input, s, k) == '\\')
  }

  /** Outside a tag, a run that starts no code and holds only escaped `<` is copied verbatim. */
  lemma {:induction false} LiteralRun(input: string, s: Scanner, j: nat)
    requires Valid(input, s) && s.tagStart.None? && s.i <= j <= |input|
    requires forall k :: s.i <= k < j ==> CopiedAt(input, s, k)
    ensures Rest(input, s) == Rest(input, s.(i := j, previous := PreviousAt(input, s, j), out := s.out + input[s.i..j]))
    decreases j - s.i
  {
    if s.i == j {
      assert s.out + input[s.i..j] == s.out;
    } else {
      var c := input[s.i];
      var next := s.(i := s.i + 1, previous := c, out := s.out + [c]);
      assert CopiedAt(input, s, s.i);
      LiteralStep(input, s);
      ScanAdvances(input, s, next);
      CopiedPastCursor(input, s, next, j);
      LiteralRun(input, next, j);
      assert PreviousAt(input, next, j) == PreviousAt(input, s, j);
      AppendElementThenSlice(s.out, input, s.i, j);
      assert next.(i := j, previous := PreviousAt(input, next, j), out := next.out + input[next.i..j])
        == s.(i := j, previous := PreviousAt(input, s, j), out := s.out + input[s.i..j]);
    }
  }

  /** The condition of `LiteralRun` still holds one character further on. */
  lemma {:induction false} CopiedPastCursor(input: string, s: Scanner, next: Scanner, j: nat)
    requires s.i < j <= |input| && next.i == s.i + 1 && next.previous == input[s.i]
    requires forall k :: s.i <= k < j ==> CopiedAt(input, s, k)
    ensures forall k :: next.i <= k < j ==> CopiedAt(input, next, k)
  {
    forall k | next.i <= k < j ensures CopiedAt(input, next, k) {
      assert CopiedAt(input, s, k);
      assert PreviousAt(input, next, k) == PreviousAt(input, s, k);
    }
  }

  /** Inside a tag with quote stack `quotes`, a character `c` after `previous` changes
      nothing: it is escaped by a `\\`, or it is no quote and, unless quotes are open, no `>`. */
  predicate Skipped(c: char, quotes: seq<char>, previous: char) {
    previous == '\\' || (!IsQuote(c) && (quotes == [] ==> c != '>'))
  }

  /** The character at `k`, after the one before it, is skipped inside a tag. */
  predicate SkippedAt(input: string, k: nat, quotes: seq<char>)
    requires 0 < k < |input|
  {
    Skipped(input[k], quotes, input[k - 1])
  }

  /** From state `s`, the character at `k` is skipped inside the tag. */
  predicate SkippedFrom(input: string, s: Scanner, k: nat)
    requires s.i <= k < |input|
  {
    Skipped(input[k], s.quotes, PreviousAt(input, s, k))
  }

  /** Inside a tag, a `\\`-escaped character is skipped, whatever it is: an escaped quote
      does not touch the stack and an escaped `>` does not close the tag. */
  lemma {:induction false} EscapedInTagSkipped(input: string, s: Scanner)
    requires Valid(input, s) && s.tagStart.Some? && s.i < |input| && s.previous == '\\'
    ensures ScanStep(input, s) == Some(s.(i := s.i + 1, previous := input[s.i]))
  {
  }

  /** Inside a tag, a run of skipped characters changes nothing but the cursor. */
  lemma {:induction false} TagRun(input: string, s: Scanner, j: nat)
    requires Valid(input, s) && s.tagStart.Some? && s.i <= j <= |input|
    requires forall k :: s.i <= k < j ==> SkippedFrom(input, s, k)
    ensures Rest(input, s) == Rest(input, s.(i := j, previous := PreviousAt(input, s, j)))
    decreases j - s.i
  {
    if s.i < j {
      var next := s.(i := s.i + 1, previous := input[s.i]);
      assert SkippedFrom(input, s, s.i);
      assert ScanStep(input, s) == Some(next);
      ScanAdvances(input, s, next);
      forall k | next.i <= k < j ensures SkippedFrom(input, next, k) {
        assert SkippedFrom(input, s, k);
      }
      TagRun(input, next, j);
    }
  }

  /** In a state the scan reaches, where `previous` is the character before the cursor, the
      run condition of `TagRun` reads off the input alone. */
  lemma {:induction false} SkippedFromInput(input: string, s: Scanner, j: nat)
    requires 0 < s.i <= j <= |input| && s.previous == input[s.i - 1]
    requires forall k :: s.i <= k < j ==> SkippedAt(input, k, s.quotes)
    ensures forall k :: s.i <= k < j ==> SkippedFrom(input, s, k)
  {
    forall k | s.i <= k < j ensures SkippedFrom(input, s, k) {
      assert SkippedAt(input, k, s.quotes);
    }
  }

  // ---------------------------------------------------------------------------------------
  // Single steps

  /** Outside a tag, a marker followed by a format code is dropped with it; no escape check
      applies. */
  lemma {:induction false} FormatCodeDropped(input: string, s: Scanner)
    requires Valid(input, s) && s.tagStart.None? && s.i + 1 < |input|
    requires IsCodeMarker(input[s.i]) && IsFormatCode(input[s.i + 1])
    ensures ScanStep(input, s) == Some(s.(i := s.i + 2, previous := input[s.i]))
  {
  }

  /** Outside a tag, a marker followed by `#` skips `#` and the counted hex digits when there
      are exactly 3 or 6 of them, counted from index 2 of the input. */
  lemma {:induction false} HexCodeDropped(input: string, s: Scanner, m: nat)
    requires Valid(input, s) && s.tagStart.None? && s.i + 1 < |input|
    requires IsCodeMarker(input[s.i]) && input[s.i + 1] == '#'
    requires HexRun(input, 0, Min(6, |input| - 1 - s.i)) == Some(m) && (m == 3 || m == 6)
    ensures ScanStep(input, s) == Some(s.(i := s.i + m + 2, previous := input[s.i]))
  {
  }

  /** Otherwise the marker is copied like any other character. */
  lemma {:induction false} HexCodeKept(input: string, s: Scanner, m: nat)
    requires Valid(input, s) && s.tagStart.None? && s.i + 1 < |input|
    requires IsCodeMarker(input[s.i]) && input[s.i + 1] == '#'
    requires HexRun(input, 0, Min(6, |input| - 1 - s.i)) == Some(m) && m != 3 && m != 6
    ensures ScanStep(input, s) == Some(s.(i := s.i + 1, previous := input[s.i], out := s.out + [input[s.i]]))
  {
  }

  /** An unescaped `<` opens a tag and is not copied. */
  lemma {:induction false} TagOpens(input: string, s: Scanner)
    requires Valid(input, s) && s.tagStart.None? && s.i < |input|
    requires input[s.i] == '<' && s.previous != '\\'
    ensures ScanStep(input, s) == Some(s.(i := s.i + 1, previous := '<', tagStart := Some(s.i)))
  {
  }

  /** Inside a tag, an unescaped quote pops the stack when it is on top and is pushed
      otherwise. */
  lemma {:induction false} QuoteToggles(input: string, s: Scanner)
    requires Valid(input, s) && s.tagStart.Some? && s.i < |input|
    requires IsQuote(input[s.i]) && s.previous != '\\'
    ensures var c := input[s.i];
      var quotes := if |s.quotes| > 0 && s.quotes[|s.quotes| - 1] == c then s.quotes[..|s.quotes| - 1] else s.quotes + [c];
      ScanStep(input, s) == Some(Scanner(s.i + 1, s.tagStart, quotes, c, s.out))
  {
  }

  /** Inside a tag, an unescaped `>` with no open quote closes it, dropping the whole tag. */
  lemma {:induction false} TagCloses(input: string, s: Scanner)
    requires Valid(input, s) && s.tagStart.Some? && s.i < |input|
    requires input[s.i] == '>' && s.previous != '\\' && s.quotes == []
    ensures ScanStep(input, s) == Some(s.(i := s.i + 1, previous := '>', tagStart := None))
  {
  }

  /** A `\\`-escaped `<` is copied like any other character, after the backslash. */
  lemma {:induction false} EscapedTagKept(input: string, s: Scanner)
    requires Valid(input, s) && s.tagStart.None? && s.i < |input|
    requires input[s.i] == '<' && s.previous == '\\'
    ensures ScanStep(input, s) == Some(s.(i := s.i + 1, previous := '<', out := s.out + "<"))
  {
  }

  /** An unescaped `<` through the next unescaped `>`, with no unescaped quote in between, is
      dropped entirely. */
  lemma {:induction false} TagDropped(input: string, s: Scanner, j: nat)
    requires Valid(input, s) && s.tagStart.None? && s.i < j < |input|
    requires input[s.i] == '<' && s.previous != '\\' && input[j] == '>' && input[j - 1] != '\\'
    requires forall k :: s.i < k < j ==> SkippedAt(input, k, [])
    ensures Rest(input, s) == Rest(input, s.(i := j + 1, previous := '>'))
  {
    var inTag := s.(i := s.i + 1, previous := '<', tagStart := Some(s.i));
    TagOpens(input, s);
    ScanAdvances(input, s, inTag);
    SkippedFromInput(input, inTag, j);
    TagRun(input, inTag, j);
    var atClose := inTag.(i := j, previous := PreviousAt(input, inTag, j));
    if j == s.i + 1 {
      assert PreviousAt(input, inTag, j) == '<';
    } else {
      assert PreviousAt(input, inTag, j) == input[j - 1];
    }
    TagCloses(input, atClose);
    var closed := atClose.(i := j + 1, previous := '>', tagStart := None);
    ScanAdvances(input, atClose, closed);
    assert closed == s.(i := j + 1, previous := '>');
  }

  /** A tag with no unescaped quote is dropped through its first unescaped `>`, and text
      without markup after it is kept: `<a>v` leaves the trimmed `v`, where `a` holds a quote
      or a `>` only right after a `\\`. (`<a\\>b>c` and `<a\\"b>c` both give `c`.) */
  lemma {:induction false} PlainTagDropped(a: string, v: string)
    requires a != [] ==> Skipped(a[0], [], '<')
    requires forall k :: 0 < k < |a| ==> Skipped(a[k], [], a[k - 1])
    requires a == [] || a[|a| - 1] != '\\'
    requires LiteralText(v)
    ensures Sanitized("<" + a + ">" + v) == Some(Trim(v))
  {
    var input := "<" + a + ">" + v;
    var j := 1 + |a|;
    forall k | 0 < k < j ensures SkippedAt(input, k, []) {
      assert input[k] == a[k - 1];
      if k > 1 {
        assert input[k - 1] == a[k - 2] && Skipped(a[k - 1], [], a[k - 2]);
      }
    }
    assert input[j] == '>' && input[j - 1] != '\\';
    TagDropped(input, Start, j);
    var s := Scanner(j + 1, None, [], '>', "");
    assert Start.(i := j + 1, previous := '>') == s;
    assert input[j + 1..] == v;
    LiteralTail(input, s, v);
    assert "" + v == v;
  }

  /** From state `s` on, the open tag is never closed. */
  ghost predicate StaysInTag(input: string, s: Scanner)
    requires Valid(input, s)
    decreases |input| - s.i
  {
    && s.tagStart.Some?
    && (s.i < |input| ==>
          && ScanStep(input, s).Some?
          && ScanStep(input, s).value.tagStart == s.tagStart
          && StaysInTag(input, ScanStep(input, s).value))
  }

  /** A tag that is never closed is kept from its `<` to the end of the input. */
  lemma {:induction false} UnclosedTagKept(input: string, s: Scanner)
    requires Valid(input, s) && StaysInTag(input, s)
    ensures Rest(input, s) == Some(s.out + input[s.tagStart.value..])
    decreases |input| - s.i
  {
    if s.i < |input| {
      var next := ScanStep(input, s).value;
      assert next.out == s.out;
      ScanAdvances(input, s, next);
      UnclosedTagKept(input, next);
    }
  }

  /** In particular, a tag whose rest holds no unescaped quote and no unescaped `>` is kept. */
  lemma {:induction false} QuoteFreeTagKept(input: string, s: Scanner)
    requires Valid(input, s) && s.tagStart.Some? && s.quotes == []
    requires forall k :: s.i <= k < |input| ==> SkippedFrom(input, s, k)
    ensures Rest(input, s) == Some(s.out + input[s.tagStart.value..])
  {
    if s.i < |input| {
      TagRun(input, s, |input|);
    }
  }

  /** A tag with a quote still open, whose rest holds no quote at all, is never closed: every
      `>` after the quote is part of the quoted parameter. */
  lemma {:induction false} OpenQuoteStaysInTag(input: string, s: Scanner)
    requires Valid(input, s) && s.tagStart.Some? && s.quotes != []
    requires forall k :: s.i <= k < |input| ==> !IsQuote(input[k])
    ensures StaysInTag(input, s)
    decreases |input| - s.i
  {
    if s.i < |input| {
      var next := ScanStep(input, s).value;
      assert next.quotes == s.quotes && next.tagStart == s.tagStart;
      OpenQuoteStaysInTag(input, next);
    }
  }

  // ---------------------------------------------------------------------------------------
  // Text without markup

  /** No code marker that starts a code, and every `<` escaped by the character before it. */
  predicate LiteralText(text: string) {
    forall k :: 0 <= k < |text| ==> PlainAt(text, k)
  }

  /** The character at `k` starts no code, and if it is `<` then the one before it is `\\`. */
  predicate PlainAt(text: string, k: nat)
    requires k < |text|
  {
    StartsNoCode(text, k) && (text[k] == '<' ==> k > 0 && text[k - 1] == '\\')
  }

  /** Text without markup comes back trimmed and otherwise unchanged. */
  lemma {:induction false} LiteralTextKept(input: string)
    requires LiteralText(input)
    ensures Sanitized(input) == Some(Trim(input))
  {
    forall k | 0 <= k < |input| ensures CopiedAt(input, Start, k) {
      assert PlainAt(input, k);
      if k > 0 {
        assert PreviousAt(input, Start, k) == input[k - 1];
      }
    }
    LiteralRun(input, Start, |input|);
    assert "" + input[0..|input|] == input;
  }

  /** A slice of text without markup is free of markup too, unless it starts at a `<`
      (escaped by a character that the slice leaves out). */
  lemma {:induction false} LiteralSlice(text: string, a: nat, b: nat)
    requires LiteralText(text) && a <= b <= |text|
    requires a < b ==> text[a] != '<'
    ensures LiteralText(text[a..b])
  {
    var r := text[a..b];
    forall k | 0 <= k < |r| ensures PlainAt(r, k) {
      assert PlainAt(text, a + k);
      assert r[k] == text[a + k];
      if k > 0 {
        assert r[k - 1] == text[a + k - 1];
      }
      if k + 1 < |r| {
        assert r[k + 1] == text[a + k + 1];
      }
    }
  }

  /** Trimming keeps text free of markup: the character before a kept `<` is kept too,
      because a backslash is not trimmable. */
  lemma {:induction false} TrimLiteral(text: string)
    requires LiteralText(text)
    ensures LiteralText(Trim(text))
  {
    var r := Trim(text);
    var a := LeadingTrimmable(text);
    if |r| > 0 {
      assert PlainAt(text, a);
      if a > 0 {
        assert IsTrimmable(text[a - 1]);
      }
    }
    LiteralSlice(text, a, a + |r|);
  }

  /** Sanitizing is idempotent on output that holds no markup any more. */
  lemma {:induction false} SanitizeIdempotent(input: string)
    requires Sanitized(input).Some? && LiteralText(Sanitized(input).value)
    ensures Sanitized(Sanitized(input).value) == Sanitized(input)
  {
    var once := Sanitized(input).value;
    LiteralTextKept(once);
    TrimOfTrimmed(once);
  }

  /** In particular, sanitizing text without markup twice is sanitizing it once. */
  lemma {:induction false} SanitizeIdempotentOnLiteralText(input: string)
    requires LiteralText(input)
    ensures Sanitized(input).Some? && Sanitized(Sanitized(input).value) == Sanitized(input)
  {
    LiteralTextKept(input);
    TrimLiteral(input);
    SanitizeIdempotent(input);
  }

  /** Without that hypothesis sanitizing is not idempotent: in `&&cc` the first `&` is
      followed by a marker and is copied, the second drops `&c`, and what is left, `&c`, is a
      format code that the next pass drops. */
  lemma {:induction false} SanitizeNotIdempotent()
    ensures Sanitized("&&cc") == Some("&c") && Sanitized("&c") == Some("")
  {
    MarkerBeforeCodeKept();
    LoneCodeDropped();
  }

  lemma {:induction false} MarkerBeforeCodeKept()
    ensures Sanitized("&&cc") == Some("&c")
  {
    var input := "&&cc";
    LiteralStep(input, Start);
    var s1 := Scanner(1, None, [], '&', "&");
    assert Start.(i := 1, previous := '&', out := "" + "&") == s1;
    ScanAdvances(input, Start, s1);
    FormatCodeDropped(input, s1);
    var s2 := Scanner(3, None, [], '&', "&");
    ScanAdvances(input, s1, s2);
    LiteralStep(input, s2);
    var s3 := Scanner(4, None, [], 'c', "&c");
    assert s2.(i := 4, previous := 'c', out := "&" + "c") == s3;
    ScanAdvances(input, s2, s3);
    assert Raw(input) == Some("&c");
    TrimOfTrimmed("&c");
  }

  lemma {:induction false} LoneCodeDropped()
    ensures Sanitized("&c") == Some("")
  {
    FormatCodeDropped("&c", Start);
    ScanAdvances("&c", Start, Scanner(2, None, [], '&', ""));
    assert Raw("&c") == Some("");
    TrimOfTrimmed("");
  }

  /** A marker that starts no code is ordinary text: `Fish & Chips` comes back unchanged, and
      sanitizing it again changes nothing. */
  lemma {:induction false} BareMarkerKept()
    ensures Sanitized("Fish & Chips") == Some("Fish & Chips")
    ensures Sanitized(Sanitized("Fish & Chips").value) == Sanitized("Fish & Chips")
  {
    var text := "Fish & Chips";
    forall k | 0 <= k < |text| ensures PlainAt(text, k) {
    }
    LiteralTextKept(text);
    TrimOfTrimmed(text);
    SanitizeIdempotentOnLiteralText(text);
  }

  // ---------------------------------------------------------------------------------------
  // Whole inputs of a given shape

  /** What follows `text` at `j` in `input` does not make a code of a marker ending `text`. */
  predicate EndsCleanly(input: string, j: nat, text: string) {
    text == [] || !IsCodeMarker(text[|text| - 1]) || j >= |input| || (!IsFormatCode(input[j]) && input[j] != '#')
  }

  /** Text without markup, starting at the cursor, meets the condition of `LiteralRun`. */
  lemma {:induction false} TextRun(input: string, s: Scanner, j: nat, text: string)
    requires s.i <= j <= |input| && input[s.i..j] == text
    requires LiteralText(text) && EndsCleanly(input, j, text)
    ensures forall k :: s.i <= k < j ==> CopiedAt(input, s, k)
  {
    forall k | s.i <= k < j ensures CopiedAt(input, s, k) {
      assert PlainAt(text, k - s.i);
      assert input[k] == text[k - s.i];
      if k > s.i {
        assert input[k - 1] == text[k - s.i - 1];
      }
      if k + 1 < j {
        assert input[k + 1] == text[k - s.i + 1];
      }
    }
  }

  /** Copying text without markup. */
  lemma {:induction false} LiteralSpan(input: string, s: Scanner, j: nat, text: string)
    requires Valid(input, s) && s.tagStart.None? && s.i <= j <= |input| && input[s.i..j] == text
    requires LiteralText(text) && EndsCleanly(input, j, text)
    ensures Rest(input, s) == Rest(input, s.(i := j, previous := PreviousAt(input, s, j), out := s.out + text))
  {
    TextRun(input, s, j, text);
    LiteralRun(input, s, j);
  }

  /** Copying all of `input[s.i..]` at the end of the pass. */
  lemma {:induction false} LiteralTail(input: string, s: Scanner, tail: string)
    requires Valid(input, s) && s.tagStart.None? && s.i <= |input| && input[s.i..] == tail
    requires LiteralText(tail)
    ensures Rest(input, s) == Some(s.out + tail)
  {
    assert input[s.i..|input|] == tail;
    TextRun(input, s, |input|, tail);
    LiteralRun(input, s, |input|);
  }

  /** A 6-digit hex code at index 0 is dropped: `&#rrggbb` followed by text without markup
      leaves the trimmed text. */
  lemma {:induction false} HexCodeAtStartDropped(h: string, w: string)
    requires |h| == 6 && forall k :: 0 <= k < |h| ==> IsAlphaNumeric(h[k])
    requires LiteralText(w)
    ensures Sanitized("&#" + h + w) == Some(Trim(w))
  {
    var input := "&#" + h + w;
    assert input[0] == '&' && input[1] == '#';
    forall k | 2 <= k < 8 ensures IsAlphaNumeric(input[k]) {
      assert input[k] == h[k - 2];
    }
    HexRunProperties(input, 0, 6);
    assert HexRun(input, 0, 6) == Some(6);
    HexCodeDropped(input, Start, 6);
    assert input[8..] == w;
    var s1 := Scanner(8, None, [], '&', "");
    assert Start.(i := Start.i + 6 + 2, previous := input[Start.i]) == s1;
    ScanAdvances(input, Start, s1);
    LiteralTail(input, s1, w);
    assert "" + w == w;
  }

  lemma {:induction false} HexThenText(h: string, v: string)
    requires forall k :: 0 <= k < |h| ==> IsAlphaNumeric(h[k])
    requires LiteralText(v)
    ensures LiteralText("#" + h + v)
  {
    var tail := "#" + h + v;
    forall k | 0 <= k < |tail| ensures PlainAt(tail, k) {
      if 1 <= k < 1 + |h| {
        assert tail[k] == h[k - 1];
      } else if k >= 1 + |h| {
        assert PlainAt(v, k - 1 - |h|);
        assert tail[k] == v[k - 1 - |h|];
        if k > 1 + |h| {
          assert tail[k - 1] == v[k - 2 - |h|];
        }
        if k + 1 < |tail| {
          assert tail[k + 1] == v[k - |h|];
        }
      }
    }
  }

  /** A leading format code, then text without markup up to `p`. */
  lemma {:induction false} FormatCodeThenText(input: string, p: nat)
    requires 2 <= p <= |input| && IsCodeMarker(input[0]) && IsFormatCode(input[1])
    requires LiteralText(input[2..p]) && EndsCleanly(input, p, input[2..p])
    ensures Rest(input, Start) == Rest(input, Scanner(p, None, [], PreviousAt(input, Scanner(2, None, [], input[0], ""), p), input[2..p]))
  {
    FormatCodeDropped(input, Start);
    var s1 := Scanner(2, None, [], input[0], "");
    assert Start.(i := Start.i + 2, previous := input[Start.i]) == s1;
    ScanAdvances(input, Start, s1);
    LiteralSpan(input, s1, p, input[2..p]);
    assert "" + input[2..p] == input[2..p];
  }

  /** A `&#` at `p`, when index 2 holds no hex digit, is copied with all the text without markup
      that follows it. */
  lemma {:induction false} LaterHexCodeCopied(input: string, s: Scanner)
    requires Valid(input, s) && s.tagStart.None? && 2 < s.i && s.i + 1 < |input|
    requires IsCodeMarker(input[s.i]) && input[s.i + 1] == '#' && !IsAlphaNumeric(input[2])
    requires LiteralText(input[s.i + 1..])
    ensures Rest(input, s) == Some(s.out + input[s.i..])
  {
    var max := Min(6, |input| - 1 - s.i);
    assert HexRun(input, 0, max) == Some(0);
    var s1 := Scanner(s.i + 1, None, [], input[s.i], s.out + [input[s.i]]);
    assert !IsFormatCode(input[s.i + 1]) && s.i != |input| - 1;
    assert ScanStep(input, s) == Some(s1);
    ScanAdvances(input, s, s1);
    LiteralTail(input, s1, input[s.i + 1..]);
    AppendElementThenTail(s.out, input, s.i);
  }

  /** A leading format code, text without markup that starts with no hex digit, then a `&#`
      at `p` followed by text without markup: everything after the format code is kept. */
  lemma {:induction false} LaterHexCodeScan(input: string, p: nat)
    requires 2 < p && p + 1 < |input| && IsCodeMarker(input[0]) && IsFormatCode(input[1]) && !IsAlphaNumeric(input[2])
    requires LiteralText(input[2..p])
    requires IsCodeMarker(input[p]) && input[p + 1] == '#' && LiteralText(input[p + 1..])
    ensures Raw(input) == Some(input[2..])
  {
    FormatCodeThenText(input, p);
    var s2 := Scanner(p, None, [], PreviousAt(input, Scanner(2, None, [], input[0], ""), p), input[2..p]);
    LaterHexCodeCopied(input, s2);
    SliceThenRest(input, 2, p);
  }

  /** The pieces of `&c` + `w` + `&#` + `h` + `v`. */
  lemma {:induction false} LaterHexCodePieces(w: string, h: string, v: string)
    requires w != [] && !IsAlphaNumeric(w[0]) && LiteralText(w)
    requires forall k :: 0 <= k < |h| ==> IsAlphaNumeric(h[k])
    requires LiteralText(v)
    ensures var input := "&c" + w + "&#" + h + v; var p := 2 + |w|;
      && p + 1 < |input| && input[0] == '&' && input[1] == 'c' && input[2] == w[0]
      && input[p] == '&' && input[p + 1] == '#'
      && input[2..p] == w && input[p + 1..] == "#" + h + v && input[2..] == w + "&#" + h + v
      && LiteralText(input[p + 1..])
  {
    HexThenText(h, v);
  }

  /** Past index 0 the hex lookahead still reads from index 2, so the outcome at a later `&#`
      depends on the start of the input instead of on what follows the `#`. Here a leading
      format code `&c` is followed by a word that starts with no hex digit: the later `&#` and
      its digits are kept, whatever they are. (`&cHello &#ff0000World` gives
      `Hello &#ff0000World`.) */
  lemma {:induction false} LaterHexCodeKept(w: string, h: string, v: string)
    requires w != [] && !IsAlphaNumeric(w[0]) && LiteralText(w)
    requires forall k :: 0 <= k < |h| ==> IsAlphaNumeric(h[k])
    requires LiteralText(v)
    ensures Sanitized("&c" + w + "&#" + h + v) == Some(Trim(w + "&#" + h + v))
  {
    LaterHexCodePieces(w, h, v);
    LaterHexCodeScan("&c" + w + "&#" + h + v, 2 + |w|);
  }

  /** A tag opens at index 0 and its parameter's opening quote, not escaped, is at `p`; the tag
      name between them has no quote and no `>`. */
  predicate OpensQuotedTag(input: string, p: nat) {
    && 1 <= p < |input| && input[0] == '<' && input[p] == '"'
    && (forall k :: 1 <= k < p ==> SkippedAt(input, k, []))
    && (p > 1 ==> input[p - 1] != '\\')
  }

  /** The quoted parameter from `b`, just after its opening quote, to `e`, with no unescaped
      quote of its own, ends in a closing quote at `e` that is not escaped, followed by `>`. */
  predicate ClosesQuotedTag(input: string, b: nat, e: nat) {
    && 1 <= b <= e && e + 1 < |input| && input[b - 1] == '"'
    && (forall k :: b <= k < e ==> SkippedAt(input, k, "\""))
    && input[e] == '"' && input[e + 1] == '>' && (e > b ==> input[e - 1] != '\\')
  }

  /** From the `<` at index 0 to just past the opening quote of the parameter. */
  lemma {:induction false} TagToParameter(input: string, p: nat)
    requires OpensQuotedTag(input, p)
    ensures Raw(input) == Rest(input, Scanner(p + 1, Some(0), "\"", '"', ""))
  {
    TagOpens(input, Start);
    var s1 := Scanner(1, Some(0), [], '<', "");
    assert Start.(i := Start.i + 1, previous := '<', tagStart := Some(Start.i)) == s1;
    ScanAdvances(input, Start, s1);
    SkippedFromInput(input, s1, p);
    TagRun(input, s1, p);
    var s2 := Scanner(p, Some(0), [], PreviousAt(input, s1, p), "");
    assert s1.(i := p, previous := PreviousAt(input, s1, p)) == s2;
    var s3 := Scanner(p + 1, Some(0), "\"", '"', "");
    assert s2.previous != '\\' && input[s2.i] == '"' && s2.quotes + [input[s2.i]] == "\"";
    assert ScanStep(input, s2) == Some(s3);
    ScanAdvances(input, s2, s3);
  }

  /** The quoted parameter from `b` to `e`, where `<` and `>` mean nothing, its closing quote
      at `e` and the `>` after it. */
  lemma {:induction false} ParameterToEnd(input: string, b: nat, e: nat)
    requires ClosesQuotedTag(input, b, e)
    ensures Rest(input, Scanner(b, Some(0), "\"", '"', "")) == Rest(input, Scanner(e + 2, None, [], '>', ""))
  {
    var s3 := Scanner(b, Some(0), "\"", '"', "");
    SkippedFromInput(input, s3, e);
    TagRun(input, s3, e);
    var s4 := Scanner(e, Some(0), "\"", PreviousAt(input, s3, e), "");
    assert s3.(i := e, previous := PreviousAt(input, s3, e)) == s4;
    var s5 := Scanner(e + 1, Some(0), [], '"', "");
    assert ScanStep(input, s4) == Some(s5);
    ScanAdvances(input, s4, s5);
    var s6 := Scanner(e + 2, None, [], '>', "");
    assert ScanStep(input, s5) == Some(s6);
    ScanAdvances(input, s5, s6);
  }

  /** A tag whose parameter is quoted from `p` to `e` is skipped up to its `>`. */
  lemma {:induction false} QuotedTagSkipped(input: string, p: nat, e: nat)
    requires OpensQuotedTag(input, p) && ClosesQuotedTag(input, p + 1, e)
    ensures Raw(input) == Rest(input, Scanner(e + 2, None, [], '>', ""))
  {
    TagToParameter(input, p);
    ParameterToEnd(input, p + 1, e);
  }

  /** ... and text without markup after it is kept. */
  lemma {:induction false} QuotedParameterScan(input: string, p: nat, e: nat)
    requires OpensQuotedTag(input, p) && ClosesQuotedTag(input, p + 1, e)
    requires LiteralText(input[e + 2..])
    ensures Raw(input) == Some(input[e + 2..])
  {
    QuotedTagSkipped(input, p, e);
    LiteralTail(input, Scanner(e + 2, None, [], '>', ""), input[e + 2..]);
    assert "" + input[e + 2..] == input[e + 2..];
  }

  /** The pieces of `<` + `a` + `"` + `q` + `">` + `v`. */
  lemma {:induction false} QuotedParameterPieces(a: string, q: string, v: string)
    requires forall k :: 0 <= k < |a| ==> !IsQuote(a[k]) && a[k] != '>'
    requires a == [] || a[|a| - 1] != '\\'
    requires forall k :: 0 <= k < |q| ==> !IsQuote(q[k])
    requires q == [] || q[|q| - 1] != '\\'
    ensures var input := "<" + a + "\"" + q + "\">" + v; var p := 1 + |a|; var e := 2 + |a| + |q|;
      OpensQuotedTag(input, p) && ClosesQuotedTag(input, p + 1, e) && input[e + 2..] == v
  {
    var input := "<" + a + "\"" + q + "\">" + v;
    forall k | 1 <= k < 1 + |a| ensures SkippedAt(input, k, []) {
      assert input[k] == a[k - 1];
    }
    forall k | 2 + |a| <= k < 2 + |a| + |q| ensures SkippedAt(input, k, "\"") {
      assert input[k] == q[k - 2 - |a|];
    }
    assert input[2 + |a| + |q| + 2..] == v;
  }

  /** A tag with a quoted parameter is dropped as a whole, even when the parameter holds tags of
      its own: `<a"q">v` leaves the trimmed `v`, for a tag name `a` with no quote and no `>`,
      and a parameter `q` with no quote. (`<hover:show_text:"<red>x">visible` gives
      `visible`.) */
  lemma {:induction false} QuotedParameterDropped(a: string, q: string, v: string)
    requires forall k :: 0 <= k < |a| ==> !IsQuote(a[k]) && a[k] != '>'
    requires a == [] || a[|a| - 1] != '\\'
    requires forall k :: 0 <= k < |q| ==> !IsQuote(q[k])
    requires q == [] || q[|q| - 1] != '\\'
    requires LiteralText(v)
    ensures Sanitized("<" + a + "\"" + q + "\">" + v) == Some(Trim(v))
  {
    QuotedParameterPieces(a, q, v);
    QuotedParameterScan("<" + a + "\"" + q + "\">" + v, 1 + |a|, 2 + |a| + |q|);
  }

  /** Text without markup up to `p`, then an unescaped `<` at `p`: the text is copied and a
      tag opens at `p`. */
  lemma {:induction false} TextThenTagOpens(input: string, p: nat)
    requires p < |input| && LiteralText(input[..p]) && input[p] == '<' && (p > 0 ==> input[p - 1] != '\\')
    ensures Raw(input) == Rest(input, Scanner(p + 1, Some(p), [], '<', input[..p]))
  {
    LiteralSpan(input, Start, p, input[..p]);
    assert "" + input[..p] == input[..p];
    var s1 := Scanner(p, None, [], PreviousAt(input, Start, p), input[..p]);
    TagOpens(input, s1);
    var s2 := Scanner(p + 1, Some(p), [], '<', input[..p]);
    assert s1.(i := s1.i + 1, previous := '<', tagStart := Some(s1.i)) == s2;
    ScanAdvances(input, s1, s2);
  }

  /** Text without markup, then a `<` that is never closed: the input comes back whole. */
  lemma {:induction false} UnclosedTagScan(input: string, p: nat)
    requires p < |input| && LiteralText(input[..p]) && input[p] == '<' && (p > 0 ==> input[p - 1] != '\\')
    requires forall k :: p < k < |input| ==> SkippedAt(input, k, [])
    ensures Raw(input) == Some(input)
  {
    TextThenTagOpens(input, p);
    var s2 := Scanner(p + 1, Some(p), [], '<', input[..p]);
    SkippedFromInput(input, s2, |input|);
    QuoteFreeTagKept(input, s2);
    PrefixThenRest(input, p);
  }

  /** A tag that is never closed is kept from its `<` on: text without markup, then `<t` where
      `t` holds no quote and no `>`, comes back only trimmed. (`before<unclosed` is kept.) */
  lemma {:induction false} UnclosedTagKeptWhole(w: string, t: string)
    requires LiteralText(w) && (w == [] || w[|w| - 1] != '\\')
    requires forall k :: 0 <= k < |t| ==> !IsQuote(t[k]) && t[k] != '>'
    ensures Sanitized(w + "<" + t) == Some(Trim(w + "<" + t))
  {
    var input := w + "<" + t;
    assert input[..|w|] == w;
    forall k | |w| < k < |input| ensures SkippedAt(input, k, []) {
      assert input[k] == t[k - |w| - 1];
    }
    UnclosedTagScan(input, |w|);
  }

  /** A tag whose parameter opens a quote that is never closed is kept whole, whatever `>` the
      rest holds: text without markup, then `<a"t` where `a` holds no quote and no `>` and `t`
      holds no quote, comes back only trimmed. (`x<a"b>c` is kept.) */
  lemma {:induction false} UnclosedQuotedTagKeptWhole(w: string, a: string, t: string)
    requires LiteralText(w) && (w == [] || w[|w| - 1] != '\\')
    requires forall k :: 0 <= k < |a| ==> !IsQuote(a[k]) && a[k] != '>'
    requires a == [] || a[|a| - 1] != '\\'
    requires forall k :: 0 <= k < |t| ==> !IsQuote(t[k])
    ensures Sanitized(w + "<" + a + "\"" + t) == Some(Trim(w + "<" + a + "\"" + t))
  {
    var input := w + "<" + a + "\"" + t;
    var p, q := |w|, |w| + 1 + |a|;
    assert input[..p] == w && input[p] == '<' && input[q] == '"';
    UnclosedQuotedTagScan(input, p, q);
  }

  /** Text without markup up to `p`, a `<` at `p`, a tag name with no quote and no `>` up to
      the quote at `q`, and no quote after it: the input comes back whole. */
  lemma {:induction false} UnclosedQuotedTagScan(input: string, p: nat, q: nat)
    requires p < q < |input| && LiteralText(input[..p]) && input[p] == '<' && (p > 0 ==> input[p - 1] != '\\')
    requires forall k :: p < k < q ==> SkippedAt(input, k, [])
    requires input[q] == '"' && (q > p + 1 ==> input[q - 1] != '\\')
    requires forall k :: q < k < |input| ==> !IsQuote(input[k])
    ensures Raw(input) == Some(input)
  {
    TextThenTagOpens(input, p);
    var s2 := Scanner(p + 1, Some(p), [], '<', input[..p]);
    SkippedFromInput(input, s2, q);
    TagRun(input, s2, q);
    var s3 := s2.(i := q, previous := PreviousAt(input, s2, q));
    QuoteToggles(input, s3);
    var s4 := Scanner(q + 1, Some(p), "\"", '"', input[..p]);
    assert [] + [input[q]] == "\"";
    ScanAdvances(input, s3, s4);
    OpenQuoteStaysInTag(input, s4);
    UnclosedTagKept(input, s4);
    PrefixThenRest(input, p);
  }
}
