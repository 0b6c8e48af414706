# StorageQuery core, modelled in Dafny

This project models the query core of the StorageQuery plugin:

- **Argument tokenizer.** `TokenParser.parseTokens` turns the raw arguments of a chat command into quoted-string, unquoted-string and integer tokens, or fails with an `ArgumentParseException` naming the argument it stopped at. `parseIntegerToken` reads integers and `h:m:s`-style durations.
- **Rich-text sanitizer.** `TranslationResolver.sanitize` strips legacy colour codes (`&c`, `§c`), hex colour codes (`&#rgb`, `&#rrggbb`) and MiniMessage tags from a translated name. An unclosed tag is kept.
- **Fuzzy enum matcher.** `EnumMatcher` normalizes the constants of an enumeration and sorts them by normalized name. Every query walks them in that order, handing each accepted constant to a handler that may stop the walk. `createCompletions` and `matchFirst` are two such handlers.
- **Translation registry.** `TranslationRegistry` builds entries for the translatable catalog objects that the language file translates. It sorts them by translated name and returns the entries a search text matches completely.

Each loop of the source is a Dafny `method` with its loop invariants. Each method is proved equal to a specification function:

- `ParseTokens` against `Parse`.
- `ParseIntegerToken` against `ParseInteger`.
- `Sanitize` against `Sanitized`.
- `SortInPlace` against `SortByKey`.
- `ForEachMatch` against `Dispatch` of the accepted constants.
- `CreateEntries` against `EntriesFor`.

The properties the system promises are then lemmas about those functions. The two classes whose fields Java assigns are Dafny classes:

- `EnumMatcher`, whose constants live in an array that is sorted in place.
- `TranslationRegistry`, whose `entries` are `None` until `Initialize`.

Files:

- `wrappers.dfy`: `Option` and `Result`.
- `sequences.dfy`: filtering and subsequences.
- `sorting.dfy`: Java's `String.compareTo` order, stable insertion sort as a function on sequences and in place on an array.
- `token_parser.dfy`, `translation_resolver.dfy`, `enum_matcher.dfy`, `translation_registry.dfy`: the four core files.

## Behaviour of the source worth knowing

- **Hex colour lookahead.** The lookahead of `sanitize` reads the characters at absolute positions 2, 3, … of the input (`charAt(1 + (matchedChars + 1))`, `TranslationResolver.java:84`), not the ones after the `#`. The comment at lines 88-89 says the code means to skip the marker, the `#` and the hex digits after it. In fact a hex code later in the text is only dropped if the characters from index 2 on happen to be hex digits. So `&cHello &#ff0000World` comes out as `Hello &#ff0000World`: `LaterHexCodeKept` with `w = "Hello "`, `h = "ff0000"`, `v = "World"`.
- **Lookahead overrun.** The same lookahead runs past the end on inputs of at most 7 characters that are a code marker, `#` and only hex digits. There `charAt` throws. `SanitizeFailsExactly` shows this is the only input on which `sanitize` fails.
- **Colour codes are never escape-checked.** Only `<` is guarded by the escape flag (line 97). Format and hex codes are dropped even after a `\` (lines 65-93), so `\&c` loses its `&c` (`FormatCodeDropped` has no condition on the previous character).
- **Search results are sorted.** `search` walks the sorted entries in order (lines 53-63), so its matches come back in that order (`Search` proves `SortedBy`).
- **Non-string translations are used.** `getTranslationOrNull` accepts any JSON primitive (lines 88-91). Numbers and booleans become their text, not only strings (`GetTranslationOrNull`).
- **The registry calls no sanitizer itself.** `TranslationRegistry.java` passes the language file's value unchanged to the two-argument `TranslatedTranslatable` constructor (line 78). Whatever name that constructor stores is the model's parameter `entryName`, and the entries are sorted by that stored name.
- **Sanitizing is idempotent only on text without markup.** A marker that starts no code is copied, so a first pass can leave a code for the second: `&&cc` becomes `&c`, and `&c` becomes the empty string (`SanitizeNotIdempotent`). `Fish & Chips` is kept and stays (`BareMarkerKept`).
- **Empty argument inside an open string.** `parseTokens` emits an empty argument as its own unquoted token even inside an open quoted string (lines 26-29). Tokens can then come out of argument order (`OutOfOrderExample`).

## Model

| member | source | states |
|---|---|---|
| TokenParser.IndexOf | src/main/java/me/blvckbytes/storage_query/parse/TokenParser.java:34-38 | `String.indexOf(c, from)`: -1 exactly when no index at or after `from` holds `c`; otherwise the first such index |
| TokenParser.ParseInteger | src/main/java/me/blvckbytes/storage_query/parse/TokenParser.java:121-151 | the reference for `parseIntegerToken`: a token exactly when only `0`-`9` and `:` occur; always an integer token at the argument's index with a value; a duration exactly when there is more than one group; without `:` the plain decimal value |
| TokenParser.ColonFreeValue | src/main/java/me/blvckbytes/storage_query/parse/TokenParser.java:140-150 | without a `:` the base-60 value of the groups is the decimal value of the whole argument |
| TokenParser.GroupsRoundTrip | src/main/java/me/blvckbytes/storage_query/parse/TokenParser.java:129-148 | the groups the right-to-left scan delimits at `:` joined again with `:` give back the argument |
| TokenParser.GroupsColonFree | src/main/java/me/blvckbytes/storage_query/parse/TokenParser.java:132-137 | no group holds a `:` |
| TokenParser.GroupsWithoutColon | src/main/java/me/blvckbytes/storage_query/parse/TokenParser.java:132-137 | an argument without `:` is one group |
| TokenParser.GroupsAtColon | src/main/java/me/blvckbytes/storage_query/parse/TokenParser.java:132-137 | the first `:` ends the first group, and the groups of the rest follow |
| TokenParser.GroupsCountColon | src/main/java/me/blvckbytes/storage_query/parse/TokenParser.java:132-150 | there is more than one group exactly when the argument holds a `:` (the duration flag) |
| TokenParser.ScanColon | src/main/java/me/blvckbytes/storage_query/parse/TokenParser.java:132-137 | a `:` closes the open group: its value times 60^blockCounter is added, and the counters restart for the next group |
| TokenParser.ScanDigit | src/main/java/me/blvckbytes/storage_query/parse/TokenParser.java:140-145 | a digit adds its value times 10^radixPower to the open group and keeps the scan state's meaning |
| TokenParser.ScanFinish | src/main/java/me/blvckbytes/storage_query/parse/TokenParser.java:148-150 | adding the last group gives the base-60 value of the decimal groups, a duration exactly when a `:` was read |
| TokenParser.ParseIntegerToken | src/main/java/me/blvckbytes/storage_query/parse/TokenParser.java:121-151 | the loop's result is `None` if any character other than `0`-`9` and `:` occurs, else the base-60 value of the `:`-separated decimal groups with the duration flag |
| TokenParser.TwoGroupDuration | src/main/java/me/blvckbytes/storage_query/parse/TokenParser.java:121-151 | two digit groups around one `:` are a duration of 60 × the first + the second |
| TokenParser.DurationExample | src/main/java/me/blvckbytes/storage_query/parse/TokenParser.java:121-151 | `12:34` is 754 and a duration |
| TokenParser.SingleDigitExample | src/main/java/me/blvckbytes/storage_query/parse/TokenParser.java:121-151 | `3` is 3 and not a duration |
| TokenParser.ParseTokens | src/main/java/me/blvckbytes/storage_query/parse/TokenParser.java:16-119 | the pass over the arguments returns exactly `Parse`: the tokens, or the one conflict with its argument index |
| TokenParser.Step | src/main/java/me/blvckbytes/storage_query/parse/TokenParser.java:22-113 | one iteration of the loop: a failure names the current argument; a success emits at most one token and never changes the tokens emitted before |
| TokenParser.EmptyArgument | src/main/java/me/blvckbytes/storage_query/parse/TokenParser.java:26-29 | an empty argument is an empty unquoted token, also inside an open string, which stays open |
| TokenParser.SelfContainedQuotedArgument | src/main/java/me/blvckbytes/storage_query/parse/TokenParser.java:33-42 | an argument with an opening and a second quote is one quoted token without its first and last character, or malformed with a third quote |
| TokenParser.LoneQuoteCloses | src/main/java/me/blvckbytes/storage_query/parse/TokenParser.java:48-56 | a lone `"` inside an open string closes it with a trailing space |
| TokenParser.OpeningQuoteInsideString | src/main/java/me/blvckbytes/storage_query/parse/TokenParser.java:48-50 | a longer quote-led argument inside an open string is malformed |
| TokenParser.LoneQuoteOpens | src/main/java/me/blvckbytes/storage_query/parse/TokenParser.java:60-63 | a lone `"` outside a string opens one with empty text |
| TokenParser.OpeningQuote | src/main/java/me/blvckbytes/storage_query/parse/TokenParser.java:65-68 | a quote-led argument with no other quote opens a string with the rest of the argument |
| TokenParser.ClosingQuote | src/main/java/me/blvckbytes/storage_query/parse/TokenParser.java:71-80 | an argument ending in `"` closes the open string after a space, and is malformed when none is open |
| TokenParser.InsideStringAppends | src/main/java/me/blvckbytes/storage_query/parse/TokenParser.java:84-87 | inside an open string an argument with no quote at either end is appended after a space, unchecked |
| TokenParser.Wildcard | src/main/java/me/blvckbytes/storage_query/parse/TokenParser.java:89-92 | `*` alone is the integer wildcard (no value, no duration) |
| TokenParser.DigitLedArgument | src/main/java/me/blvckbytes/storage_query/parse/TokenParser.java:95-102 | a digit-led argument is the integer token `ParseInteger` gives, or EXPECTED_INTEGER |
| TokenParser.NonAsciiDigitLed | src/main/java/me/blvckbytes/storage_query/parse/TokenParser.java:95-99 | a non-ASCII digit accepted by `Character.isDigit` passes the first test and still fails with EXPECTED_INTEGER |
| TokenParser.UnquotedArgument | src/main/java/me/blvckbytes/storage_query/parse/TokenParser.java:105-112 | any other argument is an unquoted token unless a quote sits strictly inside it |
| TokenParser.StepReachable | src/main/java/me/blvckbytes/storage_query/parse/TokenParser.java:22-113 | one iteration keeps at most one token per argument read and every index in range; its failure names the current argument |
| TokenParser.ParseFromOutcome | src/main/java/me/blvckbytes/storage_query/parse/TokenParser.java:22-118 | from a reachable state the rest of the pass yields at most one token per argument, each naming an argument, or a failure naming an argument |
| TokenParser.ParseOutcome | src/main/java/me/blvckbytes/storage_query/parse/TokenParser.java:16-119 | the tokenizer is total: at most one token per argument with valid indices, or one conflict at a valid index; MISSING_STRING_TERMINATION names a quote-led argument |
| TokenParser.ParseFromStep | src/main/java/me/blvckbytes/storage_query/parse/TokenParser.java:22-113 | a successful iteration moves the rest of the pass on by one argument |
| TokenParser.MultiArgumentExample | src/main/java/me/blvckbytes/storage_query/parse/TokenParser.java:65-80 | `"a`, `b`, `c"` is one quoted token `a b c` at index 0 |
| TokenParser.FindArgument | src/main/java/me/blvckbytes/storage_query/parse/TokenParser.java:105-112 | `find` is an unquoted token |
| TokenParser.RedArgument | src/main/java/me/blvckbytes/storage_query/parse/TokenParser.java:65-68 | `"red` opens a string holding `red` |
| TokenParser.SwordArgument | src/main/java/me/blvckbytes/storage_query/parse/TokenParser.java:71-80 | `sword"` closes it as `red sword` |
| TokenParser.ThreeArgument | src/main/java/me/blvckbytes/storage_query/parse/TokenParser.java:95-102 | `3` is the integer 3 |
| TokenParser.CommandExample | src/main/java/me/blvckbytes/storage_query/parse/TokenParser.java:16-119 | `find "red sword" 3` gives the unquoted `find`, the quoted `red sword` at index 1 and the integer 3 |
| TokenParser.StrayQuoteExample | src/main/java/me/blvckbytes/storage_query/parse/TokenParser.java:115-116 | a lone `"` fails with MISSING_STRING_TERMINATION at its own index |
| TokenParser.OutOfOrderExample | src/main/java/me/blvckbytes/storage_query/parse/TokenParser.java:26-29 | an empty argument inside an open string is emitted before that string |
| TokenParser.OpeningPiece | src/main/java/me/blvckbytes/storage_query/parse/TokenParser.java:59-68 | the first piece of a rendered quoted string opens the string with its text |
| TokenParser.MiddlePiece | src/main/java/me/blvckbytes/storage_query/parse/TokenParser.java:84-87 | a middle piece is appended after a space |
| TokenParser.ClosingPiece | src/main/java/me/blvckbytes/storage_query/parse/TokenParser.java:47-80 | the last piece, with the closing quote, emits the whole text |
| TokenParser.LastPiece | src/main/java/me/blvckbytes/storage_query/parse/TokenParser.java:71-80 | the last piece emits the words joined by spaces |
| TokenParser.QuotedTail | src/main/java/me/blvckbytes/storage_query/parse/TokenParser.java:22-118 | the pass from any middle piece on ends in the one quoted token |
| TokenParser.SinglePieceRoundTrip | src/main/java/me/blvckbytes/storage_query/parse/TokenParser.java:33-42 | one quoted word is one quoted token with that word |
| TokenParser.QuotedRoundTrip | src/main/java/me/blvckbytes/storage_query/parse/TokenParser.java:16-119 | re-tokenizing the shell arguments of a re-quoted string gives back one quoted token with the same text (when no quote occurs and no two spaces are adjacent inside) |
| TranslationResolver.Trim | src/main/java/me/blvckbytes/item_predicate_parser/translation/resolver/TranslationResolver.java:109 | `String.trim`: a trimmed slice of the input, starting after the leading characters up to the space, with only such characters dropped behind it; empty exactly when all characters are such |
| TranslationResolver.TrimOfTrimmed | src/main/java/me/blvckbytes/item_predicate_parser/translation/resolver/TranslationResolver.java:109 | trimming trimmed text changes nothing |
| TranslationResolver.AlphaNumericIsHexDigit | src/main/java/me/blvckbytes/item_predicate_parser/translation/resolver/TranslationResolver.java:112-118 | `isAlphaNumeric` accepts exactly the 22 hexadecimal digits `0`-`9`, `a`-`f`, `A`-`F` |
| TranslationResolver.HexRun | src/main/java/me/blvckbytes/item_predicate_parser/translation/resolver/TranslationResolver.java:81-86 | the count of the lookahead loop never falls below where it starts and never exceeds its cap |
| TranslationResolver.HexRunProperties | src/main/java/me/blvckbytes/item_predicate_parser/translation/resolver/TranslationResolver.java:81-86 | the lookahead fails exactly when it reaches past the end, and otherwise counts the hex digits read from index 2 up to the cap |
| TranslationResolver.HexLookahead | src/main/java/me/blvckbytes/item_predicate_parser/translation/resolver/TranslationResolver.java:78-86 | the lookahead loop returns what `HexRun` counts, or `None` where `charAt` throws |
| TranslationResolver.ScanStep | src/main/java/me/blvckbytes/item_predicate_parser/translation/resolver/TranslationResolver.java:37-103 | one iteration moves the cursor forward by at most its bound and keeps the scanner's invariant |
| TranslationResolver.ScanAdvances | src/main/java/me/blvckbytes/item_predicate_parser/translation/resolver/TranslationResolver.java:37-103 | one iteration moves the rest of the pass on without changing its outcome |
| TranslationResolver.TagIteration | src/main/java/me/blvckbytes/item_predicate_parser/translation/resolver/TranslationResolver.java:43-61 | an iteration inside a tag does exactly what `ScanStep` specifies |
| TranslationResolver.TextIteration | src/main/java/me/blvckbytes/item_predicate_parser/translation/resolver/TranslationResolver.java:63-102 | an iteration outside a tag does exactly what `ScanStep` specifies, including the failing lookahead |
| TranslationResolver.Sanitize | src/main/java/me/blvckbytes/item_predicate_parser/translation/resolver/TranslationResolver.java:19-110 | the whole loop, the unclosed-tag tail and the trim return exactly `Sanitized` |
| TranslationResolver.ScanPastStartSucceeds | src/main/java/me/blvckbytes/item_predicate_parser/translation/resolver/TranslationResolver.java:78-86 | past index 0 the lookahead never runs off the input |
| TranslationResolver.FirstStepFails | src/main/java/me/blvckbytes/item_predicate_parser/translation/resolver/TranslationResolver.java:77-86 | the first iteration throws exactly on a marker, `#` and only hex digits in at most 7 characters |
| TranslationResolver.SanitizeFailsExactly | src/main/java/me/blvckbytes/item_predicate_parser/translation/resolver/TranslationResolver.java:19-110 | `sanitize` throws exactly on that shape |
| TranslationResolver.StepCollected | src/main/java/me/blvckbytes/item_predicate_parser/translation/resolver/TranslationResolver.java:37-103 | every iteration keeps the output a subsequence of the input read so far |
| TranslationResolver.ScanCollected | src/main/java/me/blvckbytes/item_predicate_parser/translation/resolver/TranslationResolver.java:37-107 | the rest of the pass yields a subsequence of the input |
| TranslationResolver.RawIsSubsequence | src/main/java/me/blvckbytes/item_predicate_parser/translation/resolver/TranslationResolver.java:19-110 | sanitizing only drops characters: the untrimmed output is a subsequence of the input and the result is no longer |
| TranslationResolver.LiteralStep | src/main/java/me/blvckbytes/item_predicate_parser/translation/resolver/TranslationResolver.java:63-102 | outside a tag a character is appended when it is not an unescaped `<` and, if a code marker, is last or followed by neither a format code nor `#` |
| TranslationResolver.LiteralRun | src/main/java/me/blvckbytes/item_predicate_parser/translation/resolver/TranslationResolver.java:63-102 | a run of such characters is appended verbatim |
| TranslationResolver.TagRun | src/main/java/me/blvckbytes/item_predicate_parser/translation/resolver/TranslationResolver.java:43-61 | inside a tag a run whose every character is escaped by a `\` or is no quote, and no `>` unless quotes are open, is skipped |
| TranslationResolver.EscapedInTagSkipped | src/main/java/me/blvckbytes/item_predicate_parser/translation/resolver/TranslationResolver.java:44-58 | inside a tag a character after `\` is skipped whatever it is: an escaped quote leaves the stack alone and an escaped `>` does not close the tag |
| TranslationResolver.FormatCodeDropped | src/main/java/me/blvckbytes/item_predicate_parser/translation/resolver/TranslationResolver.java:65-75 | a marker followed by a hex digit, `k`-`o` or `r` is dropped with it, escaped or not |
| TranslationResolver.HexCodeDropped | src/main/java/me/blvckbytes/item_predicate_parser/translation/resolver/TranslationResolver.java:77-93 | a marker and `#` whose lookahead counts 3 or 6 skip that many characters and the `#` |
| TranslationResolver.HexCodeKept | src/main/java/me/blvckbytes/item_predicate_parser/translation/resolver/TranslationResolver.java:77-102 | any other count leaves the marker to be copied |
| TranslationResolver.TagOpens | src/main/java/me/blvckbytes/item_predicate_parser/translation/resolver/TranslationResolver.java:97-100 | an unescaped `<` opens a tag at its index and is not copied |
| TranslationResolver.QuoteToggles | src/main/java/me/blvckbytes/item_predicate_parser/translation/resolver/TranslationResolver.java:44-49 | inside a tag an unescaped quote pops itself off the top of the stack or is pushed |
| TranslationResolver.TagCloses | src/main/java/me/blvckbytes/item_predicate_parser/translation/resolver/TranslationResolver.java:52-58 | an unescaped `>` with no open quote closes the tag |
| TranslationResolver.EscapedTagKept | src/main/java/me/blvckbytes/item_predicate_parser/translation/resolver/TranslationResolver.java:97-102 | a `<` after `\` is copied |
| TranslationResolver.TagDropped | src/main/java/me/blvckbytes/item_predicate_parser/translation/resolver/TranslationResolver.java:43-100 | an unescaped `<` through the next unescaped `>`, with no unescaped quote between, leaves no trace in the output |
| TranslationResolver.PlainTagDropped | src/main/java/me/blvckbytes/item_predicate_parser/translation/resolver/TranslationResolver.java:19-110 | `<a>v`, where `a` holds a quote or `>` only after a `\` and does not end in `\`, gives the trimmed `v` (`<a\>b>c` and `<a\"b>c` give `c`) |
| TranslationResolver.UnclosedTagKept | src/main/java/me/blvckbytes/item_predicate_parser/translation/resolver/TranslationResolver.java:43-107 | from any state whose open tag the rest of the pass never closes, whatever quotes it holds, the output is the output so far plus the input from the tag's `<` to the end |
| TranslationResolver.QuoteFreeTagKept | src/main/java/me/blvckbytes/item_predicate_parser/translation/resolver/TranslationResolver.java:43-107 | in particular a tag whose rest holds no unescaped quote and no unescaped `>` is kept |
| TranslationResolver.OpenQuoteStaysInTag | src/main/java/me/blvckbytes/item_predicate_parser/translation/resolver/TranslationResolver.java:44-58 | a tag with a quote open and no quote in the rest is never closed: every later `>` sits inside the quote |
| TranslationResolver.LiteralTextKept | src/main/java/me/blvckbytes/item_predicate_parser/translation/resolver/TranslationResolver.java:19-110 | text without markup (every `<` escaped, no marker that starts a code, so a bare `&` or `§` is allowed) comes back trimmed and otherwise unchanged |
| TranslationResolver.TrimLiteral | src/main/java/me/blvckbytes/item_predicate_parser/translation/resolver/TranslationResolver.java:109 | trimming keeps text free of markup |
| TranslationResolver.SanitizeIdempotent | src/main/java/me/blvckbytes/item_predicate_parser/translation/resolver/TranslationResolver.java:19-110 | sanitizing output that holds no markup any more changes nothing |
| TranslationResolver.SanitizeIdempotentOnLiteralText | src/main/java/me/blvckbytes/item_predicate_parser/translation/resolver/TranslationResolver.java:19-110 | for text without markup, sanitizing twice is sanitizing once |
| TranslationResolver.SanitizeNotIdempotent | src/main/java/me/blvckbytes/item_predicate_parser/translation/resolver/TranslationResolver.java:63-109 | sanitizing is not idempotent in general: `&&cc` gives `&c`, and `&c` gives the empty string |
| TranslationResolver.MarkerBeforeCodeKept | src/main/java/me/blvckbytes/item_predicate_parser/translation/resolver/TranslationResolver.java:63-109 | a marker followed by a marker is copied and the second one drops its code: `&&cc` gives `&c` |
| TranslationResolver.LoneCodeDropped | src/main/java/me/blvckbytes/item_predicate_parser/translation/resolver/TranslationResolver.java:65-75 | `&c` alone sanitizes to the empty string |
| TranslationResolver.BareMarkerKept | src/main/java/me/blvckbytes/item_predicate_parser/translation/resolver/TranslationResolver.java:19-110 | `Fish & Chips` comes back unchanged, also on a second pass |
| TranslationResolver.LiteralTail | src/main/java/me/blvckbytes/item_predicate_parser/translation/resolver/TranslationResolver.java:63-103 | text without markup up to the end is appended whole |
| TranslationResolver.HexCodeAtStartDropped | src/main/java/me/blvckbytes/item_predicate_parser/translation/resolver/TranslationResolver.java:77-93 | `&#rrggbb` at index 0 followed by text without markup gives that text, trimmed |
| TranslationResolver.FormatCodeThenText | src/main/java/me/blvckbytes/item_predicate_parser/translation/resolver/TranslationResolver.java:65-102 | a leading format code is dropped and the text after it copied |
| TranslationResolver.LaterHexCodeCopied | src/main/java/me/blvckbytes/item_predicate_parser/translation/resolver/TranslationResolver.java:77-102 | a later `&#` is copied when index 2 holds no hex digit |
| TranslationResolver.LaterHexCodeKept | src/main/java/me/blvckbytes/item_predicate_parser/translation/resolver/TranslationResolver.java:84 | `&c` + text + `&#` + hex digits + text keeps the hex code: the lookahead reads from index 2, not behind the `#` |
| TranslationResolver.TagToParameter | src/main/java/me/blvckbytes/item_predicate_parser/translation/resolver/TranslationResolver.java:43-61 | from `<` to the opening quote of a parameter the tag is skipped and the quote pushed |
| TranslationResolver.ParameterToEnd | src/main/java/me/blvckbytes/item_predicate_parser/translation/resolver/TranslationResolver.java:43-61 | inside the quoted parameter `<` and `>` mean nothing; its quote pops and the `>` behind it closes the tag |
| TranslationResolver.QuotedTagSkipped | src/main/java/me/blvckbytes/item_predicate_parser/translation/resolver/TranslationResolver.java:43-61 | a tag with a quoted parameter is skipped up to its closing `>` |
| TranslationResolver.QuotedParameterScan | src/main/java/me/blvckbytes/item_predicate_parser/translation/resolver/TranslationResolver.java:37-103 | text without markup after such a tag is all that is output |
| TranslationResolver.QuotedParameterDropped | src/main/java/me/blvckbytes/item_predicate_parser/translation/resolver/TranslationResolver.java:19-110 | `<a"q">v` sanitizes to `v` trimmed, whatever `<` and `>` the quoted `q` holds |
| TranslationResolver.TextThenTagOpens | src/main/java/me/blvckbytes/item_predicate_parser/translation/resolver/TranslationResolver.java:37-100 | text without markup up to an unescaped `<` is copied, and a tag opens at that `<` with no quote open |
| TranslationResolver.UnclosedTagScan | src/main/java/me/blvckbytes/item_predicate_parser/translation/resolver/TranslationResolver.java:97-107 | text without markup then a `<` never closed is output whole |
| TranslationResolver.UnclosedTagKeptWhole | src/main/java/me/blvckbytes/item_predicate_parser/translation/resolver/TranslationResolver.java:19-110 | `before<unclosed`-shaped input comes back whole, trimmed |
| TranslationResolver.UnclosedQuotedTagScan | src/main/java/me/blvckbytes/item_predicate_parser/translation/resolver/TranslationResolver.java:37-107 | text without markup, a `<`, a tag name up to an opening quote, and no further quote: the input comes back whole |
| TranslationResolver.UnclosedQuotedTagKeptWhole | src/main/java/me/blvckbytes/item_predicate_parser/translation/resolver/TranslationResolver.java:19-110 | `<a"t` with a quote never closed is kept whole, trimmed, whatever `>` `t` holds (`x<a"b>c` is kept) |
| Sorting.LexLeIsCompareTo | src/main/java/me/blvckbytes/item_predicate_parser/parse/EnumMatcher.java:21 | `LexLe(a, b)` is `compareTo(a, b) <= 0`, for Java's algorithm: the difference of the first differing characters, else of the lengths |
| Sorting.LexLeTransitive | src/main/java/me/blvckbytes/item_predicate_parser/parse/EnumMatcher.java:21 | `String.compareTo` order is transitive |
| Sorting.LexLeTotal | src/main/java/me/blvckbytes/item_predicate_parser/parse/EnumMatcher.java:21 | any two strings are comparable |
| Sorting.LexLeAntisymmetric | src/main/java/me/blvckbytes/item_predicate_parser/parse/EnumMatcher.java:21 | strings ordered both ways are equal |
| Sorting.InsertInPlace | src/main/java/me/blvckbytes/item_predicate_parser/parse/EnumMatcher.java:21 | one pass of the in-place sort leaves the prefix equal to `Insert` of the element and the rest untouched |
| Sorting.SortInPlace | src/main/java/me/blvckbytes/item_predicate_parser/parse/EnumMatcher.java:21 | the in-place sort leaves exactly `SortByKey` of the old contents |
| Sorting.SortByKeyProperties | src/main/java/me/blvckbytes/storage_query/translation/TranslationRegistry.java:41-44 | the stable sort returns a permutation, ascending by key, keeping the input order of equal keys |
| Sorting.SortByKeyIsTheStableSort | src/main/java/me/blvckbytes/storage_query/translation/TranslationRegistry.java:41-44 | any sorted result keeping every key's elements in input order is `SortByKey`, so the model's sort is the library's |
| EnumMatching.EnumMatcher.constructor | src/main/java/me/blvckbytes/item_predicate_parser/parse/EnumMatcher.java:13-22 | the stored constants are the normalized values sorted stably by normalized name: a permutation, ascending, equal names in declaration order |
| EnumMatching.EnumMatcher.ForEachMatch | src/main/java/me/blvckbytes/item_predicate_parser/parse/EnumMatcher.java:44-86 | both loops hand exactly the accepted constants to the handler in stored order, stop at its first false and return that constant; every candidate is judged by a freshly reset matcher |
| EnumMatching.EnumMatcher.CreateCompletions | src/main/java/me/blvckbytes/item_predicate_parser/parse/EnumMatcher.java:28-34 | the names of all accepted constants in stored order, ascending, no more than there are constants |
| EnumMatching.EnumMatcher.MatchFirst | src/main/java/me/blvckbytes/item_predicate_parser/parse/EnumMatcher.java:40-42 | the first accepted constant, `None` exactly when nothing is accepted |
| EnumMatching.DispatchNeverStopping | src/main/java/me/blvckbytes/item_predicate_parser/parse/EnumMatcher.java:50-58 | a handler that never stops sees every accepted constant and the walk returns nothing |
| EnumMatching.DispatchStopsAt | src/main/java/me/blvckbytes/item_predicate_parser/parse/EnumMatcher.java:81-82 | the walk returns the first constant the handler refuses |
| EnumMatching.AcceptedProperties | src/main/java/me/blvckbytes/item_predicate_parser/parse/EnumMatcher.java:66-83 | the accepted constants are a sorted subsequence of the constants holding exactly those that pass filter and matcher |
| EnumMatching.EverythingAcceptedWithoutQueryOrFilter | src/main/java/me/blvckbytes/item_predicate_parser/parse/EnumMatcher.java:49-59 | without input and filter every constant is accepted, in stored order |
| Translation.GetTranslationOrNull | src/main/java/me/blvckbytes/storage_query/translation/TranslationRegistry.java:82-92 | `None` exactly for a missing key or a non-primitive value; strings, numbers and booleans give their text |
| Translation.TranslationRegistry.constructor | src/main/java/me/blvckbytes/storage_query/translation/TranslationRegistry.java:24-27 | a registry over the given language file, entry construction and catalogs starts uninitialized, with no entries |
| Translation.TranslationRegistry.EntriesForIsFilterThenBuild | src/main/java/me/blvckbytes/storage_query/translation/TranslationRegistry.java:68-80 | the entries are the translated items, in order, each holding the name and part indices built from its translation value |
| Translation.TranslationRegistry.EntriesForConcat | src/main/java/me/blvckbytes/storage_query/translation/TranslationRegistry.java:68-80 | entries of concatenated catalogs concatenate |
| Translation.TranslationRegistry.NothingTranslated | src/main/java/me/blvckbytes/storage_query/translation/TranslationRegistry.java:73-76 | an empty language file yields no entries |
| Translation.TranslationRegistry.CreateEntries | src/main/java/me/blvckbytes/storage_query/translation/TranslationRegistry.java:68-80 | appends to the output exactly `EntriesFor` the items, never more than one per item |
| Translation.TranslationRegistry.Initialize | src/main/java/me/blvckbytes/storage_query/translation/TranslationRegistry.java:29-45 | the entries become the given items, or the catalogs' entries, sorted stably by stored name: a permutation, ascending, equal names in their original order |
| Translation.ToArray | src/main/java/me/blvckbytes/storage_query/translation/TranslationRegistry.java:44 | `toArray` gives a fresh array holding the sequence's elements in order |
| Translation.TranslationRegistry.Search | src/main/java/me/blvckbytes/storage_query/translation/TranslationRegistry.java:47-66 | nothing before initialization; otherwise exactly the fully matched entries, as a sorted subsequence of the entries |
| Translation.SearchBeforeInitializeExample | src/main/java/me/blvckbytes/storage_query/translation/TranslationRegistry.java:47-51 | searching a fresh registry finds nothing and leaves it uninitialized |
| Translation.EmptyLanguageFileExample | src/main/java/me/blvckbytes/storage_query/translation/TranslationRegistry.java:29-80 | initializing over an empty language file and searching finds nothing |

## Left out

- ParseIntegerToken: integers are unbounded. The Java `int` overflow of long digit runs and the `(int) Math.pow` conversion are not modelled, because only inputs beyond 2^31 differ.
- `Character.isDigit` is a parameter `isDigit`. The lemmas that need it assume only that it agrees with ASCII on ASCII characters, because the Unicode digit tables are not part of this model.
- Supplementary characters: a Dafny `char` is a Unicode scalar value, while Java's `charAt`, `length`, `substring` and `compareTo` count UTF-16 code units. The model agrees with Java only on text without characters outside the Basic Multilingual Plane. Two places show the difference. The absolute-index lookahead of `sanitize` reads different characters once such a character comes before index 2 (`HexRun`, `ScanStep`). `compareTo` orders a surrogate pair (0xD800-0xDFFF) before U+E000-U+FFFF, while `LexLe` orders by code point. Index arithmetic in `IndexOf` and the slices of `parseTokens` differs in the same way.
- EntryOf, CreateEntries: `TranslatedTranslatable` is not part of this model. Its two-argument constructor is taken to keep the catalog object and to derive the stored name and the part indices from the translation value alone, through the parameters `entryName` and `entryParts`. Whether that name is sanitized is not shown by `TranslationRegistry.java`, so no contract depends on it.
- Logging (`logger.warning` in `search` and `createEntries`) is left out, because it has no effect on results.
- `TranslationRegistry.load` (resource stream, JSON decoding, exception handling) is left out: it is I/O. The model starts from an already decoded language file.
- The Bukkit registries `Registry.ENCHANTMENT`, `Registry.MATERIAL` and `Registry.EFFECT` are sequences given to the registry. A catalog object's translation key and the query-substring matching (`SubstringIndices.matchQuerySubstrings`) are function parameters. SubstringIndices is not part of this model.
- The syllable decomposition (`Syllables.forString`) and the syllable matcher (`SyllablesMatcher`) are function parameters of `EnumMatcher`. Their internals are not part of this model. Resetting the matcher between candidates is modelled by a ghost flag that each candidate's match asserts fresh.
- The one-argument overloads `createCompletions(input)` and `matchFirst(input)` are the two-argument methods with filter `None`.
- The abstract `TranslationResolver.resolve`, its constructor and the plugin field are left out: they have no body in this class.
- `TranslationRegistry.Initialize`: writes `entries` through a fresh array sorted in place, because Java's `stream().sorted().toArray()` keeps no shared state.
- Concrete sanitizer examples are stated as all-inputs lemmas over the input's shape (`HexCodeAtStartDropped`, `LaterHexCodeKept`, `QuotedParameterDropped`, `UnclosedTagKeptWhole`, `UnclosedQuotedTagKeptWhole`). Strings such as `&cHello &#ff0000World` or `x<a"b>c` are instances of them.
- `sanitize`'s loop body is written as two methods, `TagIteration` and `TextIteration`, called from the loop of `Sanitize`. The `continue` statements of the Java body become early returns.
- The token classes (`QuotedStringToken`, `UnquotedStringToken`, `IntegerToken`) are not part of this model. The two-argument `IntegerToken` constructor used for `*` is taken to mean "no value, not a duration".
