# wire: symbol interpolation, expression evaluation and extended strings, in Dafny

This project models three text engines of the `wire` C++ string library
and proves properties of them.

- **The symbol table and the `$name` interpolator** (`wire.cpp`).
  - A process-wide map from keys to values. Keys carry their `$` sigil.
  - `locate` creates an empty entry when it reads a missing key.
  - `translate` copies a text and replaces each `$ident` found in the table by
    the translation of its value. A reference that is undefined, or that names
    the symbol being expanded, is quoted: it is kept verbatim.
  - `extract` lists the references a text contains.
  - In the model the table is the class `Symbols.SymbolTable`, with a
    `map<string, string>` field. The scanning loops of `translate` and
    `extract` are methods, proved against the recursive specification
    functions `Translation` and `ExtractFrom`.
- **The recursive-descent evaluator** `ExprEval` and `wire::eval` (`wire.cpp`).
  - `ParseSummands`, `ParseFactors` and `ParseAtom` read `+ -`, `* /`, signs,
    parentheses and numbers.
  - They update an error code, an error position and a parenthesis count.
  - `eval` maps every error to NaN.
  - The class `Evaluator.ExprEval` keeps those three fields and advances a
    cursor index. Each parsing method is proved to leave exactly the state
    that a specification function (`Atom`, `Factors`, `Summands`,
    `Evaluation`) computes from the old state.
  - `EvaluatorProofs` then proves what this computes: on the printed form of
    any arithmetic expression, `eval` returns the expression's value, or NaN
    when it divides by zero. Unbalanced parentheses give NaN.
- **The extended operations of `wire::string` and `wire::strings`** (`wire.hpp`).
  - The text conversions `as<bool>`, `as<int>` and `as<char>`.
  - The positional formatter `formatsafe` and the formatted constructors.
  - Wrap-around `at`, push/pop at both ends, `front` and `back`.
  - The glob `matches`, `starts_with` and `ends_with`.
  - `count`, `replace`, `replace_map`, `left_of` and `right_of`.
  - `strip`, `lstrip` and `rstrip`.
  - `tokenize` and `split`.
  - `strings::at` and `strings::str`.
  - Each index-and-accumulator loop of the source is a method with loop
    invariants, proved equal to a specification function. The source's
    promises are lemmas about that function: round trips, shapes,
    idempotence, and the samples from the test file.

Modules:
- `Wrappers`: `Option`.
- `Decimal`: C `isspace`, digits, and the decimal lexer that stands for `strtod`.
- `Conversions`: the `as<T>` conversions.
- `Symbols` and `SymbolsExamples`: the symbol table and the interpolator.
- `Evaluator`, `EvaluatorProofs` and `EvaluatorExamples`: the evaluator.
- `WireString`: wrap-around `at`, the in-place edits and the prefix tests.
- `Glob`: the pattern matcher.
- `Search`: `count`, `replace`, `left_of` and `right_of`.
- `ReplaceMap`: `replace_map`.
- `Strip`: the strip family.
- `Tokens`: `tokenize` and `split`.
- `Format`: `formatsafe`.
- `StringList`: `wire::strings`.

Values of the evaluator are mathematical reals, so there is no rounding.
The unsigned and 32-bit quantities of the source are written out where
they matter: the 32-bit range of `as<int>`, the byte of `as<char>`, and
C++'s truncating `%` in `at`.

## Model

| member | source | states |
|---|---|---|
| Symbols.SymbolTable.constructor | wire.cpp:96-99 | the table starts empty |
| Symbols.SymbolTable.Locate | wire.cpp:101-104 | reading a missing key inserts it with the empty value; a present key keeps its value; every other key is untouched; the value returned is the key's entry |
| Symbols.SymbolTable.Assign | wire.cpp:101-104 | assigning through `locate` sets one key and leaves every other key as it was |
| Symbols.SymbolTable.Translate | wire.cpp:106-147 | the scanning loop returns exactly the translation the recursive definition gives, and it does not change the table |
| Symbols.Extract | wire.cpp:149-176 | the loop returns the references as `ExtractFrom` gives them, every one a separator followed only by identifier characters, occurring in the text in the order returned |
| Symbols.ExtractTokens | wire.cpp:149-176 | every token extracted is a separator followed only by characters of `[A-Za-z0-9_-]` |
| Symbols.ExtractWithoutSeparator | wire.cpp:149-176 | a text with neither separator yields no tokens |
| Symbols.ExtractSplit | wire.cpp:149-176 | a character that is neither a separator nor an identifier character splits the text: the tokens are those of the part before it followed by those of the part after it |
| Symbols.ExtractSplitPending | wire.cpp:158-170 | the same split with a reference already pending: the character ends it |
| Symbols.ExtractInOrder | wire.cpp:149-176 | the tokens occur in the text one after another, left to right and without overlapping, in the order returned |
| Symbols.NoDollarUnchanged | wire.cpp:129-135 | a text without `$` translates to itself |
| Symbols.LiteralThen | wire.cpp:129-135 | text before the first `$` is copied as it is, ahead of the translation of the rest |
| Symbols.ScanIdent | wire.cpp:114-119 | identifier characters extend the pending reference and emit nothing |
| Symbols.RefAlone | wire.cpp:138-144 | a reference at the end of the text is flushed as its resolution, with no terminator |
| Symbols.RefThen | wire.cpp:120-126 | a reference ends at the first non-identifier character, which is emitted right after the resolved or quoted reference and consumed |
| Symbols.QuotedUnchanged | wire.cpp:120-127 | when every reference in a text is undefined or names the parent, the text, pending reference included, is emitted verbatim |
| Symbols.QuotedOutside | wire.cpp:120-127 | a text whose references are all undefined or the parent translates to itself |
| Symbols.QuotedInside | wire.cpp:120-127 | the same, starting inside a pending reference |
| Symbols.FuelMonotone | wire.cpp:120-126 | once the expansion depth suffices, one more level changes nothing |
| Symbols.ResolveFuelMonotone | wire.cpp:120-126 | the same for one resolved reference |
| Symbols.FuelIrrelevant | wire.cpp:106-147 | a translation that completes within some depth is the same for every larger depth |
| Symbols.RankedTerminates | wire.cpp:120-126 | when the table can be ranked so that each value only references lower ranks, translation completes within the rank bound |
| Symbols.RankedResolves | wire.cpp:120-126 | the same for one reference |
| Symbols.RankedTableTranslates | wire.cpp:106-147 | for a ranked table, every text translates completely within any depth above every rank |
| Symbols.MutualCycleDiverges | wire.cpp:120-123 | two symbols that refer to each other never finish expanding, whatever the depth, because only the direct parent is quoted |
| Symbols.SelfReferenceQuoted | wire.cpp:120-123 | a symbol whose value names only itself expands to its value with the self-reference quoted |
| SymbolsExamples.TwoDefined | sample.dollar.cc:14-17 | "$PLAYER_1 and $PLAYER_2" becomes "Mark and John" |
| SymbolsExamples.UndefinedQuoted | sample.dollar.cc:18 | the undefined "$PLAYER_3" stays literal |
| SymbolsExamples.GreetingExpands | sample.dollar.cc:22-24 | "$HEY! How are you?" expands `$HEY` and keeps the `!` that ends it |
| SymbolsExamples.Chained | sample.dollar.cc:22-24 | `$GREETING` expands through `$HEY` to "Hello stranger! How are you?" |
| SymbolsExamples.Loopback | sample.dollar.cc:28-29 | `$LOOPBACK` = "$LOOPBACK is quoted." translates to exactly that text |
| SymbolsExamples.HeyNamesPlayers | sample.dollar.cc:33 | the redefined `$HEY` expands to "Hey Mark and John" |
| SymbolsExamples.HotSwapped | sample.dollar.cc:33-34 | after `$HEY` is redefined, `$GREETING` expands to "Hey Mark and John! How are you?" |
| Decimal.NumeralValue | wire.cpp:238-239 | the decimal digits of a number read back as that number |
| Decimal.StrtodAdvances | wire.cpp:238-248 | a successful numeric read consumes at least one character |
| Decimal.StrtodNumeral | wire.cpp:238-239 | the digits of a natural number, followed by a character that cannot continue a number, read as that number and end right after the digits |
| Evaluator.SkipSpaces | wire.cpp:208-209 | the cursor stops at a non-blank, never beyond the text |
| Evaluator.SkipSpacesBlanks | wire.cpp:208-209 | every character skipped is a blank |
| Evaluator.SkipBlanks | wire.cpp:208-209 | the skipping loop stops where `SkipSpaces` says |
| Evaluator.Atom | wire.cpp:206-249 | an atom never moves the cursor back, stays inside the text, and never clears an error once one is set |
| Evaluator.Factors | wire.cpp:252-278 | a product never moves the cursor back and stays inside the text |
| Evaluator.Summands | wire.cpp:281-297 | a sum never moves the cursor back and stays inside the text |
| Evaluator.Evaluation | wire.cpp:300-316 | when `evaluate` reports no error, the parentheses balanced and the whole text was read |
| Evaluator.ExprEval.constructor | wire.cpp:199-203 | a fresh evaluator holds no error, position 0 and count 0 |
| Evaluator.ExprEval.ParseAtom | wire.cpp:206-249 | the method returns the value and cursor, and leaves the error, error position and parenthesis count, that `Atom` gives for the old state |
| Evaluator.ExprEval.FactorsTurn | wire.cpp:254-276 | one iteration of the product loop either ends the product as specified or advances to an equivalent later state |
| Evaluator.ExprEval.ParseFactors | wire.cpp:252-278 | the product loop leaves exactly the state `Factors` gives for the old state |
| Evaluator.ExprEval.SummandsTurn | wire.cpp:283-296 | one iteration of the sum loop either ends the sum as specified or advances to an equivalent later state |
| Evaluator.ExprEval.ParseSummands | wire.cpp:281-297 | the sum loop leaves exactly the state `Summands` gives for the old state |
| Evaluator.ExprEval.Evaluate | wire.cpp:300-316 | `evaluate` resets the count and the error, parses a sum, then reports a non-zero count or a stray `)` as a parenthesis error and any other leftover as a wrong character, overwriting earlier errors; its result and fields are those of `Evaluation` |
| Evaluator.Eval | wire.cpp:331-342 | `eval` returns the value exactly when no error is recorded, and NaN otherwise |
| EvaluatorProofs.EvaluatesPrinted | wire.cpp:331-342 | for every arithmetic expression, `eval` of its printed form is its value, or NaN when it divides by zero: `* /` bind tighter than `+ -`, both are left-associative, and parentheses and a unary `-` override this |
| EvaluatorProofs.SumValue | wire.cpp:281-297 | reading a printed sum gives its value and stops right after it |
| EvaluatorProofs.ProdValue | wire.cpp:252-278 | reading a printed product gives its value and stops right after it |
| EvaluatorProofs.AtomValue | wire.cpp:206-249 | reading a printed atom gives its value and stops right after it |
| EvaluatorProofs.PrimaryValue | wire.cpp:222-248 | reading a printed literal or parenthesised sum gives its value, negated after a `-` |
| EvaluatorProofs.SumError | wire.cpp:256-276 | a printed sum that divides by zero somewhere leaves an error set |
| EvaluatorProofs.ProdError | wire.cpp:256-276 | the same for a printed product |
| EvaluatorProofs.AtomError | wire.cpp:222-235 | the same for a printed atom |
| EvaluatorProofs.DivByZero | wire.cpp:268-272 | a `/` followed by a printed atom worth 0 sets the division-by-zero error |
| EvaluatorProofs.ExtraClosing | wire.cpp:305-309 | after a well-formed expression and a stray `)`, whatever follows, `evaluate` stops at the `)` with the parenthesis error recorded there and the count at 0, and `eval` returns NaN |
| EvaluatorProofs.Unclosed | wire.cpp:226-235 | after an unclosed `(` and a well-formed expression, the parenthesis error is recorded at the end of the text with the count left at 1, and `eval` returns NaN |
| EvaluatorProofs.TrailingText | wire.cpp:310-314 | a character that no rule reads (not a digit, `.`, `e`, `E`, an operator, a blank, `)` or the end) after a well-formed expression stops parsing there with the wrong-character error at it, whatever follows, and `eval` returns NaN |
| EvaluatorProofs.TrailingOperator | wire.cpp:281-297 | a `+` or `-` ending the text after a well-formed expression leaves the operand missing: the wrong-character error is recorded at the end, and `eval` returns NaN |
| EvaluatorProofs.MissingOperand | wire.cpp:238-248 | a product expected at the end of the text gives 0 with the wrong-character error at the end and the count unchanged |
| EvaluatorProofs.UnclosedAtom | wire.cpp:226-235 | the unclosed parenthesis reads the whole sum, then records the parenthesis error at the end with the count still 1 |
| EvaluatorExamples.NestedSum | sample.tools.cc:10 | "5*(4+4+1)" evaluates to 45 |
| EvaluatorExamples.NegatedProduct | sample.tools.cc:11 | "-5*(2*(1+3)+1)" evaluates to -45 |
| EvaluatorExamples.ParenthesisedProduct | sample.tools.cc:12 | "5*((1+3)*2+1)" evaluates to 45 |
| EvaluatorExamples.OneOverZero | wire.cpp:268-272 | "1/0" evaluates to NaN |
| EvaluatorExamples.EmptyText | wire.cpp:238-244 | the empty text has no number, so it evaluates to NaN |
| EvaluatorExamples.DivisionRecorded | wire.cpp:268-272 | in "1/0)" the sum stops at the `)` with division by zero recorded at position 1 |
| EvaluatorExamples.LaterErrorWins | wire.cpp:305-309 | in "1/0)" the stray `)` overwrites the division-by-zero error with a parenthesis error at position 3, and `eval` gives NaN |
| Conversions.SkipWhite | wire.hpp:86-88 | stream extraction skips exactly the leading white space |
| Conversions.AsInt | wire.hpp:86-93 | `as<int>` is always a 32-bit value, and a text with no leading integer gives 1 if it is non-empty and neither "0" nor "false", else 0 |
| Conversions.AsBool | wire.hpp:86-93 | `as<bool>` of the empty text is false, and a text the stream reads no number from is true exactly when it is non-empty and neither "0" nor "false" |
| Conversions.BoolIsNonZero | wire.hpp:86-93 | `as<bool>` of every text is whether `as<int>` of it is non-zero |
| Conversions.AsChar | wire.hpp:96-105 | `as<char>` is a byte unless the text is a single character, and for a text that is not one character it is `as<int>` modulo 256 |
| Conversions.NarrowedChars | tests.cxx:270-271 | `as<char>` narrows: "-1" gives '\xff', "true" gives '\x01' and "false" gives '\0' |
| Conversions.IntRoundTrip | wire.hpp:86-93 | a 32-bit integer written by the stream reads back as itself |
| Conversions.BoolOfInt | wire.hpp:86-93 | a written integer converts to `true` exactly when it is non-zero, as in `string(100).as<bool>()` |
| Conversions.BoolRoundTrip | wire.hpp:167-168 | "true" and "false" convert back to their truth values |
| Conversions.CharRoundTrip | wire.hpp:96-98 | a one-character text converts to its character |
| Conversions.CharOfCode | wire.hpp:99-104 | a written code from 10 to 255, two or more characters long, converts to the character with that code, as in `string(97).as<char>() == 'a'` |
| Conversions.EmptyConversions | tests.cxx:253-276 | the empty text converts to false, 0 and '\0' |
| Conversions.TruncatedReal | tests.cxx:103 | "-456.123" converts to -456: the integer read stops at the `.` |
| Format.FormatSafe | wire.hpp:204-213 | the in-place loop leaves in the accumulator slot exactly the expansion `FormatFrom` gives, and the argument slots unchanged |
| Format.FromFormat | wire.hpp:216-263 | a formatted constructor with 1 to 7 arguments builds the expansion of its format |
| Format.FormatExpands | wire.hpp:207-211 | a format with no NUL byte and no byte equal to the array size expands piecewise: each byte becomes an argument's text or itself |
| Format.LiteralFormat | wire.hpp:209 | bytes above the argument count are copied literally |
| Format.NulDoubles | wire.hpp:210 | a NUL byte appends the accumulated text to itself |
| Format.FormatFold | wire.hpp:207-211 | expanding two formats in turn is expanding their concatenation |
| Format.FormatThenArgument | wire.hpp:210 | byte k, for k from 1 to the argument count, appends argument k |
| Format.HelloWorld | tests.cxx:67 | "hello \1" with "world" gives "hello world" |
| Format.HelloTrueWorld | tests.cxx:69 | "hello \2 \1" with "world", "true" gives "hello true world" |
| Format.HelloBraces | tests.cxx:71 | "hello \1\2\3" with "{", "world", "}" gives "hello {world}" |
| Format.SevenArguments | tests.cxx:73-79 | seven arguments are placed in order |
| WireString.WrapIndex | wire.hpp:340-347 | the index `at` computes with C++'s truncating `%` always lies within the text and equals the mathematical `pos mod n` |
| WireString.NegativeWrap | wire.hpp:344 | for negative positions `n-1+((pos+1)%n)` with truncating `%` is `pos mod n` |
| WireString.CharAt | wire.hpp:340-347 | `at(pos)` on a non-empty text is the character at `pos mod n`; on an empty one it is '\0' |
| WireString.CharAtPeriodic | wire.hpp:340-347 | positions that differ by a multiple of the length read the same character |
| WireString.CharAtFromBack | wire.hpp:340-347 | `at(-1-k)` is the k-th character from the end |
| WireString.HiCycles | tests.cxx:341-352 | `at(-6)` to `at(5)` on "Hi!" cycle H, i, ! |
| WireString.WString.constructor | wire.hpp:148-149 | the object holds the given text |
| WireString.WString.SetAt | wire.hpp:349-356 | writing through `at(pos)` replaces the character at `pos mod n` and nothing else; an empty text stays empty |
| WireString.WString.PopBack | wire.hpp:365-369 | drops the last character, and leaves an empty text alone |
| WireString.WString.PopFront | wire.hpp:371-375 | drops the first character, and leaves an empty text alone |
| WireString.WString.PushBack | wire.hpp:377-381 | appends the argument's text |
| WireString.WString.PushFront | wire.hpp:383-387 | prepends the argument's text |
| WireString.WString.Back | wire.hpp:389-397 | the last character, or '\0' for the empty text |
| WireString.WString.Front | wire.hpp:399-407 | the first character, or '\0' for the empty text |
| WireString.PushPopBack | wire.hpp:365-381 | pushing one character then popping it restores the text |
| WireString.HiEdits | tests.cxx:125-130 | `at(5) = '?'` and three pushes turn "Hi!" into "Hi?404!Hi?404!" |
| WireString.Str | wire.hpp:411-414 | `str(pre, post)` is the prefix, the text and the suffix |
| WireString.StartsWithIff | wire.hpp:588-591 | `starts_with(p)` holds exactly when the text is p followed by something |
| WireString.EndsWithIff | wire.hpp:598-601 | `ends_with(s)` holds exactly when the text is something followed by s |
| WireString.Upper | wire.hpp:430-437 | `uppercase` keeps the length and maps each ASCII lower-case letter to its capital |
| WireString.CaseInsensitiveWeaker | wire.hpp:593-606 | a case-sensitive prefix or suffix is also one when case is ignored |
| Glob.CStr | wire.hpp:427 | `c_str()` as the matcher sees it: the text up to its first NUL |
| Glob.LiteralMatch | wire.hpp:419-424 | a pattern without `*` or `?` matches exactly itself |
| Glob.EmptyPattern | wire.hpp:419-424 | the empty pattern matches only the empty text |
| Glob.StarMatch | wire.hpp:421 | `*` followed by p matches a text exactly when p matches one of its suffixes |
| Glob.StarMatchesAll | wire.hpp:421 | the pattern "*" matches every text |
| Glob.QuestionMatch | wire.hpp:422 | `?` matches exactly one character other than `.` |
| Glob.MatchesItself | wire.hpp:416-428 | a text without wildcards or NUL matches itself and "*" |
| Search.Find | wire.hpp:452-453 | a successful search lies inside the text, at or after the start position |
| Search.FindFirst | wire.hpp:452-453 | the search returns the first occurrence, and reports none only when there is none |
| Search.Count | wire.hpp:448-457 | the counting loop returns the number of non-overlapping occurrences, scanning left to right |
| Search.OccurrencesFit | wire.hpp:448-457 | non-overlapping occurrences fit in the text: their count times the target's length is at most its length |
| Search.Replace | wire.hpp:471-483 | the loop replaces every non-overlapping occurrence, left to right, and never rescans inserted text |
| Search.ReplaceSame | tests.cxx:317 | replacing a target by itself is the identity |
| Search.ReplaceLength | tests.cxx:315-321 | each replacement changes the length by the difference between replacement and target |
| Search.DeleteNoneLeft | wire.hpp:471-483 | a text without the target is unchanged by deletion and has no occurrences |
| Search.PercentReplaced | tests.cxx:314-321 | every `%25` of `%25hello%25%25world%25` is replaced by the replacement, whatever it is; deleting them gives `helloworld` |
| Search.ReplaceCopies | wire.hpp:471-483 | a run of characters none of which begins the target is copied unchanged before the replacement of the rest |
| Search.LeftOf | wire.hpp:459-463 | `left_of` is a prefix of the text, the whole text when there is no match |
| Search.LeftOfFirst | wire.hpp:459-463 | `left_of` ends right at the first match, and contains no match |
| Search.RightOf | wire.hpp:465-469 | `right_of` is the whole text without a match, and otherwise what follows the first character of the match; it fails only for two empty texts |
| Search.RightOfMatch | wire.hpp:465-469 | the corrected `right_of` is a suffix of the text |
| Search.LeftMatchRight | wire.hpp:459-469 | with the corrected `right_of`, left part, match and right part put back together give the text |
| Search.RightOfKeepsSeparatorTail | wire.hpp:465-469 | `right_of("==")` on "a==b" gives "=b", where the corrected version gives "b" |
| Search.RightOfSingleChar | wire.hpp:465-469 | for a one-character separator the two versions agree |
| ReplaceMap.ReplaceMap | wire.hpp:485-519 | the loop builds the text `MapAll` describes: at each position the value of the chosen key, advancing by its length, otherwise one character copied |
| ReplaceMap.Pick | wire.hpp:494-510 | a chosen key fits in the text at that position |
| ReplaceMap.PickFirst | wire.hpp:494-510 | keys are tried from the greatest down, and the first that occurs at the position is chosen; none is chosen only when none occurs |
| ReplaceMap.LongestKeyWins | wire.hpp:494-510 | for keys in map order, the chosen key is at least as long as any other key occurring there |
| ReplaceMap.NoEntries | wire.hpp:485-519 | with no entries the text is unchanged |
| ReplaceMap.SingleEntry | wire.hpp:485-519 | with a single entry `replace_map` is `replace` |
| ReplaceMap.LongerKeyFirst | wire.hpp:485-519 | with keys "a" and "ab", "abc" becomes "2c" |
| Strip.Start | wire.hpp:529-531 | the left cursor ends at or after its start |
| Strip.End | wire.hpp:533-536 | the right cursor ends between the left cursor and its start |
| Strip.StripBy | wire.hpp:523-554 | the two cursor loops return the text `Stripped` describes |
| Strip.LStrip | wire.hpp:559-566 | `lstrip` and `ltrim` strip on the left only |
| Strip.RStrip | wire.hpp:569-576 | `rstrip` and `rtrim` strip on the right only |
| Strip.StripBoth | wire.hpp:579-586 | `strip` and `trim` strip on both sides |
| Strip.StartStops | wire.hpp:529-531 | the left cursor passes only strippable characters and stops at one that stays |
| Strip.EndStops | wire.hpp:533-536 | the right cursor passes only strippable characters and stops after one that stays |
| Strip.StrippedShape | wire.hpp:523-554 | the result is a contiguous piece of the text; everything cut is strippable; a stripped side starts or ends with a character that stays; an unstripped side is kept whole |
| Strip.StripIdempotent | wire.hpp:523-554 | stripping twice on the same sides is stripping once |
| Strip.SpacedLetters | tests.cxx:164-182 | " a b c " strips to "a b c", "a b c " and " a b c" |
| Strip.NothingToStrip | tests.cxx:155-157 | the empty text and "abc" are unchanged |
| Strip.StripListed | wire.hpp:538-549 | a given character set replaces white space |
| Tokens.Tokenize | wire.hpp:608-636 | the loop returns the words `Words` describes |
| Tokens.WordsShape | wire.hpp:608-636 | every token is non-empty and holds no delimiter |
| Tokens.WordsJoin | wire.hpp:608-636 | the tokens put together are the text without its delimiters |
| Tokens.WordsSplit | wire.hpp:619-630 | a delimiter separates the words before it from those after it |
| Tokens.TwoWords | wire.hpp:608-636 | "a,,b" tokenizes to "a" and "b" |
| Tokens.SplitBy | wire.hpp:639-665 | the loop returns the tokens `Split` describes |
| Tokens.Split | wire.hpp:639-665 | `split` always returns at least one token |
| Tokens.SplitJoin | wire.hpp:639-665 | the tokens put together are the text |
| Tokens.SplitShape | wire.hpp:639-665 | each delimiter is a one-character token of its own, the other tokens hold no delimiter and are non-empty, and the final token is always present, possibly empty |
| Tokens.SplitSamples | wire.hpp:639-665 | "a,b" gives "a", ",", "b"; "a," gives "a", ",", ""; the empty text gives one empty token |
| StringList.ListAt | wire.hpp:740-747 | `strings::at` on a non-empty list is the element at `pos mod n`; on an empty one it is the empty text |
| StringList.ListAtFromBack | wire.hpp:740-747 | `at(-1-k)` is the k-th element from the end |
| StringList.ListAtPeriodic | wire.hpp:740-747 | positions that differ by a multiple of the length name the same element |
| StringList.Strings.constructor | wire.hpp:707-738 | the list holds the given elements |
| StringList.Strings.SetAt | wire.hpp:749-756 | writing through `at(pos)` replaces the element at `pos mod n` and nothing else; an empty list stays empty |
| StringList.Str | wire.hpp:772-783 | the loop returns a one-element list's element alone, and otherwise the prefix, each element formatted, and the suffix |
| StringList.DefaultStr | wire.hpp:772-783 | with the default format "\1\n" every element becomes one line |
| StringList.EachDefault | wire.hpp:780-781 | the default format lays out each element followed by a line break |
| StringList.FramedStr | wire.hpp:772-783 | for any list but a one-element one, the result begins with the prefix and ends with the suffix |

## Left out

- `wire::format` is a wrapper over `vsnprintf`, a foreign C call. It is not modelled.
- The float, double and long double constructors, `precise`, and `as<float>` / `as<double>` are not modelled. They render floating point through a stream.
- The generic stream constructor, `operator<<` and its `std::endl` detection, the implicit conversions, and the `$`, `$$`, `$cast` and typed macros are C++ plumbing over `locate`, `translate` and `as`. Arguments of the formatted constructors and of `push_back`/`push_front` are therefore given as their rendered texts.
- `as<signed char>` and `as<unsigned char>` are not modelled separately. They repeat `as<char>` with another narrowing.
- `lowercase` is not modelled. `WireString.Upper` is ASCII only, where the source uses the locale's `toupper`.
- `Decimal.Strtod` reads only decimal literals (sign, digits, a fraction, an exponent), after the white space that `strtod` itself skips (`IsSpace`: blank, tab, newline, vertical tab, form feed, carriage return). That skipping matters after a sign, as in `-\t5`. The infinities, NaN and hexadecimal forms of `strtod` are not modelled.
- Evaluator: values are exact reals. Double rounding and overflow are not modelled.
- `Symbols.SymbolTable.Translate`: the recursion depth is a ghost `fuel` argument, and the method requires the translation to complete within it. Inputs with a mutual cycle, which recurse without bound in the source, are excluded. `Symbols.MutualCycleDiverges` shows they never complete.
- `Strip.RStrip`: requires a text that is empty or has a character that stays. On a non-empty text made only of strippable characters, the unsigned cursor of the source wraps below zero.
- `Search.Count`, `Search.Replace`: require a non-empty target. With an empty one the source loops forever.
- `ReplaceMap.ReplaceMap`: requires non-empty keys, which the source reads with `target.at(0)`. The byte comparison with `memcmp` is modelled as an equality of characters (`SameBytes`).
- `Format.FormatSafe`: requires that no format byte equals the size of the argument array. The source's check `>` rather than `>=` would read past the array.
- `Format.FromFormat`: covers 1 to 7 arguments, the formatted constructors of the source.
- `WireString.CharAt` and `StringList.ListAt` on empty receivers return '\0' or the empty text. The static map holding that scratch value is not modelled. Writing through it leaves the receiver unchanged (`SetAt`).
- `WireString.CharAt`: positions are unbounded integers and the length is not converted to `signed`. `pos + 1` is only computed for negative `pos`, where it cannot overflow, so every `int` position reads the character the model gives; texts longer than the largest `int` are outside the model.
- `Tokens.Tokenize`: the delimiter table is modelled as membership in the delimiter text. The source fills that table through a plain `char` index (wire.hpp:613) and reads it through an `unsigned char` (wire.hpp:621-625). A delimiter byte of 0x80 or more is therefore written at a negative index, which is undefined behaviour, and is never found by the lookup. The model treats such a byte like any other delimiter.
- `StringList.Str`: the format is read up to its first NUL, as the `const char *` parameter does. A null format pointer is not modelled.
- `Evaluator.ExprEval.Evaluate`: `evaluate` does not reset the error position, so the position left by an earlier call survives a successful one. The model keeps this.
- `sample.getopt.cc` and `sample.ini.cc` use `wire::getopt` and `wire::ini`; those components are not part of this model.

## Findings

| source | as written | input that shows it | evidently intended | confidence | as-written member | corrected member |
|---|---|---|---|---|---|---|
| wire.hpp:465-469 | `right_of` returns the text after the first character of the match (`substr(pos + 1)`) | "a==b" with separator "==" gives "=b" | the text after the whole match, "b", so that `left_of + separator + right_of` rebuilds the text | medium, not executed; the two agree for one-character separators (`Search.RightOfSingleChar`) | Search.RightOfKeepsSeparatorTail | Search.LeftMatchRight |
