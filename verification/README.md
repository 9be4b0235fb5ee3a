# Verified model of the gnulib support code in lib/

This project models the parts of `lib/` whose correctness is not evident from reading them, and proves what they
promise. `dafny verify dfyconfig.toml` checks all of it.

**Pattern matching** (`lib/fnmatch.c`, `lib/fnmatch_loop.c`). `FCT` matches `* ? [...] \` and, with FNM_EXTMATCH, the
ksh groups. After a `*` it commits to the leftmost place where the text up to the next `*` fits, and never retries.
`Fnmatch.dfy` says what one call of `FCT`, `EXT` and `END` returns, as recursive functions whose `decreases` clauses
are the termination argument (pattern left, string left, rank of the routine); `Bracket.dfy` and `Group.dfy` do this
for `[` and for the scan of a group. `FnmatchLoop.dfy` and `FnmatchScan.dfy` are the loops of the C code, proved to
return the same.

`Posix.dfy` reads a pattern as section 2.13 of POSIX.1-2017 XCU does, and `Glob.dfy` is the relation of that section
between a pattern so read and a string, without any search strategy. `Reading.dfy` is what the matcher makes of a
pattern, and `Agreement.dfy` when both readings hold the same characters. `BracketMeaning.dfy`, `Placement.dfy`,
`Commitment.dfy` and `Meaning.dfy` prove the matcher against the relation. `Slashes.dfy`, `Converse.dfy` and
`Division.dfy` prove that it fails where the conditions are not met, and `Exactness.dfy` puts both together: the matcher
is right about a pattern on every string if and only if the conditions are met. `Closure.dfy`, `Alternatives.dfy`,
`Choice.dfy`, `Prefix.dfy`, `GroupEnd.dfy` and `StarGroup.dfy` are about groups. A pattern position is an index;
`Text.At` may read the NUL but nothing behind it, so that no routine reads past the end of a pattern is part of every
proof.

**UTF-8 decoding** (`lib/mbrtowc-impl-utf8.h` and the files that include it, `lib/mbsrtowcs-impl.h`). `Utf8.dfy`
states the encoding and the byte grammar of RFC 3629 (sections 3 and 4), which is Table 3-7 in section 3.9 of the
Unicode Standard. `Utf8Decode.dfy` is the decision tree, `Restart.dfy` one restartable call and what cutting the input
does, `MbState.dfy` the two representations of the state, as classes, `Mbsrtowcs.dfy` the loop over a string, and
`FnmatchMain.dfy` the conversions in `fnmatch` up to the matcher's answer.

**Word arithmetic.** `Words.dfy` and `Memchr.dfy` are `lib/memchr.c`; `Integers.dfy`, `RangeOverflow.dfy`,
`MultiplyOverflow.dfy` and `Wrapv.dfy` are the overflow predicates of `lib/intprops-internal.h`, evaluated with C's
conversions, wrap-around and undefined results, for operands of any two integer types.

**The conversion lock.** `MbtowcLock.dfy` is one transition system for any number of threads: the one-time
initialisation of `lib/mbtowc-lock.c`, then the critical section of `lib/mbtowc-lock.h`. A run is a sequence of
states; the theorems hold in every state of every run.

Where the code does not do what might be expected of it, the model follows the code, and a lemma gives the input:

- `*\/` never matches under FNM_FILE_NAME (`Surprises.StarQuotedSlash`).
- An escaped slash protects no leading period (`Surprises.QuotedSlashHidesPeriod`).
- Under FNM_PERIOD, `?` behind `*` leaves a leading-period rule in force that no longer applies
  (`Surprises.StarAnySet`).
- Under FNM_FILE_NAME a slash inside a bracket does not end it: `a[b/c]d` matches `abd` (`Surprises.SlashInBracket`).
- Under FNM_CASEFOLD the start of a range is folded and its end is not: `[A-Z]` matches nothing
  (`Surprises.FoldedRange`), while `[a-zA-Z]` is right (`Surprises.BothRanges`); a character class is tested on the
  character as it is (`Surprises.ClassInOneCase`).
- A class name with a `z` in it, or anything but the letters a to y, is not recognised (`Surprises.ClassNameWithZ`,
  `Division.DividedPatternFails`).
- An unterminated `[` stands for itself only if no `[` is among the items that follow: `[[` does not match `[[`
  (`Surprises.OpenBracket`).
- Where a bracket ends can depend on the character it is matched with (`Surprises.TwoEnds`).
- `END` steps over the character behind a nested group without looking at it (`Surprises.EndMissesTheParenthesis`,
  `GroupEnd.EndMissesClosing`, `GroupEnd.EndStopsShort`).
- A class that the locale does not have makes a bracket reject what no item before it holds (`Surprises.UnknownClass`).
- Behind a `*`, a group that matches the empty string is not tried at the end of the string: `*@(|b)` does not match
  `a` (`Surprises.EmptyGroupBehindStar`).
- `_GL_INT_ADD_RANGE_OVERFLOW` reports an overflow for sums that fit, if an unsigned operand is above the maximum of a
  narrower signed result and the sum is negative, although its comment admits operands of any integer type
  (`Wrapv.AddRejectsSumThatFits`). `RangeOverflow.AddRange` has the exact family; `lib/fnmatch_loop.c` is not affected
  (`Wrapv.PatternSize`).

## Model

| member | source | states |
|---|---|---|
| FnmatchLoop.FctMethod | lib/fnmatch_loop.c:39-930 | `FCT` ends and returns what `Fnmatch.Fct` says, for all patterns, strings and flags; with FNM_EXTMATCH clear the turns of its main loop, over all the calls it makes, are within the budget, and within the pattern's length for a call that stops at the next star |
| FnmatchLoop.BudgetIsProduct | lib/fnmatch_loop.c:55-57 | the budget is (pattern length + 1) * (string length + 1) |
| FnmatchLoop.StarCase | lib/fnmatch_loop.c:108-226 | the search behind a star returns the leftmost placement, and pays for its turns with what it does not look at again |
| FnmatchLoop.SearchLoop | lib/fnmatch_loop.c:183-214 | the two placement loops find the first place at which the chunk call answers 0, at the cost of one chunk for each place tried |
| FnmatchLoop.ExtMethod | lib/fnmatch_loop.c:976-1193 | `EXT` ends and returns what `Fnmatch.Ext` says, for each of the five operators |
| FnmatchLoop.ClosureLoop | lib/fnmatch_loop.c:1089-1122 | the loops over alternatives and cuts find a cut if there is one |
| FnmatchLoop.ChoiceLoop | lib/fnmatch_loop.c:1129-1145 | appending the rest to each alternative in place tries every alternative with the rest behind it |
| FnmatchLoop.NegationLoop | lib/fnmatch_loop.c:1147-1173 | finds a prefix no alternative takes, with a rest that matches, if there is one |
| FnmatchScan.MatchBracket | lib/fnmatch_loop.c:250-887 | the bracket's loop, its parse path and its skip path return what `Bracket.Step` says |
| FnmatchScan.EndPattern | lib/fnmatch_loop.c:933-973 | the loop of `END` ends and returns what `Group.End` does, which the `GroupEnd` rows are about |
| GroupEnd.EndFindsClosing | lib/fnmatch_loop.c:933-973 | `END` ends a group where `EXT` does, and rejects it where `EXT` does, if what stands directly behind each nested group neither closes nor opens anything, or is a bracket in which nothing does |
| GroupEnd.EndIsExact | lib/fnmatch_loop.c:961-968 | if and only if: for every text in which a closing parenthesis stands directly before nothing that opens a group, or a bracket with a parenthesis, a bracket or a group in it, `END` and `EXT` agree exactly if that condition holds or there is no closing parenthesis |
| GroupEnd.EndMissesClosing | lib/fnmatch_loop.c:961-968 | for every text: if the first nested group that breaks the condition is well-behaved inside and stands directly before the closing parenthesis, `END` misses that parenthesis |
| GroupEnd.EndStopsShort | lib/fnmatch_loop.c:961-968 | for every text: if the first nested group that breaks the condition is well-behaved inside and stands directly before another well-behaved group, or a bracket with a parenthesis in it, `END` stops before the parenthesis that closes the group |
| GroupEnd.SkipsToFirstClose | lib/fnmatch_loop.c:942-960 | `END` and `EXT` step over a bracket up to the first `]` behind its first character, a not sign apart |
| GroupEnd.SkipsTheBracket | lib/fnmatch_loop.c:1004-1025 | that is where POSIX ends the bracket, if no class and no quoted `]` is in it |
| FnmatchScan.ParseAlternatives | lib/fnmatch_loop.c:995-1079 | the loop with its nesting counter collects the alternatives of `Group.SplitGroup` |
| BracketMeaning.StepIsMembership | lib/fnmatch_loop.c:228-888 | on every bracket of `Reading.ParseSet`: a character is accepted exactly if it is in the set (out of it, if negated), and the bracket ends at the same place for every character |
| BracketMeaning.BracketIsExact | lib/fnmatch_loop.c:257-884 | on every bracket without a not sign that the parsing path reads to its end, `[=`, `[.` and ranges ending in `[` included: a character is accepted and the pattern goes on behind the bracket if and only if an item holds it and every later item is one that the skipping path passes over |
| BracketMeaning.OpenStep | lib/fnmatch_loop.c:422-430 | a `[` whose items run to the end of the pattern, whether or not a `]` is one of them, accepts no character as a bracket, and stands for itself exactly if no item holds `[` |
| BracketMeaning.BrokenBracketRejects | lib/fnmatch_loop.c:262-304 | a bracket with a class that the locale does not have, a name that is too long, or a backslash or range cut off by the end of the pattern: rejects every character that no item before that holds, and all of them if it is negated; the others are decided by what the skipping path finds |
| Placement.LeftmostLosesNothing | lib/fnmatch_loop.c:183-221 | a chunk that fits both at b and at an earlier a ends earlier from a, and leaves behind only characters the next star may take |
| Commitment.FirstPlacementSuffices | lib/fnmatch_loop.c:209-221 | whatever can be completed from a later placement can be completed from the first one |
| Commitment.SearchIsComplete | lib/fnmatch_loop.c:164-226 | if any placement leads to a match, the committed search finds one |
| Commitment.SearchIsSound | lib/fnmatch_loop.c:164-226 | if the committed search leads to a match, a placement exists |
| Commitment.FctIsCoded | lib/fnmatch_loop.c:39-930 | for all flags, the brackets of `Reading` and no groups, where an operator other than `*` before a parenthesis that nothing closes is no group but the character it is otherwise: `FCT` answers 0 if and only if the backtracking relation `Placement.Coded` holds |
| Agreement.PatternIsReadAlike | lib/fnmatch_loop.c:228-888 | a condition to be read off the items: the brackets hold the same characters for matcher and standard unless a range end changes by folding, a class tells cases apart under FNM_CASEFOLD, a `[` before `:`, `=` or `.` or without an end is taken for something else, or a slash is in a bracket under FNM_FILE_NAME |
| Meaning.FctMeaning | lib/fnmatch_loop.c:92-226 | without FNM_PERIOD, if the brackets hold the same characters for matcher and standard: `FCT` answers 0 if and only if the POSIX relation holds of the pattern as POSIX reads it and, under FNM_FILE_NAME, no star stands before an escaped slash; nothing matches a pattern with an unterminated `[` that has lost its meaning; with a slash in a bracket, `FCT` and POSIX accept nothing in common |
| Meaning.StarQuotedSlashNeverMatches | lib/fnmatch_loop.c:170-204 | under FNM_FILE_NAME a pattern with a star before an escaped slash matches nothing |
| Meaning.FctMeaningUnderPeriod | lib/fnmatch_loop.c:75-250 | the same with any flags: a match is one of the POSIX relation unless a `\/` stands directly before `*`, `?` or a bracket that holds a period; every match of the relation is found unless a star stands before an escaped slash, or a star that the leading-period rule reaches stands before a `?` and then a bracket that holds a period |
| Slashes.SlashInSetIsMisread | lib/fnmatch_loop.c:246-248 | under FNM_FILE_NAME without FNM_LEADING_DIR, for every pattern with a slash in a bracket: `FCT` accepts no string that POSIX accepts |
| Slashes.SlashInSetFails | lib/fnmatch_loop.c:246-248 | with any other flags: whatever such a pattern accepts begins with a string that it accepts and POSIX does not |
| Converse.BlockedPatternFails | lib/fnmatch_loop.c:124-139 | every pattern with a blocked period, whose brackets hold the same characters, misses a string of the POSIX relation, if any string is in the relation with every star empty |
| Converse.HidingPatternFails | lib/fnmatch_loop.c:902-918 | every pattern with a hidden period, whose brackets hold the same characters, matches a string that POSIX forbids, if it matches any with every star empty |
| Converse.MisreadPatternFails | lib/fnmatch_loop.c:579-598 | every pattern that both divide into the same elements, with a bracket that holds some character in one reading only, is answered wrongly on some string, if any string is in the relation with every star empty |
| Converse.RaisedEndIsMisread | lib/fnmatch_loop.c:800-809 | a bracket with a range whose end folding raises is such a bracket, unless another item of it holds that end: `[A-Z]` is, `[a-zA-Z]` is not |
| Division.MatcherReadsMore | lib/fnmatch_loop.c:276-298 | where each element of the standard is made of whole elements of the matcher, the matcher reads at least as many that take a character, and more if it divides the pattern otherwise and no unterminated `[` has lost its meaning |
| Division.DividedPatternFails | lib/fnmatch_loop.c:276-298 | such a pattern that is divided otherwise accepts no string as long as the standard's elements without stars: one bracket with a class name that is missed accepts no single character |
| Division.NamedIsInStep | lib/fnmatch_loop.c:228-888 | patterns without a missed name and without a slash in a bracket under FNM_FILE_NAME are of that kind, and divided alike |
| Division.OneBracketIsInStep | lib/fnmatch_loop.c:228-888 | so are patterns that are one bracket for POSIX |
| Division.NamesLastIsInStep | lib/fnmatch_loop.c:285-297 | and patterns in which no `[` stands behind a missed name, if POSIX finds every bracket closed |
| Exactness.AlikeOrMisread | lib/fnmatch_loop.c:228-888 | the condition of `Meaning.FctMeaning` and that of `Converse.MisreadPatternFails` are complementary, but for periods under FNM_PERIOD |
| Exactness.OnlyCrossingMisreadsPeriod | lib/fnmatch_loop.c:800-809 | periods are misread only by ranges whose end lies on one side of the period and folds to the other |
| Exactness.InStepIsComparable | lib/fnmatch_loop.c:228-888 | the patterns of the `Division` rows meet the condition on shape and length in the next two rows |
| Exactness.RightIfAndOnlyIfSound | lib/fnmatch_loop.c:39-930 | for all flags: `FCT` and POSIX agree about a pattern on every string if and only if its brackets hold the same characters in both readings and it has no star before an escaped slash, no hidden and no blocked period; for patterns of which POSIX accepts some string with every star empty, and unless the readings differ in shape without differing in length |
| Exactness.RightWithoutPeriod | lib/fnmatch_loop.c:39-930 | without FNM_PERIOD the same for every pattern of which POSIX accepts any string |
| Meaning.LeadingPeriodsAreMatchedExplicitly | lib/fnmatch_loop.c:902-918 | a whole-string match assigns each character to a pattern element so that every protected period is taken by a literal period, unless a `\/` stands directly before `*`, `?` or a bracket that holds a period |
| Surprises.StarQuotedSlash | lib/fnmatch_loop.c:188-204 | `*\/` against `a/` under FNM_FILE_NAME |
| Surprises.QuotedSlashHidesPeriod | lib/fnmatch_loop.c:78-90 | `\/*` against `/.x` under FNM_FILE_NAME and FNM_PERIOD |
| Surprises.StarAnySet | lib/fnmatch_loop.c:124-139 | `*?[.]` against `a.` under FNM_PERIOD |
| Surprises.SlashInBracket | lib/fnmatch_loop.c:246-248 | `a[b/c]d` against `abd` under FNM_FILE_NAME |
| Surprises.FoldedRange | lib/fnmatch_loop.c:579-598 | `[A-Z]` against every character under FNM_CASEFOLD |
| Surprises.ClassInOneCase | lib/fnmatch_loop.c:301-316 | `[[:upper:]]` against every character under FNM_CASEFOLD |
| Surprises.ClassNameWithZ | lib/fnmatch_loop.c:289-297 | `[[:z:]]` against every character, in a locale that has the class |
| Surprises.OpenBracket | lib/fnmatch_loop.c:422-430 | `[[` against itself |
| Surprises.UnknownClass | lib/fnmatch_loop.c:301-304 | `[a[:f:]b]` without a class f accepts `a` and rejects `b` |
| Surprises.TwoEnds | lib/fnmatch_loop.c:796-884 | `[xA-[:a:]]` ends at one place for `x` and at another for `B`, whether or not POSIXLY_CORRECT is set |
| Surprises.EndMissesTheParenthesis | lib/fnmatch_loop.c:961-968 | `END` fails on a group that `EXT` splits: its nested group stands directly before its closing parenthesis |
| Surprises.MissesCancel | lib/fnmatch_loop.c:961-968 | `(+(a+(b))+(d)@(e)x)`: what `END` steps over inside gives back the parenthesis it missed |
| StarGroup.StarFindsGroup | lib/fnmatch_loop.c:175-187 | a `*` before `@(`, `+(` or `!(` finds a match if and only if the group takes the rest from some place before the end of the string, or before the next slash under FNM_FILE_NAME, but not from there |
| StarGroup.SuperfluousMeaning | lib/fnmatch_loop.c:111-122 | a `*`, any number of further stars and of groups `?(` and `*(`, each up to where `EXT` ends it and tame, and a plain rest match exactly what a star and the rest do in the POSIX relation |
| Surprises.EmptyGroupBehindStar | lib/fnmatch_loop.c:183-187 | a star before `@(` with an empty alternative and `b`, against `a`, although that group matches the empty string |
| Surprises.MissedBehindStar | lib/fnmatch_loop.c:111-122 | `*?(+(b))` does not match the empty string, as `END` does not find the end of the group |
| Surprises.BothRanges | lib/fnmatch_loop.c:579-598 | `[a-zA-Z]` under FNM_CASEFOLD holds the same characters in both readings, although one of its ranges does not |
| Surprises.DividedElsewhere | lib/fnmatch_loop.c:276-298 | `[[:z:][]]` is divided otherwise by the matcher and yet right on every string, in a locale whose class z holds `:` and `z` |
| Closure.TriesTheGroupAgain | lib/fnmatch_loop.c:1107-1114 | the call from `pattern - 1` is the same group, tried further right |
| Closure.PlusIsClosure | lib/fnmatch_loop.c:1089-1122 | for all flags: `+(...)` matches if and only if the string splits into one or more pieces that alternatives take, and a rest; leaving out the recursion on an empty piece loses nothing |
| Closure.StarIsClosure | lib/fnmatch_loop.c:1084-1122 | the same for `*(...)`, where there may be no piece |
| Closure.NlpBehindIsLeading | lib/fnmatch_loop.c:1099-1103 | what is behind a piece begins under the rule for leading periods that POSIX has for its place in the string |
| Closure.PlusMeaning | lib/fnmatch_loop.c:1089-1122 | for all flags, over alternatives and a rest without groups whose brackets hold the same characters in both readings and that hide and block no period, the pieces and the rest are those of the POSIX relation |
| Closure.StarMeaning | lib/fnmatch_loop.c:1084-1122 | the same for `*(...)`, by splits into zero or more pieces |
| Choice.ChoiceMeaning | lib/fnmatch_loop.c:1123-1145 | for all flags: `@(...)` matches if and only if, for some alternative, the POSIX relation holds of the alternative and the rest read one behind the other; `?(...)` also if it holds of the rest alone |
| Choice.ChoiceSplits | lib/fnmatch_loop.c:1135-1139 | without FNM_PERIOD: that is, if the string splits into a part for the alternative and one for the rest |
| Choice.SimpleIsJoinedPlainly | lib/fnmatch_loop.c:1135 | alternatives and a rest without brackets and backslashes, that form no group together, are read so |
| Choice.NegationMeaning | lib/fnmatch_loop.c:1147-1173 | for all flags: `!(...)` matches if and only if the string splits into a part that no alternative takes and one that the rest takes, in the POSIX relation |
| Prefix.FctIsLed | lib/fnmatch_loop.c:92-226 | for all flags, a plain pattern before any group: `FCT`, which commits to the first place of each chunk, answers 0 if and only if the elements before the group can be placed somewhere so that `EXT` takes what is left |
| Prefix.PrefixMeaning | lib/fnmatch_loop.c:92-226 | without FNM_PERIOD: that is, if the string splits into a part that the POSIX relation gives the plain pattern and one that the group takes, which directly behind a star may not begin at the end |
| Prefix.WholeIsAlike | lib/fnmatch_loop.c:228-888 | the part for the plain pattern is the same in both readings, if its brackets hold the same characters |
| Alternatives.ScanIsDescent | lib/fnmatch_loop.c:997-1077 | the flat scan with a counter finds the alternatives that a descent into nested groups finds |
| Alternatives.SplitIsLossless | lib/fnmatch_loop.c:995-1079 | the alternatives joined by bars are the text between the parentheses, and only top-level bars outside brackets split |
| Alternatives.AppendedRestFits | lib/fnmatch_loop.c:1037-1038 | what line 1135 appends fits, with its NUL, into the `pattern_len` characters allocated |
| Wrapv.PatternSize | lib/fnmatch_loop.c:1034-1047 | the sizes are computed exactly or the group is given up, with `size_t` operands and an `idx_t` result |
| Utf8.WellFormedIsEncoded | lib/mbrtowc-impl-utf8.h:25-138 | the byte grammar of section 4 of RFC 3629 generates only encodings of scalar values |
| Utf8Decode.SuccessIsEncoding | lib/mbrtowc-impl-utf8.h:25-134 | what the tree accepts starts with the encoding of the scalar value it stores, and it returns that encoding's length, 0 for NUL |
| Utf8Decode.EncodingIsAccepted | lib/mbrtowc-impl-utf8.h:25-134 | the encoding of every scalar value is decoded to it, whatever follows; a value `wchar_t` cannot hold is invalid |
| Utf8Decode.IncompleteIsStart | lib/mbrtowc-impl-utf8.h:25-138 | incomplete is answered exactly on the beginnings of characters |
| Utf8Decode.StartIsProperPrefix | lib/mbrtowc-impl-utf8.h:25-138 | those beginnings are exactly the non-empty proper prefixes of encodings |
| Utf8Decode.InvalidIsNeither | lib/mbrtowc-impl-utf8.h:25-138 | invalid is answered exactly if the bytes neither begin a character nor start with one |
| Utf8Decode.VerdictIsStable | lib/mbrtowc-impl-utf8.h:25-138 | more input changes no answer but incomplete |
| Restart.SuccessOutgrowsSaved | lib/mbrtowc.c:231-237 | the `abort` behind `success:` is not reached |
| Restart.FeedFindsCharacters | lib/mbrtowc.c:154-292 | a call leaves at most the beginning of a character saved; a character it finds is made of the saved bytes and those it takes |
| Restart.CutsDoNotMatter | lib/mbrtowc.c:154-292 | from every reachable state, input cut anywhere gives the character, the number of bytes and the verdict of one call on the whole |
| Restart.StreamCutsDoNotMatter | lib/mbrtowc.c:154-292 | the same for all the characters of a stream, and for the state behind them |
| Restart.StreamInvertsEncoding | lib/mbrtowc.c:154-292 | a stream of encoded characters is decoded to these characters |
| MbState.UnpackInvertsPack | lib/mbrtowc.c:172-195 | count and bits that were stored for a beginning of a character are unpacked to its bytes |
| MbState.BufferSuffices | lib/mbrtowc-impl.h:59-68 | of the new bytes, the three that are copied decide as all of them would |
| MbState.PackedState.Mbrtowc | lib/mbrtowc.c:110-292 | with glibc's state: `Restart.Feed` on the saved bytes; a null pointer returns 0 or, with bytes saved, -1, and leaves the state; the state stays valid, EINVAL and `abort` are not reached |
| MbState.ByteState.Mbrtowc | lib/mbrtowc-impl.h:22-263 | the same with the byte buffer, including the `abort` for k != m |
| MbState.RunBoth | lib/mbrtoc32.c:166-258 | over every run of calls the two representations return the same values |
| Mbsrtowcs.OfferSuffices | lib/mbsrtowcs-impl.h:34-61 | the bytes offered of a NUL-terminated string always decide: the `abort` for -2 is not reached, from any reachable state |
| Mbsrtowcs.DoneIsDecoded | lib/mbsrtowcs-impl.h:26-69 | characters that are returned for a whole string encode to the saved bytes and the string |
| Mbsrtowcs.ConvertInvertsEncoding | lib/mbsrtowcs-impl.h:26-69 | a string of encoded characters is converted to them |
| Mbsrtowcs.ConvertCompletesEncoding | lib/mbsrtowcs-impl.h:26-69 | the same from every reachable state: saved bytes and string that together encode a text are converted to it, so that, with `DoneIsDecoded`, -1 is returned exactly if they encode none |
| Mbsrtowcs.Store | lib/mbsrtowcs-impl.h:26-69 | storing: what is stored, what is left to convert, `*srcp`, the state and the untouched part of the array, for each of the three ways out |
| Mbsrtowcs.Count | lib/mbsrtowcs-impl.h:70-113 | counting: the number of characters or -1; `*ps` is not modified |
| Mbsrtowcs.CountAndStore | lib/mbsrtowcs-impl.h:26-113 | counting returns k below len if and only if storing returns k with `*srcp` null; then k characters and a NUL are stored and the state is initial |
| FnmatchMain.NoMoreCharactersThanBytes | lib/fnmatch.c:281-300 | a string makes no more characters than it has bytes |
| FnmatchMain.Widen | lib/fnmatch.c:280-319 | short and long strings are converted to the same array of all their characters and a NUL; no `goto prepare_...`, and `mbsinit` holds where it is asserted |
| FnmatchMain.FnMatch | lib/fnmatch.c:265-379 | -1 exactly if an argument is not the UTF-8 encoding of a text; else, for the texts that the bytes encode, code point by code point, what the matcher answers on them, within the work bound |
| FnmatchMain.WideMatchMeaning | lib/fnmatch.c:371-373 | that answer in terms of the POSIX relation, without FNM_PERIOD and groups: the three statements of `Meaning.FctMeaning` on whole strings |
| Words.SubIsModular | lib/memchr.c:141 | the bytewise subtraction with borrow is subtraction modulo 256 to the word size |
| Words.ShlBytesMultiplies | lib/memchr.c:90-104 | the shift by whole bytes is multiplication by a power of 256 modulo 256 to the word size |
| Words.ShlSevenMultiplies | lib/memchr.c:142 | the shift by seven bits is multiplication by 128 modulo 256 to the word size |
| Words.ZeroTestFindsZero | lib/memchr.c:118-142 | `((w - ones) & ~w) & (ones << 7)` is non-zero if and only if some byte of w is zero, for every word size |
| Words.DoublingFills | lib/memchr.c:90-104 | each shift doubles the number of bytes that are filled |
| Words.XorFindsByte | lib/memchr.c:139 | a byte of `w ^ repeated_c` is zero exactly where w has c |
| Memchr.Repeat | lib/memchr.c:90-104 | every byte of `repeated_one` and `repeated_c` is filled, for every word size of four bytes or more |
| Memchr.SkipWords | lib/memchr.c:137-147 | the word loop passes no c, reads only aligned words inside the memory, and stops at the word that has c |
| Memchr.Memchr | lib/memchr.c:58-167 | the first of the n bytes that is c, or none, for every alignment, n, word size and byte order; n may go past the memory if c does not |
| RangeOverflow.AddRange | lib/intprops-internal.h:370-383 | for operands of any two integer types no evaluated subexpression overflows, and the answer is yes if and only if the sum is out of range or wraps around (see `WrapsAround`) |
| Wrapv.AddIsExactFor | lib/intprops-internal.h:370-383 | nothing wraps around, and the answer is exact, unless an unsigned operand is wider than a signed result |
| Wrapv.AddRejectsSumThatFits | lib/intprops-internal.h:370-376 | 200u + -300 into a signed char is reported as an overflow |
| RangeOverflow.SubtractRange | lib/intprops-internal.h:384-394 | exact for operands of any two integer types; no evaluated subexpression overflows |
| MultiplyOverflow.MultiplyRange | lib/intprops-internal.h:395-411 | exact for operands of any two integer types; no evaluated subexpression overflows, truncating divisions and the minimum by -1 included |
| Wrapv.ViaUnsignedIsExact | lib/intprops-internal.h:338-357 | computing in a wide enough unsigned type stores the exact result modulo 2^width |
| Wrapv.OpCalc | lib/intprops-internal.h:319-322 | for a sum, a difference and a product, and every result type: the stored value is in the type and the exact result modulo 2^width, equal to it unless an overflow is reported, and that is so exactly if it is out of range (or, for a sum, wraps around) |
| Wrapv.OpWrapvBlind | lib/intprops-internal.h:264-271 | the variant that does not know whether the result is signed stores and answers as for the actual type |
| MbtowcLock.StepKeepsGuard | lib/mbtowc-lock.c:66-91 | every step of every thread keeps the guard's count, the winner's role, and the lock's owner |
| MbtowcLock.StartedCounts | lib/mbtowc-lock.c:70-88 | `started` is -1, plus one if a thread won, plus the number of threads between increment and decrement; it stays below the number of threads |
| MbtowcLock.InitializedOnce | lib/mbtowc-lock.c:66-91 | initialisation runs at most once, and has been completed whenever a thread has the lock's address or is inside |
| MbtowcLock.MutualExclusion | lib/mbtowc-lock.h:49-59 | no two threads are between lock and unlock |
| MbtowcLock.ConversionsAreIndependent | lib/mbtowc-lock.h:21-30 | each conversion's result is that of the reset state on its own bytes, in every interleaving and across runs |
| MbtowcLock.CallersBytesAreConverted | lib/mbtowc-lock.h:21-59 | in every run, what a thread converts first after it was called is the bytes it was called with, from the reset state, and the call does not return before |
| MbtowcLock.SomeThreadAdvances | lib/mbtowc-lock.c:85-86 | while a call is under way, some thread has a step that brings its call closer to its end: nobody spins or waits for ever for lack of one |
| MbtowcLock.CallsCanReturn | lib/mbtowc-lock.h:49-59 | every run can be continued so that all calls return |

## Left out

- Meaning.FctMeaning: nothing is stated where POSIX leaves the meaning to the locale (`[=`, `[.`, unknown classes),
  where a class name is too long, and where the two paths through a bracket part, which
  `BracketMeaning.BracketIsExact` describes.
- Meaning.FctMeaningUnderPeriod: the two directions exclude different patterns; `Exactness` has the exact condition for
  a pattern, and `Commitment.FctIsCoded` the exact relation `Placement.Coded` for each string.
- Exactness.RightIfAndOnlyIfSound: under FNM_PERIOD, patterns that POSIX matches only with some star not empty are not
  covered, as another placement may match the string that would show the failure; nor are brackets that misread a
  period. Where the matcher opens a bracket inside one of the standard's and ends it behind that, so that the readings
  differ in shape but not in length, or the matcher's is shorter and has a star or FNM_LEADING_DIR is set, the locale
  decides (`Surprises.DividedElsewhere`).
- GroupEnd.EndIsExact: no exact condition on the text alone is given for texts in which a closing parenthesis stands
  directly before a group, or a bracket with more than ordinary characters in it. There `END` also steps over openings,
  and misses can cancel (`Surprises.MissesCancel`); `GroupEnd.EndStopsShort` has the family in which they do not.
- RangeOverflow.AddRange: the predicate is used only where the compiler has no overflow builtins; the builtins are not
  modelled.
- FnmatchMain.FnMatch: the matcher on bytes for single-byte locales, and the cached POSIXLY_CORRECT, are not modelled;
  the setting is a parameter.
- The `_LIBC` branches of the matcher (collation tables, parsed `[=` and `[.`) are not compiled here.
- Allocation failures, `free` and the choice between stack and heap: allocations succeed.
- Choice.ChoiceMeaning: alternatives that form new operators or brackets with the rest behind them are outside it, as
  are alternatives with groups in them, and a `*` before a parenthesis that nothing closes. What `EXT` computes for them
  is modelled.
- `tolower` and the character classes are parameters; the theorems about meaning ask that lower-casing changes no
  character with a meaning in patterns.
- `int` has 32 bits in `Integers.dfy`; other types have any width from there on, and results any width from 2 bits.
- Words have any number of bytes from four on; addresses are numbers.
- Encodings other than UTF-8 in `lib/mbrtowc-impl.h`, and the platform's own `mbtowc`, apart from its lock.
- The state layouts of NetBSD, Windows and Cygwin, and the workarounds for platform bugs in `lib/mbrtowc.c`.
- The value stored through a non-null pointer is modelled; a null pointer only for the empty-string call.
- After an ill-formed sequence the decoder keeps the bytes saved before the call, so where the input was cut shows in
  the state; POSIX leaves that state undefined, and the theorems about cuts stop there.
- The lock's pthread and C11 variants, which rely on the platform for the one-time initialisation, and
  `lib/setlocale-lock.c`, which repeats the guard.
- The memory model: steps of the lock are sequentially consistent, and `started` is not bounded by its C type, but by
  the number of threads.
- Locale and platform lookups (`lib/localcharset.c`, `lib/setlocale_null.c`) and the thin wrappers around the modelled
  code.
