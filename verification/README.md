# VBA Seismograph: a verified model of the stomping detector's engine

VBA stomping replaces the compressed VBA source of an Office document while leaving its
compiled p-code alone. The detector compares the two: it reads identifiers, string literals
and comments out of a p-code disassembly and looks for each of them in the decompressed VBA
source. A document whose source is missing too much of what the p-code proves was there is
reported as stomped.

This project models that engine in Dafny in both of its versions:

- the current version (`vba_seismograph3.py`) returns, for each category, the fraction of
  items it cannot find, and flags the document when one fraction is strictly above the
  threshold of the chosen sensitivity (low 0.5, medium 0.3, high 0.1);
- the older version (`vba_seismograph.py`) flags the document as soon as a single item of any
  category is missing.

Once the two texts exist, the engine does no I/O, so the model takes the disassembly and the
source as strings. It follows the source's imperative form. The line scanner, the filters, the
counting loops and the pattern builder are methods with loops, and the verdict methods run them. Each method is
proved equal to a specification function, and the properties the source promises are lemmas
about those functions.

Modules:

- `Outcomes` (`outcomes.dfy`): `Option`, `Result` and the four ways a run fails. These are a
  `LitStr` line without a quote, a `QuoteRem` line without a quote, an unknown sensitivity
  (which leaves `threshold` unbound), and, in the older version, identifiers but no
  instruction listing.
- `Text` (`text.dfy`): the Python string operations used, over `seq<char>`.
- `Scanner` (`scanner.dfy`): the line scanner of `_get_pcode_ids`. It is the same in both
  versions. It collects the identifier table and the instruction listing.
- `Extract` (`extract.dfy`): the `LitStr` and `QuoteRem` extraction rules.
- `Matching` (`matching.dfy`): the presence tests, including the meaning of the comment
  pattern, and the fractions.
- `Seismograph3` (`seismograph3.dfy`): the current identifier filter and comment rule, the
  rewriting of the source, the thresholds and the verdict.
- `Seismograph1` (`seismograph1.dfy`): the older filter, the flag-setting `_missing_*` loops
  and the verdict. It also proves that the older version is at least as strict as the
  current one at every sensitivity when the older version is given the source as the current
  version rewrites it. On the raw source this fails: a comment continued by its own
  underscore is flagged by the current version and found by the older one
  (`Seismograph1.V1NotAsStrictOnRawSource`).

Fractions are kept exact as `Ratio(missing, total)`. A threshold is written in tenths, so
"fraction > 0.3" becomes `missing * 10 > total * 3`. An empty category gives `0/0`, which
stands for the `0.0` that the source returns.

Two behaviours of the source are kept as written and pinned by lemmas:

- Line 235 of `vba_seismograph3.py` replaces every comment that ends in `_` by its last
  character. So a continued comment is stored, and looked for, as `"_"`
  (`Seismograph3.ContinuedCommentStoredAsUnderscore`, `Matching.UnderscoreCommentPresence`).
  Line 412 then removes the very underscore that continues the comment, so a continued
  comment is found only if the source holds some other underscore
  (`Seismograph1.ContinuedCommentFlagged`).
- The boundary test uses `re.findall`, whose matches never overlap. A standalone occurrence
  that overlaps an earlier, rejected match is never looked at
  (`Seismograph3.OverlapHidesStandalone`: in `aX-X-` the identifier `X` stands alone at
  index 2, but it is dropped).

## Model

| member | source | states |
|---|---|---|
| Text.IndexOf | vba_seismograph3.py:66 | `s.index(c)`: `None` exactly when `c` is absent (where Python raises); otherwise the first position of `c` |
| Text.Strip | vba_seismograph3.py:66 | `strip()`: neither end of the result is whitespace |
| Text.Trim | vba_seismograph3.py:127-130 | trimming never lengthens the text, and neither end of what it leaves is a pad character |
| Text.TrimFramed | vba_seismograph3.py:127-130 | what trimming leaves is a window of the text with only pad characters around it |
| Text.TrimOfFramed | vba_seismograph3.py:127-130 | trimming removes exactly the padding: a text framed by pad characters, whose own ends are not pad, is recovered |
| Text.TrimContained | vba_seismograph3.py:127-130 | what trimming leaves is a substring of the text |
| Text.ContainsTransitive | vba_seismograph3.py:158 | a substring of a substring is a substring |
| Text.ContainsOneChar | vba_seismograph3.py:260 | a one-character string is a substring exactly when its character occurs |
| Text.Split | vba_seismograph3.py:35 | `split(sep)` gives at least one part, and no part holds the separator |
| Text.SplitKeepsOut | vba_seismograph3.py:283 | a character not in the text is in none of the parts of its split |
| Text.JoinSplit | vba_seismograph3.py:35 | joining the parts with the separator gives the text back |
| Text.SplitJoin | vba_seismograph3.py:35 | splitting undoes joining when no part holds the separator |
| Text.ReplaceChar | vba_seismograph3.py:266 | `replace(c, with)`: removes every `c` when `with` has no `c`, leaves a text without `c` unchanged |
| Text.ReplaceCharOneForOne | vba_seismograph3.py:266 | a one-character replacement keeps the length and maps each character on its own: `c` to the replacement, any other to itself |
| Text.ReplaceCharAppend | vba_seismograph3.py:411 | replacing a character distributes over concatenation |
| Scanner.HeaderBefore | vba_seismograph3.py:50-54 | the first `Line #` header read among the first `n` lines: none exactly when no line read opens the listing, otherwise the earliest one |
| Scanner.InstructionsBefore | vba_seismograph3.py:50-59 | the instruction buffer after a prefix of the lines (definition, no contract): absent before the first `Line #` header, then every recorded line after it with a line feed |
| Scanner.IdsBefore | vba_seismograph3.py:62-68 | the identifiers collected from a prefix of the lines (definition, no contract): one per line that adds one |
| Scanner.ScanLines | vba_seismograph3.py:35-72 | the loop over the lines returns exactly the identifiers some line adds and the instruction buffer after the first header |
| Scanner.IdsBeforeMeaning | vba_seismograph3.py:62-68 | an identifier is collected exactly when some line adds it: a line read, in an identifier table, holding a colon, before any `Line #` header, whose text after the first colon, stripped, is that identifier |
| Scanner.InstructionsStep | vba_seismograph3.py:50-59 | the buffer is absent until the first `Line #` line, which starts it empty; afterwards every line read, other than an `Identifiers:` line, is appended with a line feed |
| Scanner.ScanStep | vba_seismograph3.py:38-72 | what one line does to the flags, the buffer and the identifiers, branch by branch as the loop tests it |
| Scanner.InIdSectionStep | vba_seismograph3.py:43-47 | how one line moves the scanner into or out of an identifier table |
| Scanner.LineAfterIdHeaderDropped | vba_seismograph3.py:38-47 | the line after an `Identifiers:` line that is read is dropped: it adds no identifier, is not buffered and does not start the buffer |
| Scanner.SectionEndsAtColonlessLine | vba_seismograph3.py:70-72 | a table ends at the first line read without a colon, and stays closed until another `Identifiers:` line |
| Scanner.NoIdsAfterHeader | vba_seismograph3.py:56-59 | once the first `Line #` header is read, no identifier is added |
| Extract.QuotedTail | vba_seismograph3.py:184 | `t[t.index('"') + 1 : -1]`: none exactly when there is no quote, where `index` raises |
| Extract.QuotedTailOfQuotedOperand | vba_seismograph3.py:184 | for a line `prefix"operand"` whose prefix has no quote, the slice is exactly the operand |
| Extract.EscapeQuotes | vba_seismograph3.py:185 | `replace('"', '""')`, the doubling of quotes in a stored literal (definition, no contract) |
| Extract.UnescapeEscapeQuotes | vba_seismograph3.py:185 | doubling the quotes loses nothing: VBA reads the escaped literal back as the original |
| Extract.UnderscoreCommentCollapses | vba_seismograph3.py:233-236 | every comment ending in `_` is stored as `"_"`, which differs from the comment itself unless the comment is `"_"` |
| Extract.ItemOf | vba_seismograph3.py:185 | the item a rule stores for a quoted tail (definition, no contract): a literal with its quotes doubled (line 185); an older comment as it is; a current comment ending in `_` replaced by its last character (lines 234-235) |
| Extract.ItemOfQuotedInstr | vba_seismograph3.py:182-185 | a disassembled `LitStr`/`QuoteRem` instruction yields the rule's item for exactly its quoted operand |
| Extract.ItemsBeforeMeaning | vba_seismograph3.py:179-185 | an item is extracted exactly when some instruction line of the rule yields it |
| Extract.LineStep | vba_seismograph3.py:182-185 | one more line keeps the extraction well formed unless it is an instruction of the rule without a quote, which fails the whole extraction; it adds the item of an instruction line and nothing otherwise |
| Extract.CollectSkip | vba_seismograph3.py:182-183 | a stripped line of another opcode changes nothing |
| Extract.CollectBad | vba_seismograph3.py:183-184 | an instruction line without a quote fails the whole extraction |
| Extract.CollectItem | vba_seismograph3.py:183-185 | an instruction line with a quote adds the item cut from its quoted tail |
| Extract.Collect | vba_seismograph3.py:178-188 | the extraction loop returns the failure of the first malformed line, or else exactly the items of all instruction lines |
| Extract.Extracted | vba_seismograph3.py:178-188 | an extractor over the lines (definition, no contract): the rule's failure when some instruction line lacks a quote, otherwise the items of all instruction lines |
| Extract.GetPcodeStrs | vba_seismograph3.py:168-188 | `_get_pcode_strs`: the `LitStr` extraction of the disassembly's lines |
| Matching.IdPresent | vba_seismograph3.py:158 | `curr_id in vba`, a substring test (definition, no contract) |
| Matching.StrPresent | vba_seismograph3.py:207 | a literal is present when the source holds it between double quotes or between apostrophes (definition, no contract) |
| Matching.WordText | vba_seismograph3.py:266-281 | the text an escaped word matches: every metacharacter but `{` and `}` is escaped once and stands for itself; `{` stays literal because no `{m,n}` can form; `}` is escaped twice (lines 272-273), so the source must hold `\}`; a word without `}` is matched as it is |
| Matching.Pattern | vba_seismograph3.py:282-289 | the pattern for a list of words (definition, no contract): each word's literal, with a separator run before every word but the first |
| Matching.MatchesFrom | vba_seismograph3.py:286-290 | the pieces match from a position (definition, no contract): a literal occurs there, a run is 1 to 50 characters of whitespace or `'` |
| Matching.Search | vba_seismograph3.py:290 | `re.search` finds a match at some position (definition, no contract) |
| Matching.CommentPresent | vba_seismograph3.py:259-290 | a comment is present when it is a substring (line 260), or else when its pattern matches somewhere (line 290) (definition, no contract) |
| Matching.Words | vba_seismograph3.py:266-288 | the words of a comment are non-empty and hold no space and no apostrophe |
| Matching.NonEmpty | vba_seismograph3.py:283-285 | dropping empty pieces keeps only non-empty pieces of the input |
| Matching.NonEmptyKeepsWords | vba_seismograph3.py:283-285 | every non-empty piece is kept: the `continue` skips only empty pieces |
| Matching.PatternShape | vba_seismograph3.py:282-289 | the pattern alternates the words' literals with separator runs: `2n-1` pieces, literal `j` at `2j`, a run at every `2j+1` |
| Matching.MatchHoldsLiterals | vba_seismograph3.py:290 | where the pattern matches, each of its literals occurs in the source |
| Matching.WordsOfFoundComment | vba_seismograph3.py:290 | a comment found by its pattern has every word, escaped, in the source |
| Matching.OneWordComment | vba_seismograph3.py:260-290 | a one-word comment is present exactly when it, or its escaped word, is a substring |
| Matching.OnlySeparatorsAlwaysPresent | vba_seismograph3.py:282-290 | a comment made only of spaces and apostrophes has no words and is always present |
| Matching.WordsOfSpacedWords | vba_seismograph3.py:266-285 | words joined by single spaces are split back into the same words |
| Matching.PatternOfThreeWords | vba_seismograph3.py:282-289 | three words give literal, run, literal, run, literal |
| Matching.PatternOfTwoWords | vba_seismograph3.py:282-289 | two words give literal, run, literal |
| Matching.RewrappedCommentFound | vba_seismograph3.py:259-290 | a comment wrapped onto a second line, `Check the` / `' doc`, is not a substring of the source but is still found |
| Matching.RewrappedMatch | vba_seismograph3.py:287 | the words of that comment match with a 1-character and a 7-character run of whitespace and apostrophes |
| Matching.RewrappedNotSubstring | vba_seismograph3.py:260 | the wrapped comment fails the substring test |
| Matching.UnderscoreCommentPresence | vba_seismograph3.py:260 | the stored comment `"_"` is present exactly when the source holds an underscore |
| Matching.FoundWordChar | vba_seismograph3.py:290 | every character of a word's escaped literal occurs in a source where the comment is found by its pattern |
| Matching.BracePattern | vba_seismograph3.py:266-289 | the comment `a b}` gives the literal `a`, a run, and the literal `b\}` |
| Matching.BraceNeedsBackslash | vba_seismograph3.py:272-290 | the `}` is escaped twice, to `\}`, and the wrapped comment `a b}` is found where the source writes `b\}` |
| Matching.BracePatternNeedsBackslash | vba_seismograph3.py:272-290 | in a source without a backslash the pattern of `a b}` never matches |
| Matching.BraceWithoutBackslashMissed | vba_seismograph3.py:259-290 | where the source writes the `}` bare, the wrapped comment `a b}` is reported missing |
| Matching.BuildPattern | vba_seismograph3.py:265-289 | the pattern-building loop yields exactly the pattern of the comment's words |
| Matching.AppendWords | vba_seismograph3.py:282-289 | the loop over the split pieces skips the empty ones and puts a run between consecutive words |
| Matching.Present | vba_seismograph3.py:158-290 | the presence test of a category (definition, no contract): substring for identifiers (line 158), quoted forms for literals (line 207), substring then pattern for comments (lines 260-290) |
| Matching.Absent | vba_seismograph3.py:157-161 | the missing items are among the items |
| Matching.EmptyIdPresent | vba_seismograph3.py:157-158 | the empty identifier is a substring of every source, so it is never counted as missing |
| Matching.MissingRatio | vba_seismograph3.py:156-164 | the fraction `_missing_*` returns, kept as the exact pair of missing count and item count (definition, no contract); the same counting is at lines 205-213 and 256-296 |
| Matching.Exceeds | vba_seismograph3.py:433 | `pct > threshold` compared exactly: missing times 10 above total times the threshold in tenths (definition, no contract); the same test is at lines 442 and 451 |
| Matching.MissingRatioBounds | vba_seismograph3.py:156-164 | the fraction lies in [0, 1]; it is 0 exactly when every item is present and, for a non-empty set, 1 exactly when none is; an empty set gives 0 and never exceeds a threshold |
| Matching.AllAbsentExceeds | vba_seismograph3.py:162-164 | a non-empty category with nothing found exceeds every threshold below 1 |
| Matching.ExceedsHasMissing | vba_seismograph3.py:433 | a fraction above a threshold has at least one missing item |
| Matching.ExceedsMonotone | vba_seismograph3.py:419-424 | a fraction above a higher threshold is above a lower one |
| Matching.TestPresence | vba_seismograph3.py:258-290 | one presence test as run: substring for identifiers, quoted forms for literals, substring then pattern for comments |
| Matching.CountMissing | vba_seismograph3.py:155-164 | the counting loop of `_missing_*` returns exactly the count of missing items over the count of items |
| Seismograph3.Starts | vba_seismograph3.py:114-115 | the `findall` scan: each start is a match of `.id.` (a line feed matches neither dot), and consecutive matches do not overlap |
| Seismograph3.FirstMatchFound | vba_seismograph3.py:115 | if `.id.` matches anywhere from a position on, the scan finds a first match no later than it |
| Seismograph3.HasStandaloneMatch | vba_seismograph3.py:113-122 | the loop over the matches keeps the identifier exactly when some match found has non-alphanumeric ends |
| Seismograph3.StandaloneOccurrence | vba_seismograph3.py:113-122 | a kept identifier occurs in the listing, standing on its own somewhere |
| Seismograph3.OverlapHidesStandalone | vba_seismograph3.py:115-120 | a standalone occurrence that overlaps an earlier, rejected match is not seen |
| Seismograph3.StripUnderscores | vba_seismograph3.py:127-130 | the two loops remove exactly the leading and trailing underscores |
| Seismograph3.DropLeadingUnderscores | vba_seismograph3.py:127-128 | the first loop removes exactly the leading underscores |
| Seismograph3.DropTrailingUnderscores | vba_seismograph3.py:129-130 | the second loop removes exactly the trailing underscores |
| Seismograph3.Kept | vba_seismograph3.py:104-122 | a raw identifier survives the filter (definition, no contract): in the listing when there is one, not denylisted, not `_B_var_`, and found standing alone when there is a listing |
| Seismograph3.FilteredIds | vba_seismograph3.py:104-133 | the kept raw identifiers with their underscore affixes removed (definition, no contract) |
| Seismograph3.FilterIds | vba_seismograph3.py:104-136 | the filter loop returns, with underscores removed, exactly the raw identifiers in the listing (when there is one), not denylisted, not `_B_var_` and found standing alone |
| Seismograph3.PcodeIds | vba_seismograph3.py:17-139 | `_get_pcode_ids`: the filtered identifiers of the scan of the disassembly's lines (definition, no contract) |
| Seismograph3.GetPcodeIds | vba_seismograph3.py:17-139 | `_get_pcode_ids`: the scan, then the filter |
| Seismograph3.IdsHaveNoUnderscoreAffixes | vba_seismograph3.py:104-133 | every identifier returned comes from a kept raw identifier and neither starts nor ends with `_` |
| Seismograph3.KeptStandsAlone | vba_seismograph3.py:113-122 | with a listing, every kept identifier stands on its own somewhere in it |
| Seismograph3.DenylistBeforeStripping | vba_seismograph3.py:108 | the denylist is checked before stripping: without a listing, the raw `__Word` comes out as the denylisted `Word` |
| Seismograph3.FilteredSingle | vba_seismograph3.py:104-133 | one kept raw identifier comes out with its affixes removed |
| Seismograph3.RawWordTrimmed | vba_seismograph3.py:127-128 | `__Word` loses its leading underscores |
| Seismograph3.RawWordKept | vba_seismograph3.py:108 | `__Word` passes the denylist and prefix tests |
| Seismograph3.GetPcodeComments | vba_seismograph3.py:217-239 | `_get_pcode_comments`: the `QuoteRem` extraction with the trailing-underscore rule |
| Seismograph3.ContinuedCommentStoredAsUnderscore | vba_seismograph3.py:232-236 | a `QuoteRem` instruction whose comment ends in `_` contributes `"_"` |
| Seismograph3.JoinContinuations | vba_seismograph3.py:412 | `replace("_\n", "\n")` never lengthens the text |
| Seismograph3.JoinContinuationsAppend | vba_seismograph3.py:412 | the rewrite distributes over a concatenation that does not cut a `_\n` |
| Seismograph3.JoinContinuationsNoop | vba_seismograph3.py:412 | a text without `_\n` is unchanged |
| Seismograph3.SinglePass | vba_seismograph3.py:412 | the rewrite is one pass: `__\n` becomes `_\n`, not `\n` |
| Seismograph3.Normalize | vba_seismograph3.py:411-412 | the rewritten source holds no carriage return |
| Seismograph3.NormalizeNoop | vba_seismograph3.py:411-412 | a source without carriage returns or `_\n` is unchanged |
| Seismograph3.CarriageReturnsRemoved | vba_seismograph3.py:411 | removing carriage returns turns `_\r\n` into `_\n` |
| Seismograph3.JoinAroundContinuation | vba_seismograph3.py:412 | a continuation `_\n` becomes `\n`, and each side is rewritten on its own, whatever the left side ends with |
| Seismograph3.ContinuationJoined | vba_seismograph3.py:411-412 | a continued line `a _\r\n b` is rewritten to `a \n b` |
| Seismograph3.Threshold | vba_seismograph3.py:419-424 | the threshold in tenths for low, medium and high; any other sensitivity leaves it unset; a threshold is strictly between 0 and 1 |
| Seismograph3.ThresholdsDecrease | vba_seismograph3.py:419-424 | high is below medium, which is below low, and only these three names bind a threshold |
| Seismograph3.MissingFractions | vba_seismograph3.py:431-450 | the three missing fractions, the literals extracted before the comments; only the two extractors can fail, the identifiers never do |
| Seismograph3.Flagged | vba_seismograph3.py:431-452 | some category's fraction exceeds the threshold, which is what sets `stomped` (definition, no contract) |
| Seismograph3.Decide | vba_seismograph3.py:411-452 | the verdict from the rewritten source on: an unset threshold fails, then an extractor, otherwise whether some fraction exceeds the threshold; it never fails for want of a listing |
| Seismograph3.DetectStomping | vba_seismograph3.py:411-452 | the verdict code returns the failure of the first failing step, or whether some category fraction is above the threshold |
| Seismograph3.DecideFailures | vba_seismograph3.py:419-446 | an unknown sensitivity fails whatever the disassembly; a malformed `LitStr` line fails before the comments are looked at; otherwise a verdict is reached |
| Seismograph3.SensitivityMonotone | vba_seismograph3.py:419-452 | stomped at low implies stomped at medium, which implies stomped at high; whether a run fails does not depend on the sensitivity |
| Seismograph3.FlaggedMonotone | vba_seismograph3.py:433-452 | raising the threshold can only clear a document |
| Seismograph3.EmptyDisassemblyNotStomped | vba_seismograph3.py:426-452 | an empty disassembly is never flagged |
| Seismograph3.StompedMissesSomething | vba_seismograph3.py:431-452 | a flagged document misses at least one identifier, literal or comment |
| Seismograph3.NothingFoundStomps | vba_seismograph3.py:431-434 | a non-empty set of identifiers none of which is in the source flags the document at every sensitivity |
| Seismograph1.DenylistGrew | vba_seismograph.py:73-88 | the older denylist is a strict subset of the current one, short of five names |
| Seismograph1.Kept1 | vba_seismograph.py:92-97 | a raw identifier survives the older filter: it occurs in the listing and is not denylisted (definition, no contract) |
| Seismograph1.KeptIds1 | vba_seismograph.py:92-97 | the raw identifiers the older filter keeps against a listing (definition, no contract) |
| Seismograph1.FilteredIds1 | vba_seismograph.py:92-97 | the older filter fails exactly when there is no listing and some identifier; otherwise it keeps a subset of the raw identifiers |
| Seismograph1.FilterIds1 | vba_seismograph.py:92-97 | the filter loop fails on its first identifier without a listing, and otherwise keeps exactly the identifiers in the listing and not denylisted |
| Seismograph1.PcodeIds1 | vba_seismograph.py:17-100 | `_get_pcode_ids` of the older version: the older filter over the scan of the lines (definition, no contract) |
| Seismograph1.GetPcodeIds1 | vba_seismograph.py:17-100 | `_get_pcode_ids` of the older version: the same scan, then the older filter |
| Seismograph1.PcodeIds1Meaning | vba_seismograph.py:32-97 | it fails exactly when the identifier table is non-empty and no `Line #` header exists; otherwise it returns exactly the identifiers some line adds that occur in the listing and are not denylisted |
| Seismograph1.KeptByBoth | vba_seismograph.py:92-97 | every raw identifier the current filter keeps against a listing, the older filter keeps too |
| Seismograph1.GetPcodeComments1 | vba_seismograph.py:175-195 | `_get_pcode_comments` of the older version: the `QuoteRem` slice, kept as it is |
| Seismograph1.CommentExtractorsFailAlike | vba_seismograph.py:186-192 | the older and the current comment extractors fail on the same disassemblies |
| Seismograph1.CommentRulesSameLines | vba_seismograph.py:189-191 | the older and the current comment rules take the same lines for comment instructions, and find the same ones malformed |
| Seismograph1.CommentMissedByBoth | vba_seismograph.py:213-219 | a comment line the current version misses, the older version misses too |
| Seismograph1.ItemMissedByBoth | vba_seismograph.py:191-192 | the same for the quoted text of a line |
| Seismograph1.SomeAbsent | vba_seismograph.py:118-124 | the boolean the older `_missing_*` return: some item is not found (definition, no contract) |
| Seismograph1.SomeAbsentIffNonzero | vba_seismograph.py:118-124 | an item is missing exactly when the current fraction for the same items is not zero; an empty set misses nothing |
| Seismograph1.AnyMissing | vba_seismograph.py:118-124 | the flag loop of `_missing_ids`, `_missing_strs` and `_missing_comments` is set exactly when some item is not found |
| Seismograph1.PcodeItems1 | vba_seismograph.py:335-355 | the older items: identifiers, then literals, then comments, each step's failure ending the run; there is no threshold to fail |
| Seismograph1.Stomped1 | vba_seismograph.py:340-358 | one missing item of any category flags the document; comments by plain substring (definition, no contract) |
| Seismograph1.Decide1 | vba_seismograph.py:335-358 | the older verdict: the first failing step, or whether some item is missing (definition, no contract) |
| Seismograph1.DetectStomping1 | vba_seismograph.py:335-358 | the older verdict code returns the failure of the first failing step, or whether some item of some category is missing |
| Seismograph1.Decide1Failures | vba_seismograph.py:336-353 | the identifiers fail first, then the literals, then the comments; otherwise a verdict is reached |
| Seismograph1.NoTolerance | vba_seismograph.py:340-358 | the older verdict is the current flagging rule with a threshold of zero |
| Seismograph1.IdsMissedByBoth | vba_seismograph.py:92-124 | an identifier the current version misses on the same source is missed by the older version too |
| Seismograph1.FilteredMissedByBoth | vba_seismograph.py:92-124 | on the raw identifiers and listing of one scan: an identifier the current filter keeps and the source misses comes from a raw identifier the older filter keeps and the source misses too |
| Seismograph1.RawMissed | vba_seismograph.py:118-124 | a raw identifier whose trimmed form is not in the source is not there either |
| Seismograph1.CommentsMissedByBoth | vba_seismograph.py:175-219 | a comment the current version misses is missed by the older version too |
| Seismograph1.AtLeastAsStrict | vba_seismograph.py:335-358 | at least as strict as the current version at every sensitivity, high included: whatever the current version flags, the older one flags on the same rewritten source, unless it fails for want of a listing |
| Seismograph1.OneLineScan | vba_seismograph.py:32-69 | a one-line disassembly that is neither an `Identifiers:` line nor a `Line #` header gives no identifiers and no listing |
| Seismograph1.OneLineItems | vba_seismograph.py:139-145 | the items of a one-line disassembly: the line's item if it is an instruction of the rule, nothing otherwise |
| Seismograph1.OneLineWellFormed | vba_seismograph.py:139-145 | a one-line disassembly is well formed unless its line is malformed |
| Seismograph1.OneLineExtract | vba_seismograph.py:139-145 | an extractor over one line that is not malformed returns that line's item, or nothing |
| Seismograph1.OneCommentLine | vba_seismograph.py:186-192 | one well-formed `QuoteRem` line gives no identifiers, no literals, the comment itself for the older rule and its stored form for the current rule, in both versions without failing |
| Seismograph1.RewrittenContinuation | vba_seismograph3.py:411-412 | a text without carriage returns or underscores, followed by `_` and a line feed, is rewritten to the text and a line feed |
| Seismograph1.UnderscoreCommentMissed | vba_seismograph3.py:257-296 | the stored comment `"_"` is missed, 1 out of 1, by a source without an underscore |
| Seismograph1.ContinuedCommentFractions | vba_seismograph3.py:426-450 | for one continued comment line against a source without an underscore, the current fractions are 0/0 identifiers, 0/0 literals and 1/1 comments |
| Seismograph1.ContinuedCommentFlagged | vba_seismograph3.py:233-236 | a comment ending in `_`, in a source whose only underscore continues it, is flagged by the current version at every sensitivity |
| Seismograph1.ContinuedCommentFound1 | vba_seismograph.py:335-358 | the older version, given a source that holds such a comment as a substring, does not flag it |
| Seismograph1.V1NotAsStrictOnRawSource | vba_seismograph.py:335-358 | on the raw source `' abc_` with the disassembly `QuoteRem 0x0000 0x0004 "abc_"`, the current version flags at high and at low and the older one does not |

## Left out

- Running the external tools (`file`, `pcodedmp.py`, `olevba`, `sigtool`), the `PCODEDMP_DIR`
  lookup and the byte-to-text decoding. The disassembly and the source are parameters.
- Extracting `vbaProject.bin` from Office 2007+ archives and removing it afterwards: this is
  filesystem I/O.
- The command-line front ends, their prerequisite checks and exit codes, and every `verbose`
  print.
- Floating-point fractions: they are compared exactly as integer pairs. Python's rounding could
  only matter for categories with more items than any real document holds.
- Regular-expression engines. The comment pattern is modelled by its meaning: the escaped words
  in order, with 1 to 50 characters of whitespace or `'` between each two. The boundary test
  is modelled as a left-to-right, non-overlapping scan for `.id.`.
- Seismograph3.Starts: identifiers are taken as literal text. The source puts them into the
  pattern unescaped, so an identifier holding a regular-expression metacharacter would match
  differently or make `findall` raise (an unbalanced `(` or `[`, for instance).
- Unicode: `isspace`, `isalnum` and `\s` are modelled on ASCII. The older version runs under
  Python 2, whose byte `strip()` removes only tab, line feed, vertical tab, form feed,
  carriage return and space. The model uses the current version's set, which adds the four
  information separators 28 to 31, for both versions.
- Python's iteration order over a set: the loops take elements in any order. None of their
  results depends on the order.
