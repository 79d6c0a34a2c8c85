# Incident text pre-processing, modelled in Dafny

This project models the deterministic part of an incident-report extractor.
The extractor takes a free-text Portuguese report, cleans it, and resolves
the temporal expressions in it. It then hands the cleaned text and a block
of "hints" to a language model, which fills an `Incident` record: the date
and time of the event, the place, the kind of incident, and its impact.

The modelled core is:

- the fuzzy matcher: `_levenshtein_distance`, `_max_distance` and
  `_fuzzy_match`. Levenshtein is an imperative dynamic-programming method
  proved equal to the recursive edit distance (module `Levenshtein`). The
  fuzzy lookup uses an ordered vocabulary (module `Fuzzy`).
- the stages of `TextPreprocessor`:
  - control-character removal and whitespace fixing (`Cleanup`, with what they keep in `CleanupContent`);
  - relative-date resolution with Gregorian day arithmetic (`RelativeDates`, `Calendar`);
  - clock-time normalisation (`TimeExpressions`);
  - written-date normalisation (`WrittenDatePattern`, `WrittenDates`);
  - punctuation replacement (`Cleanup`, `CleanupContent`);
  - the `preprocess` composition that gathers the hints (`Preprocessor`).
- the extractor's pure helpers and `extract` (`Extractor`):
  - `_build_hints_block`;
  - `_fix_invalid_time`;
  - `extract` around a language model, which is a parameter here;
  - the `Incident` record, as four optional strings.

Python's `re` patterns are written as scanners over the whole string. They
follow `re`'s own search order: start positions left to right, and greedy
quantifiers tried longest first with backtracking. Each lookbehind reads
the string being scanned. Within the model:

- `\w` is `[A-Za-z0-9_]` and `\d` is `[0-9]`;
- `\s`, `str.split` and `str.strip` use Python's `str.isspace` set;
- Python dictionaries are ordered sequences of pairs, in insertion order;
- each stage returns its text together with an optional hint (`Rewritten`, `Resolved`).

`Text` and `Wrappers` hold the string helpers and `Option`.

## Model

| member | source | states |
|---|---|---|
| Levenshtein.LevenshteinDistance | core/text_preprocessor.py:7-31 | the two-row dynamic program returns exactly the recursive unit-cost insert/delete/substitute edit distance |
| Levenshtein.NextRow | core/text_preprocessor.py:22-29 | from a row holding the distances of `a[..i]` to every prefix of `b`, one pass of the inner loop produces the row for `a[..i+1]` |
| Levenshtein.NextCell | core/text_preprocessor.py:25-28 | the cell recurrence the loop uses (copy the diagonal on equal characters, else one plus the minimum of the three neighbours) is the edit distance of the two prefixes |
| Levenshtein.ZeroIffEqual | core/text_preprocessor.py:7-31 | the distance is zero exactly when the two strings are equal |
| Levenshtein.DistanceToSelf | core/text_preprocessor.py:7-31 | every string is at distance 0 from itself |
| Levenshtein.DistanceBounds | core/text_preprocessor.py:7-31 | the distance lies between the length difference and the longer length, so the distance between the empty string and `b` is `len(b)` |
| Levenshtein.InsertOne | core/text_preprocessor.py:7-31 | inserting one character anywhere costs exactly one edit |
| Levenshtein.MatchingLast | core/text_preprocessor.py:25-26 | equal last characters can be dropped from both strings at no cost |
| Fuzzy.MaxDistance | core/text_preprocessor.py:34-51 | the tolerance is 1 for words of at most 4 characters, 2 for 5 to 7 characters, and 3 above 7 |
| Fuzzy.MaxDistanceMonotone | core/text_preprocessor.py:34-51 | a longer word never gets a smaller tolerance |
| Fuzzy.FuzzyMatch | core/text_preprocessor.py:54-91 | a token that is a key comes back as itself; any other answer is a key of the vocabulary |
| Fuzzy.FuzzyMatchSpec | core/text_preprocessor.py:74-91 | for a token that is not a key: the answer passes the length and first-letter filters and is within the tolerance of the shorter word; the answer is None exactly when no key qualifies; the answer has minimal distance among qualifying keys; and every qualifying key before it is strictly farther, so ties go to the first key |
| Fuzzy.BestAmongSpec | core/text_preprocessor.py:77-89 | after the first `n` keys the running best is a qualifying key at the edit distance, no farther than any qualifying key seen, strictly closer than every qualifying key before it, and absent only when none qualified |
| Fuzzy.FilteredKeyNeverMatches | core/text_preprocessor.py:78-82 | a key rejected by the length or first-letter filter is never returned for a non-key token |
| Fuzzy.FindClosestKey | core/text_preprocessor.py:54-91 | the imperative lookup returns the same answer as the functional matcher |
| Fuzzy.ScanKeys | core/text_preprocessor.py:74-89 | the loop with its strict-improvement update ends with the best candidate over all keys |
| Calendar.AddDays | core/text_preprocessor.py:257-258 | adding `n` days moves the ordinal day number by exactly `n`; there is no result exactly when it would leave years 1..9999 |
| Calendar.NextDay | core/text_preprocessor.py:257-258 | the next day has ordinal one more, and only 9999-12-31 has none |
| Calendar.PreviousDay | core/text_preprocessor.py:257-258 | the previous day has ordinal one less, and only 0001-01-01 has none |
| Calendar.OrdinalRange | core/text_preprocessor.py:257-258 | valid dates number from 1 (0001-01-01) to the ordinal of 9999-12-31, with those two dates at the ends |
| Calendar.FormatDate | core/text_preprocessor.py:259 | `%Y-%m-%d` is ten characters with dashes at 4 and 7, and its three digit fields read back as the year, month and day |
| Calendar.DateText | core/text_preprocessor.py:323 | `f"{year}-{month}-{day}"` from 4, 2 and 2 digits is ten characters whose fields are exactly the three parts |
| Calendar.FixtureTomorrow | tests/conftest.py:13-14 | the day after 2026-02-23 is 2026-02-24 |
| Cleanup.RemoveControlChars | core/text_preprocessor.py:209-212 | the result contains no control character; a character is in the result exactly when it is in the input and is not a control character; control-free text is unchanged |
| Cleanup.RemoveControlCharsAppend | core/text_preprocessor.py:209-212 | removing control characters from a concatenation is removing them from each part: the substitution decides character by character |
| Cleanup.CollapseNewlines | core/text_preprocessor.py:220 | the result never has three line feeds in a row; it starts with the input's leading line feeds capped at two; it adds no new characters |
| Cleanup.CollapseNewlinesIdentity | core/text_preprocessor.py:220 | text without three line feeds in a row is unchanged |
| Cleanup.CollapseBlanks | core/text_preprocessor.py:221 | the result has no tab and no two adjacent spaces; its first character is the input's, with a blank turned into a space; it adds only spaces |
| Cleanup.CollapseBlanksIdentity | core/text_preprocessor.py:221 | text with no tab and no double space is unchanged |
| Cleanup.CollapseBlanksKeepsNewlines | core/text_preprocessor.py:220-221 | collapsing blanks keeps the leading line feeds and never creates three line feeds in a row |
| Cleanup.DropSpaceBeforePunct | core/text_preprocessor.py:222 | the first character of the result is the punctuation mark when the input starts with a space before one, else the input's first character; nothing new is added |
| Cleanup.DropSpaceBeforePunctSpacing | core/text_preprocessor.py:222 | on text without double spaces, the result has no space before `. , ; : ! ?` and still no double space |
| Cleanup.DropSpaceBeforePunctKeeps | core/text_preprocessor.py:220-222 | dropping those spaces keeps the leading line feeds, adds no tab and creates no triple line feed |
| Cleanup.DropSpaceBeforePunctIdentity | core/text_preprocessor.py:222 | text with no space before punctuation is unchanged |
| Cleanup.FixWhitespace | core/text_preprocessor.py:214-223 | the result has no tab, no double space, no triple line feed and no space before punctuation; text that already has these properties is unchanged; only spaces are added; control-free text stays control-free |
| CleanupContent.FixWhitespaceVisible | core/text_preprocessor.py:214-223 | with spaces, tabs and line feeds removed, the output equals the input: every other character is kept, in order |
| CleanupContent.CollapseNewlinesVisible | core/text_preprocessor.py:220 | collapsing line feeds keeps every character other than space, tab and line feed, in order |
| CleanupContent.CollapseBlanksVisible | core/text_preprocessor.py:221 | collapsing spaces and tabs keeps every character other than space, tab and line feed, in order |
| CleanupContent.DropSpaceBeforePunctVisible | core/text_preprocessor.py:222 | dropping spaces before punctuation keeps every character other than space, tab and line feed, in order |
| CleanupContent.CollapseNewlinesWords | core/text_preprocessor.py:220 | collapsing line feeds keeps the words of `str.split()`, and whether the text starts with a word |
| CleanupContent.CollapseBlanksWords | core/text_preprocessor.py:221 | collapsing spaces and tabs keeps the words of `str.split()`: a run of blanks between two words becomes one space, never nothing |
| CleanupContent.DropSpaceBeforePunctMarked | core/text_preprocessor.py:222 | the substitution, which consumes each mark together with its space, drops exactly the spaces directly followed by `. , ; : ! ?`, decided character by character |
| CleanupContent.FixWhitespaceWords | core/text_preprocessor.py:214-223 | the result is a text with the same `str.split()` words as the input from which exactly the spaces before punctuation marks are dropped |
| CleanupContent.FixWhitespaceSample | core/text_preprocessor.py:221 | `"a  b"` becomes `"a b"` |
| Cleanup.FixedInputUnchanged | core/text_preprocessor.py:220-222 | the three substitutions leave well-spaced text exactly as it was |
| Cleanup.FixWhitespaceIdempotent | core/text_preprocessor.py:214-223 | fixing whitespace twice equals fixing it once |
| Cleanup.CleanupGuarantees | core/text_preprocessor.py:173-174 | control removal followed by whitespace fixing yields text with no control character and fixed spacing; line feeds and carriage returns survive the removal |
| Cleanup.StraightenQuotes | core/text_preprocessor.py:228-229 | the length is kept; each of U+201C, U+201D, U+201E becomes `"` and each of U+2018, U+2019, U+201A becomes `'` in place; no typographic quote remains; every other character is kept in place |
| Cleanup.ReplaceDashes | core/text_preprocessor.py:230 | the result contains only the input's non-dash characters, spaces and hyphens |
| Cleanup.ReplaceDashesIdentity | core/text_preprocessor.py:230 | text without en or em dashes is unchanged |
| CleanupContent.ReplaceDashesSqueeze | core/text_preprocessor.py:230 | with whitespace removed, the output equals the input with each en or em dash written as `-` |
| Cleanup.ReplaceDashesCopies | core/text_preprocessor.py:230 | up to the whitespace before the first dash, the substitution copies the text unchanged |
| Cleanup.ReplaceDashesSpaced | core/text_preprocessor.py:230 | the substitution equals the reference `SpacedDashes`: the text before the first dash loses its trailing whitespace, the dash becomes ` - `, the text after it loses its leading whitespace, and so on for each later dash |
| Cleanup.SpacedDashesSample | core/text_preprocessor.py:230 | `"a – b"` becomes `"a - b"` |
| Cleanup.NormalizePunctuation | core/text_preprocessor.py:225-231 | no typographic quote or dash remains; text without them is unchanged; control-free text stays control-free; the result is the straightened text with each dash and all whitespace on both sides of it written as ` - ` |
| CleanupContent.NormalizePunctuationSqueeze | core/text_preprocessor.py:225-231 | with whitespace removed, the output equals the input with its typographic quotes straightened and each dash written as `-`: no other character is added, dropped or moved |
| Text.Split | core/text_preprocessor.py:246 | every piece `str.split()` yields is a non-empty run without whitespace |
| Text.SplitSqueeze | core/text_preprocessor.py:246 | the pieces of `str.split()`, concatenated, are the input with all whitespace removed |
| Text.SplitJoin | core/text_preprocessor.py:246-264 | splitting tokens joined by single spaces gives back exactly those tokens |
| Text.SingleSpacedSplitJoin | core/text_preprocessor.py:246-264 | on single-spaced text, `" ".join(s.split())` gives the text back |
| Text.JoinTokensSingleSpaced | core/text_preprocessor.py:264 | tokens joined with `" "` contain no whitespace but single spaces between words, and none at either end |
| Text.Strip | core/text_preprocessor.py:194 | the result is a slice of the input with only whitespace before and after it, and it neither starts nor ends with whitespace; text already trimmed is unchanged; the result is empty exactly when the input is all whitespace |
| Text.Replace | core/text_preprocessor.py:260 | `str.replace` leaves text without the pattern unchanged and brings in no character from outside the text and the replacement |
| Text.ReplaceFirst | core/text_preprocessor.py:260 | at the first occurrence of the pattern, the text before it is kept, the occurrence becomes the replacement, and replacing resumes after it |
| Text.ReplaceWhole | core/text_preprocessor.py:260 | a token that equals the pattern is replaced as a whole: the result is the replacement |
| Text.ZeroFill2 | core/text_preprocessor.py:315 | `zfill(2)` yields two characters ending with the input, zero-padded, with the same numeric value |
| RelativeDates.CleanTokenChars | core/text_preprocessor.py:251 | the cleaned token holds exactly the word characters and hyphens of the token, wherever they were |
| RelativeDates.CleanTokenAppend | core/text_preprocessor.py:251 | cleaning works character by character, so it distributes over concatenation |
| RelativeDates.CleanTokenKeeps | core/text_preprocessor.py:251 | a token of word characters and hyphens is its own cleaned form |
| RelativeDates.MatchedWord | core/text_preprocessor.py:251-255 | a matched word is a key of `RELATIVE_DATE_MAP`, and only a non-empty cleaned token matches |
| RelativeDates.ShiftedDate | core/text_preprocessor.py:257-259 | the shifted reference date is rendered exactly when the day arithmetic stays in range (and at or after the year 1000), as a ten-character token |
| RelativeDates.TokenStep | core/text_preprocessor.py:250-260 | one pass of the loop passes over a token exactly when its cleaned form matches no word; a rewrite carries a ten-character date and keeps tokens tokens |
| RelativeDates.ResolveWith | core/text_preprocessor.py:249-262 | the loop returns as many tokens as it was given |
| RelativeDates.ResolveWithFirstStop | core/text_preprocessor.py:249-262 | when the pass first stops at token `i`, only that token is changed and its date is the hint, or the stage overflows |
| RelativeDates.ResolveWithNoStop | core/text_preprocessor.py:249-262 | when no token stops the pass, the tokens come back unchanged with no hint |
| RelativeDates.ResolveWithNoHint | core/text_preprocessor.py:249-262 | a result without a hint has every token unchanged |
| RelativeDates.ResolveWithHint | core/text_preprocessor.py:249-262 | a hint is the date of the pass at some token, whose rewritten form is in the result at the same position |
| RelativeDates.ResolveWithTokens | core/text_preprocessor.py:249-262 | a pass whose rewrites keep tokens tokens keeps every output token a token |
| RelativeDates.ResolveTokensFirstMatch | core/text_preprocessor.py:249-262 | only the first token whose cleaned form fuzzy-matches a relative-date word is rewritten, by `str.replace` of the cleaned form with the reference date plus that word's offset; that date is the hint; or the stage overflows |
| RelativeDates.ResolveTokensNoMatch | core/text_preprocessor.py:249-262 | when no token matches, the tokens and the absent hint come back unchanged |
| RelativeDates.ResolveTokensFacts | core/text_preprocessor.py:249-262 | the tokens keep their number and stay tokens; without a hint nothing changes; a hint is ten characters long |
| RelativeDates.ResolveRelativeDates | core/text_preprocessor.py:233-264 | the output is single-spaced; without a hint it is the input's words rejoined by single spaces; a hint is ten characters long |
| RelativeDates.TomorrowDate | core/text_preprocessor.py:108-114 | with reference 2026-02-23, a token that cleans to `amanha` matches `amanha` and stands for 2026-02-24 |
| RelativeDates.TomorrowResolved | tests/unit/test_text_preprocessor.py:1-6 | `amanha` with reference 2026-02-23 becomes `2026-02-24`, which is also the hint |
| RelativeDates.DottedTomorrowKeepsToken | core/text_preprocessor.py:251-260 | `ama.nha` cleans to `amanha` and records the hint 2026-02-24, but the token is left as written because it does not contain its cleaned form |
| RelativeDates.RewriteWithoutWord | core/text_preprocessor.py:260 | a token that does not contain its cleaned form is left unchanged by the rewrite |
| TimeExpressions.MatchAt | core/text_preprocessor.py:116-118 | a match starts at a word boundary that neither follows a digit nor `por` plus a space; its hour is the 1 or 2 digits at the start, and its minute is at most 2 digits |
| TimeExpressions.HourAt | core/text_preprocessor.py:117 | `\d{1,2}` backtracking: the hour tried is a prefix of the digits at the start, of 1 or 2 digits |
| TimeExpressions.AfterHour | core/text_preprocessor.py:117 | the part after the hour digits (`\s*[hH](?:oras?)?\s*(\d{0,2})\b`), when it matches, ends after the start with at most two minute digits |
| TimeExpressions.HourIsWholeRun | core/text_preprocessor.py:117 | because of the lookbehind and the boundary, a match's hour is the whole run of digits at its start |
| TimeExpressions.LookbehindBlocks | core/text_preprocessor.py:117 | nothing matches right after a digit or after `por` and a space |
| TimeExpressions.TimeText | core/text_preprocessor.py:283-291 | the replacement is `INVALIDO` exactly when the hour exceeds 23 or the minute 59 |
| TimeExpressions.TimeTextRoundTrip | core/text_preprocessor.py:285-291 | a possible time is written `HH:MM` and reads back as the same hour and minute; an impossible one becomes the sentinel, which reads as no time |
| TimeExpressions.Replacement | core/text_preprocessor.py:281-291 | every replacement, missing minutes taken as 0, is a valid hint: the sentinel or a possible `HH:MM` |
| TimeExpressions.ScanTimes | core/text_preprocessor.py:293 | every hint the substitution records is the sentinel or a possible time |
| TimeExpressions.ScanTimesHint | core/text_preprocessor.py:281-293 | there is no hint exactly when the pattern matches nowhere, and then the text is unchanged |
| TimeExpressions.ScanTimesLastHint | core/text_preprocessor.py:281-293 | the hint is the replacement of a match after which the scan finds no further match: the last match wins |
| TimeExpressions.ScanTimesSkips | core/text_preprocessor.py:281-293 | text where the pattern matches nowhere is copied unchanged |
| TimeExpressions.ScanTimesAtMatch | core/text_preprocessor.py:281-293 | at the first match the matched text becomes its normalised time or `INVALIDO`, the text before it is copied, and scanning resumes after it |
| TimeExpressions.SeparateTimes | core/text_preprocessor.py:294 | the separation pass never shortens the text |
| TimeExpressions.SeparateTimesOnlyAddsSpaces | core/text_preprocessor.py:294 | the separation pass keeps every non-space character: with spaces removed, the output equals the input |
| TimeExpressions.SeparateTimesInsertsSpaces | core/text_preprocessor.py:294 | the separation pass only inserts spaces: the output is the input with zero or more spaces inserted, every input character kept in order, none dropped |
| TimeExpressions.SeparateTimesIdentity | core/text_preprocessor.py:294 | with no `INVALIDO` or `dd:dd` directly followed by a non-space, the text is unchanged |
| TimeExpressions.SeparateTimesSeparated | core/text_preprocessor.py:294 | after the pass, no `INVALIDO` or `dd:dd` is directly followed by a non-space character |
| TimeExpressions.SeparateTimesAtMatch | core/text_preprocessor.py:294 | the text up to the first time directly followed by a non-space is copied, that time is copied with one space after it, and the pass resumes right after the time |
| TimeExpressions.SeparateSample | core/text_preprocessor.py:294 | `"14:00no"` becomes `"14:00 no"` |
| TimeExpressions.NormalizeTimeExpressions | core/text_preprocessor.py:266-296 | the hint is a possible time or the sentinel; it is absent exactly when the pattern matches nowhere; the output is the substituted text with zero or more spaces inserted and nothing dropped (`SpacesInserted`), and in it no `INVALIDO` or `dd:dd` is directly followed by a non-space character |
| TimeExpressions.ImpossibleHourSample | tests/unit/test_text_preprocessor.py:9-14 | `73h` becomes `INVALIDO` with hint `INVALIDO` |
| TimeExpressions.HourMinuteSample | core/text_preprocessor.py:281-291 | `14h30` becomes `14:30` with that hint |
| TimeExpressions.DurationSample | core/text_preprocessor.py:117 | `por 14h` is left as written, with no hint |
| WrittenDatePattern.DateMatchAt | core/text_preprocessor.py:120-123 | a match lies between two word boundaries; it has 1-2 day digits, a non-empty month word and 4 year digits |
| WrittenDatePattern.WrittenDateMatches | core/text_preprocessor.py:120-123 | every `D de word de YYYY` followed by a non-word character is matched, with exactly those fields and end |
| WrittenDatePattern.NoLetterDNoDate | core/text_preprocessor.py:121 | text without a `d` in either case contains no written date |
| WrittenDatePattern.WrittenDateMatchSample | tests/unit/test_text_preprocessor.py:24-29 | `5 de feverero de 2025` is one match with day `5`, month `feverero` and year `2025` |
| WrittenDates.MonthNumber | core/text_preprocessor.py:125-138 | a month key maps to a two-digit number 1..12, and that number is the key's position in the calendar |
| WrittenDates.MonthFor | core/text_preprocessor.py:316-319 | the lower-cased month word is matched against `MONTH_MAP`, and any answer is a month key |
| WrittenDates.DateReplacement | core/text_preprocessor.py:313-324 | a match is rewritten exactly when its month word fuzzy-matches a month, as a ten-character date with dashes at 4 and 7 |
| WrittenDates.DateReplacementFields | core/text_preprocessor.py:315-323 | the written date's year is the matched year, its day is the zero-filled day with the same value (not range-checked), and its month is the number of the matched month |
| WrittenDates.ScanDates | core/text_preprocessor.py:326 | every hint is a ten-character date |
| WrittenDates.ScanDatesNoHint | core/text_preprocessor.py:313-326 | without a hint the text is unchanged, including spans whose month word matched nothing |
| WrittenDates.NothingRecognized | core/text_preprocessor.py:313-326 | when no match has a recognisable month, there is no hint |
| WrittenDates.ScanDatesLastHint | core/text_preprocessor.py:313-326 | the hint is the rewrite of a recognised match after which no further date is recognised: the last successful match wins |
| WrittenDates.ScanDatesSkips | core/text_preprocessor.py:313-326 | text where the pattern matches nowhere is copied unchanged |
| WrittenDates.ScanDatesAtMatch | core/text_preprocessor.py:313-326 | at the first match the matched text becomes the ISO date when the month word is recognised and stays as it was otherwise; the text before it is copied and scanning resumes after it |
| WrittenDates.NormalizeWrittenDates | core/text_preprocessor.py:298-327 | the hint is a ten-character date; without a hint the text is unchanged; with no recognisable date, neither text nor hint changes |
| WrittenDates.MisspeltMonthFound | core/text_preprocessor.py:319 | `feverero` fuzzy-matches `fevereiro` |
| WrittenDates.WrittenDateSample | tests/unit/test_text_preprocessor.py:24-29 | `5 de feverero de 2025` becomes `2025-02-05`, which is also the hint |
| Preprocessor.HintValue | core/text_preprocessor.py:176-188 | nothing is found exactly when no entry has the key; otherwise the value is that of the first entry with the key |
| Preprocessor.WithHintKnown | core/text_preprocessor.py:176-188 | recording a later stage's hint keeps the hints to the three stage keys, each at most once, in stage order |
| Preprocessor.WithHintValue | core/text_preprocessor.py:177-188 | after `if hint: hints[key] = hint` the key holds the hint when it is a non-empty string and nothing otherwise, and every other key is untouched |
| Preprocessor.Cleaned | core/text_preprocessor.py:170-174 | the text entering the date stage has fixed whitespace |
| Preprocessor.Finished | core/text_preprocessor.py:190-196 | the final text has no whitespace at either end, fixed spacing and no typographic quote or dash |
| Preprocessor.Preprocess | core/text_preprocessor.py:151-196 | the pipeline fails exactly when relative-date resolution fails. That happens when the resolved date leaves `datetime`'s range, where Python raises `OverflowError`. It also happens when the resolved date is in range but before the year 1000: there the model fails, while Python's `strftime` returns normally; otherwise its hints use only the three stage keys, in stage order, and the cleaned text is trimmed, well-spaced and free of typographic punctuation |
| Preprocessor.PreprocessHints | core/text_preprocessor.py:170-196 | whenever the date stage does not overflow, the stages run in the fixed order; the cleaned text is the finished output of the written-date stage; each hint key holds exactly its stage's hint |
| Preprocessor.HintsOfValues | core/text_preprocessor.py:176-188 | each of the three keys holds exactly the hint its stage produced |
| Preprocessor.PlainTextUnchanged | core/text_preprocessor.py:172-196 | lower-case, single-spaced plain text passes through lower-casing, control removal, whitespace fixing, punctuation and strip unchanged |
| Preprocessor.PreprocessSample | tests/unit/test_text_preprocessor.py:17-21 | with reference 2026-02-23, the accent-folded `amanha as 14h no escritorio` becomes exactly `2026-02-24 as 14:00 no escritorio`, with the date and time hints |
| Extractor.BuildHintsBlock | core/incident_extractor.py:132-133 | the block is empty exactly when there are no hints and no extra context |
| Extractor.HintsBlockLayout | core/incident_extractor.py:135-142 | otherwise the block is the header, then one `- key: value` line per hint in order, then the context line only when there is context, joined by line feeds |
| Extractor.ContextOnlyBlock | core/incident_extractor.py:139-142 | with context but no hints, the block is the header, a blank line and `Contexto adicional: ` with the context |
| Extractor.InvalidHourAtMeans | core/incident_extractor.py:161 | the scanner agrees with a literal reading of the pattern: a word boundary, then either 2 digits starting with 2..9 or 3 or more digits, then `h` and a word boundary |
| Extractor.FindInvalidHour | core/incident_extractor.py:163 | a position the search finds is a place where the pattern matches |
| Extractor.FindInvalidHourNone | core/incident_extractor.py:163 | the search finds nothing exactly when the pattern matches nowhere |
| Extractor.SearchMeans | core/incident_extractor.py:161-164 | searching the lower-cased text succeeds exactly when the text contains an impossible hour |
| Extractor.FixInvalidTime | core/incident_extractor.py:144-166 | the result is `INVALIDO` whenever the lower-cased original text contains an impossible hour, whatever the extracted value (None included), and the extracted value unchanged otherwise |
| Extractor.Extract | core/incident_extractor.py:81-102 | pre-processing runs on the raw text, and a failure there propagates; the model gets the cleaned text and the hints block; only `data_ocorrencia` is overridden, from the raw text; a model failure is reported as a failure |
| Extractor.TwentyHoursOverridden | core/incident_extractor.py:161 | `20h` is overridden to `INVALIDO` although the time stage accepts it as `20:00` |
| Extractor.HourWithMinutesKept | core/incident_extractor.py:161 | `25h30` does not trigger the override, since no word boundary follows the `h` |
| Extractor.HoursWordKept | core/incident_extractor.py:161 | `73horas` does not trigger the override |
| Extractor.ImpossibleReportOverridden | tests/unit/test_incident_extractor_helpers.py:4-11 | a report at `99h` has its date replaced by `INVALIDO` |
| Extractor.PossibleReportKept | tests/unit/test_incident_extractor_helpers.py:14-21 | a report at `14h` keeps `2026-02-23 14:00` |

## Left out

- Unicode NFC normalisation and combining-mark stripping (core/text_preprocessor.py:198-207) depend on the Unicode tables. They enter `Preprocess` as the uninterpreted `fold` parameter.
- `datetime.now()` as the default reference date (core/text_preprocessor.py:149) reads the clock. The reference date is a required parameter instead. Only its calendar date is modelled, because the time of day never reaches the output.
- The LangChain/Ollama chain, the prompt template and the Pydantic output parser (core/incident_extractor.py:5-64, model/incident_prompt.py) are external language-model I/O.
  - The chain is the `llm` parameter of `Extract`.
  - Any exception it raises, re-raised as `RuntimeError`, is the `ModelFailed` outcome.
- `extract_dict` and `model_dump` only serialise the record.
- `api.py` and `client.py` are HTTP and command-line plumbing.
- Regex classes and `lower()` are modelled for ASCII only: `\w` is `[A-Za-z0-9_]`, `\d` is `[0-9]`, and `lower()` maps only A-Z. Python's Unicode letters and digits in these classes are not modelled.
- Day arithmetic that leaves `datetime`'s range (Python raises `OverflowError`) is an error outcome, `DateOutOfRange`. Years below 1000 are the same outcome, because `%Y` does not give four digits for them on every platform.
- `str.replace` with an empty pattern is not modelled. `Text.Replace` requires a non-empty pattern, and the only call site passes a cleaned token that matched a relative-date word, which is never empty.
- Fuzzy.FuzzyMatch: its own contract states only exact-key and membership facts. The full best-match property is the separate lemma `FuzzyMatchSpec`, so callers do not carry it.
- Cleanup.CollapseNewlines: does not state which line feeds are kept. `CleanupContent.CollapseNewlinesVisible` states that every character other than space, tab and line feed is kept in order, and `CleanupContent.CollapseNewlinesWords` that the words are kept.
- Cleanup.CollapseBlanks: its own contract does not state where the single spaces go. `CleanupContent.CollapseBlanksVisible` states that every character other than space, tab and line feed is kept in order, and `CleanupContent.CollapseBlanksWords` that the words are kept, so a blank run between words becomes one space.
- Cleanup.DropSpaceBeforePunct: its own contract does not state which spaces are dropped. `CleanupContent.DropSpaceBeforePunctMarked` states it exactly.
- Cleanup.FixWhitespace: its own contract states the spacing properties of the result. The words are kept by `CleanupContent.FixWhitespaceWords` and the other visible characters by `CleanupContent.FixWhitespaceVisible`. Whether the whitespace left between two words is a space or line feeds is not stated.
- Cleanup.ReplaceDashes: its own contract states the resulting character set and the identity on dash-free text. The exact result, with the whitespace around each `" - "`, is stated by the lemma `Cleanup.ReplaceDashesSpaced`.
- TimeExpressions.SeparateTimes: its own contract states only that the text never shrinks. `SeparateTimesInsertsSpaces` shows that only spaces are inserted and nothing is dropped, `SeparateTimesSeparated` that no time is left directly followed by a non-space, and `SeparateTimesAtMatch` where each space goes.
- TimeExpressions.NormalizeTimeExpressions: states that the output is the substituted text with spaces inserted (none dropped) and that afterwards no `INVALIDO` or `dd:dd` is directly followed by a non-space character. It does not state that a space is inserted only after such a time; `TimeExpressions.SeparateTimesAtMatch` states that step by step.
- Preprocessor.Preprocess: the `normalized_time` hint is recorded only when non-empty, as in the source; every time hint is non-empty, so this changes nothing.
