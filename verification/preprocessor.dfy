/**
  `TextPreprocessor.preprocess` (core/text_preprocessor.py): the stages in
  their fixed order, and the hints the date and time stages leave behind.

  The source starts with Unicode NFC normalisation and accent stripping;
  both depend on Unicode tables and come in here as the `fold` parameter.
 */
module Preprocessor {
  import opened Wrappers
  import opened Text
  import opened Calendar
  import opened Cleanup
  import opened RelativeDates
  import opened TimeExpressions
  import opened WrittenDates
  import opened WrittenDatePattern

  const ReferenceDateKey := "reference_date"
  const NormalizedTimeKey := "normalized_time"
  const NormalizedWrittenDateKey := "normalized_written_date"

  /** The `hints` dictionary, as its items in insertion order. */
  type Hints = seq<(string, string)>

  /** The position of a key in the order the stages run, or 3 for a key no stage writes. */
  function KeyRank(key: string): nat {
    if key == ReferenceDateKey then 0
    else if key == NormalizedTimeKey then 1
    else if key == NormalizedWrittenDateKey then 2
    else 3
  }

  /** Hints as the pipeline can produce them: only the three stage keys, each
      at most once and in stage order, with non-empty values. */
  predicate KnownHints(h: Hints) {
    && (forall i :: 0 <= i < |h| ==> KeyRank(h[i].0) < 3 && |h[i].1| > 0)
    && (forall i, j :: 0 <= i < j < |h| ==> KeyRank(h[i].0) < KeyRank(h[j].0))
  }

  /** The value stored under `key`, if there is one: the value of the first
      entry with that key, and nothing exactly when no entry has it. */
  function HintValue(h: Hints, key: string): (r: Option<string>)
    ensures r.None? <==> forall i :: 0 <= i < |h| ==> h[i].0 != key
    ensures r.Some? ==> exists i :: && 0 <= i < |h| && h[i] == (key, r.value)
                                    && forall j :: 0 <= j < i ==> h[j].0 != key
    decreases |h|
  {
    if |h| == 0 then None
    else if h[0].0 == key then Some(h[0].1)
    else
      var r := HintValue(h[1..], key);
      assert forall i :: 1 <= i < |h| ==> h[i] == h[1..][i - 1];
      assert r.Some? ==> exists i :: && 1 <= i < |h| && h[i] == (key, r.value)
                                     && forall j :: 0 <= j < i ==> h[j].0 != key by {
        if r.Some? {
          var i :| && 0 <= i < |h[1..]| && h[1..][i] == (key, r.value)
                   && forall j :: 0 <= j < i ==> h[1..][j].0 != key;
          assert h[i + 1] == (key, r.value);
        }
      }
      r
  }

  /** `if hint: hints[key] = hint`: a stage's hint is recorded when it is a
      non-empty string. */
  function WithHint(h: Hints, key: string, hint: Option<string>): Hints {
    if hint.Some? && |hint.value| > 0 then h + [(key, hint.value)] else h
  }

  /** Adding a later stage's hint keeps the hints in stage order. */
  lemma WithHintKnown(h: Hints, key: string, hint: Option<string>)
    requires KnownHints(h) && KeyRank(key) < 3
    requires forall i :: 0 <= i < |h| ==> KeyRank(h[i].0) < KeyRank(key)
    ensures KnownHints(WithHint(h, key, hint))
    ensures forall i :: 0 <= i < |WithHint(h, key, hint)| ==> KeyRank(WithHint(h, key, hint)[i].0) <= KeyRank(key)
  {
  }

  /** A key the hints do not hold yet reads as its new value once added, and
      any other key reads as before. */
  lemma {:induction false} WithHintValue(h: Hints, key: string, hint: Option<string>, other: string)
    requires HintValue(h, key).None?
    ensures HintValue(WithHint(h, key, hint), key) == (if hint.Some? && |hint.value| > 0 then hint else None)
    ensures other != key ==> HintValue(WithHint(h, key, hint), other) == HintValue(h, other)
    decreases |h|
  {
    if hint.Some? && |hint.value| > 0 && |h| > 0 {
      assert (h + [(key, hint.value)])[1..] == h[1..] + [(key, hint.value)];
      WithHintValue(h[1..], key, hint, other);
    }
  }

  /** Unicode folding, `text.lower()`, `_remove_control_chars` and
      `_fix_whitespace`: the text the date and time stages work on. */
  function Cleaned(text: string, fold: string -> string): (r: string)
    ensures WhitespaceFixed(r)
  {
    FixWhitespace(RemoveControlChars(Lower(fold(text))))
  }

  /** `_normalize_punctuation`, `_fix_whitespace` and `strip()`: the last
      three steps, applied to the text after the written-date stage. */
  function Finished(s: string): (r: string)
    ensures |r| > 0 ==> !IsSpace(r[0]) && !IsSpace(r[|r| - 1])
    ensures WhitespaceFixed(r)
    ensures forall i :: 0 <= i < |r| ==> !IsSmartQuote(r[i]) && !IsDash(r[i])
  {
    var n := NormalizePunctuation(s);
    var f := FixWhitespace(n);
    TypographyGone(n, f);
    StripKeeps(f);
    Strip(f)
  }

  /** `_fix_whitespace` brings back no quote or dash the punctuation step removed. */
  lemma TypographyGone(n: string, f: string)
    requires forall i :: 0 <= i < |n| ==> !IsSmartQuote(n[i]) && !IsDash(n[i])
    requires forall c :: c in f ==> c in n || c == ' '
    ensures forall i :: 0 <= i < |f| ==> !IsSmartQuote(f[i]) && !IsDash(f[i])
  {
    forall i | 0 <= i < |f|
      ensures !IsSmartQuote(f[i]) && !IsDash(f[i])
    {
      assert f[i] in f;
    }
  }

  /** `strip()` returns a slice, so whatever holds of every character and of
      every pair of neighbours still holds. */
  lemma StripKeeps(f: string)
    requires WhitespaceFixed(f)
    requires forall i :: 0 <= i < |f| ==> !IsSmartQuote(f[i]) && !IsDash(f[i])
    ensures WhitespaceFixed(Strip(f))
    ensures forall i :: 0 <= i < |Strip(f)| ==> !IsSmartQuote(Strip(f)[i]) && !IsDash(Strip(f)[i])
  {
    var i := StripStart(f);
    var j := StripEnd(f);
    if i < j {
      SliceKeepsFixed(f, i, j);
    }
  }

  /** The result of `preprocess`, or the `OverflowError` the relative-date
      stage lets escape. */
  datatype Preprocessed = Preprocessed(cleanedText: string, hints: Hints) | DateOutOfRange

  /** `preprocess`: the stages in the source's order, each hint recorded
      under its key when the stage produced one. */
  function Preprocess(text: string, reference: Date, fold: string -> string): (r: Preprocessed)
    requires Valid(reference)
    ensures r.DateOutOfRange? <==> ResolveRelativeDates(Cleaned(text, fold), reference).Overflow?
    ensures r.Preprocessed? ==> KnownHints(r.hints)
    ensures r.Preprocessed? && |r.cleanedText| > 0 ==> !IsSpace(r.cleanedText[0]) && !IsSpace(r.cleanedText[|r.cleanedText| - 1])
    ensures r.Preprocessed? ==> WhitespaceFixed(r.cleanedText)
    ensures r.Preprocessed? ==> forall i :: 0 <= i < |r.cleanedText| ==> !IsSmartQuote(r.cleanedText[i]) && !IsDash(r.cleanedText[i])
  {
    match ResolveRelativeDates(Cleaned(text, fold), reference)
    case Overflow => DateOutOfRange
    case Resolved(resolved, dateHint) =>
      var times := NormalizeTimeExpressions(resolved);
      var written := NormalizeWrittenDates(times.text);
      Preprocessed(Finished(written.text), HintsOf(dateHint, times.hint, written.hint))
  }

  /** The `hints` dictionary the three stages fill in, in the order they run. */
  function HintsOf(dateHint: Option<string>, timeHint: Option<string>, writtenHint: Option<string>): (h: Hints)
    ensures KnownHints(h)
  {
    var h0 := WithHint([], ReferenceDateKey, dateHint);
    var h1 := WithHint(h0, NormalizedTimeKey, timeHint);
    WithHintKnown([], ReferenceDateKey, dateHint);
    WithHintKnown(h0, NormalizedTimeKey, timeHint);
    WithHintKnown(h1, NormalizedWrittenDateKey, writtenHint);
    WithHint(h1, NormalizedWrittenDateKey, writtenHint)
  }

  /** A time hint is never the empty string. */
  lemma TimeHintNonEmpty(t: string)
    requires IsTimeHint(t)
    ensures |t| > 0
  {
  }

  /** Each key holds exactly its stage's hint, and holds nothing when the stage
      found nothing: every hint a stage produces is non-empty, so the
      source's truthiness test keeps all of them. */
  lemma PreprocessHints(text: string, reference: Date, fold: string -> string)
    requires Valid(reference)
    ensures var stage := ResolveRelativeDates(Cleaned(text, fold), reference);
            stage.Resolved? ==>
              var times := NormalizeTimeExpressions(stage.text);
              var written := NormalizeWrittenDates(times.text);
              var r := Preprocess(text, reference, fold);
              && r.Preprocessed?
              && r.cleanedText == Finished(written.text)
              && HintValue(r.hints, ReferenceDateKey) == stage.hint
              && HintValue(r.hints, NormalizedTimeKey) == times.hint
              && HintValue(r.hints, NormalizedWrittenDateKey) == written.hint
  {
    var stage := ResolveRelativeDates(Cleaned(text, fold), reference);
    if stage.Resolved? {
      var times := NormalizeTimeExpressions(stage.text);
      var written := NormalizeWrittenDates(times.text);
      if times.hint.Some? {
        TimeHintNonEmpty(times.hint.value);
      }
      HintsOfValues(stage.hint, times.hint, written.hint);
    }
  }

  /** Each non-empty hint is found under its own key. */
  lemma HintsOfValues(dateHint: Option<string>, timeHint: Option<string>, writtenHint: Option<string>)
    requires dateHint.Some? ==> |dateHint.value| > 0
    requires timeHint.Some? ==> |timeHint.value| > 0
    requires writtenHint.Some? ==> |writtenHint.value| > 0
    ensures HintValue(HintsOf(dateHint, timeHint, writtenHint), ReferenceDateKey) == dateHint
    ensures HintValue(HintsOf(dateHint, timeHint, writtenHint), NormalizedTimeKey) == timeHint
    ensures HintValue(HintsOf(dateHint, timeHint, writtenHint), NormalizedWrittenDateKey) == writtenHint
  {
    var h0 := WithHint([], ReferenceDateKey, dateHint);
    var h1 := WithHint(h0, NormalizedTimeKey, timeHint);
    WithHintValue([], ReferenceDateKey, dateHint, NormalizedTimeKey);
    WithHintValue([], ReferenceDateKey, dateHint, NormalizedWrittenDateKey);
    WithHintValue(h0, NormalizedTimeKey, timeHint, ReferenceDateKey);
    WithHintValue(h0, NormalizedTimeKey, timeHint, NormalizedWrittenDateKey);
    WithHintValue(h1, NormalizedWrittenDateKey, writtenHint, ReferenceDateKey);
    WithHintValue(h1, NormalizedWrittenDateKey, writtenHint, NormalizedTimeKey);
  }

  // The end-to-end example: "amanha as 14h no escritorio" with the reference
  // date 2026-02-23. The texts the stages pass along are described character
  // by character, which keeps each step of the proof small.

  const SampleInput := "amanha as 14h no escritorio"
  const SampleOutput := "2026-02-24 as 14:00 no escritorio"

  /** `amanha as 14h no escritorio`, character by character. */
  predicate InputShape(s: string) {
    && |s| == 27
    && s[0] == 'a' && s[1] == 'm' && s[2] == 'a' && s[3] == 'n' && s[4] == 'h' && s[5] == 'a'
    && s[6] == ' ' && s[7] == 'a' && s[8] == 's' && s[9] == ' ' && s[10] == '1' && s[11] == '4'
    && s[12] == 'h' && s[13] == ' ' && s[14] == 'n' && s[15] == 'o' && s[16] == ' ' && s[17] == 'e'
    && s[18] == 's' && s[19] == 'c' && s[20] == 'r' && s[21] == 'i' && s[22] == 't' && s[23] == 'o'
    && s[24] == 'r' && s[25] == 'i' && s[26] == 'o'
  }

  /** `2026-02-24 as 14h no escritorio`, character by character. */
  predicate ResolvedShape(s: string) {
    && |s| == 31
    && s[0] == '2' && s[1] == '0' && s[2] == '2' && s[3] == '6' && s[4] == '-' && s[5] == '0'
    && s[6] == '2' && s[7] == '-' && s[8] == '2' && s[9] == '4' && s[10] == ' ' && s[11] == 'a'
    && s[12] == 's' && s[13] == ' ' && s[14] == '1' && s[15] == '4' && s[16] == 'h' && s[17] == ' '
    && s[18] == 'n' && s[19] == 'o' && s[20] == ' ' && s[21] == 'e' && s[22] == 's' && s[23] == 'c'
    && s[24] == 'r' && s[25] == 'i' && s[26] == 't' && s[27] == 'o' && s[28] == 'r' && s[29] == 'i'
    && s[30] == 'o'
  }

  /** `2026-02-24 as 14:00no escritorio`, character by character. */
  predicate ScannedShape(s: string) {
    && |s| == 32
    && s[0] == '2' && s[1] == '0' && s[2] == '2' && s[3] == '6' && s[4] == '-' && s[5] == '0'
    && s[6] == '2' && s[7] == '-' && s[8] == '2' && s[9] == '4' && s[10] == ' ' && s[11] == 'a'
    && s[12] == 's' && s[13] == ' ' && s[14] == '1' && s[15] == '4' && s[16] == ':' && s[17] == '0'
    && s[18] == '0' && s[19] == 'n' && s[20] == 'o' && s[21] == ' ' && s[22] == 'e' && s[23] == 's'
    && s[24] == 'c' && s[25] == 'r' && s[26] == 'i' && s[27] == 't' && s[28] == 'o' && s[29] == 'r'
    && s[30] == 'i' && s[31] == 'o'
  }

  /** `2026-02-24 as 14:00 no escritorio`, character by character. */
  predicate OutputShape(s: string) {
    && |s| == 33
    && s[0] == '2' && s[1] == '0' && s[2] == '2' && s[3] == '6' && s[4] == '-' && s[5] == '0'
    && s[6] == '2' && s[7] == '-' && s[8] == '2' && s[9] == '4' && s[10] == ' ' && s[11] == 'a'
    && s[12] == 's' && s[13] == ' ' && s[14] == '1' && s[15] == '4' && s[16] == ':' && s[17] == '0'
    && s[18] == '0' && s[19] == ' ' && s[20] == 'n' && s[21] == 'o' && s[22] == ' ' && s[23] == 'e'
    && s[24] == 's' && s[25] == 'c' && s[26] == 'r' && s[27] == 'i' && s[28] == 't' && s[29] == 'o'
    && s[30] == 'r' && s[31] == 'i' && s[32] == 'o'
  }

  lemma InputIs(s: string)
    requires InputShape(s)
    ensures s == SampleInput
  {
  }

  lemma OutputIs(s: string)
    requires OutputShape(s)
    ensures s == SampleOutput
  {
  }

  /** Lower-case letters, digits, `-` and `:`, with single spaces between
      words and none at either end. */
  predicate PlainText(s: string) {
    && |s| > 0 && s[0] != ' ' && s[|s| - 1] != ' '
    && (forall i :: 0 <= i < |s| ==> ('a' <= s[i] <= 'z') || IsDigit(s[i]) || s[i] == '-' || s[i] == ':' || s[i] == ' ')
    && (forall i :: 0 <= i < |s| - 1 && s[i] == ' ' ==> IsWordChar(s[i + 1]))
  }

  /** Plain text passes through every cleanup step unchanged. */
  lemma PlainTextUnchanged(s: string)
    requires PlainText(s)
    ensures Lower(s) == s && RemoveControlChars(s) == s && FixWhitespace(s) == s
    ensures NormalizePunctuation(s) == s && Strip(s) == s
  {
    PlainTextLower(s);
    PlainTextNoControl(s);
    PlainTextFixed(s);
    PlainTextNoTypography(s);
    PlainTextEnds(s);
  }

  lemma PlainTextLower(s: string)
    requires PlainText(s)
    ensures Lower(s) == s
  {
    assert forall i :: 0 <= i < |s| ==> LowerChar(s[i]) == s[i];
  }

  lemma PlainTextNoControl(s: string)
    requires PlainText(s)
    ensures RemoveControlChars(s) == s
  {
    forall c | c in s
      ensures !IsControl(c)
    {
      var i :| 0 <= i < |s| && s[i] == c;
    }
  }

  lemma PlainTextFixed(s: string)
    requires PlainText(s)
    ensures FixWhitespace(s) == s
  {
    assert NoTab(s);
    assert NoDoubleSpace(s);
    assert NoTripleNewline(s);
    assert NoSpaceBeforePunct(s);
  }

  lemma PlainTextNoTypography(s: string)
    requires PlainText(s)
    ensures NormalizePunctuation(s) == s
  {
    assert forall i :: 0 <= i < |s| ==> !IsSmartQuote(s[i]) && !IsDash(s[i]);
  }

  lemma PlainTextEnds(s: string)
    requires PlainText(s)
    ensures Strip(s) == s
  {
    assert !IsSpace(s[0]) && !IsSpace(s[|s| - 1]);
  }

  lemma InputPlain(s: string)
    requires InputShape(s)
    ensures PlainText(s)
  {
  }

  lemma OutputPlain(s: string)
    requires OutputShape(s)
    ensures PlainText(s)
  {
  }

  /** The words after the first one, the same before and after the date stage. */
  lemma SampleTail()
    ensures Join(["as", "14h", "no", "escritorio"], " ") == "as" + " " + ("14h" + " " + ("no" + " " + "escritorio"))
  {
  }

  /** The words of the input, and the same words once the first is a date. */
  lemma SampleJoins(first: string)
    ensures Join([first, "as", "14h", "no", "escritorio"], " ") == first + " " + ("as" + " " + ("14h" + " " + ("no" + " " + "escritorio")))
  {
    SampleTail();
    assert [first, "as", "14h", "no", "escritorio"][1..] == ["as", "14h", "no", "escritorio"];
  }

  lemma InputWords()
    ensures InputShape(Join(["amanha", "as", "14h", "no", "escritorio"], " "))
  {
    SampleJoins("amanha");
  }

  lemma ResolvedWords()
    ensures ResolvedShape(Join(["2026-02-24", "as", "14h", "no", "escritorio"], " "))
  {
    SampleJoins("2026-02-24");
  }

  lemma SampleTokens()
    ensures forall k :: 0 <= k < 5 ==> IsToken(["amanha", "as", "14h", "no", "escritorio"][k])
  {
    var words := ["amanha", "as", "14h", "no", "escritorio"];
    forall k | 0 <= k < 5
      ensures IsToken(words[k])
    {
      VisibleAsciiToken(words[k]);
    }
  }

  /** The relative-date stage turns the first word into the date. */
  lemma SampleRelativeDate(s: string)
    requires s == Join(["amanha", "as", "14h", "no", "escritorio"], " ")
    ensures ResolveRelativeDates(s, Date(2026, 2, 23)) ==
            Resolved(Join(["2026-02-24", "as", "14h", "no", "escritorio"], " "), Some("2026-02-24"))
  {
    SampleTokens();
    SplitJoin(["amanha", "as", "14h", "no", "escritorio"]);
    SampleResolvedTokens(["amanha", "as", "14h", "no", "escritorio"]);
  }

  /** Only the first word matches, and it becomes the date of the next day. */
  lemma SampleResolvedTokens(words: seq<string>)
    requires words == ["amanha", "as", "14h", "no", "escritorio"]
    ensures ResolveTokens(words, Date(2026, 2, 23)) ==
            Resolution(["2026-02-24", "as", "14h", "no", "escritorio"], Some("2026-02-24"))
  {
    TomorrowWord();
    ReplaceWhole("amanha", "2026-02-24");
    TomorrowDate("amanha");
    ResolveTokensFirstMatch(words, Date(2026, 2, 23), 0);
    SampleUpdate(words);
  }

  lemma SampleUpdate(words: seq<string>)
    requires words == ["amanha", "as", "14h", "no", "escritorio"]
    ensures words[0 := "2026-02-24"] == ["2026-02-24", "as", "14h", "no", "escritorio"]
  {
  }

  /** No `h` among the `w` blanks after `q` or right after them: no hour ends at `q`. */
  lemma {:induction false} AfterHourNone(s: string, q: nat, w: nat)
    requires q + w <= |s|
    requires forall i :: q <= i <= q + w && i < |s| ==> !IsH(s[i])
    ensures AfterHour(s, q, w).None?
    decreases w
  {
    if w > 0 {
      AfterHourNone(s, q, w - 1);
    }
  }

  /** Two digits with no `h` reachable after them start no match. */
  lemma TwoDigitsNoHour(s: string, p: nat)
    requires p + 2 <= |s| && IsDigit(s[p]) && IsDigit(s[p + 1])
    requires AfterHour(s, p + 2, SpaceRun(s, p + 2)).None?
    ensures MatchAt(s, p).None?
  {
    NoHourAfterDigit(s, p + 1);
    assert DigitRun(s, p) >= 2 by {
      assert DigitRun(s, p) == 1 + DigitRun(s, p + 1);
    }
  }

  /** The digit pairs that start `2026`, `02` and `24` are followed by `2`,
      `-` and a blank, so no hour ends after them. */
  lemma SampleDigitPairs(s: string, q: nat)
    requires ResolvedShape(s)
    requires q == 0 || q == 5 || q == 8
    ensures MatchAt(s, q).None?
  {
    if q == 0 {
      SampleYearPair(s, q);
    } else if q == 5 {
      SampleMonthPair(s, q);
    } else {
      SampleDayPair(s, q);
    }
  }

  lemma SampleYearPair(s: string, q: nat)
    requires ResolvedShape(s) && q == 0
    ensures MatchAt(s, q).None?
  {
    NoHourAfterDigit(s, q + 2);
    TwoDigitsNoHour(s, q);
  }

  lemma SampleMonthPair(s: string, q: nat)
    requires ResolvedShape(s) && q == 5
    ensures MatchAt(s, q).None?
  {
    assert SpaceRun(s, q + 2) == 0;
    AfterHourNone(s, q + 2, 0);
    TwoDigitsNoHour(s, q);
  }

  lemma SampleDayPair(s: string, q: nat)
    requires ResolvedShape(s) && q == 8
    ensures MatchAt(s, q).None?
  {
    SpaceRunIs(s, q + 2, 1);
    AfterHourNone(s, q + 2, 1);
    TwoDigitsNoHour(s, q);
  }

  lemma SampleDateHasNoTime(s: string)
    requires ResolvedShape(s)
    ensures forall q :: 0 <= q < 14 ==> MatchAt(s, q).None?
  {
    forall q | 0 <= q < 14
      ensures MatchAt(s, q).None?
    {
      if q == 0 || q == 5 || q == 8 {
        SampleDigitPairs(s, q);
      } else if q == 1 || q == 2 || q == 3 || q == 6 || q == 9 {
        LookbehindBlocks(s, q);
      } else {
        NoMatchAtNonDigit(s, q);
      }
    }
  }

  lemma SampleAfterHour(s: string, q: nat)
    requires ResolvedShape(s) && q == 16
    ensures AfterHour(s, q, 0) == Some((q + 2, 0))
  {
    assert !OccursAt(s, "oras", q + 1) && !OccursAt(s, "ora", q + 1) by {
      assert s[q + 1..q + 2] == " ";
    }
    assert SuffixEnds(s, q + 1) == [q + 1];
    SpaceRunIs(s, q + 1, 1);
    assert DigitRun(s, q + 2) == 0;
    assert MinuteDigits(s, q + 2, 0) == Some(0);
    assert TailAt(s, q + 1, 1) == Some((q + 2, 0));
  }

  lemma SampleTimeMatch(s: string)
    requires ResolvedShape(s)
    ensures MatchAt(s, 14) == Some(TimeMatch("14", "", 18))
  {
    SampleTimeMatchAt(s, 14);
  }

  lemma SampleTimeMatchAt(s: string, p: nat)
    requires ResolvedShape(s) && p == 14
    ensures MatchAt(s, p) == Some(TimeMatch("14", "", p + 4))
  {
    SampleHourWith(s, p);
    SampleMatchGuard(s, p);
  }

  /** Two hour digits, then `h` and its blank. */
  lemma SampleHourWith(s: string, p: nat)
    requires ResolvedShape(s) && p == 14
    ensures HourWith(s, p, 2) == Some(TimeMatch("14", "", p + 4))
  {
    SampleAfterHour(s, p + 2);
    assert SpaceRun(s, p + 2) == 0;
    FourteenAt(s, p);
    assert s[p + 4..p + 4] == "";
  }

  lemma FourteenAt(s: string, p: nat)
    requires p + 2 <= |s| && s[p] == '1' && s[p + 1] == '4'
    ensures s[p..p + 2] == "14"
  {
  }

  /** `14` follows a blank that does not follow `por`, and is two digits long. */
  lemma SampleMatchGuard(s: string, p: nat)
    requires ResolvedShape(s) && p == 14
    ensures LookbehindOk(s, p) && WordBoundary(s, p) && DigitRun(s, p) == 2
  {
    DigitRunIs(s, p, 2);
    assert s[p - 4..p - 1] != "por" by {
      assert s[p - 4..p - 1][0] == ' ';
    }
  }

  lemma SampleRestHasNoTime(s: string)
    requires ResolvedShape(s)
    ensures forall q :: 18 <= q < |s| ==> MatchAt(s, q).None?
  {
    forall q | 18 <= q < |s|
      ensures MatchAt(s, q).None?
    {
      NoMatchAtNonDigit(s, q);
    }
  }

  lemma SampleReplacement()
    ensures Replacement(TimeMatch("14", "", 18)) == "14:00"
  {
    assert NumberValue("14") == 14 && NumberValue("") == 0;
    assert Pad2(14) == "14" && Pad2(0) == "00";
  }

  /** The time pattern takes `14h` and the blank after it. */
  lemma SampleScan(s: string)
    requires ResolvedShape(s)
    ensures ScanTimes(s, 0) == Rewritten(s[0..14] + "14:00" + s[18..], Some("14:00"))
  {
    SampleScanAt(s, 14, 18);
  }

  lemma SampleScanAt(s: string, p: nat, q: nat)
    requires ResolvedShape(s) && p == 14 && q == 18
    ensures ScanTimes(s, 0) == Rewritten(s[0..p] + "14:00" + s[q..], Some("14:00"))
  {
    SampleDateHasNoTime(s);
    ScanTimesSkips(s, 0, p);
    SampleScanRest(s, q);
    SampleMatchStep(s, p, q);
    AppendAssoc(s[0..p], "14:00", s[q..]);
  }

  /** Nothing after the blank that follows `14h` is rewritten. */
  lemma SampleScanRest(s: string, q: nat)
    requires ResolvedShape(s) && q == 18
    ensures ScanTimes(s, q) == Rewritten(s[q..], None)
  {
    SampleRestHasNoTime(s);
    ScanTimesSkips(s, q, |s|);
    assert ScanTimes(s, |s|) == Rewritten("", None);
    assert s[q..|s|] + "" == s[q..];
  }

  /** `14h` and its blank become `14:00`, the last replacement so far. */
  lemma SampleMatchStep(s: string, p: nat, q: nat)
    requires ResolvedShape(s) && p == 14 && q == 18
    ensures ScanTimes(s, p).text == "14:00" + ScanTimes(s, q).text
    ensures ScanTimes(s, q).hint.None? ==> ScanTimes(s, p).hint == Some("14:00")
  {
    SampleTimeMatch(s);
    SampleReplacement();
  }

  lemma SampleScanned(s: string)
    requires ResolvedShape(s)
    ensures ScannedShape(s[0..14] + "14:00" + s[18..])
  {
  }

  /** The separation puts back the blank the time pattern consumed. */
  lemma SampleSeparation(t: string)
    requires ScannedShape(t)
    ensures OutputShape(SeparateTimes(t, 0))
  {
    SampleSeparationAt(t, 14, 19);
  }

  lemma SampleSeparationAt(t: string, p: nat, q: nat)
    requires ScannedShape(t) && p == 14 && q == 19
    ensures OutputShape(SeparateTimes(t, 0))
  {
    SeparateBefore(t, p);
    SeparateAfter(t, q);
    SeparateClock(t, p, q);
    SeparatedShape(t, p, q);
  }

  /** The date and the words before the time are copied through. */
  lemma SeparateBefore(t: string, p: nat)
    requires ScannedShape(t) && p == 14
    ensures SeparateTimes(t, 0) == t[0..p] + SeparateTimes(t, p)
  {
    forall k | 0 <= k < p
      ensures CrowdedTime(t, k) == 0
    {
      NotCrowded(t, k);
    }
    SeparateTimesSkips(t, 0, p);
  }

  /** The words after the time are copied through. */
  lemma SeparateAfter(t: string, q: nat)
    requires ScannedShape(t) && q == 19
    ensures SeparateTimes(t, q) == t[q..]
  {
    forall k | q <= k < |t|
      ensures CrowdedTime(t, k) == 0
    {
      NotCrowded(t, k);
    }
    SeparateTimesSkips(t, q, |t|);
    assert t[q..|t|] + "" == t[q..];
  }

  /** `14:00` is followed by a letter, so a blank goes after it. */
  lemma SeparateClock(t: string, p: nat, q: nat)
    requires ScannedShape(t) && p == 14 && q == 19
    ensures SeparateTimes(t, p) == t[p..q] + " " + SeparateTimes(t, q)
  {
    assert ClockAt(t, p) && !IsSpace(t[q]);
  }

  lemma SeparatedShape(t: string, p: nat, q: nat)
    requires ScannedShape(t) && p == 14 && q == 19
    ensures OutputShape(t[0..p] + (t[p..q] + " " + t[q..]))
  {
  }

  lemma SampleTimes(s: string)
    requires ResolvedShape(s)
    ensures NormalizeTimeExpressions(s).hint == Some("14:00")
    ensures OutputShape(NormalizeTimeExpressions(s).text)
  {
    SampleScan(s);
    SampleScanned(s);
    SampleSeparation(s[0..14] + "14:00" + s[18..]);
  }

  lemma SampleNoWrittenDate(s: string)
    requires OutputShape(s)
    ensures NormalizeWrittenDates(s) == Rewritten(s, None)
  {
    assert forall k :: 0 <= k < |s| ==> LowerChar(s[k]) != 'd';
    forall q | 0 <= q < |s|
      ensures !Recognized(s, q)
    {
      NoLetterDNoDate(s, q);
    }
  }

  /** `amanha as 14h no escritorio` on 2026-02-23: the date and the time are
      written out, and both are reported as hints. */
  lemma PreprocessSample(fold: string -> string)
    requires fold("amanha as 14h no escritorio") == "amanha as 14h no escritorio"
    ensures Preprocess("amanha as 14h no escritorio", Date(2026, 2, 23), fold) ==
            Preprocessed("2026-02-24 as 14:00 no escritorio", [("reference_date", "2026-02-24"), ("normalized_time", "14:00")])
  {
    var input := Join(["amanha", "as", "14h", "no", "escritorio"], " ");
    InputWords();
    InputIs(input);
    PreprocessWords(input, fold);
  }

  lemma PreprocessWords(input: string, fold: string -> string)
    requires input == Join(["amanha", "as", "14h", "no", "escritorio"], " ")
    requires InputShape(input) && fold(input) == input
    ensures Preprocess(input, Date(2026, 2, 23), fold) ==
            Preprocessed(SampleOutput, [(ReferenceDateKey, "2026-02-24"), (NormalizedTimeKey, "14:00")])
  {
    InputPlain(input);
    PlainTextUnchanged(input);
    SampleRelativeDate(input);
    var resolved := Join(["2026-02-24", "as", "14h", "no", "escritorio"], " ");
    ResolvedWords();
    var output := SampleLastStages(resolved);
    PreprocessFrom(input, fold, resolved, output);
  }

  /** The stages after the relative dates, on the sample. */
  lemma SampleLastStages(resolved: string) returns (output: string)
    requires ResolvedShape(resolved)
    ensures NormalizeTimeExpressions(resolved) == Rewritten(output, Some("14:00"))
    ensures NormalizeWrittenDates(output) == Rewritten(output, None)
    ensures NormalizePunctuation(output) == output && FixWhitespace(output) == output && Strip(output) == output
    ensures output == SampleOutput
  {
    SampleTimes(resolved);
    output := NormalizeTimeExpressions(resolved).text;
    SampleNoWrittenDate(output);
    OutputPlain(output);
    PlainTextUnchanged(output);
    OutputIs(output);
  }

  /** `preprocess` assembled from what each stage does to the sample. */
  lemma PreprocessFrom(input: string, fold: string -> string, resolved: string, output: string)
    ensures && fold(input) == input && Lower(input) == input
            && RemoveControlChars(input) == input && FixWhitespace(input) == input
            && ResolveRelativeDates(input, Date(2026, 2, 23)) == Resolved(resolved, Some("2026-02-24"))
            && NormalizeTimeExpressions(resolved) == Rewritten(output, Some("14:00"))
            && NormalizeWrittenDates(output) == Rewritten(output, None)
            && NormalizePunctuation(output) == output && FixWhitespace(output) == output && Strip(output) == output
            ==> Preprocess(input, Date(2026, 2, 23), fold) ==
                Preprocessed(output, [(ReferenceDateKey, "2026-02-24"), (NormalizedTimeKey, "14:00")])
  {
    SampleHints();
  }

  lemma SampleHints()
    ensures HintsOf(Some("2026-02-24"), Some("14:00"), None) ==
            [(ReferenceDateKey, "2026-02-24"), (NormalizedTimeKey, "14:00")]
  {
  }
}
