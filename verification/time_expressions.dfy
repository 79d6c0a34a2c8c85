/**
  `_normalize_time_expressions` (core/text_preprocessor.py): every match of
  `TIME_PATTERN`,

      (?<!\d)(?<!por\s)(\b\d{1,2})\s*[hH](?:oras?)?\s*(\d{0,2})\b

  becomes `HH:MM`, or `INVALIDO` when the hour exceeds 23 or the minute 59;
  the last match gives the hint. A second substitution puts a space after
  every `INVALIDO` or `dd:dd` directly followed by a non-space character.

  The pattern is matched as `re` does: candidate start positions left to
  right, greedy quantifiers tried longest first with backtracking, the
  lookbehinds read on the string being scanned.
 */
module TimeExpressions {
  import opened Wrappers
  import opened Text

  const Invalid := "INVALIDO"

  /** `[hH]` */
  predicate IsH(c: char) {
    c == 'h' || c == 'H'
  }

  /** `(?<!\d)(?<!por\s)` at position `p`. */
  predicate LookbehindOk(s: string, p: nat)
    requires p <= |s|
  {
    && (p == 0 || !IsDigit(s[p - 1]))
    && !(p >= 4 && s[p - 4..p - 1] == "por" && IsSpace(s[p - 1]))
  }

  /** `(\d{0,2})\b` at `c`, with `d` digits tried first and fewer on failure:
      the number of digits taken, if any choice leaves a word boundary. */
  function MinuteDigits(s: string, c: nat, d: nat): (r: Option<nat>)
    requires c + d <= |s|
    ensures r.Some? ==> r.value <= d && WordBoundary(s, c + r.value)
    decreases d
  {
    if WordBoundary(s, c + d) then Some(d)
    else if d == 0 then None
    else MinuteDigits(s, c, d - 1)
  }

  /** The tail `\s*(\d{0,2})\b` from `b`, taking `w` blanks first and fewer on
      failure: where the minutes start and how many digits they have. */
  function TailAt(s: string, b: nat, w: nat): (r: Option<(nat, nat)>)
    requires b + w <= |s|
    ensures r.Some? ==> b <= r.value.0 <= b + w && r.value.0 + r.value.1 <= |s|
    ensures r.Some? ==> r.value.1 <= 2 && forall i :: r.value.0 <= i < r.value.0 + r.value.1 ==> IsDigit(s[i])
    decreases w
  {
    var c := b + w;
    DigitRunSpec(s, c);
    match MinuteDigits(s, c, Min(DigitRun(s, c), 2))
    case Some(d) => Some((c, d))
    case None => if w == 0 then None else TailAt(s, b, w - 1)
  }

  /** Where `(?:oras?)?` may end after the `h` at `a - 1`, in the order the
      greedy group tries them. */
  function SuffixEnds(s: string, a: nat): (ends: seq<nat>)
    requires a <= |s|
    ensures |ends| > 0 && ends[|ends| - 1] == a
    ensures forall i :: 0 <= i < |ends| ==> a <= ends[i] <= |s|
  {
    (if OccursAt(s, "oras", a) then [a + 4] else []) +
    (if OccursAt(s, "ora", a) then [a + 3] else []) +
    [a]
  }

  /** The first suffix end from which the tail matches. */
  function FirstTail(s: string, ends: seq<nat>): (r: Option<(nat, nat)>)
    requires forall i :: 0 <= i < |ends| ==> ends[i] <= |s|
    ensures r.Some? ==> r.value.0 + r.value.1 <= |s| && r.value.1 <= 2
    ensures r.Some? ==> forall i :: r.value.0 <= i < r.value.0 + r.value.1 ==> IsDigit(s[i])
    ensures r.Some? ==> exists i :: 0 <= i < |ends| && ends[i] <= r.value.0
    decreases |ends|
  {
    if |ends| == 0 then None
    else
      match TailAt(s, ends[0], SpaceRun(s, ends[0]))
      case Some(t) => Some(t)
      case None =>
        var r := FirstTail(s, ends[1..]);
        assert r.Some? ==> exists i :: 1 <= i < |ends| && ends[i] <= r.value.0 by {
          if r.Some? {
            var i :| 0 <= i < |ends[1..]| && ends[1..][i] <= r.value.0;
            assert ends[i + 1] <= r.value.0;
          }
        }
        r
  }

  /** `\s*[hH](?:oras?)?\s*(\d{0,2})\b` after the hour digits ending at `q`,
      taking `w` blanks before the `h` first and fewer on failure. */
  function AfterHour(s: string, q: nat, w: nat): (r: Option<(nat, nat)>)
    requires q + w <= |s|
    ensures r.Some? ==> q < r.value.0 && r.value.0 + r.value.1 <= |s| && r.value.1 <= 2
    ensures r.Some? ==> forall i :: r.value.0 <= i < r.value.0 + r.value.1 ==> IsDigit(s[i])
    decreases w
  {
    var k := q + w;
    if k < |s| && IsH(s[k]) && FirstTail(s, SuffixEnds(s, k + 1)).Some? then
      FirstTail(s, SuffixEnds(s, k + 1))
    else if w == 0 then None
    else AfterHour(s, q, w - 1)
  }

  /** One match of the pattern: the hour digits, the minute digits (possibly
      none) and the position after the match. */
  datatype TimeMatch = TimeMatch(hour: string, minute: string, end: nat)

  /** The match with exactly `d` hour digits at `p`, if the rest of the
      pattern follows them. */
  function HourWith(s: string, p: nat, d: nat): (r: Option<TimeMatch>)
    requires 1 <= d <= 2 && p + d <= |s|
    requires forall i :: p <= i < p + d ==> IsDigit(s[i])
    ensures r.Some? ==> r.value.hour == s[p..p + d] && AllDigits(r.value.hour)
    ensures r.Some? ==> |r.value.minute| <= 2 && AllDigits(r.value.minute)
    ensures r.Some? ==> p < r.value.end <= |s|
  {
    match AfterHour(s, p + d, SpaceRun(s, p + d))
    case Some((c, m)) => Some(TimeMatch(s[p..p + d], s[c..c + m], c + m))
    case None => None
  }

  /** `(\d{1,2})` with `d` digits first, one on failure, then the rest. */
  function HourAt(s: string, p: nat, d: nat): (r: Option<TimeMatch>)
    requires 1 <= d <= 2 && p + d <= |s|
    requires forall i :: p <= i < p + d ==> IsDigit(s[i])
    ensures r.Some? ==> 1 <= |r.value.hour| <= d && p + |r.value.hour| <= |s| && r.value.hour == s[p..p + |r.value.hour|]
    ensures r.Some? ==> |r.value.minute| <= 2 && AllDigits(r.value.hour) && AllDigits(r.value.minute)
    ensures r.Some? ==> p < r.value.end <= |s|
  {
    if d == 2 && HourWith(s, p, 2).Some? then HourWith(s, p, 2) else HourWith(s, p, 1)
  }

  /** A match of `TIME_PATTERN` starting at `p`, if there is one. */
  function MatchAt(s: string, p: nat): (r: Option<TimeMatch>)
    requires p <= |s|
    ensures r.Some? ==> p < |s| && LookbehindOk(s, p) && WordBoundary(s, p)
    ensures r.Some? ==> 1 <= |r.value.hour| <= 2 && p + |r.value.hour| <= |s| && r.value.hour == s[p..p + |r.value.hour|]
    ensures r.Some? ==> |r.value.minute| <= 2 && AllDigits(r.value.hour) && AllDigits(r.value.minute)
    ensures r.Some? ==> p < r.value.end <= |s|
  {
    if p < |s| && LookbehindOk(s, p) && WordBoundary(s, p) && DigitRun(s, p) >= 1 then
      DigitRunSpec(s, p);
      HourAt(s, p, Min(DigitRun(s, p), 2))
    else None
  }

  /** The replacement for an hour and minute: `f"{hour:02d}:{minute:02d}"`, or
      `INVALIDO` for an impossible time. */
  function TimeText(hour: nat, minute: nat): (r: string)
    requires hour <= 99 && minute <= 99
    ensures r == Invalid <==> hour > 23 || minute > 59
  {
    if hour > 23 || minute > 59 then Invalid
    else Pad2(hour) + ":" + Pad2(minute)
  }

  /** Reads `HH:MM` back into its hour and minute. */
  function ParseClock(t: string): Option<(nat, nat)> {
    if |t| == 5 && t[2] == ':' && AllDigits(t[..2]) && AllDigits(t[3..]) then
      Some((NumberValue(t[..2]), NumberValue(t[3..])))
    else None
  }

  /** A hint the stage may report: the sentinel, or a possible time of day. */
  predicate IsTimeHint(t: string) {
    t == Invalid ||
    (ParseClock(t).Some? && ParseClock(t).value.0 <= 23 && ParseClock(t).value.1 <= 59)
  }

  /** A possible time is written so that it reads back as itself; an
      impossible one becomes the sentinel, which reads as no time at all. */
  lemma TimeTextRoundTrip(hour: nat, minute: nat)
    requires hour <= 99 && minute <= 99
    ensures hour <= 23 && minute <= 59 ==> ParseClock(TimeText(hour, minute)) == Some((hour, minute))
    ensures ParseClock(TimeText(hour, minute)).None? <==> hour > 23 || minute > 59
    ensures IsTimeHint(TimeText(hour, minute))
  {
    if hour <= 23 && minute <= 59 {
      var t := TimeText(hour, minute);
      assert t[..2] == Pad2(hour) && t[3..] == Pad2(minute);
    }
  }

  /** The text a match is replaced with. */
  function Replacement(m: TimeMatch): (r: string)
    requires |m.hour| <= 2 && |m.minute| <= 2 && AllDigits(m.hour) && AllDigits(m.minute)
    ensures IsTimeHint(r)
  {
    NumberValueBound2(m.hour);
    NumberValueBound2(m.minute);
    TimeTextRoundTrip(NumberValue(m.hour), NumberValue(m.minute));
    TimeText(NumberValue(m.hour), NumberValue(m.minute))
  }

  /** `TIME_PATTERN.sub(replacer, s[p..])`: the text from `p` on with every
      match replaced, and the replacement of the last match. */
  function ScanTimes(s: string, p: nat): (r: Rewritten)
    requires p <= |s|
    ensures r.hint.Some? ==> IsTimeHint(r.hint.value)
    decreases |s| - p
  {
    if p == |s| then Rewritten("", None)
    else
      match MatchAt(s, p)
      case Some(m) =>
        var rest := ScanTimes(s, m.end);
        var text := Replacement(m);
        Rewritten(text + rest.text, if rest.hint.Some? then rest.hint else Some(text))
      case None =>
        var rest := ScanTimes(s, p + 1);
        Rewritten([s[p]] + rest.text, rest.hint)
  }

  /** There is a hint exactly when the pattern matches somewhere from `p` on;
      without one the text is left as it was. */
  lemma {:induction false} ScanTimesHint(s: string, p: nat)
    requires p <= |s|
    ensures ScanTimes(s, p).hint.None? <==> forall q :: p <= q < |s| ==> MatchAt(s, q).None?
    ensures ScanTimes(s, p).hint.None? ==> ScanTimes(s, p).text == s[p..]
    decreases |s| - p
  {
    if p < |s| {
      if MatchAt(s, p).None? {
        ScanTimesHint(s, p + 1);
        DropCons(s, p);
      } else {
        var m := MatchAt(s, p).value;
        ScanTimesHint(s, m.end);
      }
    }
  }

  /** The hint is the replacement of the last match the scan makes: a match
      after which the rest of the text holds none. */
  lemma {:induction false} ScanTimesLastHint(s: string, p: nat)
    requires p <= |s|
    ensures ScanTimes(s, p).hint.Some? ==>
              exists q ::
                && p <= q < |s| && MatchAt(s, q).Some?
                && ScanTimes(s, p).hint == Some(Replacement(MatchAt(s, q).value))
                && ScanTimes(s, MatchAt(s, q).value.end).hint.None?
    decreases |s| - p
  {
    if p < |s| {
      match MatchAt(s, p)
      case Some(m) =>
        ScanTimesLastHint(s, m.end);
      case None =>
        ScanTimesLastHint(s, p + 1);
    }
  }

  /** A match never starts right after a digit or after "por" and a blank. */
  lemma LookbehindBlocks(s: string, p: nat)
    requires p <= |s|
    requires (p > 0 && IsDigit(s[p - 1])) || (p >= 4 && s[p - 4..p - 1] == "por" && IsSpace(s[p - 1]))
    ensures MatchAt(s, p).None?
  {
  }

  /** The hour is the whole run of digits at the start of a match: a run of
      three or more digits never matches. */
  lemma HourIsWholeRun(s: string, p: nat)
    requires p <= |s| && MatchAt(s, p).Some?
    ensures |MatchAt(s, p).value.hour| == DigitRun(s, p)
  {
    var run := DigitRun(s, p);
    DigitRunSpec(s, p);
    if run >= 2 {
      NoHourAfterDigit(s, p + 1);
      if run > 2 {
        NoHourAfterDigit(s, p + 2);
      }
    }
  }

  /** When a digit follows the hour digits, no `h` can be reached. */
  lemma NoHourAfterDigit(s: string, q: nat)
    requires q < |s| && IsDigit(s[q])
    ensures AfterHour(s, q, SpaceRun(s, q)).None?
  {
    assert SpaceRun(s, q) == 0;
  }

  /** A time followed by a non-space character: `(INVALIDO|\d{2}:\d{2})(?=\S)`. */
  predicate ClockAt(s: string, p: nat) {
    p + 5 <= |s| && IsDigit(s[p]) && IsDigit(s[p + 1]) && s[p + 2] == ':' && IsDigit(s[p + 3]) && IsDigit(s[p + 4])
  }

  /** The length of a time that needs a space after it at `p`, or 0. */
  function CrowdedTime(s: string, p: nat): (n: nat)
    ensures n == 0 || n == 5 || n == 8
    ensures n > 0 ==> p + n < |s| && !IsSpace(s[p + n])
  {
    if p + 8 < |s| && s[p] == 'I' && s[p..p + 8] == Invalid && !IsSpace(s[p + 8]) then 8
    else if ClockAt(s, p) && p + 5 < |s| && !IsSpace(s[p + 5]) then 5
    else 0
  }

  /** `s` without its ' ' characters. */
  function WithoutSpaces(s: string): string
    decreases |s|
  {
    if |s| == 0 then "" else (if s[0] == ' ' then "" else [s[0]]) + WithoutSpaces(s[1..])
  }

  lemma {:induction false} WithoutSpacesAppend(a: string, b: string)
    ensures WithoutSpaces(a + b) == WithoutSpaces(a) + WithoutSpaces(b)
    decreases |a|
  {
    if |a| > 0 {
      WithoutSpacesAppend(a[1..], b);
      assert (a + b)[0] == a[0];
      assert (a + b)[1..] == a[1..] + b;
    } else {
      assert a + b == b;
    }
  }

  /** `re.sub(r"(INVALIDO|\d{2}:\d{2})(?=\S)", r"\1 ", s[p..])`. */
  function SeparateTimes(s: string, p: nat): (r: string)
    requires p <= |s|
    ensures |r| >= |s| - p
    decreases |s| - p
  {
    if p == |s| then ""
    else
      var n := CrowdedTime(s, p);
      if n > 0 then s[p..p + n] + " " + SeparateTimes(s, p + n)
      else
        assert s[p..] == [s[p]] + s[p + 1..];
        [s[p]] + SeparateTimes(s, p + 1)
  }

  /** The separation only inserts spaces. */
  lemma {:induction false} SeparateTimesOnlyAddsSpaces(s: string, p: nat)
    requires p <= |s|
    ensures WithoutSpaces(SeparateTimes(s, p)) == WithoutSpaces(s[p..])
    decreases |s| - p
  {
    if p < |s| {
      var n := CrowdedTime(s, p);
      if n > 0 {
        SeparateTimesOnlyAddsSpaces(s, p + n);
        SpaceAddedAfter(s, p);
      } else {
        SeparateTimesOnlyAddsSpaces(s, p + 1);
        NoSpaceAdded(s, p);
      }
    }
  }

  /** One step of the separation where a time gets a space after it. */
  lemma SpaceAddedAfter(s: string, p: nat)
    requires p < |s| && CrowdedTime(s, p) > 0
    requires WithoutSpaces(SeparateTimes(s, p + CrowdedTime(s, p))) == WithoutSpaces(s[p + CrowdedTime(s, p)..])
    ensures WithoutSpaces(SeparateTimes(s, p)) == WithoutSpaces(s[p..])
  {
    var n := CrowdedTime(s, p);
    assert SeparateTimes(s, p) == s[p..p + n] + " " + SeparateTimes(s, p + n);
    SpaceAfterChunk(s[p..p + n], SeparateTimes(s, p + n));
    WithoutSpacesAppend(s[p..p + n], s[p + n..]);
    DropSplit(s, p, p + n);
  }

  /** One step of the separation that copies a character. */
  lemma NoSpaceAdded(s: string, p: nat)
    requires p < |s| && CrowdedTime(s, p) == 0
    requires WithoutSpaces(SeparateTimes(s, p + 1)) == WithoutSpaces(s[p + 1..])
    ensures WithoutSpaces(SeparateTimes(s, p)) == WithoutSpaces(s[p..])
  {
    SeparateTimesStep(s, p);
    WithoutSpacesAppend([s[p]], SeparateTimes(s, p + 1));
    WithoutSpacesAppend([s[p]], s[p + 1..]);
    DropCons(s, p);
  }

  lemma SpaceAfterChunk(chunk: string, rest: string)
    ensures WithoutSpaces(chunk + " " + rest) == WithoutSpaces(chunk) + WithoutSpaces(rest)
  {
    assert chunk + " " + rest == chunk + (" " + rest);
    WithoutSpacesAppend(chunk, " " + rest);
    assert (" " + rest)[1..] == rest;
  }

  /** `b` is `a` with zero or more ' ' characters inserted: every character
      of `a` appears in `b` in order, and every other character of `b` is a
      space. */
  predicate SpacesInserted(a: string, b: string)
    decreases |a| + |b|
  {
    if |b| == 0 then |a| == 0
    else
      (|a| > 0 && a[0] == b[0] && SpacesInserted(a[1..], b[1..]))
      || (b[0] == ' ' && SpacesInserted(a, b[1..]))
  }

  /** Inserting spaces never drops a character: the result is at least as
      long and holds the same characters once spaces are removed. */
  lemma {:induction false} SpacesInsertedSqueeze(a: string, b: string)
    requires SpacesInserted(a, b)
    ensures |a| <= |b|
    ensures WithoutSpaces(a) == WithoutSpaces(b)
    decreases |a| + |b|
  {
    if |b| > 0 {
      if |a| > 0 && a[0] == b[0] && SpacesInserted(a[1..], b[1..]) {
        SpacesInsertedSqueeze(a[1..], b[1..]);
      } else {
        SpacesInsertedSqueeze(a, b[1..]);
      }
    }
  }

  lemma {:induction false} SpacesInsertedRefl(a: string)
    ensures SpacesInserted(a, a)
    decreases |a|
  {
    if |a| > 0 {
      SpacesInsertedRefl(a[1..]);
    }
  }

  /** Insertions into two texts combine into an insertion into their
      concatenation. */
  lemma {:induction false} SpacesInsertedAppend(a1: string, b1: string, a2: string, b2: string)
    requires SpacesInserted(a1, b1) && SpacesInserted(a2, b2)
    ensures SpacesInserted(a1 + a2, b1 + b2)
    decreases |a1| + |b1|
  {
    if |b1| == 0 {
      assert a1 + a2 == a2;
      assert b1 + b2 == b2;
    } else {
      assert (b1 + b2)[0] == b1[0];
      assert (b1 + b2)[1..] == b1[1..] + b2;
      if |a1| > 0 && a1[0] == b1[0] && SpacesInserted(a1[1..], b1[1..]) {
        SpacesInsertedAppend(a1[1..], b1[1..], a2, b2);
        assert (a1 + a2)[0] == a1[0];
        assert (a1 + a2)[1..] == a1[1..] + a2;
      } else {
        SpacesInsertedAppend(a1, b1[1..], a2, b2);
      }
    }
  }

  /** The separation pass turns `s[p..]` into `s[p..]` with spaces inserted,
      and nothing else. */
  lemma {:induction false} SeparateTimesInsertsSpaces(s: string, p: nat)
    requires p <= |s|
    ensures SpacesInserted(s[p..], SeparateTimes(s, p))
    decreases |s| - p
  {
    if p < |s| {
      var n := CrowdedTime(s, p);
      if n > 0 {
        var rest := SeparateTimes(s, p + n);
        SeparateTimesInsertsSpaces(s, p + n);
        assert (" " + rest)[1..] == rest;
        assert SpacesInserted(s[p + n..], " " + rest);
        SpacesInsertedRefl(s[p..p + n]);
        SpacesInsertedAppend(s[p..p + n], s[p..p + n], s[p + n..], " " + rest);
        DropSplit(s, p, p + n);
        AppendAssoc(s[p..p + n], " ", rest);
      } else {
        SeparateTimesInsertsSpaces(s, p + 1);
        SeparateTimesStep(s, p);
        DropCons(s, p);
        var rest := SeparateTimes(s, p + 1);
        assert ([s[p]] + rest)[1..] == rest;
        assert ([s[p]] + s[p + 1..])[1..] == s[p + 1..];
      }
    }
  }

  /** Appending a space is an insertion; dropping one is not. */
  lemma SpacesInsertedSample()
    ensures SpacesInserted("a", "a ")
    ensures !SpacesInserted("a b", "ab")
  {
    assert SpacesInserted("", " ");
    assert ("a ")[1..] == " ";
    assert !SpacesInserted("a b", "ab") by {
      if SpacesInserted("a b", "ab") {
        SpacesInsertedSqueeze("a b", "ab");
      }
    }
  }

  /** `_normalize_time_expressions`: the rewrites of the scan, then a space
      after every time that is directly followed by another character. */
  function NormalizeTimeExpressions(s: string): (r: Rewritten)
    ensures r.hint.Some? ==> IsTimeHint(r.hint.value)
    ensures r.hint.None? <==> forall q :: 0 <= q < |s| ==> MatchAt(s, q).None?
    ensures WithoutSpaces(r.text) == WithoutSpaces(ScanTimes(s, 0).text)
    ensures SpacesInserted(ScanTimes(s, 0).text, r.text)
    ensures Separated(r.text)
  {
    var scanned := ScanTimes(s, 0);
    ScanTimesHint(s, 0);
    SeparateTimesInsertsSpaces(scanned.text, 0);
    SeparateTimesOnlyAddsSpaces(scanned.text, 0);
    SeparateTimesSeparated(scanned.text, 0);
    assert scanned.text[0..] == scanned.text;
    Rewritten(SeparateTimes(scanned.text, 0), scanned.hint)
  }

  /** A text too short to hold a time with a character after it is left
      as it is by the separation. */
  lemma NothingToSeparate(s: string)
    requires |s| <= 5 || (|s| <= 8 && forall i :: 0 <= i < |s| ==> s[i] != ':')
    ensures SeparateTimes(s, 0) == s
  {
    assert forall q :: 0 <= q < |s| ==> CrowdedTime(s, q) == 0;
    SeparateTimesIdentity(s);
  }

  /** A text in which no time needs a space after it is left as it is. */
  lemma SeparateTimesIdentity(s: string)
    requires forall q :: 0 <= q < |s| ==> CrowdedTime(s, q) == 0
    ensures SeparateTimes(s, 0) == s
  {
    SeparateTimesSkips(s, 0, |s|);
    assert s[0..|s|] == s;
  }

  lemma SeparateSample()
    ensures SeparateTimes("14:00no", 0) == "14:00 no"
  {
    var s := "14:00no";
    assert CrowdedTime(s, 0) == 5;
    SeparateTimesChunk(s, 0);
    NotCrowded(s, 5);
    NotCrowded(s, 6);
    SeparateTimesSkips(s, 5, 7);
    assert s[5..7] == "no";
  }

  lemma InvalidStandsAlone()
    ensures SeparateTimes(Invalid, 0) == Invalid
  {
    assert forall i :: 0 <= i < |Invalid| ==> Invalid[i] != ':';
    NothingToSeparate(Invalid);
  }

  lemma AfterHourSample73()
    ensures AfterHour("73h", 2, 0) == Some((3, 0))
  {
    var s := "73h";
    assert SpaceRun(s, 3) == 0 && DigitRun(s, 3) == 0;
    assert TailAt(s, 3, 0) == Some((3, 0));
    assert SuffixEnds(s, 3) == [3];
  }

  lemma MatchSample73()
    ensures MatchAt("73h", 0) == Some(TimeMatch("73", "", 3))
  {
    var s := "73h";
    AfterHourSample73();
    assert SpaceRun(s, 2) == 0 && DigitRun(s, 0) == 2;
    assert s[0..2] == "73" && s[3..3] == "";
  }

  /** `73h`: an hour past 23 becomes the sentinel. */
  lemma ImpossibleHourSample()
    ensures NormalizeTimeExpressions("73h") == Rewritten(Invalid, Some(Invalid))
  {
    ScanSample73();
    InvalidStandsAlone();
  }

  lemma ScanSample73()
    ensures ScanTimes("73h", 0) == Rewritten(Invalid, Some(Invalid))
  {
    MatchSample73();
    assert Replacement(TimeMatch("73", "", 3)) == Invalid;
    assert ScanTimes("73h", 3) == Rewritten("", None);
  }

  lemma AfterHourSample1430()
    ensures AfterHour("14h30", 2, 0) == Some((3, 2))
  {
    var s := "14h30";
    assert SpaceRun(s, 3) == 0 && DigitRun(s, 3) == 2;
    assert MinuteDigits(s, 3, 2) == Some(2);
    assert SuffixEnds(s, 3) == [3];
  }

  lemma MatchSample1430()
    ensures MatchAt("14h30", 0) == Some(TimeMatch("14", "30", 5))
  {
    var s := "14h30";
    AfterHourSample1430();
    assert SpaceRun(s, 2) == 0 && DigitRun(s, 0) == 2;
    assert s[0..2] == "14" && s[3..5] == "30";
  }

  lemma ReplacementSample1430()
    ensures Replacement(TimeMatch("14", "30", 5)) == "14:30"
  {
    assert NumberValue("14") == 14 && NumberValue("30") == 30;
    assert Pad2(14) == "14" && Pad2(30) == "30";
  }

  /** `14h30`: hour and minute are both kept. */
  lemma HourMinuteSample()
    ensures NormalizeTimeExpressions("14h30") == Rewritten("14:30", Some("14:30"))
  {
    ScanSample1430();
    NothingToSeparate("14:30");
  }

  lemma ScanSample1430()
    ensures ScanTimes("14h30", 0) == Rewritten("14:30", Some("14:30"))
  {
    MatchSample1430();
    ReplacementSample1430();
    assert ScanTimes("14h30", 5) == Rewritten("", None);
  }

  /** `por 14h`: an hour announced by "por" is not a time of day. */
  lemma DurationSample()
    ensures NormalizeTimeExpressions("por 14h") == Rewritten("por 14h", None)
  {
    var s := "por 14h";
    DurationNoMatch();
    ScanTimesHint(s, 0);
    assert s[0..] == s;
    DurationUnseparated();
  }

  lemma DurationNoMatch()
    ensures forall q :: 0 <= q < |"por 14h"| ==> MatchAt("por 14h", q).None?
  {
    var s := "por 14h";
    assert s[0..3] == "por";
    LookbehindBlocks(s, 4);
    LookbehindBlocks(s, 5);
    forall q | 0 <= q < |s|
      ensures MatchAt(s, q).None?
    {
      if q != 4 && q != 5 {
        assert DigitRun(s, q) == 0;
      }
    }
  }

  lemma DurationUnseparated()
    ensures SeparateTimes("por 14h", 0) == "por 14h"
  {
    var s := "por 14h";
    assert forall i :: 0 <= i < |s| ==> s[i] != ':';
    NothingToSeparate(s);
  }

  /** Positions where the pattern does not match are copied through. */
  lemma {:induction false} ScanTimesSkips(s: string, p: nat, q: nat)
    requires p <= q <= |s|
    requires forall k :: p <= k < q ==> MatchAt(s, k).None?
    ensures ScanTimes(s, p) == Rewritten(s[p..q] + ScanTimes(s, q).text, ScanTimes(s, q).hint)
    decreases q - p
  {
    if p < q {
      ScanTimesStep(s, p);
      ScanTimesSkips(s, p + 1, q);
      SliceCons(s, p, q);
      AppendAssoc([s[p]], s[p + 1..q], ScanTimes(s, q).text);
    }
  }

  /** At the first match from `p` on, the matched text is replaced by the
      normalised time; everything before it is copied and the scan resumes
      after it. */
  lemma ScanTimesAtMatch(s: string, p: nat, q: nat)
    requires p <= q < |s|
    requires forall k :: p <= k < q ==> MatchAt(s, k).None?
    requires MatchAt(s, q).Some?
    ensures var m := MatchAt(s, q).value;
            ScanTimes(s, p).text == s[p..q] + Replacement(m) + ScanTimes(s, m.end).text
  {
    var m := MatchAt(s, q).value;
    ScanTimesSkips(s, p, q);
    assert ScanTimes(s, q).text == Replacement(m) + ScanTimes(s, m.end).text;
    AppendAssoc(s[p..q], Replacement(m), ScanTimes(s, m.end).text);
  }

  lemma ScanTimesStep(s: string, p: nat)
    requires p < |s| && MatchAt(s, p).None?
    ensures ScanTimes(s, p) == Rewritten([s[p]] + ScanTimes(s, p + 1).text, ScanTimes(s, p + 1).hint)
  {
  }

  /** No match starts at a character that is not a digit. */
  lemma NoMatchAtNonDigit(s: string, q: nat)
    requires q < |s| && !IsDigit(s[q])
    ensures MatchAt(s, q).None?
  {
    assert DigitRun(s, q) == 0;
  }

  /** Positions where no time needs a space after it are copied through. */
  lemma {:induction false} SeparateTimesSkips(s: string, p: nat, q: nat)
    requires p <= q <= |s|
    requires forall k :: p <= k < q ==> CrowdedTime(s, k) == 0
    ensures SeparateTimes(s, p) == s[p..q] + SeparateTimes(s, q)
    decreases q - p
  {
    if p < q {
      SeparateTimesSkips(s, p, q - 1);
      SeparateTimesStep(s, q - 1);
      SliceSnoc(s, p, q);
      AppendAssoc(s[p..q - 1], [s[q - 1]], SeparateTimes(s, q));
    }
  }

  lemma SeparateTimesStep(s: string, p: nat)
    requires p < |s| && CrowdedTime(s, p) == 0
    ensures SeparateTimes(s, p) == [s[p]] + SeparateTimes(s, p + 1)
  {
  }

  /** Neither `INVALIDO` nor `dd:dd` can start at `q`. */
  lemma NotCrowded(s: string, q: nat)
    requires q < |s| ==> s[q] != 'I'
    requires q + 2 < |s| ==> s[q + 2] != ':'
    ensures CrowdedTime(s, q) == 0
  {
  }

  /** No `INVALIDO` or `dd:dd` in `t` is directly followed by a non-space
      character. */
  predicate Separated(t: string) {
    forall q :: 0 <= q < |t| ==> CrowdedTime(t, q) == 0
  }

  /** Whether a time needs a space at a position does not depend on what
      comes before it. */
  lemma CrowdedSuffix(t: string, k: nat, q: nat)
    requires k <= |t|
    ensures CrowdedTime(t[k..], q) == CrowdedTime(t, k + q)
  {
    var u := t[k..];
    if q + 8 < |u| {
      assert u[q..q + 8] == t[k + q..k + q + 8];
    }
  }

  /** Whether a time needs a space at the start depends only on the first
      nine characters. */
  lemma CrowdedPrefix(a: string, b: string)
    requires 9 <= |a| && 9 <= |b| && a[..9] == b[..9]
    ensures CrowdedTime(a, 0) == CrowdedTime(b, 0)
  {
    assert forall i :: 0 <= i < 9 ==> a[i] == a[..9][i] == b[..9][i] == b[i];
    assert a[0..8] == b[0..8];
  }

  lemma SeparatedFrom(t: string, k: nat)
    requires k <= |t|
    requires forall q :: 0 <= q < k ==> CrowdedTime(t, q) == 0
    requires Separated(t[k..])
    ensures Separated(t)
  {
    forall q | k <= q < |t|
      ensures CrowdedTime(t, q) == 0
    {
      CrowdedSuffix(t, k, q - k);
    }
  }

  /** The first position from `p` on where a time needs a space, or `|s|`. */
  function FirstCrowded(s: string, p: nat): (m: nat)
    requires p <= |s|
    ensures p <= m <= |s|
    ensures forall k :: p <= k < m ==> CrowdedTime(s, k) == 0
    ensures m < |s| ==> CrowdedTime(s, m) > 0
    decreases |s| - p
  {
    if p == |s| || CrowdedTime(s, p) > 0 then p else FirstCrowded(s, p + 1)
  }

  /** Up to the first time that needs a space the text is copied; that time
      is copied and followed by one space, and the separation resumes right
      after it. */
  lemma SeparateTimesAtMatch(s: string, p: nat, q: nat)
    requires p <= q < |s|
    requires forall k :: p <= k < q ==> CrowdedTime(s, k) == 0
    requires CrowdedTime(s, q) > 0
    ensures var n := CrowdedTime(s, q);
            SeparateTimes(s, p) == s[p..q] + s[q..q + n] + " " + SeparateTimes(s, q + n)
  {
    var n := CrowdedTime(s, q);
    var rest := SeparateTimes(s, q + n);
    SeparateTimesSkips(s, p, q);
    SeparateTimesChunk(s, q);
    AppendAssoc(s[p..q], s[q..q + n] + " ", rest);
    AppendAssoc(s[p..q], s[q..q + n], " ");
  }

  lemma SeparateTimesChunk(s: string, p: nat)
    requires p < |s| && CrowdedTime(s, p) > 0
    ensures SeparateTimes(s, p) == s[p..p + CrowdedTime(s, p)] + " " + SeparateTimes(s, p + CrowdedTime(s, p))
  {
  }

  /** Where no time needs a space, the separated text either is the input
      or agrees with it on its first `l` characters, at least six, and then
      has a space. */
  lemma SeparatedPrefix(s: string, p: nat) returns (l: nat)
    requires p < |s| && CrowdedTime(s, p) == 0
    ensures var r := SeparateTimes(s, p);
            r == s[p..] || (6 <= l < |r| && p + l <= |s| && r[..l] == s[p..p + l] && r[l] == ' ')
  {
    var m := FirstCrowded(s, p);
    l := 0;
    if m < |s| {
      l := PrefixUpToMatch(s, p, m);
    } else {
      SeparateTimesSkips(s, p, m);
      assert SeparateTimes(s, m) == "";
    }
  }

  lemma PrefixUpToMatch(s: string, p: nat, m: nat) returns (l: nat)
    requires p < m < |s|
    requires forall k :: p <= k < m ==> CrowdedTime(s, k) == 0
    requires CrowdedTime(s, m) > 0
    ensures l == m + CrowdedTime(s, m) - p && 6 <= l && p + l <= |s|
    ensures var r := SeparateTimes(s, p);
            l < |r| && r[..l] == s[p..p + l] && r[l] == ' '
  {
    var n := CrowdedTime(s, m);
    var rest := SeparateTimes(s, m + n);
    SeparateTimesAtMatch(s, p, m);
    l := m + n - p;
    var a := s[p..m] + s[m..m + n];
    assert a == s[p..p + l];
    PrefixBeforeSpace(a, rest);
  }

  lemma PrefixBeforeSpace(a: string, rest: string)
    ensures (a + " " + rest)[..|a|] == a && (a + " " + rest)[|a|] == ' '
    ensures |a + " " + rest| > |a|
  {
  }

  /** Where no time needs a space in the input, none needs one at the start
      of the separated text. */
  lemma SeparatedHead(s: string, p: nat)
    requires p < |s| && CrowdedTime(s, p) == 0
    ensures CrowdedTime(SeparateTimes(s, p), 0) == 0
  {
    var r := SeparateTimes(s, p);
    var l := SeparatedPrefix(s, p);
    CrowdedSuffix(s, p, 0);
    if r != s[p..] {
      if l >= 9 {
        assert r[..9] == r[..l][..9];
        assert s[p..][..9] == s[p..p + l][..9];
        CrowdedPrefix(r, s[p..]);
      } else {
        assert forall i :: 0 <= i < 6 ==> r[i] == r[..l][i] == s[p..p + l][i] == s[p + i];
        assert r[l] == ' ';
      }
    }
  }

  /** A time followed by a space leaves nothing that needs a space up to
      and including that space. */
  lemma ChunkThenSpace(t: string, n: nat)
    requires n < |t| && t[n] == ' '
    requires (n == 8 && t[..8] == Invalid) || (n == 5 && ClockAt(t, 0))
    ensures forall q :: 0 <= q <= n ==> CrowdedTime(t, q) == 0
  {
    if n == 8 {
      assert t[..9] == "INVALIDO ";
      forall q | 0 <= q <= 8
        ensures CrowdedTime(t, q) == 0
      {
        assert t[q] == "INVALIDO "[q];
        if 0 < q && q + 8 < |t| {
          assert t[q..q + 8][8 - q] == ' ';
        }
      }
    }
  }

  /** After the separation no `INVALIDO` or `dd:dd` is directly followed by
      a non-space character. */
  lemma {:induction false} SeparateTimesSeparated(s: string, p: nat)
    requires p <= |s|
    ensures Separated(SeparateTimes(s, p))
    decreases |s| - p
  {
    if p < |s| {
      var r := SeparateTimes(s, p);
      var n := CrowdedTime(s, p);
      if n > 0 {
        var rest := SeparateTimes(s, p + n);
        SeparateTimesSeparated(s, p + n);
        SeparateTimesChunk(s, p);
        assert r[..n] == s[p..p + n] && r[n] == ' ';
        ChunkThenSpace(r, n);
        assert r[n + 1..] == rest;
        SeparatedFrom(r, n + 1);
      } else {
        SeparateTimesSeparated(s, p + 1);
        SeparatedHead(s, p);
        SeparateTimesStep(s, p);
        assert r[1..] == SeparateTimes(s, p + 1);
        SeparatedFrom(r, 1);
      }
    }
  }
}
