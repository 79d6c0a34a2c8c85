/**
  The deterministic parts of `IncidentExtractor` (core/incident_extractor.py):
  the hints block put into the prompt, the override of an impossible hour,
  and `extract` around a language model that is a parameter here.
 */
module Extractor {
  import opened Wrappers
  import opened Text
  import opened Calendar
  import opened TimeExpressions
  import opened Preprocessor

  /** `Incident` (model/incident.py): four optional strings. */
  datatype Incident = Incident(
    dataOcorrencia: Option<string>,
    local: Option<string>,
    tipoIncidente: Option<string>,
    impacto: Option<string>)

  const HintsHeader := "Informações pré-extraídas pelo sistema:"
  const ContextLabel := "\nContexto adicional: "

  /** One `- key: value` line per hint, in the order of the hints. */
  function HintLines(hints: Hints): (lines: seq<string>)
    ensures |lines| == |hints|
    decreases |hints|
  {
    if |hints| == 0 then []
    else ["- " + hints[0].0 + ": " + hints[0].1] + HintLines(hints[1..])
  }

  /** `_build_hints_block`: the header, the hint lines and the extra context,
      joined by line breaks; nothing at all when there is neither a hint nor
      a context. */
  function BuildHintsBlock(hints: Hints, extraContext: string): (r: string)
    ensures r == "" <==> |hints| == 0 && |extraContext| == 0
  {
    if |hints| == 0 && |extraContext| == 0 then ""
    else
      JoinPrefixed(HintsHeader, HintLines(hints) + ContextLine(extraContext), "\n");
      Join([HintsHeader] + (HintLines(hints) + ContextLine(extraContext)), "\n")
  }

  /** The context line, when there is a context. */
  function ContextLine(extraContext: string): seq<string> {
    if |extraContext| > 0 then [ContextLabel + extraContext] else []
  }

  /** The context as the end of the block: a blank line, then the context. */
  function ContextText(extraContext: string): string {
    if |extraContext| > 0 then "\n" + ContextLabel + extraContext else ""
  }

  /** Every string of `ws`, each preceded by `sep`. */
  function Prefixed(ws: seq<string>, sep: string): string
    decreases |ws|
  {
    if |ws| == 0 then "" else sep + ws[0] + Prefixed(ws[1..], sep)
  }

  /** Joining is the first string followed by every other one behind a separator. */
  lemma {:induction false} JoinPrefixed(first: string, ws: seq<string>, sep: string)
    ensures Join([first] + ws, sep) == first + Prefixed(ws, sep)
    decreases |ws|
  {
    if |ws| > 0 {
      JoinPrefixed(ws[0], ws[1..], sep);
      assert ([first] + ws)[1..] == [ws[0]] + ws[1..];
    }
  }

  lemma {:induction false} PrefixedAppend(a: seq<string>, b: seq<string>, sep: string)
    ensures Prefixed(a + b, sep) == Prefixed(a, sep) + Prefixed(b, sep)
    decreases |a|
  {
    if |a| > 0 {
      PrefixedAppend(a[1..], b, sep);
      assert (a + b)[1..] == a[1..] + b;
    } else {
      assert a + b == b;
    }
  }

  /** The hints as the block lists them: a line break, `- `, the key, `: `
      and the value, for each hint in turn. */
  function HintsText(hints: Hints): string
    decreases |hints|
  {
    if |hints| == 0 then "" else "\n- " + hints[0].0 + ": " + hints[0].1 + HintsText(hints[1..])
  }

  lemma {:induction false} HintLinesText(hints: Hints)
    ensures Prefixed(HintLines(hints), "\n") == HintsText(hints)
    decreases |hints|
  {
    if |hints| > 0 {
      HintLinesText(hints[1..]);
      assert HintLines(hints)[1..] == HintLines(hints[1..]);
    }
  }

  /** The lines after the header, as text. */
  lemma BlockBody(hints: Hints, context: seq<string>)
    ensures Prefixed(HintLines(hints) + context, "\n") == HintsText(hints) + Prefixed(context, "\n")
  {
    PrefixedAppend(HintLines(hints), context, "\n");
    HintLinesText(hints);
  }

  lemma ContextLineText(extraContext: string)
    ensures Prefixed(ContextLine(extraContext), "\n") == ContextText(extraContext)
  {
    if |extraContext| > 0 {
      assert Prefixed(ContextLine(extraContext), "\n") == "\n" + ContextLabel + extraContext + Prefixed([], "\n");
    }
  }

  /** The block read as text: the header, then each hint on its own line in
      order, then a blank line and the context when there is one. */
  lemma HintsBlockLayout(hints: Hints, extraContext: string)
    requires |hints| > 0 || |extraContext| > 0
    ensures BuildHintsBlock(hints, extraContext) == HintsHeader + (HintsText(hints) + ContextText(extraContext))
    ensures StartsWith(BuildHintsBlock(hints, extraContext), HintsHeader)
  {
    JoinPrefixed(HintsHeader, HintLines(hints) + ContextLine(extraContext), "\n");
    BlockBody(hints, ContextLine(extraContext));
    ContextLineText(extraContext);
    var r := BuildHintsBlock(hints, extraContext);
    assert r[..|HintsHeader|] == HintsHeader;
  }

  /** With no hints only the context follows the header. */
  lemma ContextOnlyBlock(extraContext: string)
    requires |extraContext| > 0
    ensures BuildHintsBlock([], extraContext) == HintsHeader + ("\n" + ContextLabel + extraContext)
  {
    HintsBlockLayout([], extraContext);
    assert HintsText([]) + ContextText(extraContext) == "\n" + ContextLabel + extraContext;
  }

  // `_fix_invalid_time`: the pattern `\b([2-9]\d|\d{3,})h\b`.

  /** The pattern as `re` matches it at `p`: the whole run of digits there is
      taken (an `h` cannot be a digit, so no shorter choice can be followed by
      one), and it must be two digits starting with 2 to 9, or three or more. */
  predicate InvalidHourAt(s: string, p: nat)
    requires p <= |s|
  {
    var n := DigitRun(s, p);
    && WordBoundary(s, p)
    && ((n == 2 && '2' <= s[p] <= '9') || n >= 3)
    && p + n < |s| && s[p + n] == 'h'
    && WordBoundary(s, p + n + 1)
  }

  /** `n` digits from `p`, either two starting with 2 to 9 or at least
      three, then `h` and a word boundary. */
  ghost predicate HourDigitsAt(s: string, p: nat, n: nat) {
    && p + n < |s|
    && (forall i :: p <= i < p + n ==> IsDigit(s[i]))
    && ((n == 2 && '2' <= s[p] <= '9') || n >= 3)
    && s[p + n] == 'h'
    && WordBoundary(s, p + n + 1)
  }

  /** The pattern read literally: a word boundary, then some number of
      digits as `HourDigitsAt` describes them. */
  ghost predicate ImpossibleHourAt(s: string, p: nat) {
    p <= |s| && WordBoundary(s, p) && exists n: nat :: HourDigitsAt(s, p, n)
  }

  /** The scanner and the literal reading agree. */
  lemma InvalidHourAtMeans(s: string, p: nat)
    requires p <= |s|
    ensures InvalidHourAt(s, p) <==> ImpossibleHourAt(s, p)
  {
    DigitRunSpec(s, p);
    if ImpossibleHourAt(s, p) {
      var n: nat :| HourDigitsAt(s, p, n);
      DigitRunIs(s, p, n);
    }
    if InvalidHourAt(s, p) {
      assert HourDigitsAt(s, p, DigitRun(s, p));
    }
  }

  /** `pattern.search(s[p..])`: where the first match from `p` on starts. */
  function FindInvalidHour(s: string, p: nat): (r: Option<nat>)
    requires p <= |s|
    ensures r.Some? ==> p <= r.value < |s| && InvalidHourAt(s, r.value)
    decreases |s| - p
  {
    if p == |s| then None
    else if InvalidHourAt(s, p) then Some(p)
    else FindInvalidHour(s, p + 1)
  }

  /** The search fails only when the pattern matches nowhere from `p` on. */
  lemma {:induction false} FindInvalidHourNone(s: string, p: nat)
    requires p <= |s|
    ensures FindInvalidHour(s, p).None? <==> forall q :: p <= q < |s| ==> !InvalidHourAt(s, q)
    decreases |s| - p
  {
    if p < |s| {
      FindInvalidHourNone(s, p + 1);
    }
  }

  /** The lower-cased text shows an impossible hour somewhere. */
  ghost predicate HasImpossibleHour(text: string) {
    exists p :: 0 <= p < |text| && ImpossibleHourAt(Lower(text), p)
  }

  lemma SearchMeans(text: string)
    ensures FindInvalidHour(Lower(text), 0).Some? <==> HasImpossibleHour(text)
  {
    var s := Lower(text);
    FindInvalidHourNone(s, 0);
    match FindInvalidHour(s, 0)
    case Some(p) =>
      InvalidHourAtMeans(s, p);
    case None =>
      forall q | 0 <= q < |s|
        ensures !ImpossibleHourAt(s, q)
      {
        InvalidHourAtMeans(s, q);
      }
  }

  /** `_fix_invalid_time`: `INVALIDO` whenever the original text, lower-cased,
      shows an impossible hour, whatever the model answered; the model's
      answer untouched otherwise. */
  function FixInvalidTime(dataOcorrencia: Option<string>, originalText: string): (r: Option<string>)
    ensures r == (if HasImpossibleHour(originalText) then Some(Invalid) else dataOcorrencia)
  {
    SearchMeans(originalText);
    if FindInvalidHour(Lower(originalText), 0).Some? then Some(Invalid) else dataOcorrencia
  }

  /** What `extract` ends in: the incident, the `RuntimeError` raised when
      the model call fails, or the error the preprocessing lets escape. */
  datatype Extraction = Extracted(incident: Incident) | ModelFailed | PreprocessFailed

  /** `extract`: the preprocessed text and the hints block go to the model
      (`llm`, `None` for a failed call); only the occurrence date of its
      answer is then checked against the original text. */
  function Extract(text: string, extraContext: string, reference: Date, fold: string -> string,
                   llm: (string, string) -> Option<Incident>): (r: Extraction)
    requires Valid(reference)
    ensures r.PreprocessFailed? <==> Preprocess(text, reference, fold).DateOutOfRange?
    ensures r.Extracted? ==>
              var p := Preprocess(text, reference, fold);
              var answer := llm(p.cleanedText, BuildHintsBlock(p.hints, extraContext));
              && answer.Some?
              && r.incident.local == answer.value.local
              && r.incident.tipoIncidente == answer.value.tipoIncidente
              && r.incident.impacto == answer.value.impacto
              && r.incident.dataOcorrencia ==
                 (if HasImpossibleHour(text) then Some(Invalid) else answer.value.dataOcorrencia)
    ensures r.ModelFailed? ==>
              var p := Preprocess(text, reference, fold);
              p.Preprocessed? && llm(p.cleanedText, BuildHintsBlock(p.hints, extraContext)).None?
  {
    match Preprocess(text, reference, fold)
    case DateOutOfRange => PreprocessFailed
    case Preprocessed(cleanedText, hints) =>
      match llm(cleanedText, BuildHintsBlock(hints, extraContext))
      case None => ModelFailed
      case Some(answer) =>
        Extracted(Incident(FixInvalidTime(answer.dataOcorrencia, text), answer.local, answer.tipoIncidente, answer.impacto))
  }

  // Examples.

  /** A string of digits and `h` as written. */
  lemma LowerKeeps(s: string)
    requires forall i :: 0 <= i < |s| ==> IsDigit(s[i]) || ('a' <= s[i] <= 'z') || s[i] == ' '
    ensures Lower(s) == s
  {
    assert forall i :: 0 <= i < |s| ==> LowerChar(s[i]) == s[i];
  }

  /** `20h`: two digits from 2 on, then `h`, then the end. */
  lemma TwentyHours()
    ensures HasImpossibleHour("20h")
  {
    var s := "20h";
    LowerKeeps(s);
    DigitRunIs(s, 0, 2);
    assert InvalidHourAt(s, 0);
    InvalidHourAtMeans(s, 0);
  }

  /** 20h to 23h are overridden, although the time stage reads them as a
      valid time of day. */
  lemma TwentyHoursOverridden(answer: Option<string>)
    ensures FixInvalidTime(answer, "20h") == Some(Invalid)
    ensures NormalizeTimeExpressions("20h") == Rewritten("20:00", Some("20:00"))
  {
    TwentyHours();
    TwentyHoursTime();
  }

  lemma TwentyHoursAfterHour()
    ensures AfterHour("20h", 2, 0) == Some((3, 0))
  {
    var s := "20h";
    assert SpaceRun(s, 3) == 0 && DigitRun(s, 3) == 0;
    assert TailAt(s, 3, 0) == Some((3, 0));
    assert SuffixEnds(s, 3) == [3];
  }

  lemma TwentyHoursMatch()
    ensures MatchAt("20h", 0) == Some(TimeMatch("20", "", 3))
  {
    var s := "20h";
    TwentyHoursAfterHour();
    assert SpaceRun(s, 2) == 0 && DigitRun(s, 0) == 2;
    assert s[0..2] == "20" && s[3..3] == "";
  }

  lemma TwentyHoursReplacement()
    ensures Replacement(TimeMatch("20", "", 3)) == "20:00"
  {
    assert NumberValue("20") == 20 && NumberValue("") == 0;
    assert Pad2(20) == "20" && Pad2(0) == "00";
  }

  lemma TwentyHoursScan()
    ensures ScanTimes("20h", 0) == Rewritten("20:00", Some("20:00"))
  {
    TwentyHoursMatch();
    TwentyHoursReplacement();
    assert ScanTimes("20h", 3) == Rewritten("", None);
  }

  lemma TwentyHoursTime()
    ensures NormalizeTimeExpressions("20h") == Rewritten("20:00", Some("20:00"))
  {
    TwentyHoursScan();
    NothingToSeparate("20:00");
  }

  /** No match anywhere in a text. */
  lemma NoImpossibleHour(text: string)
    requires forall q :: 0 <= q < |text| ==> !InvalidHourAt(Lower(text), q)
    ensures !HasImpossibleHour(text)
  {
    FindInvalidHourNone(Lower(text), 0);
    SearchMeans(text);
  }

  /** `25h30`: a digit follows the `h`, so there is no boundary after it. */
  lemma HourWithMinutesKept(answer: Option<string>)
    ensures FixInvalidTime(answer, "25h30") == answer
  {
    var s := "25h30";
    LowerKeeps(s);
    DigitRunIs(s, 0, 2);
    DigitRunIs(s, 3, 2);
    NoImpossibleHour(s);
  }

  /** `73horas`: a letter follows the `h`. */
  lemma HoursWordKept(answer: Option<string>)
    ensures FixInvalidTime(answer, "73horas") == answer
  {
    var s := "73horas";
    LowerKeeps(s);
    DigitRunIs(s, 0, 2);
    NoImpossibleHour(s);
  }

  const ImpossibleReport := "erro ocorrido as 99h"
  const PossibleReport := "erro ocorrido as 14h"

  /** The words of the reports, which hold no digit. */
  lemma ReportPrefix()
    ensures forall i :: 0 <= i < 17 ==> !IsDigit("erro ocorrido as "[i])
    ensures "erro ocorrido as "[16] == ' '
  {
  }

  lemma ReportLower(t: string)
    requires |t| == 3 && IsDigit(t[0]) && IsDigit(t[1]) && t[2] == 'h'
    ensures Lower("erro ocorrido as " + t) == "erro ocorrido as " + t
  {
    var s := "erro ocorrido as " + t;
    forall i | 0 <= i < |s|
      ensures LowerChar(s[i]) == s[i]
    {
      if i < 17 {
        assert s[i] == "erro ocorrido as "[i];
      }
    }
  }

  /** `erro ocorrido as 99h`: the model's answer is overridden. */
  lemma ImpossibleReportOverridden()
    ensures FixInvalidTime(Some("2026-02-23 14:00"), "erro ocorrido as 99h") == Some("INVALIDO")
  {
    var s := "erro ocorrido as " + "99h";
    assert s == ImpossibleReport;
    ReportPrefix();
    ReportLower("99h");
    DigitRunIs(s, 17, 2);
    assert InvalidHourAt(s, 17);
    InvalidHourAtMeans(s, 17);
  }

  /** `erro ocorrido as 14h`: the model's answer is kept. */
  lemma PossibleReportKept()
    ensures FixInvalidTime(Some("2026-02-23 14:00"), "erro ocorrido as 14h") == Some("2026-02-23 14:00")
  {
    var s := "erro ocorrido as " + "14h";
    assert s == PossibleReport;
    ReportPrefix();
    ReportLower("14h");
    forall q | 0 <= q < |s|
      ensures !InvalidHourAt(s, q)
    {
      if q < 17 {
        assert s[q] == "erro ocorrido as "[q];
      } else if q == 17 {
        DigitRunIs(s, 17, 2);
      }
    }
    NoImpossibleHour(s);
  }
}
