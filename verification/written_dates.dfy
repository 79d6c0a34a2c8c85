/**
  `_normalize_written_dates` (core/text_preprocessor.py): every match of
  `WRITTEN_DATE_PATTERN`,

      \b(\d{1,2})\s+de\s+(\w+)\s+de\s+(\d{4})\b      (case-insensitive)

  whose month word, lower-cased, fuzzy-matches a key of `MONTH_MAP` becomes
  `YYYY-MM-DD`, the day zero-filled and not range-checked; any other match is
  put back as it was. The hint is the last date written.

  Each quantifier in the pattern is followed by a character its class cannot
  contain, so backtracking never yields a different match: every run is taken
  whole, and a match exists exactly when the runs line up.
 */
module WrittenDates {
  import opened Wrappers
  import opened Text
  import opened Levenshtein
  import opened Fuzzy
  import opened WrittenDatePattern
  import Calendar

  const MonthMap: Vocabulary<string> := [
    ("janeiro", "01"), ("fevereiro", "02"), ("marco", "03"), ("abril", "04"),
    ("maio", "05"), ("junho", "06"), ("julho", "07"), ("agosto", "08"),
    ("setembro", "09"), ("outubro", "10"), ("novembro", "11"), ("dezembro", "12")]

  /** The month names, in calendar order; none shorter than four letters. */
  function MonthKeys(): (ks: seq<string>)
    ensures |ks| == 12
    ensures forall i :: 0 <= i < |ks| ==> ks[i] == MonthMap[i].0 && |ks[i]| >= 4
  {
    Keys(MonthMap)
  }

  lemma MonthKeysListed()
    ensures MonthKeys() == ["janeiro", "fevereiro", "marco", "abril", "maio", "junho",
                            "julho", "agosto", "setembro", "outubro", "novembro", "dezembro"]
  {
  }

  /** Every month name has at least four letters, so the fuzzy matcher never
      reads the first character of an empty word. */
  lemma MonthMatchDefined(token: string)
    ensures MatchDefined(token, MonthKeys())
  {
  }

  /** Each entry's number is two digits giving its place in the calendar. */
  lemma MonthNumbers()
    ensures forall i :: 0 <= i < |MonthMap| ==>
      |MonthMap[i].1| == 2 && AllDigits(MonthMap[i].1) && NumberValue(MonthMap[i].1) == i + 1
  {
  }

  /** `MONTH_MAP[key]`: the month's number, whose value is the key's place in
      the list. */
  function MonthNumber(key: string): (r: string)
    requires key in MonthKeys()
    ensures |r| == 2 && AllDigits(r) && 1 <= NumberValue(r) <= 12
    ensures MonthKeys()[NumberValue(r) - 1] == key
  {
    MonthNumbers();
    Lookup(MonthMap, key)
  }

  /** The month name a month word stands for, if any. */
  function MonthFor(word: string): (r: Option<string>)
    ensures MatchDefined(Lower(word), MonthKeys())
    ensures r.Some? ==> r.value in MonthKeys()
  {
    MonthMatchDefined(Lower(word));
    FuzzyMatch(Lower(word), MonthKeys())
  }

  /** The replacement for a match: the date when the lower-cased month word
      fuzzy-matches a month name, None when the span is to be put back. */
  function DateReplacement(m: DateMatch): (r: Option<string>)
    requires WellFormed(m)
    ensures r.None? <==> MonthFor(m.month).None?
    ensures r.Some? ==> |r.value| == 10 && r.value[4] == '-' && r.value[7] == '-'
  {
    match MonthFor(m.month)
    case None => None
    case Some(key) => Some(Calendar.DateText(m.year, MonthNumber(key), ZeroFill2(m.day)))
  }

  /** A written date carries the year as written, the number of the month
      named, and the day zero-filled with its value kept, unchecked. */
  lemma DateReplacementFields(m: DateMatch)
    requires WellFormed(m) && DateReplacement(m).Some?
    ensures var r := DateReplacement(m).value;
      && r[..4] == m.year && r[8..] == ZeroFill2(m.day)
      && AllDigits(r[8..]) && NumberValue(r[8..]) == NumberValue(m.day)
      && AllDigits(r[5..7]) && 1 <= NumberValue(r[5..7]) <= 12
      && MonthKeys()[NumberValue(r[5..7]) - 1] == MonthFor(m.month).value
  {
  }

  /** A match at `q` that is turned into a date. */
  predicate Recognized(s: string, q: nat)
    requires q <= |s|
  {
    DateMatchAt(s, q).Some? && DateReplacement(DateMatchAt(s, q).value).Some?
  }

  /** `WRITTEN_DATE_PATTERN.sub(replacer, s[p..])`: the text from `p` on with
      every recognised match replaced, and the last date written. */
  function ScanDates(s: string, p: nat): (r: Rewritten)
    requires p <= |s|
    ensures r.hint.Some? ==> |r.hint.value| == 10 && r.hint.value[4] == '-' && r.hint.value[7] == '-'
    decreases |s| - p
  {
    if p == |s| then Rewritten("", None)
    else
      match DateMatchAt(s, p)
      case Some(m) =>
        var rest := ScanDates(s, m.end);
        (match DateReplacement(m)
         case Some(date) => Rewritten(date + rest.text, if rest.hint.Some? then rest.hint else Some(date))
         case None => Rewritten(s[p..m.end] + rest.text, rest.hint))
      case None =>
        var rest := ScanDates(s, p + 1);
        Rewritten([s[p]] + rest.text, rest.hint)
  }

  /** Without a date written the text is as it was: a match whose month word
      is not recognised is put back unchanged. */
  lemma {:induction false} ScanDatesNoHint(s: string, p: nat)
    requires p <= |s| && ScanDates(s, p).hint.None?
    ensures ScanDates(s, p).text == s[p..]
    decreases |s| - p
  {
    if p < |s| {
      match DateMatchAt(s, p)
      case Some(m) =>
        ScanDatesNoHint(s, m.end);
        DropSplit(s, p, m.end);
      case None =>
        ScanDatesNoHint(s, p + 1);
        DropCons(s, p);
    }
  }

  /** When no match anywhere from `p` on is recognised, no date is written. */
  lemma {:induction false} NothingRecognized(s: string, p: nat)
    requires p <= |s|
    requires forall q :: p <= q < |s| ==> !Recognized(s, q)
    ensures ScanDates(s, p).hint.None?
    decreases |s| - p
  {
    if p < |s| {
      assert !Recognized(s, p);
      match DateMatchAt(s, p)
      case Some(m) =>
        NothingRecognized(s, m.end);
      case None =>
        NothingRecognized(s, p + 1);
    }
  }

  /** The hint is the date of the last recognised match the scan makes: one
      after which the rest of the text writes no date. */
  lemma {:induction false} ScanDatesLastHint(s: string, p: nat)
    requires p <= |s| && ScanDates(s, p).hint.Some?
    ensures exists q ::
              && p <= q < |s| && Recognized(s, q)
              && ScanDates(s, p).hint == DateReplacement(DateMatchAt(s, q).value)
              && ScanDates(s, DateMatchAt(s, q).value.end).hint.None?
    decreases |s| - p
  {
    match DateMatchAt(s, p)
    case Some(m) =>
      if ScanDates(s, m.end).hint.Some? {
        ScanDatesLastHint(s, m.end);
      } else {
        assert Recognized(s, p);
      }
    case None =>
      ScanDatesLastHint(s, p + 1);
  }

  lemma ScanDatesStep(s: string, p: nat)
    requires p < |s| && DateMatchAt(s, p).None?
    ensures ScanDates(s, p) == Rewritten([s[p]] + ScanDates(s, p + 1).text, ScanDates(s, p + 1).hint)
  {
  }

  /** Positions where the pattern does not match are copied through. */
  lemma {:induction false} ScanDatesSkips(s: string, p: nat, q: nat)
    requires p <= q <= |s|
    requires forall k :: p <= k < q ==> DateMatchAt(s, k).None?
    ensures ScanDates(s, p) == Rewritten(s[p..q] + ScanDates(s, q).text, ScanDates(s, q).hint)
    decreases q - p
  {
    if p < q {
      ScanDatesStep(s, p);
      ScanDatesSkips(s, p + 1, q);
      SliceCons(s, p, q);
      AppendAssoc([s[p]], s[p + 1..q], ScanDates(s, q).text);
    }
  }

  /** At the first match from `p` on, the matched text is replaced by the
      date when the month word is recognised and kept as it was otherwise;
      everything before it is copied and the scan resumes after it. */
  lemma ScanDatesAtMatch(s: string, p: nat, q: nat)
    requires p <= q < |s|
    requires forall k :: p <= k < q ==> DateMatchAt(s, k).None?
    requires DateMatchAt(s, q).Some?
    ensures var m := DateMatchAt(s, q).value;
            ScanDates(s, p).text
            == s[p..q] + (if DateReplacement(m).Some? then DateReplacement(m).value else s[q..m.end])
               + ScanDates(s, m.end).text
  {
    var m := DateMatchAt(s, q).value;
    ScanDatesSkips(s, p, q);
    var x := if DateReplacement(m).Some? then DateReplacement(m).value else s[q..m.end];
    assert ScanDates(s, q).text == x + ScanDates(s, m.end).text;
    AppendAssoc(s[p..q], x, ScanDates(s, m.end).text);
  }

  /** `_normalize_written_dates`. */
  function NormalizeWrittenDates(s: string): (r: Rewritten)
    ensures r.hint.Some? ==> |r.hint.value| == 10 && r.hint.value[4] == '-' && r.hint.value[7] == '-'
    ensures r.hint.None? ==> r.text == s
    ensures (forall q :: 0 <= q < |s| ==> !Recognized(s, q)) ==> r == Rewritten(s, None)
  {
    var r := ScanDates(s, 0);
    if r.hint.None? then
      ScanDatesNoHint(s, 0);
      assert s[0..] == s;
      NothingRecognizedUnchanged(s);
      r
    else
      NothingRecognizedUnchanged(s);
      r
  }

  lemma NothingRecognizedUnchanged(s: string)
    ensures (forall q :: 0 <= q < |s| ==> !Recognized(s, q)) ==> ScanDates(s, 0) == Rewritten(s, None)
  {
    if forall q :: 0 <= q < |s| ==> !Recognized(s, q) {
      NothingRecognized(s, 0);
      NoHintWhole(s);
    }
  }

  /** A scan of the whole text that writes no date gives the text back. */
  lemma NoHintWhole(s: string)
    requires ScanDates(s, 0).hint.None?
    ensures ScanDates(s, 0) == Rewritten(s, None)
  {
    ScanDatesNoHint(s, 0);
    DropNothing(s);
  }

  lemma MisspeltMonthQualifies()
    ensures Qualifies("feverero", "fevereiro")
  {
    InsertOne("fevere", 'i', "ro");
    assert "fevere" + "ro" == "feverero";
    assert "fevere" + ['i'] + "ro" == "fevereiro";
  }

  lemma OnlyFevereiroPasses()
    ensures forall i :: 0 <= i < |MonthKeys()| && MonthKeys()[i] != "fevereiro" ==>
      !PassesFilter("feverero", MonthKeys()[i])
  {
    MonthKeysListed();
  }

  /** `feverero` is one letter short of `fevereiro`, the only month name that
      survives the pre-filter. */
  lemma MisspeltMonthFound()
    ensures MonthFor("feverero") == Some("fevereiro")
  {
    var w := "feverero";
    assert Lower(w) == w;
    MonthKeysListed();
    assert w !in MonthKeys();
    MonthMatchDefined(w);
    FuzzyMatchSpec(w, MonthKeys());
    MisspeltMonthQualifies();
    assert "fevereiro" in MonthKeys();
    OnlyFevereiroPasses();
    var k := FuzzyMatch(w, MonthKeys()).value;
    var i :| 0 <= i < |MonthKeys()| && MonthKeys()[i] == k;
  }

  lemma FebruaryNumber()
    ensures "fevereiro" in MonthKeys() && MonthNumber("fevereiro") == "02"
  {
    MonthKeysListed();
  }

  lemma WrittenDateReplacementSample()
    ensures DateReplacement(DateMatch("5", "feverero", "2025", 21)) == Some("2025-02-05")
  {
    MisspeltMonthFound();
    FebruaryNumber();
    FifthOfFebruary();
  }

  lemma FifthOfFebruary()
    ensures Calendar.DateText("2025", "02", ZeroFill2("5")) == "2025-02-05"
  {
    assert ZeroFill2("5") == "05";
  }

  /** `5 de feverero de 2025`: a misspelt month is still recognised. */
  lemma WrittenDateSample()
    ensures NormalizeWrittenDates("5 de feverero de 2025") == Rewritten("2025-02-05", Some("2025-02-05"))
  {
    var s := "5 de feverero de 2025";
    WrittenDateMatchSample();
    WrittenDateReplacementSample();
    assert ScanDates(s, 21) == Rewritten("", None);
  }
}
