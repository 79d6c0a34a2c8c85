/**
  `WRITTEN_DATE_PATTERN` (core/text_preprocessor.py),

      \b(\d{1,2})\s+de\s+(\w+)\s+de\s+(\d{4})\b      (case-insensitive)

  as a matcher at one position. Each quantifier in the pattern is followed by
  a character its class cannot contain, so backtracking never yields a
  different match: every run is taken whole, and a match exists exactly when
  the runs line up.
 */
module WrittenDatePattern {
  import opened Wrappers
  import opened Text

  /** `de` under IGNORECASE at `k`. */
  predicate DeAt(s: string, k: nat) {
    k + 2 <= |s| && LowerChar(s[k]) == 'd' && LowerChar(s[k + 1]) == 'e'
  }

  /** One match: the day digits, the month word, the year digits, and the
      position after the match. */
  datatype DateMatch = DateMatch(day: string, month: string, year: string, end: nat)

  /** The shape every match has. */
  predicate WellFormed(m: DateMatch) {
    && 1 <= |m.day| <= 2 && AllDigits(m.day)
    && |m.month| > 0
    && |m.year| == 4 && AllDigits(m.year)
  }

  /** `\s+de\s+` from `k`: the position after it, if it is there. */
  function DeGap(s: string, k: nat): (r: Option<nat>)
    requires k <= |s|
    ensures r.Some? ==> k + 4 <= r.value <= |s|
  {
    var w := SpaceRun(s, k);
    if w >= 1 && DeAt(s, k + w) && SpaceRun(s, k + w + 2) >= 1 then
      Some(k + w + 2 + SpaceRun(s, k + w + 2))
    else None
  }

  /** `(\w+)\s+de\s+(\d{4})\b` from `c`: the match with the month word and
      the year, its day still to be filled in. */
  function MonthAndYear(s: string, c: nat): (r: Option<DateMatch>)
    requires c <= |s|
    ensures r.Some? ==> |r.value.month| > 0 && |r.value.year| == 4 && AllDigits(r.value.year)
    ensures r.Some? ==> c < r.value.end <= |s| && WordBoundary(s, r.value.end)
  {
    var n := WordRun(s, c);
    if n == 0 then None
    else
      match DeGap(s, c + n)
      case None => None
      case Some(g) =>
        if DigitRun(s, g) >= 4 && WordBoundary(s, g + 4) then
          DigitRunSpec(s, g);
          Some(DateMatch("", s[c..c + n], s[g..g + 4], g + 4))
        else None
  }

  /** A match of `WRITTEN_DATE_PATTERN` starting at `p`, if there is one. */
  function DateMatchAt(s: string, p: nat): (r: Option<DateMatch>)
    requires p <= |s|
    ensures r.Some? ==> WellFormed(r.value) && p < r.value.end <= |s|
    ensures r.Some? ==> WordBoundary(s, p) && WordBoundary(s, r.value.end)
  {
    if p == |s| || !WordBoundary(s, p) || !(1 <= DigitRun(s, p) <= 2) then None
    else
      var d := DigitRun(s, p);
      DigitRunSpec(s, p);
      match DeGap(s, p + d)
      case None => None
      case Some(c) =>
        match MonthAndYear(s, c)
        case None => None
        case Some(m) => Some(DateMatch(s[p..p + d], m.month, m.year, m.end))
  }

  /** `\s+de\s+` written with single blanks, before a non-blank. */
  lemma DeGapOver(s: string, k: nat)
    requires k + 4 <= |s| && s[k..k + 4] == " de "
    requires k + 4 < |s| ==> !IsSpace(s[k + 4])
    ensures DeGap(s, k) == Some(k + 4)
  {
    assert s[k] == ' ' && s[k + 1] == 'd' && s[k + 2] == 'e' && s[k + 3] == ' ' by {
      assert forall i :: k <= i < k + 4 ==> s[i] == s[k..k + 4][i - k];
    }
    SpaceRunIs(s, k, 1);
    SpaceRunIs(s, k + 3, 1);
  }

  /** Characters of the class at every position of a slice. */
  lemma SliceWordChars(s: string, k: nat, w: string)
    requires k + |w| <= |s| && s[k..k + |w|] == w
    requires forall i :: 0 <= i < |w| ==> IsWordChar(w[i])
    ensures forall i :: k <= i < k + |w| ==> IsWordChar(s[i])
  {
    forall i | k <= i < k + |w|
      ensures IsWordChar(s[i])
    {
      assert s[i] == w[i - k];
    }
  }

  lemma SliceDigits(s: string, k: nat, w: string)
    requires k + |w| <= |s| && s[k..k + |w|] == w && AllDigits(w)
    ensures forall i :: k <= i < k + |w| ==> IsDigit(s[i])
  {
    forall i | k <= i < k + |w|
      ensures IsDigit(s[i])
    {
      assert s[i] == w[i - k];
    }
  }

  lemma MonthAndYearFrom(s: string, c: nat, n: nat, g: nat)
    requires c <= |s| && WordRun(s, c) == n && n > 0 && DeGap(s, c + n) == Some(g)
    requires DigitRun(s, g) >= 4 && WordBoundary(s, g + 4)
    ensures MonthAndYear(s, c) == Some(DateMatch("", s[c..c + n], s[g..g + 4], g + 4))
  {
  }

  /** The tail of a written date from its month word on. */
  lemma MonthAndYearOver(s: string, c: nat, w: string, y: string)
    requires c + |w| + 8 <= |s|
    requires |w| > 0 && forall i :: 0 <= i < |w| ==> IsWordChar(w[i])
    requires |y| == 4 && AllDigits(y)
    requires s[c..c + |w|] == w && s[c + |w|..c + |w| + 4] == " de " && s[c + |w| + 4..c + |w| + 8] == y
    requires c + |w| + 8 < |s| ==> !IsWordChar(s[c + |w| + 8])
    ensures MonthAndYear(s, c) == Some(DateMatch("", w, y, c + |w| + 8))
  {
    var e := c + |w|;
    var g := e + 4;
    assert WordRun(s, c) == |w| by {
      SliceWordChars(s, c, w);
      assert s[e] == s[e..e + 4][0];
      WordRunIs(s, c, |w|);
    }
    assert DigitRun(s, g) >= 4 && WordBoundary(s, g + 4) by {
      SliceDigits(s, g, y);
      DigitRunIs(s, g, 4);
      assert IsWordChar(s[g + 3]);
    }
    assert DeGap(s, e) == Some(g) by {
      assert s[g] == y[0];
      DeGapOver(s, e);
    }
    MonthAndYearFrom(s, c, |w|, g);
    MonthAndYearNamed(s, c, w, y, g);
  }

  lemma MonthAndYearNamed(s: string, c: nat, w: string, y: string, g: nat)
    requires c + |w| + 8 <= |s| && g == c + |w| + 4
    requires s[c..c + |w|] == w && s[g..g + 4] == y
    requires MonthAndYear(s, c) == Some(DateMatch("", s[c..c + |w|], s[g..g + 4], g + 4))
    ensures MonthAndYear(s, c) == Some(DateMatch("", w, y, c + |w| + 8))
  {
  }

  lemma DateMatchFrom(s: string, p: nat, d: nat, c: nat, m: DateMatch)
    requires p < |s| && WordBoundary(s, p) && DigitRun(s, p) == d && 1 <= d <= 2
    requires DeGap(s, p + d) == Some(c) && MonthAndYear(s, c) == Some(m)
    ensures DateMatchAt(s, p) == Some(DateMatch(s[p..p + d], m.month, m.year, m.end))
  {
    assert DeGap(s, p + DigitRun(s, p)) == Some(c);
  }

  /** Any written date is matched where it starts: one or two day digits,
      `de`, a month word, `de` and four year digits, not followed by a word
      character. */
  lemma WrittenDateMatches(d: string, w: string, y: string, rest: string)
    requires 1 <= |d| <= 2 && AllDigits(d)
    requires |w| > 0 && forall i :: 0 <= i < |w| ==> IsWordChar(w[i])
    requires |y| == 4 && AllDigits(y)
    requires |rest| > 0 ==> !IsWordChar(rest[0])
    ensures DateMatchAt(d + " de " + w + " de " + y + rest, 0) == Some(DateMatch(d, w, y, |d| + |w| + 12))
  {
    var s := d + " de " + w + " de " + y + rest;
    var c := |d| + 4;
    assert s[..|d|] == d && s[|d|..c] == " de " && s[c..c + |w|] == w;
    assert s[c + |w|..c + |w| + 4] == " de " && s[c + |w| + 4..c + |w| + 8] == y;
    assert c + |w| + 8 < |s| ==> s[c + |w| + 8] == rest[0];
    WrittenDateMatchesAt(s, d, w, y);
  }

  lemma WrittenDateMatchesAt(s: string, d: string, w: string, y: string)
    requires 1 <= |d| <= 2 && AllDigits(d)
    requires |w| > 0 && forall i :: 0 <= i < |w| ==> IsWordChar(w[i])
    requires |y| == 4 && AllDigits(y)
    requires |d| + |w| + 12 <= |s|
    requires s[..|d|] == d && s[|d|..|d| + 4] == " de " && s[|d| + 4..|d| + 4 + |w|] == w
    requires s[|d| + 4 + |w|..|d| + |w| + 8] == " de " && s[|d| + |w| + 8..|d| + |w| + 12] == y
    requires |d| + |w| + 12 < |s| ==> !IsWordChar(s[|d| + |w| + 12])
    ensures DateMatchAt(s, 0) == Some(DateMatch(d, w, y, |d| + |w| + 12))
  {
    var c := |d| + 4;
    MonthAndYearOver(s, c, w, y);
    DayAndGap(s, d, w[0]);
    DateMatchFrom(s, 0, |d|, c, DateMatch("", w, y, c + |w| + 8));
    DateMatchNamed(s, d, DateMatch("", w, y, c + |w| + 8));
  }

  /** The day digits of a written date and the `de` after them. */
  lemma DayAndGap(s: string, d: string, m: char)
    requires 1 <= |d| <= 2 && AllDigits(d) && IsWordChar(m)
    requires |d| + 5 <= |s| && s[..|d|] == d && s[|d|..|d| + 4] == " de " && s[|d| + 4] == m
    ensures WordBoundary(s, 0) && DigitRun(s, 0) == |d| && DeGap(s, |d|) == Some(|d| + 4)
  {
    SliceDigits(s, 0, d);
    assert s[|d|] == s[|d|..|d| + 4][0];
    DigitRunIs(s, 0, |d|);
    DeGapOver(s, |d|);
    assert s[0] == d[0];
  }

  lemma DateMatchNamed(s: string, d: string, m: DateMatch)
    requires |d| <= |s| && s[..|d|] == d
    requires DateMatchAt(s, 0) == Some(DateMatch(s[0..|d|], m.month, m.year, m.end))
    ensures DateMatchAt(s, 0) == Some(DateMatch(d, m.month, m.year, m.end))
  {
    assert s[0..|d|] == s[..|d|];
  }

  lemma MisspeltMonthIsWord()
    ensures forall i :: 0 <= i < |"feverero"| ==> IsWordChar("feverero"[i])
  {
  }

  lemma WrittenDateSpelledOut()
    ensures "5" + " de " + "feverero" + " de " + "2025" + "" == "5 de feverero de 2025"
  {
  }

  lemma WrittenDateMatchSample()
    ensures DateMatchAt("5 de feverero de 2025", 0) == Some(DateMatch("5", "feverero", "2025", 21))
  {
    MisspeltMonthIsWord();
    WrittenDateMatches("5", "feverero", "2025", "");
    WrittenDateSpelledOut();
  }

  /** A text without the letter `d` holds no written date. */
  lemma NoLetterDNoDate(s: string, p: nat)
    requires p <= |s|
    requires forall k :: 0 <= k < |s| ==> LowerChar(s[k]) != 'd'
    ensures DateMatchAt(s, p).None?
  {
  }
}
