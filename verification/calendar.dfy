/**
  The slice of Python's `datetime` the relative-date stage uses: adding a
  whole number of days to the reference date (`reference_date +
  timedelta(days=delta)`, raising `OverflowError` outside years 1..9999) and
  `strftime("%Y-%m-%d")`.
 */
module Calendar {
  import opened Wrappers
  import opened Text

  datatype Date = Date(year: int, month: int, day: int)

  const MinYear := 1
  const MaxYear := 9999
  const LastDate := Date(9999, 12, 31)

  predicate IsLeapYear(y: int) {
    y % 4 == 0 && (y % 100 != 0 || y % 400 == 0)
  }

  function DaysInMonth(y: int, m: int): nat
    requires 1 <= m <= 12
  {
    if m == 2 then (if IsLeapYear(y) then 29 else 28)
    else if m == 4 || m == 6 || m == 9 || m == 11 then 30
    else 31
  }

  function DaysInYear(y: int): nat {
    if IsLeapYear(y) then 366 else 365
  }

  /** A date `datetime` can represent: proleptic Gregorian, years 1..9999. */
  predicate Valid(d: Date) {
    MinYear <= d.year <= MaxYear && 1 <= d.month <= 12 && 1 <= d.day <= DaysInMonth(d.year, d.month)
  }

  /** Days in the years before `y`, counted from 0001-01-01. */
  function DaysBeforeYear(y: int): nat
    requires y >= 1
    decreases y
  {
    if y == 1 then 0 else DaysBeforeYear(y - 1) + DaysInYear(y - 1)
  }

  /** Days in the months of year `y` before month `m`. */
  function DaysBeforeMonth(y: int, m: int): nat
    requires 1 <= m <= 12
  {
    var table := [0, 31, 59, 90, 120, 151, 181, 212, 243, 273, 304, 334];
    table[m - 1] + (if m > 2 && IsLeapYear(y) then 1 else 0)
  }

  /** Each month starts where the one before it ends, and December ends the year. */
  lemma DaysBeforeMonthStep(y: int, m: int)
    requires 1 <= m <= 12
    ensures m < 12 ==> DaysBeforeMonth(y, m + 1) == DaysBeforeMonth(y, m) + DaysInMonth(y, m)
    ensures m > 1 ==> DaysBeforeMonth(y, m) == DaysBeforeMonth(y, m - 1) + DaysInMonth(y, m - 1)
    ensures DaysBeforeMonth(y, 12) + DaysInMonth(y, 12) == DaysInYear(y)
    ensures DaysBeforeMonth(y, m) + DaysInMonth(y, m) <= DaysInYear(y)
    ensures DaysBeforeMonth(y, m) == 0 <==> m == 1
    ensures DaysBeforeMonth(y, m) + DaysInMonth(y, m) == DaysInYear(y) <==> m == 12
  {
  }

  /** Day number with 0001-01-01 as day 1 (Python's `date.toordinal`). */
  function Ordinal(d: Date): nat
    requires Valid(d)
  {
    DaysBeforeYear(d.year) + DaysBeforeMonth(d.year, d.month) + d.day
  }

  lemma {:induction false} DaysBeforeYearGrows(y: int, y': int)
    requires 1 <= y < y'
    ensures DaysBeforeYear(y) + DaysInYear(y) <= DaysBeforeYear(y')
    decreases y' - y
  {
    if y + 1 < y' {
      DaysBeforeYearGrows(y, y' - 1);
    }
  }

  /** Every valid date numbers between 1 and the number of the last date,
      and only the first and last dates reach the ends. */
  lemma OrdinalRange(d: Date)
    requires Valid(d)
    ensures 1 <= Ordinal(d) <= Ordinal(LastDate)
    ensures Ordinal(d) == 1 ==> d == Date(1, 1, 1)
    ensures Ordinal(d) == Ordinal(LastDate) ==> d == LastDate
  {
    DaysBeforeMonthStep(d.year, d.month);
    DaysBeforeMonthStep(MaxYear, 12);
    if d.year < MaxYear {
      DaysBeforeYearGrows(d.year, MaxYear);
    }
    if d.year > 1 {
      DaysBeforeYearGrows(1, d.year);
    }
  }

  /** The day after `d`; None past 9999-12-31. */
  function NextDay(d: Date): (r: Option<Date>)
    requires Valid(d)
    ensures r.None? <==> d == LastDate
    ensures r.Some? ==> Valid(r.value) && Ordinal(r.value) == Ordinal(d) + 1
  {
    DaysBeforeMonthStep(d.year, d.month);
    if d.day < DaysInMonth(d.year, d.month) then Some(Date(d.year, d.month, d.day + 1))
    else if d.month < 12 then Some(Date(d.year, d.month + 1, 1))
    else if d.year < MaxYear then Some(Date(d.year + 1, 1, 1))
    else None
  }

  /** The day before `d`; None before 0001-01-01. */
  function PreviousDay(d: Date): (r: Option<Date>)
    requires Valid(d)
    ensures r.None? <==> d == Date(1, 1, 1)
    ensures r.Some? ==> Valid(r.value) && Ordinal(r.value) + 1 == Ordinal(d)
  {
    DaysBeforeMonthStep(d.year, d.month);
    DaysBeforeMonthStep(d.year - 1, 12);
    if d.day > 1 then Some(Date(d.year, d.month, d.day - 1))
    else if d.month > 1 then Some(Date(d.year, d.month - 1, DaysInMonth(d.year, d.month - 1)))
    else if d.year > MinYear then Some(Date(d.year - 1, 12, 31))
    else None
  }

  /** `d + timedelta(days=n)`: None where Python raises `OverflowError`, that
      is exactly when the day number leaves the representable range. */
  function AddDays(d: Date, n: int): (r: Option<Date>)
    requires Valid(d)
    ensures r.Some? ==> Valid(r.value) && Ordinal(r.value) == Ordinal(d) + n
    ensures r.None? <==> Ordinal(d) + n < 1 || Ordinal(d) + n > Ordinal(LastDate)
  {
    OrdinalRange(d);
    if n >= 0 then AddDaysForward(d, n) else AddDaysBackward(d, -n)
  }

  function AddDaysForward(d: Date, n: nat): (r: Option<Date>)
    requires Valid(d)
    ensures r.Some? ==> Valid(r.value) && Ordinal(r.value) == Ordinal(d) + n
    ensures r.None? <==> Ordinal(d) + n > Ordinal(LastDate)
    decreases n
  {
    OrdinalRange(d);
    if n == 0 then Some(d)
    else
      match NextDay(d)
      case None => None
      case Some(next) => AddDaysForward(next, n - 1)
  }

  function AddDaysBackward(d: Date, n: nat): (r: Option<Date>)
    requires Valid(d)
    ensures r.Some? ==> Valid(r.value) && Ordinal(r.value) + n == Ordinal(d)
    ensures r.None? <==> Ordinal(d) - n < 1
    decreases n
  {
    if n == 0 then
      OrdinalRange(d);
      Some(d)
    else
      match PreviousDay(d)
      case None =>
        assert Ordinal(d) == 1;
        None
      case Some(previous) =>
        AddDaysBackward(previous, n - 1)
  }

  /** `strftime("%Y-%m-%d")` for a four-digit year. */
  function FormatDate(d: Date): (r: string)
    requires Valid(d) && d.year >= 1000
    ensures |r| == 10 && r[4] == '-' && r[7] == '-'
    ensures AllDigits(r[..4]) && NumberValue(r[..4]) == d.year
    ensures AllDigits(r[5..7]) && NumberValue(r[5..7]) == d.month
    ensures AllDigits(r[8..]) && NumberValue(r[8..]) == d.day
    ensures forall i :: 0 <= i < |r| ==> IsDigit(r[i]) || r[i] == '-'
  {
    DateText(Pad4(d.year), Pad2(d.month), Pad2(d.day))
  }

  /** Fields laid out as `YYYY-MM-DD`. */
  function DateText(y: string, m: string, dd: string): (r: string)
    requires |y| == 4 && |m| == 2 && |dd| == 2
    requires AllDigits(y) && AllDigits(m) && AllDigits(dd)
    ensures |r| == 10 && r[4] == '-' && r[7] == '-'
    ensures AllDigits(r[..4]) && NumberValue(r[..4]) == NumberValue(y)
    ensures AllDigits(r[5..7]) && NumberValue(r[5..7]) == NumberValue(m)
    ensures AllDigits(r[8..]) && NumberValue(r[8..]) == NumberValue(dd)
    ensures forall i :: 0 <= i < |r| ==> IsDigit(r[i]) || r[i] == '-'
    ensures r[..4] == y && r[5..7] == m && r[8..] == dd
  {
    var r := y + "-" + m + "-" + dd;
    assert r[..4] == y && r[5..7] == m && r[8..] == dd;
    assert forall i :: 0 <= i < 4 ==> r[i] == y[i];
    assert forall i :: 5 <= i < 7 ==> r[i] == m[i - 5];
    assert forall i :: 8 <= i < 10 ==> r[i] == dd[i - 8];
    r
  }

  /** The reference date of the test fixture, one day on. */
  lemma FixtureTomorrow()
    ensures AddDays(Date(2026, 2, 23), 1) == Some(Date(2026, 2, 24))
  {
    assert NextDay(Date(2026, 2, 23)) == Some(Date(2026, 2, 24));
    assert AddDaysForward(Date(2026, 2, 24), 0) == Some(Date(2026, 2, 24));
  }

  lemma FixtureTomorrowText()
    ensures FormatDate(Date(2026, 2, 24)) == "2026-02-24"
  {
    Pad4Sample();
    Pad2Samples();
    assert FormatDate(Date(2026, 2, 24)) == DateText("2026", "02", "24");
    assert "2026" + "-" + "02" + "-" + "24" == "2026-02-24";
  }

  lemma Pad4Sample()
    ensures Pad4(2026) == "2026"
  {
    assert Pad2(20) == "20" && Pad2(26) == "26";
  }

  lemma Pad2Samples()
    ensures Pad2(2) == "02" && Pad2(24) == "24"
  {
  }
}
