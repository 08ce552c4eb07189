/**
 * Calendar days of the proleptic Gregorian calendar (the one JavaScript's
 * Date uses), their numbering as days since 1970-01-01, the English month
 * names of the month selector, and the `%Y-%m-%d` date parser.
 */
module Calendar {
  import opened Options
  import opened Text

  datatype CalDate = CalDate(year: int, month: int, day: int)

  predicate IsLeapYear(y: int) {
    y % 4 == 0 && (y % 100 != 0 || y % 400 == 0)
  }

  function DaysInYear(y: int): int {
    if IsLeapYear(y) then 366 else 365
  }

  function DaysInMonth(y: int, m: int): (n: int)
    requires 1 <= m <= 12
    ensures 28 <= n <= 31
  {
    if m == 2 then (if IsLeapYear(y) then 29 else 28)
    else if m == 4 || m == 6 || m == 9 || m == 11 then 30
    else 31
  }

  predicate ValidDate(d: CalDate) {
    1 <= d.month <= 12 && 1 <= d.day <= DaysInMonth(d.year, d.month)
  }

  /** A day that exists in the calendar. */
  type Date = d: CalDate | ValidDate(d) witness CalDate(1970, 1, 1)

  /** The month selector's options, January first. */
  const MonthNames: seq<string> := [
    "January", "February", "March", "April", "May", "June",
    "July", "August", "September", "October", "November", "December"
  ]

  function MonthName(m: int): string
    requires 1 <= m <= 12
  {
    MonthNames[m - 1]
  }

  lemma MonthNameInjective(a: int, b: int)
    requires 1 <= a <= 12 && 1 <= b <= 12
    ensures MonthName(a) == MonthName(b) <==> a == b
  {
  }

  // ---------------------------------------------------------------------------
  // Day numbers: days since 1970-01-01 (negative before it)

  /** Days in months 1 .. m-1 of year y. */
  function DaysBeforeMonth(y: int, m: int): int
    requires 1 <= m <= 13
  {
    if m == 1 then 0 else DaysBeforeMonth(y, m - 1) + DaysInMonth(y, m - 1)
  }

  lemma YearIsTwelveMonths(y: int)
    ensures DaysBeforeMonth(y, 13) == DaysInYear(y)
  {
    assert DaysBeforeMonth(y, 2) == 31;
    assert DaysBeforeMonth(y, 3) == 31 + DaysInMonth(y, 2);
    assert DaysBeforeMonth(y, 4) == DaysBeforeMonth(y, 3) + 31;
    assert DaysBeforeMonth(y, 5) == DaysBeforeMonth(y, 3) + 61;
    assert DaysBeforeMonth(y, 6) == DaysBeforeMonth(y, 3) + 92;
    assert DaysBeforeMonth(y, 7) == DaysBeforeMonth(y, 3) + 122;
    assert DaysBeforeMonth(y, 8) == DaysBeforeMonth(y, 3) + 153;
    assert DaysBeforeMonth(y, 9) == DaysBeforeMonth(y, 3) + 184;
    assert DaysBeforeMonth(y, 10) == DaysBeforeMonth(y, 3) + 214;
    assert DaysBeforeMonth(y, 11) == DaysBeforeMonth(y, 3) + 245;
    assert DaysBeforeMonth(y, 12) == DaysBeforeMonth(y, 3) + 275;
  }

  lemma {:induction false} DaysBeforeMonthGrows(y: int, a: int, b: int)
    requires 1 <= a <= b <= 13
    ensures DaysBeforeMonth(y, a) <= DaysBeforeMonth(y, b)
    ensures a < b ==> DaysBeforeMonth(y, a) + DaysInMonth(y, a) <= DaysBeforeMonth(y, b)
  {
    if a < b {
      DaysBeforeMonthGrows(y, a, b - 1);
    }
  }

  /** Day number of the first of January of year y. */
  function DaysBeforeYear(y: int): int
    decreases if y > 1970 then y - 1970 else 1970 - y
  {
    if y == 1970 then 0
    else if y > 1970 then DaysBeforeYear(y - 1) + DaysInYear(y - 1)
    else DaysBeforeYear(y + 1) - DaysInYear(y)
  }

  lemma NextYear(y: int)
    ensures DaysBeforeYear(y + 1) == DaysBeforeYear(y) + DaysInYear(y)
  {
  }

  lemma {:induction false} DaysBeforeYearGrows(a: int, b: int)
    requires a < b
    ensures DaysBeforeYear(a) + DaysInYear(a) <= DaysBeforeYear(b)
    decreases b - a
  {
    NextYear(a);
    if a + 1 < b {
      DaysBeforeYearGrows(a + 1, b);
      NextYear(a + 1);
    }
  }

  /** The day number of a date; the time value of its midnight is this times MsPerDay. */
  function EpochDay(d: Date): int {
    DaysBeforeYear(d.year) + DaysBeforeMonth(d.year, d.month) + d.day - 1
  }

  /** The date `z` days after 1970-01-01. */
  function DateOfDay(z: int): Date {
    YearWalk(1970, z)
  }

  /** The date `z` days after the first of January of year y. */
  function YearWalk(y: int, z: int): Date
    decreases if z < 0 then -z else 0, if z < 0 then 0 else z
  {
    if z < 0 then YearWalk(y - 1, z + DaysInYear(y - 1))
    else if z >= DaysInYear(y) then YearWalk(y + 1, z - DaysInYear(y))
    else MonthWalk(y, 1, z)
  }

  /** The date `z` days after the first of month m of year y, within year y. */
  function MonthWalk(y: int, m: int, z: int): Date
    requires 1 <= m <= 12 && 0 <= z && DaysBeforeMonth(y, m) + z < DaysInYear(y)
    decreases 12 - m
  {
    if z < DaysInMonth(y, m) then CalDate(y, m, z + 1)
    else
      YearIsTwelveMonths(y);
      MonthWalk(y, m + 1, z - DaysInMonth(y, m))
  }

  /** Where day `day` of month m lies within its year, seen from the start of month m0. */
  lemma MonthOffset(y: int, m0: int, m: int, day: int)
    requires 1 <= m0 <= m <= 12 && 1 <= day <= DaysInMonth(y, m)
    ensures DaysBeforeMonth(y, m0) <= DaysBeforeMonth(y, m)
    ensures DaysBeforeMonth(y, m) + day - 1 < DaysInYear(y)
    ensures m0 < m ==> DaysBeforeMonth(y, m0) + DaysInMonth(y, m0) <= DaysBeforeMonth(y, m)
  {
    YearIsTwelveMonths(y);
    DaysBeforeMonthGrows(y, m, 13);
    DaysBeforeMonthGrows(y, m0, m);
  }

  /** Walking past a whole month m0 is walking from the first of month m0 + 1. */
  lemma MonthWalkStep(y: int, m0: int, z: int)
    requires 1 <= m0 < 12 && DaysInMonth(y, m0) <= z && DaysBeforeMonth(y, m0) + z < DaysInYear(y)
    ensures DaysBeforeMonth(y, m0 + 1) + (z - DaysInMonth(y, m0)) < DaysInYear(y)
    ensures MonthWalk(y, m0, z) == MonthWalk(y, m0 + 1, z - DaysInMonth(y, m0))
  {
  }

  /** The last step of a walk: a day of month m, walked to from the first of month m. */
  lemma MonthWalkHere(y: int, m: int, day: int)
    requires 1 <= m <= 12 && 1 <= day <= DaysInMonth(y, m) && DaysBeforeMonth(y, m) + day - 1 < DaysInYear(y)
    ensures MonthWalk(y, m, day - 1) == CalDate(y, m, day)
  {
  }

  /** A walk that passes month m0 reaches the same day as one starting at month m0 + 1. */
  lemma MonthWalkPast(y: int, m0: int, m: int, day: int)
    requires 1 <= m0 < m <= 12 && 1 <= day <= DaysInMonth(y, m)
    requires DaysBeforeMonth(y, m0) + DaysInMonth(y, m0) <= DaysBeforeMonth(y, m)
    requires DaysBeforeMonth(y, m) + day - 1 < DaysInYear(y)
    requires MonthWalk(y, m0 + 1, DaysBeforeMonth(y, m) - DaysBeforeMonth(y, m0 + 1) + day - 1) == CalDate(y, m, day)
    ensures MonthWalk(y, m0, DaysBeforeMonth(y, m) - DaysBeforeMonth(y, m0) + day - 1) == CalDate(y, m, day)
  {
    var z := DaysBeforeMonth(y, m) - DaysBeforeMonth(y, m0) + day - 1;
    assert DaysBeforeMonth(y, m0 + 1) == DaysBeforeMonth(y, m0) + DaysInMonth(y, m0);
    assert MonthWalk(y, m0, z) == MonthWalk(y, m0 + 1, z - DaysInMonth(y, m0));
  }

  lemma {:induction false} MonthWalkReaches(y: int, m0: int, m: int, day: int)
    requires 1 <= m0 <= m <= 12 && 1 <= day <= DaysInMonth(y, m)
    ensures DaysBeforeMonth(y, m0) <= DaysBeforeMonth(y, m)
    ensures DaysBeforeMonth(y, m) + day - 1 < DaysInYear(y)
    ensures MonthWalk(y, m0, DaysBeforeMonth(y, m) - DaysBeforeMonth(y, m0) + day - 1) == CalDate(y, m, day)
    decreases m - m0
  {
    MonthOffset(y, m0, m, day);
    if m0 < m {
      MonthWalkReaches(y, m0 + 1, m, day);
      MonthWalkPast(y, m0, m, day);
    } else {
      MonthWalkHere(y, m, day);
    }
  }

  lemma {:induction false} YearWalkReaches(y0: int, y: int, off: int)
    requires 0 <= off < DaysInYear(y)
    ensures YearWalk(y0, DaysBeforeYear(y) - DaysBeforeYear(y0) + off) == MonthWalk(y, 1, off)
    decreases if y0 < y then y - y0 else y0 - y
  {
    if y0 < y {
      DaysBeforeYearGrows(y0, y);
      NextYear(y0);
      YearWalkReaches(y0 + 1, y, off);
    } else if y0 > y {
      DaysBeforeYearGrows(y, y0);
      NextYear(y0 - 1);
      YearWalkReaches(y0 - 1, y, off);
    }
  }

  /** Numbering a date and reading the number back gives the date. */
  lemma EpochDayRoundTrip(d: Date)
    ensures DateOfDay(EpochDay(d)) == d
  {
    MonthWalkReaches(d.year, 1, d.month, d.day);
    YearWalkReaches(1970, d.year, DaysBeforeMonth(d.year, d.month) + d.day - 1);
  }

  /** A walk of at least a month's days cannot start in December. */
  lemma MonthWalkNotLast(y: int, m: int, z: int)
    requires 1 <= m <= 12 && DaysInMonth(y, m) <= z && DaysBeforeMonth(y, m) + z < DaysInYear(y)
    ensures m < 12
  {
    YearIsTwelveMonths(y);
  }

  lemma MonthWalkDayHere(y: int, m: int, z: int)
    requires 1 <= m <= 12 && 0 <= z < DaysInMonth(y, m) && DaysBeforeMonth(y, m) + z < DaysInYear(y)
    ensures MonthWalk(y, m, z).year == y
    ensures DaysBeforeMonth(y, MonthWalk(y, m, z).month) + MonthWalk(y, m, z).day - 1 == DaysBeforeMonth(y, m) + z
  {
  }

  lemma MonthWalkDayPast(y: int, m: int, z: int, d: Date)
    requires 1 <= m < 12 && DaysInMonth(y, m) <= z && DaysBeforeMonth(y, m) + z < DaysInYear(y)
    requires MonthWalk(y, m, z) == d
    requires DaysBeforeMonth(y, d.month) + d.day - 1 == DaysBeforeMonth(y, m + 1) + (z - DaysInMonth(y, m))
    ensures DaysBeforeMonth(y, d.month) + d.day - 1 == DaysBeforeMonth(y, m) + z
  {
  }

  /** A walk inside year y lands in year y, on the day that many days into it. */
  lemma {:induction false} MonthWalkDay(y: int, m: int, z: int)
    requires 1 <= m <= 12 && 0 <= z && DaysBeforeMonth(y, m) + z < DaysInYear(y)
    ensures MonthWalk(y, m, z).year == y
    ensures DaysBeforeMonth(y, MonthWalk(y, m, z).month) + MonthWalk(y, m, z).day - 1 == DaysBeforeMonth(y, m) + z
    decreases 12 - m
  {
    if z >= DaysInMonth(y, m) {
      MonthWalkNotLast(y, m, z);
      MonthWalkStep(y, m, z);
      MonthWalkDay(y, m + 1, z - DaysInMonth(y, m));
      MonthWalkDayPast(y, m, z, MonthWalk(y, m, z));
    } else {
      MonthWalkDayHere(y, m, z);
    }
  }

  lemma {:induction false} YearWalkDay(y: int, z: int)
    ensures EpochDay(YearWalk(y, z)) == DaysBeforeYear(y) + z
    decreases if z < 0 then -z else 0, if z < 0 then 0 else z
  {
    if z < 0 {
      NextYear(y - 1);
      YearWalkDay(y - 1, z + DaysInYear(y - 1));
    } else if z >= DaysInYear(y) {
      NextYear(y);
      YearWalkDay(y + 1, z - DaysInYear(y));
    } else {
      var d := MonthWalk(y, 1, z);
      assert YearWalk(y, z) == d;
      MonthWalkDay(y, 1, z);
      assert EpochDay(d) == DaysBeforeYear(y) + DaysBeforeMonth(y, d.month) + d.day - 1;
    }
  }

  /** Reading a day number as a date and numbering it again gives the number. */
  lemma DateOfDayRoundTrip(z: int)
    ensures EpochDay(DateOfDay(z)) == z
  {
    YearWalkDay(1970, z);
  }

  /** Distinct dates have distinct day numbers, so a day number tells dates apart. */
  lemma EpochDayInjective(a: Date, b: Date)
    ensures EpochDay(a) == EpochDay(b) <==> a == b
  {
    EpochDayRoundTrip(a);
    EpochDayRoundTrip(b);
  }

  // ---------------------------------------------------------------------------
  // The `%Y-%m-%d` format

  /**
   * Parses exactly `YYYY-MM-DD`: four year digits, two month digits in 01..12
   * and two day digits naming a day of that month; anything else is None.
   */
  function ParseIsoDate(s: string): (r: Option<Date>)
    ensures r.Some? ==> 0 <= r.value.year <= 9999
  {
    if |s| == 10 && s[4] == '-' && s[7] == '-'
       && AllDigits(s[..4]) && AllDigits(s[5..7]) && AllDigits(s[8..])
    then
      var y, m, d := DigitsValue(s[..4]), DigitsValue(s[5..7]), DigitsValue(s[8..]);
      if 1 <= m <= 12 && 1 <= d <= DaysInMonth(y, m) then Some(CalDate(y, m, d)) else None
    else None
  }

  function FormatIsoDate(d: Date): (s: string)
    requires 0 <= d.year <= 9999
    ensures |s| == 10
  {
    PadDigits(d.year, 4) + "-" + PadDigits(d.month, 2) + "-" + PadDigits(d.day, 2)
  }

  /** Every date of years 0..9999 written as `YYYY-MM-DD` parses back to itself. */
  lemma FormatThenParse(d: Date)
    requires 0 <= d.year <= 9999
    ensures ParseIsoDate(FormatIsoDate(d)) == Some(d)
  {
    var y, m, dd := PadDigits(d.year, 4), PadDigits(d.month, 2), PadDigits(d.day, 2);
    var s := FormatIsoDate(d);
    assert s == y + "-" + m + "-" + dd;
    assert s[..4] == y;
    assert s[5..7] == m;
    assert s[8..] == dd;
    assert s[4] == '-' && s[7] == '-';
    PadDigitsValue(d.year, 4);
    PadDigitsValue(d.month, 2);
    PadDigitsValue(d.day, 2);
    assert DigitsValue(s[..4]) == d.year;
    assert DigitsValue(s[5..7]) == d.month;
    assert DigitsValue(s[8..]) == d.day;
  }

  /** The parser accepts only the canonical spelling of a date. */
  lemma ParseThenFormat(s: string)
    requires ParseIsoDate(s).Some?
    ensures FormatIsoDate(ParseIsoDate(s).value) == s
  {
    var d := ParseIsoDate(s).value;
    var ys, ms, ds := s[..4], s[5..7], s[8..];
    assert d == CalDate(DigitsValue(ys), DigitsValue(ms), DigitsValue(ds));
    DigitsValuePad(ys);
    DigitsValuePad(ms);
    DigitsValuePad(ds);
    assert PadDigits(d.year, 4) == ys && PadDigits(d.month, 2) == ms && PadDigits(d.day, 2) == ds;
    assert s == ys + "-" + ms + "-" + ds;
  }
}
