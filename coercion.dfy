/**
 * The JavaScript values a decoded CSV cell can hold, and the three
 * coercions the chart applies to them: unary `+` (ToNumber), `isNaN`, and
 * `new Date(v)` followed by reading its long month name.
 */
module Coercion {
  import opened Options
  import opened Text
  import opened Calendar

  /** A JS number: NaN or a real (infinities and -0 are not distinguished). */
  datatype Number = NaN | Fin(val: real)

  /** A cell value: what the CSV decoder or an earlier render put in a row field. */
  datatype Value =
    | Undefined
    | Null
    | Bool(b: bool)
    | Num(n: Number)
    | Str(s: string)
    | DateObj(d: Date)

  const MsPerDay: int := 86400000

  /** Largest magnitude of a valid JS time value (ms). */
  const MaxTimeValue: int := 8640000000000000

  // ---------------------------------------------------------------------------
  // Unary `+`

  /** JavaScript's white space (tab, vertical tab, form feed, BOM, every space separator) and line terminators. */
  predicate IsJsSpace(c: char) {
    c == ' ' || c == '\t' || c == '\n' || c == '\r' || c == '\U{B}' || c == '\U{C}'
    || c == '\U{A0}' || c == '\U{1680}' || '\U{2000}' <= c <= '\U{200A}' || c == '\U{202F}'
    || c == '\U{205F}' || c == '\U{3000}' || c == '\U{FEFF}' || c == '\U{2028}' || c == '\U{2029}'
  }

  function TrimStart(s: string): (r: string)
    ensures r != [] ==> !IsJsSpace(r[0])
  {
    if s != [] && IsJsSpace(s[0]) then TrimStart(s[1..]) else s
  }

  function TrimEnd(s: string): (r: string)
    ensures r != [] ==> !IsJsSpace(r[|r| - 1])
  {
    if s != [] && IsJsSpace(s[|s| - 1]) then TrimEnd(s[..|s| - 1]) else s
  }

  /** Position of the first '.', or |s| when there is none. */
  function IndexOfDot(s: string): (k: nat)
    ensures k <= |s| && '.' !in s[..k]
    ensures k < |s| ==> s[k] == '.'
  {
    if s == [] || s[0] == '.' then 0 else 1 + IndexOfDot(s[1..])
  }

  /** The value of the digits after the point: their number over the matching power of ten. */
  function FractionValue(frac: string): (x: real)
    requires AllDigits(frac)
    ensures 0.0 <= x < 1.0
    ensures x * Pow10(|frac|) as real == DigitsValue(frac) as real
  {
    FractionBounds(DigitsValue(frac) as real, Pow10(|frac|) as real);
    DigitsValue(frac) as real / Pow10(|frac|) as real
  }

  lemma FractionBounds(a: real, b: real)
    requires 0.0 <= a < b && b >= 1.0
    ensures 0.0 <= a / b < 1.0 && (a / b) * b == a
  {
  }

  /** `digits[.digits]` or `.digits`, without sign or exponent. */
  function UnsignedDecimal(t: string): (r: Option<real>)
    ensures r.Some? ==> r.value >= 0.0
  {
    var k := IndexOfDot(t);
    var whole := t[..k];
    var frac := if k < |t| then t[k + 1..] else "";
    if AllDigits(whole) && AllDigits(frac) && (whole != [] || frac != []) then
      Some(DigitsValue(whole) as real + FractionValue(frac))
    else None
  }

  /** A decimal literal with an optional leading '+' or '-'. */
  function SignedDecimal(t: string): Option<real> {
    if t != [] && t[0] == '-' then
      match UnsignedDecimal(t[1..])
      case Some(x) => Some(-x)
      case None => None
    else if t != [] && t[0] == '+' then UnsignedDecimal(t[1..])
    else UnsignedDecimal(t)
  }

  /** JS StringToNumber: blank text is 0, a decimal literal its value, anything else NaN. */
  function StringToNumber(s: string): Number {
    var t := TrimEnd(TrimStart(s));
    if t == [] then Fin(0.0)
    else match SignedDecimal(t)
      case Some(x) => Fin(x)
      case None => NaN
  }

  /** Unary `+v`. */
  function ToNumber(v: Value): Number {
    match v
    case Undefined => NaN
    case Null => Fin(0.0)
    case Bool(b) => Fin(if b then 1.0 else 0.0)
    case Num(n) => n
    case Str(s) => StringToNumber(s)
    case DateObj(d) => Fin((EpochDay(d) * MsPerDay) as real)
  }

  /** The global `isNaN(v)`, which coerces its argument first. */
  predicate IsNaN(v: Value) {
    ToNumber(v).NaN?
  }

  lemma NumberStaysNumber(n: Number)
    ensures ToNumber(Num(n)) == n
  {
  }

  /** Decimal text for every natural number coerces to that number, with either sign. */
  lemma DecimalTextCoerces(n: nat)
    ensures StringToNumber(NatToString(n)) == Fin(n as real)
    ensures StringToNumber("-" + NatToString(n)) == Fin(-(n as real))
  {
    var s := NatToString(n);
    NatToStringValue(n);
    UnsignedDigits(s);
    DecimalTextIsTrimmed(s);
    assert SignedDecimal(s) == Some(n as real);
    var m := "-" + s;
    DecimalTextIsTrimmed(m);
    assert m[1..] == s;
    assert SignedDecimal(m) == Some(-(n as real));
  }

  /** Blank text, nothing but white space and line terminators, coerces to 0. */
  lemma BlankTextIsZero(s: string)
    requires forall i :: 0 <= i < |s| ==> IsJsSpace(s[i])
    ensures StringToNumber(s) == Fin(0.0)
  {
    BlankTrimsToEmpty(s);
  }

  lemma {:induction false} BlankTrimsToEmpty(s: string)
    requires forall i :: 0 <= i < |s| ==> IsJsSpace(s[i])
    ensures TrimStart(s) == []
  {
    if s != [] {
      assert forall i :: 0 <= i < |s[1..]| ==> s[1..][i] == s[i + 1];
      BlankTrimsToEmpty(s[1..]);
    }
  }

  /** A run of decimal digits coerces to the number it spells. */
  lemma DigitTextCoerces(s: string)
    requires s != [] && AllDigits(s)
    ensures StringToNumber(s) == Fin(DigitsValue(s) as real)
  {
    UnsignedDigits(s);
    DecimalTextIsTrimmed(s);
    assert SignedDecimal(s) == UnsignedDecimal(s);
  }

  /** A '.' preceded only by digits is the first '.' of the text. */
  lemma DotAfterDigits(s: string, k: nat)
    requires k < |s| && s[k] == '.' && AllDigits(s[..k])
    ensures IndexOfDot(s) == k
  {
  }

  lemma UnsignedFraction(s: string, k: nat)
    requires k + 1 < |s| && s[k] == '.' && AllDigits(s[..k]) && AllDigits(s[k + 1..])
    ensures UnsignedDecimal(s) == Some(DigitsValue(s[..k]) as real + FractionValue(s[k + 1..]))
  {
    DotAfterDigits(s, k);
  }

  /**
   * A price with a fraction (digits, a point at `k`, more digits) coerces to its
   * whole part plus the fraction's digits over their power of ten.
   */
  lemma FractionTextCoerces(s: string, k: nat)
    requires 0 < k && k + 1 < |s| && s[k] == '.' && AllDigits(s[..k]) && AllDigits(s[k + 1..])
    ensures StringToNumber(s) == Fin(DigitsValue(s[..k]) as real + FractionValue(s[k + 1..]))
  {
    assert IsDigit(s[..k][0]) && IsDigit(s[k + 1..][|s| - k - 2]);
    UnsignedFraction(s, k);
    UnsignedTextCoerces(s, DigitsValue(s[..k]) as real + FractionValue(s[k + 1..]));
  }

  /** For instance the text `150.25` coerces to the number 150.25. */
  lemma FractionalPriceCoerces()
    ensures StringToNumber("150.25") == Fin(150.25)
  {
    var s := "150.25";
    assert s[..3] == "150" && s[4..] == "25";
    FractionTextCoerces(s, 3);
    WholeOfPrice();
    FractionOfPrice();
  }

  lemma WholeOfPrice()
    ensures DigitsValue("150") == 150
  {
    assert "150"[..2] == "15" && "15"[..1] == "1" && "1"[..0] == "";
  }

  lemma FractionOfPrice()
    ensures FractionValue("25") == 0.25
  {
    assert "25"[..1] == "2" && "2"[..0] == "";
    assert DigitsValue("25") == 25 && Pow10(2) == 100;
  }

  /** Text that starts and ends with a digit coerces to its unsigned decimal value. */
  lemma UnsignedTextCoerces(s: string, x: real)
    requires s != [] && IsDigit(s[0]) && IsDigit(s[|s| - 1]) && UnsignedDecimal(s) == Some(x)
    ensures StringToNumber(s) == Fin(x)
  {
    DecimalTextIsTrimmed(s);
  }

  lemma DecimalTextIsTrimmed(s: string)
    requires s != [] && (s[0] == '-' || IsDigit(s[0])) && IsDigit(s[|s| - 1])
    ensures TrimEnd(TrimStart(s)) == s
  {
    assert TrimStart(s) == s;
  }

  lemma UnsignedDigits(s: string)
    requires AllDigits(s) && s != []
    ensures UnsignedDecimal(s) == Some(DigitsValue(s) as real)
  {
    NoDotInDigits(s);
    assert s[..|s|] == s;
    assert DigitsValue("") == 0 && Pow10(0) == 1;
    assert FractionValue("") == 0.0;
  }

  lemma NoDotInDigits(s: string)
    requires AllDigits(s)
    ensures IndexOfDot(s) == |s|
  {
  }

  // ---------------------------------------------------------------------------
  // `new Date(v)` and its month

  /** JS truncation toward zero. */
  function Trunc(r: real): (i: int)
    ensures r >= 0.0 ==> 0 <= i && i as real <= r < i as real + 1.0
    ensures r < 0.0 ==> i <= 0 && i as real - 1.0 < r <= i as real
  {
    if r >= 0.0 then r.Floor else -((-r).Floor)
  }

  /** TimeClip: NaN and magnitudes over 8.64e15 ms give an invalid date. */
  function TimeClip(n: Number): (t: Option<int>)
    ensures t.Some? ==> -MaxTimeValue <= t.value <= MaxTimeValue
  {
    match n
    case NaN => None
    case Fin(r) => if r < -(MaxTimeValue as real) || r > MaxTimeValue as real then None else Some(Trunc(r))
  }

  /**
   * The time value of `new Date(v)`, None for an Invalid Date. A string is read as a
   * `YYYY-MM-DD` date (the text before its first space) at midnight UTC; a Date is
   * copied; anything else is coerced with unary `+` and clipped.
   */
  function TimeValueOf(v: Value): Option<int> {
    match v
    case Str(s) =>
      (match ParseIsoDate(TextBeforeSpace(s))
       case Some(d) => Some(EpochDay(d) * MsPerDay)
       case None => None)
    case DateObj(d) => Some(EpochDay(d) * MsPerDay)
    case _ => TimeClip(ToNumber(v))
  }

  /** The long month name, in the default locale, of the Date built from `v`, read in UTC. */
  function MonthOfValue(v: Value): string {
    match TimeValueOf(v)
    case None => "Invalid Date"
    case Some(t) => MonthName(DateOfDay(t / MsPerDay).month)
  }

  const MsPerMinute: int := 60000

  /** The long month name of time value `t` in a time zone `offset` minutes east of UTC (negative to the west). */
  function LocalMonth(t: int, offset: int): string {
    MonthName(DateOfDay((t + offset * MsPerMinute) / MsPerDay).month)
  }

  /**
   * The time value of `new Date(v)` in a time zone `offset` minutes east of UTC.
   * A text is read as above, at midnight UTC; a Date stored by the normaliser was
   * built by the date parser at local midnight.
   */
  function LocalTimeValueOf(v: Value, offset: int): Option<int> {
    match v
    case DateObj(d) => Some(EpochDay(d) * MsPerDay - offset * MsPerMinute)
    case _ => TimeValueOf(v)
  }

  /** The month read in local time, as `toLocaleString` does. */
  function LocalMonthOfValue(v: Value, offset: int): string {
    match LocalTimeValueOf(v, offset)
    case None => "Invalid Date"
    case Some(t) => LocalMonth(t, offset)
  }

  /** Read at UTC, the local month is the month of the UTC day. */
  lemma UtcMonthOfValue(v: Value)
    ensures LocalMonthOfValue(v, 0) == MonthOfValue(v)
  {
  }

  /** A Date parsed at local midnight reads as its own month in every time zone. */
  lemma LocalDateKeepsMonth(d: Date, offset: int)
    ensures LocalMonthOfValue(DateObj(d), offset) == MonthName(d.month)
  {
    var t := EpochDay(d) * MsPerDay - offset * MsPerMinute;
    assert t + offset * MsPerMinute == EpochDay(d) * MsPerDay;
    DayOfMidnight(d);
    EpochDayRoundTrip(d);
  }

  /** Moving back by at most one day from a midnight lands on the day before. */
  lemma DayBeforeMidnight(n: int, k: int)
    requires 0 < k <= MsPerDay
    ensures (n * MsPerDay - k) / MsPerDay == n - 1
  {
    assert n * MsPerDay - k == (n - 1) * MsPerDay + (MsPerDay - k);
  }

  /** The month before month `m`, December before January. */
  function PrevMonth(m: int): (p: int)
    requires 1 <= m <= 12
    ensures 1 <= p <= 12 && (p == 12 <==> m == 1) && (m > 1 ==> p == m - 1)
  {
    if m == 1 then 12 else m - 1
  }

  /** The day before a month's first day is the last day of the month before. */
  lemma DayBeforeFirst(d: Date)
    requires d.day == 1
    ensures DateOfDay(EpochDay(d) - 1).month == PrevMonth(d.month)
  {
    if d.month == 1 {
      var prev: Date := CalDate(d.year - 1, 12, 31);
      NextYear(d.year - 1);
      YearIsTwelveMonths(d.year - 1);
      assert EpochDay(prev) == EpochDay(d) - 1;
      EpochDayRoundTrip(prev);
    } else {
      var prev: Date := CalDate(d.year, d.month - 1, DaysInMonth(d.year, d.month - 1));
      assert EpochDay(prev) == EpochDay(d) - 1;
      EpochDayRoundTrip(prev);
    }
  }

  /** Up to a day west of UTC, midnight UTC of a month's first day is in the month before. */
  lemma LocalMonthOfFirst(d: Date, t: int, offset: int)
    requires d.day == 1 && -1440 <= offset < 0 && t == EpochDay(d) * MsPerDay
    ensures LocalMonth(t, offset) == MonthName(PrevMonth(d.month))
  {
    var n := EpochDay(d);
    DayBeforeMidnight(n, -offset * MsPerMinute);
    assert (t + offset * MsPerMinute) / MsPerDay == n - 1;
    DayBeforeFirst(d);
  }

  /**
   * A text cell naming the first of a month (a `YYYY-MM-DD` text is midnight UTC)
   * falls in that month in UTC but, for a reader west of UTC by up to a day, in
   * the month before: December of the year before for the first of January.
   */
  lemma FirstOfMonthWestOfUtc(v: Value, d: Date, offset: int)
    requires v.Str? && TimeValueOf(v) == Some(EpochDay(d) * MsPerDay)
    requires d.day == 1 && -1440 <= offset < 0
    ensures MonthOfValue(v) == MonthName(d.month)
    ensures LocalMonthOfValue(v, offset) == MonthName(PrevMonth(d.month))
    ensures MonthOfValue(v) != LocalMonthOfValue(v, offset)
  {
    DayOfMidnight(d);
    EpochDayRoundTrip(d);
    LocalMonthOfFirst(d, EpochDay(d) * MsPerDay, offset);
    MonthNameInjective(d.month, PrevMonth(d.month));
  }

  lemma DayOfMidnight(d: Date)
    ensures (EpochDay(d) * MsPerDay) / MsPerDay == EpochDay(d)
  {
  }

  /** A Date's month is the month of its calendar day. */
  lemma MonthOfDate(d: Date)
    ensures MonthOfValue(DateObj(d)) == MonthName(d.month)
  {
    DayOfMidnight(d);
    EpochDayRoundTrip(d);
  }

  /** A date string's month is the month of the date it spells. */
  lemma MonthOfDateString(s: string)
    requires ParseIsoDate(TextBeforeSpace(s)).Some?
    ensures MonthOfValue(Str(s)) == MonthName(ParseIsoDate(TextBeforeSpace(s)).value.month)
  {
    var d := ParseIsoDate(TextBeforeSpace(s)).value;
    DayOfMidnight(d);
    EpochDayRoundTrip(d);
  }

  /** Text that is not a date gives an Invalid Date, which matches no month of the selector. */
  lemma MonthOfNonDateString(s: string)
    requires ParseIsoDate(TextBeforeSpace(s)).None?
    ensures MonthOfValue(Str(s)) !in MonthNames
  {
  }

  /** null, false and true are 0 or 1 ms after the epoch, so they fall in January. */
  lemma NullIsJanuary(v: Value)
    requires v.Null? || v.Bool?
    ensures MonthOfValue(v) == "January"
  {
    assert DateOfDay(0) == CalDate(1970, 1, 1) by {
      EpochDayRoundTrip(CalDate(1970, 1, 1));
    }
  }
}
