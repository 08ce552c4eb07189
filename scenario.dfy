/**
 * A three-row table of Apple sessions, two in November and one in December,
 * with every cell a text, rendered for November and for January.
 */
module Scenario {
  import opened Options
  import opened Text
  import opened Calendar
  import opened Coercion
  import opened Rows
  import opened Domains
  import opened Render

  const Nov1: Date := CalDate(2023, 11, 1)
  const Nov2: Date := CalDate(2023, 11, 2)
  const Dec1: Date := CalDate(2023, 12, 1)

  const Table: seq<RowRec> := [
    RowRec(Str("2023-11-01"), Str("Apple"), Str("150"), Str("152")),
    RowRec(Str("2023-11-02"), Str("Apple"), Str("152"), Str("149")),
    RowRec(Str("2023-12-01"), Str("Apple"), Str("100"), Str("101"))
  ]

  /** `YYYY-MM-DD` text parses to the date its eight digits spell. */
  lemma ParsesTo(y1: char, y2: char, y3: char, y4: char, m1: char, m2: char, d1: char, d2: char, d: Date)
    requires IsDigit(y1) && IsDigit(y2) && IsDigit(y3) && IsDigit(y4)
    requires IsDigit(m1) && IsDigit(m2) && IsDigit(d1) && IsDigit(d2)
    requires d.year == 1000 * DigitValue(y1) + 100 * DigitValue(y2) + 10 * DigitValue(y3) + DigitValue(y4)
    requires d.month == 10 * DigitValue(m1) + DigitValue(m2)
    requires d.day == 10 * DigitValue(d1) + DigitValue(d2)
    ensures ParseIsoDate(TextBeforeSpace([y1, y2, y3, y4, '-', m1, m2, '-', d1, d2])) == Some(d)
  {
    var s := [y1, y2, y3, y4, '-', m1, m2, '-', d1, d2];
    var ys, ms, ds := [y1, y2, y3, y4], [m1, m2], [d1, d2];
    assert s[..4] == ys && s[5..7] == ms && s[8..] == ds;
    assert AllDigits(ys) && AllDigits(ms) && AllDigits(ds);
    FourDigitsValue(ys);
    TwoDigitsValue(ms);
    TwoDigitsValue(ds);
    assert DigitsValue(ys) == d.year && DigitsValue(ms) == d.month && DigitsValue(ds) == d.day;
    NoSpaceIsWhole(s);
    assert ParseIsoDate(s) == Some(d);
  }

  lemma DatesOfTable()
    ensures ParseIsoDate(TextBeforeSpace("2023-11-01")) == Some(Nov1)
    ensures ParseIsoDate(TextBeforeSpace("2023-11-02")) == Some(Nov2)
    ensures ParseIsoDate(TextBeforeSpace("2023-12-01")) == Some(Dec1)
  {
    ParsesTo('2', '0', '2', '3', '1', '1', '0', '1', Nov1);
    ParsesTo('2', '0', '2', '3', '1', '1', '0', '2', Nov2);
    ParsesTo('2', '0', '2', '3', '1', '2', '0', '1', Dec1);
  }

  /** Three-digit price text coerces to the number it spells. */
  lemma PriceIs(a: char, b: char, c: char, v: real)
    requires IsDigit(a) && IsDigit(b) && IsDigit(c)
    requires v == (100 * DigitValue(a) + 10 * DigitValue(b) + DigitValue(c)) as real
    ensures ToNumber(Str([a, b, c])) == Fin(v)
  {
    var s := [a, b, c];
    assert AllDigits(s);
    assert s[..2] == [a, b] && [a, b][..1] == [a] && [a][..0] == [];
    assert DigitsValue([a]) == DigitValue(a);
    assert DigitsValue([a, b]) == 10 * DigitValue(a) + DigitValue(b);
    assert DigitsValue(s) == 100 * DigitValue(a) + 10 * DigitValue(b) + DigitValue(c);
    DigitTextCoerces(s);
  }

  lemma PricesOfTable()
    ensures ToNumber(Str("150")) == Fin(150.0) && ToNumber(Str("152")) == Fin(152.0)
    ensures ToNumber(Str("149")) == Fin(149.0)
  {
    PriceIs('1', '5', '0', 150.0);
    PriceIs('1', '5', '2', 152.0);
    PriceIs('1', '4', '9', 149.0);
    assert "150" == ['1', '5', '0'] && "152" == ['1', '5', '2'] && "149" == ['1', '4', '9'];
  }

  /** What the normaliser makes of each November row. */
  lemma NormalizedNovemberRows()
    ensures NormalizeRow(Table[0]) == RowRec(DateObj(Nov1), Str("Apple"), Num(Fin(150.0)), Num(Fin(152.0)))
    ensures NormalizeRow(Table[1]) == RowRec(DateObj(Nov2), Str("Apple"), Num(Fin(152.0)), Num(Fin(149.0)))
    ensures IsValid(NormalizeRow(Table[0])) && IsValid(NormalizeRow(Table[1]))
  {
    DatesOfTable();
    PricesOfTable();
    NumericRowAccepted(Table[0], Nov1, 150.0, 152.0);
    NumericRowAccepted(Table[1], Nov2, 152.0, 149.0);
  }

  lemma NovemberShown()
    ensures ShownPositions(Table, "Apple", "November") == [0, 1]
  {
    NovemberSelection();
    NormalizedNovemberRows();
    forall k | 0 <= k < 2
      ensures IsValid(NormalizeRow(Table[[0, 1][k]]))
    {
      if k == 0 {
        assert [0, 1][k] == 0;
      } else {
        assert [0, 1][k] == 1;
      }
    }
    AllValidAllShown(Table, "Apple", "November", [0, 1]);
  }

  /** The month each row's date text names, as the selection filter reads it. */
  lemma MonthsOfTable()
    ensures MonthOfValue(Table[0].date) == "November"
    ensures MonthOfValue(Table[1].date) == "November"
    ensures MonthOfValue(Table[2].date) == "December"
  {
    DatesOfTable();
    MonthOfDateString("2023-11-01");
    MonthOfDateString("2023-11-02");
    MonthOfDateString("2023-12-01");
  }

  /** The two November rows are the Apple November rows; the December row is not. */
  lemma SelectedOfTable()
    ensures Selected(Table[0], "Apple", "November") && Selected(Table[1], "Apple", "November")
    ensures !Selected(Table[2], "Apple", "November")
  {
    MonthsOfTable();
  }

  /** Selecting Apple in November picks the first two rows. */
  lemma NovemberSelection()
    ensures SelectedPositions(Table, "Apple", "November") == [0, 1]
  {
    var sel := SelectedPositions(Table, "Apple", "November");
    forall i
      ensures i in sel <==> i == 0 || i == 1
    {
      SelectedOfTable();
      if 0 <= i < 3 {
        assert i == 0 || i == 1 || i == 2;
      }
    }
    IncreasingUnique(sel, [0, 1]);
  }

  /** The November render rewrites the two November rows and leaves the December row as text. */
  lemma NovemberRows()
    ensures var rows := RowsAfterRender(Table, "Apple", "November");
      |rows| == 3
      && rows[0] == RowRec(DateObj(Nov1), Str("Apple"), Num(Fin(150.0)), Num(Fin(152.0)))
      && rows[1] == RowRec(DateObj(Nov2), Str("Apple"), Num(Fin(152.0)), Num(Fin(149.0)))
      && rows[2] == Table[2]
  {
    NovemberSelection();
    NormalizedNovemberRows();
    var rows := RowsAfterRender(Table, "Apple", "November");
    assert |rows| == 3;
    assert rows[0] == NormalizeRow(Table[0]) && rows[1] == NormalizeRow(Table[1]);
    assert rows[2] == Table[2] by {
      assert 2 !in [0, 1];
    }
  }

  /** The chart of the two November points: Nov 1 to Nov 2, prices 149 to 152. */
  lemma NovemberChart()
    ensures BuildChart([Point(Nov1, 150.0, 152.0), Point(Nov2, 152.0, 149.0)])
      == Chart(DateRange(Nov1, Nov2), PriceRange(149.0, 152.0),
               [Point(Nov1, 150.0, 152.0), Point(Nov2, 152.0, 149.0)])
  {
    var ps := [Point(Nov1, 150.0, 152.0), Point(Nov2, 152.0, 149.0)];
    assert ps[1..] == [Point(Nov2, 152.0, 149.0)];
    assert EpochDay(Nov1) < EpochDay(Nov2);
  }

  /** The November render draws the two normalised November rows, in table order. */
  lemma NovemberPoints(shown: Option<Chart>)
    ensures ChartAfterRender(Table, "Apple", "November", shown)
      == Some(BuildChart([Point(Nov1, 150.0, 152.0), Point(Nov2, 152.0, 149.0)]))
  {
    var pts := [Point(Nov1, 150.0, 152.0), Point(Nov2, 152.0, 149.0)];
    NovemberShown();
    NormalizedNovemberRows();
    forall k | 0 <= k < 2
      ensures Plottable(NormalizeRow(Table[[0, 1][k]])) && PointOf(NormalizeRow(Table[[0, 1][k]])) == pts[k]
    {
      if k == 0 {
        assert [0, 1][k] == 0;
      } else {
        assert [0, 1][k] == 1;
      }
    }
    ChartOfPoints(Table, "Apple", "November", shown, [0, 1], pts);
  }

  /**
   * Rendering November draws the two November rows with their parsed dates and
   * prices, over the dates Nov 1 to Nov 2 and the prices 149 to 152.
   */
  lemma NovemberDrawsTwoPoints(shown: Option<Chart>)
    ensures ChartAfterRender(Table, "Apple", "November", shown)
      == Some(Chart(DateRange(Nov1, Nov2), PriceRange(149.0, 152.0),
                    [Point(Nov1, 150.0, 152.0), Point(Nov2, 152.0, 149.0)]))
  {
    NovemberPoints(shown);
    NovemberChart();
  }

  /**
   * A first-of-month row read five hours west of UTC: the text is midnight UTC,
   * which is still the last day of the previous month in local time.
   */
  lemma FirstOfMonthReadWestOfUtc()
    ensures MonthOfValue(Table[0].date) == "November"
    ensures LocalMonthOfValue(Table[0].date, -300) == "October"
  {
    DatesOfTable();
    assert TimeValueOf(Table[0].date) == Some(EpochDay(Nov1) * MsPerDay);
    FirstOfMonthWestOfUtc(Table[0].date, Nov1, -300);
  }

  /**
   * West of UTC the December row's text reads as November, so that row belongs to
   * the November chart; once normalised into a local-midnight Date it reads as
   * December, so the same render finds a different selection the next time.
   */
  lemma DecemberRowDriftsWestOfUtc()
    ensures LocalMonthOfValue(Table[2].date, -300) == "November"
    ensures NormalizeDate(Table[2].date) == DateObj(Dec1)
    ensures LocalMonthOfValue(NormalizeDate(Table[2].date), -300) == "December"
  {
    DatesOfTable();
    assert TimeValueOf(Table[2].date) == Some(EpochDay(Dec1) * MsPerDay);
    FirstOfMonthWestOfUtc(Table[2].date, Dec1, -300);
    LocalDateKeepsMonth(Dec1, -300);
  }

  /** Rendering January finds no row, so nothing is rewritten and the chart on screen stays. */
  lemma JanuaryKeepsChart(shown: Option<Chart>)
    ensures RowsAfterRender(Table, "Apple", "January") == Table
    ensures ChartAfterRender(Table, "Apple", "January", shown) == shown
  {
    MonthsOfTable();
    forall k | 0 <= k < |Table|
      ensures !Selected(Table[k], "Apple", "January")
    {
      assert k == 0 || k == 1 || k == 2;
    }
    NoMatchChangesNothing(Table, "Apple", "January", shown);
  }
}
