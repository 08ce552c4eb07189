/**
 * The chart component: its selection state, the two selection handlers and
 * `renderChart`, which rewrites the selected rows of the shared table in
 * place and, when some of them are valid, replaces the chart on screen.
 */
module Child1 {
  import opened Options
  import opened Rows
  import opened Domains
  import opened Render

  /** The company radio buttons, in display order. */
  const Companies: seq<string> := ["Apple", "Microsoft", "Amazon", "Google", "Meta"]

  /**
   * The `forEach` over `filteredData`: normalises, in order, the row at each
   * position of `ps`. A position listed twice is normalised twice, which the
   * normaliser's idempotence makes harmless.
   */
  method NormalizeRows(data: array<RowRec>, ps: seq<int>)
    requires InRange(ps, data.Length)
    modifies data
    ensures data[..] == NormalizeAt(old(data[..]), ps)
  {
    ghost var s0 := data[..];
    for i := 0 to |ps|
      invariant data[..] == NormalizeAt(s0, ps[..i])
    {
      ghost var before := data[..];
      var k := ps[i];
      data[k] := NormalizeRow(data[k]);
      forall j | 0 <= j < data.Length
        ensures data[j] == NormalizeAt(s0, ps[..i + 1])[j]
      {
        assert ps[..i + 1] == ps[..i] + [k];
        if j == k {
          NormalizeIdempotent(s0[k]);
        }
      }
    }
    assert ps[..|ps|] == ps;
  }

  /**
   * The first half of `renderChart`: selects the rows of `company` dated in `month`,
   * normalises them in place and returns the positions of those now valid.
   */
  method PrepareRows(data: array<RowRec>, company: string, month: string) returns (validData: seq<int>)
    modifies data
    ensures data[..] == RowsAfterRender(old(data[..]), company, month)
    ensures validData == ShownPositions(old(data[..]), company, month)
  {
    var filteredData := SelectedPositions(data[..], company, month);
    NormalizeRows(data, filteredData);
    validData := FilterPositions(data[..], filteredData, IsValid);
  }

  class Child1 {
    var company: string
    var selectedMonth: string

    constructor ()
      ensures company == "Apple" && selectedMonth == "November"
      ensures company in Companies && selectedMonth in Calendar.MonthNames
    {
      company := "Apple";
      selectedMonth := "November";
    }

    method HandleCompanyChange(value: string)
      modifies this`company
      ensures company == value && selectedMonth == old(selectedMonth)
    {
      company := value;
    }

    method HandleMonthChange(value: string)
      modifies this`selectedMonth
      ensures selectedMonth == value && company == old(company)
    {
      selectedMonth := value;
    }

    /**
     * Rewrites the selected rows of `data` in place and redraws the chart area from
     * the valid ones. The chart area is the page's, so it comes in as `shown` and
     * goes out as `drawn`; when no row is valid the method returns before clearing
     * it, and `drawn` is `shown`.
     */
    method RenderChart(data: array<RowRec>, shown: Option<Chart>) returns (drawn: Option<Chart>)
      modifies data
      ensures data[..] == RowsAfterRender(old(data[..]), company, selectedMonth)
      ensures drawn == ChartAfterRender(old(data[..]), company, selectedMonth, shown)
      ensures |ShownPositions(old(data[..]), company, selectedMonth)| == 0 ==> drawn == shown
    {
      ghost var s := data[..];
      drawn := shown;
      var validData := PrepareRows(data, company, selectedMonth);
      if |validData| == 0 {
        return;
      }
      var rows := data[..];
      assert forall k :: 0 <= k < |validData| ==> Plottable(rows[validData[k]]) by {
        ShownRows(s, company, selectedMonth);
        forall k | 0 <= k < |validData|
          ensures Plottable(rows[validData[k]])
        {
          assert validData[k] in validData;
        }
      }
      drawn := Some(BuildChart(PointsAt(rows, validData)));
    }
  }
}
