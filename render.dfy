/**
 * What one call of `renderChart` does, as functions of the table's rows
 * before the call and of the chart on screen: which rows it rewrites, which
 * rows it draws, and the chart left on screen afterwards.
 */
module Render {
  import opened Options
  import opened Calendar
  import opened Coercion
  import opened Rows
  import opened Domains

  /** `filteredData`: positions of the rows of `company` dated in `month`, in table order. */
  function SelectedPositions(s: seq<RowRec>, company: string, month: string): (r: seq<int>)
    ensures Increasing(r) && InRange(r, |s|)
    ensures forall i :: i in r <==> 0 <= i < |s| && Selected(s[i], company, month)
  {
    AllPositionsHoldsAll(|s|);
    FilterPositions(s, AllPositions(|s|), x => Selected(x, company, month))
  }

  /** The table after the `forEach`: each row at a position of `ps` normalised in place. */
  function NormalizeAt(s: seq<RowRec>, ps: seq<int>): seq<RowRec> {
    seq(|s|, k requires 0 <= k < |s| => if k in ps then NormalizeRow(s[k]) else s[k])
  }

  /** The table's rows after a render with the given selection. */
  function RowsAfterRender(s: seq<RowRec>, company: string, month: string): seq<RowRec> {
    NormalizeAt(s, SelectedPositions(s, company, month))
  }

  /** `validData`: the positions of `filteredData` whose normalised row is valid. */
  function ShownPositions(s: seq<RowRec>, company: string, month: string): seq<int> {
    FilterPositions(RowsAfterRender(s, company, month), SelectedPositions(s, company, month), IsValid)
  }

  function PointOf(r: RowRec): Point
    requires Plottable(r)
  {
    Point(r.date.d, r.open.n.val, r.close.n.val)
  }

  function PointsAt(s: seq<RowRec>, ps: seq<int>): seq<Point>
    requires InRange(ps, |s|) && forall k :: 0 <= k < |ps| ==> Plottable(s[ps[k]])
  {
    seq(|ps|, k requires 0 <= k < |ps| => PointOf(s[ps[k]]))
  }

  /** Where a render leaves the rows: a selected row normalised, every other row as it was. */
  lemma RenderRewritesSelected(s: seq<RowRec>, company: string, month: string)
    ensures |RowsAfterRender(s, company, month)| == |s|
    ensures forall k :: 0 <= k < |s| ==>
      RowsAfterRender(s, company, month)[k]
        == if Selected(s[k], company, month) then NormalizeRow(s[k]) else s[k]
  {
  }

  /** The drawn rows are exactly the selected rows whose normalised form is valid, in order. */
  lemma ShownRows(s: seq<RowRec>, company: string, month: string)
    ensures Increasing(ShownPositions(s, company, month))
    ensures InRange(ShownPositions(s, company, month), |s|)
    ensures forall i :: i in ShownPositions(s, company, month) <==>
      0 <= i < |s| && Selected(s[i], company, month) && IsValid(NormalizeRow(s[i]))
    ensures forall i :: i in ShownPositions(s, company, month) ==>
      Plottable(RowsAfterRender(s, company, month)[i])
  {
    var sel := SelectedPositions(s, company, month);
    var s' := RowsAfterRender(s, company, month);
    forall i | i in sel
      ensures s'[i] == NormalizeRow(s[i])
    {
    }
    forall i | i in ShownPositions(s, company, month)
      ensures Plottable(s'[i])
    {
      NormalizeRowFields(s[i]);
    }
  }

  /** The chart on screen after a render: unchanged when no row is drawable. */
  function ChartAfterRender(s: seq<RowRec>, company: string, month: string, shown: Option<Chart>): Option<Chart> {
    var ps := ShownPositions(s, company, month);
    if |ps| == 0 then shown
    else
      ShownRows(s, company, month);
      Some(BuildChart(PointsAt(RowsAfterRender(s, company, month), ps)))
  }

  /**
   * A render that draws shows one point per drawn row, in table order, each the
   * row's normalised date and prices; every point is of the selected company and
   * month and lies inside both domains.
   */
  lemma ChartShowsSelection(s: seq<RowRec>, company: string, month: string, shown: Option<Chart>)
    requires |ShownPositions(s, company, month)| > 0
    ensures ChartAfterRender(s, company, month, shown).Some?
    ensures var c := ChartAfterRender(s, company, month, shown).value;
      var ps := ShownPositions(s, company, month);
      |c.points| == |ps|
      && forall k :: 0 <= k < |ps| ==>
        0 <= ps[k] < |s| && Plottable(NormalizeRow(s[ps[k]]))
        && c.points[k] == PointOf(NormalizeRow(s[ps[k]]))
        && s[ps[k]].company == Str(company)
        && MonthName(c.points[k].date.month) == month
        && OnChart(c, c.points[k])
  {
    var ps := ShownPositions(s, company, month);
    var s1 := RowsAfterRender(s, company, month);
    ShownRows(s, company, month);
    RenderRewritesSelected(s, company, month);
    var c := BuildChart(PointsAt(s1, ps));
    assert ChartAfterRender(s, company, month, shown) == Some(c);
    forall k | 0 <= k < |ps|
      ensures 0 <= ps[k] < |s| && Plottable(NormalizeRow(s[ps[k]]))
      ensures c.points[k] == PointOf(NormalizeRow(s[ps[k]]))
      ensures s[ps[k]].company == Str(company)
      ensures MonthName(c.points[k].date.month) == month
      ensures OnChart(c, c.points[k])
    {
      var i := ps[k];
      assert i in ps;
      ValidStaysSelected(s[i], company, month);
      assert s1[i] == NormalizeRow(s[i]);
      assert c.points[k] == PointOf(s1[i]);
    }
  }

  /** When every selected row is valid once normalised, every selected row is drawn. */
  lemma AllValidAllShown(s: seq<RowRec>, company: string, month: string, sel: seq<int>)
    requires SelectedPositions(s, company, month) == sel
    requires forall k :: 0 <= k < |sel| ==> 0 <= sel[k] < |s| && IsValid(NormalizeRow(s[sel[k]]))
    ensures ShownPositions(s, company, month) == sel
  {
    var s1 := RowsAfterRender(s, company, month);
    RenderRewritesSelected(s, company, month);
    forall k | 0 <= k < |sel|
      ensures IsValid(s1[sel[k]])
    {
      assert sel[k] in sel;
    }
    FilterAllPass(s1, sel, IsValid);
  }

  /** A render that draws exactly the points `pts`, each the normalised row at its drawn position, charts them. */
  lemma ChartOfPoints(s: seq<RowRec>, company: string, month: string, shown: Option<Chart>, ps: seq<int>, pts: seq<Point>)
    requires ShownPositions(s, company, month) == ps && |ps| == |pts| > 0
    requires forall k :: 0 <= k < |pts| ==>
      0 <= ps[k] < |s| && Plottable(NormalizeRow(s[ps[k]])) && PointOf(NormalizeRow(s[ps[k]])) == pts[k]
    ensures ChartAfterRender(s, company, month, shown) == Some(BuildChart(pts))
  {
    var s1 := RowsAfterRender(s, company, month);
    ShownRows(s, company, month);
    RenderRewritesSelected(s, company, month);
    forall k | 0 <= k < |ps|
      ensures s1[ps[k]] == NormalizeRow(s[ps[k]])
    {
      assert ps[k] in ps;
      ValidStaysSelected(s[ps[k]], company, month);
    }
    assert PointsAt(s1, ps) == pts;
  }

  /** With no row of the selection, a render rewrites nothing and keeps the chart on screen. */
  lemma NoMatchChangesNothing(s: seq<RowRec>, company: string, month: string, shown: Option<Chart>)
    requires forall k :: 0 <= k < |s| ==> !Selected(s[k], company, month)
    ensures RowsAfterRender(s, company, month) == s
    ensures ChartAfterRender(s, company, month, shown) == shown
  {
    IncreasingUnique(SelectedPositions(s, company, month), []);
  }

  /**
   * Rendering again with the same selection rewrites nothing and draws the same
   * chart: the first render's writes never change which rows are drawn.
   */
  lemma RenderIdempotent(s: seq<RowRec>, company: string, month: string, shown: Option<Chart>)
    ensures var s1 := RowsAfterRender(s, company, month);
      RowsAfterRender(s1, company, month) == s1
      && ShownPositions(s1, company, month) == ShownPositions(s, company, month)
      && ChartAfterRender(s1, company, month, ChartAfterRender(s, company, month, shown))
         == ChartAfterRender(s, company, month, shown)
  {
    var s1 := RowsAfterRender(s, company, month);
    var sel := SelectedPositions(s, company, month);
    var sel1 := SelectedPositions(s1, company, month);
    RenderRewritesSelected(s, company, month);
    // a row selected now was selected before, so it is already normalised
    forall i | i in sel1
      ensures i in sel && s1[i] == NormalizeRow(s[i])
    {
    }
    var s2 := RowsAfterRender(s1, company, month);
    RenderRewritesSelected(s1, company, month);
    forall k | 0 <= k < |s1|
      ensures s2[k] == s1[k]
    {
      if k in sel1 {
        NormalizeIdempotent(s[k]);
      }
    }
    assert s2 == s1;
    // the drawn rows are the same: a drawn row stays selected
    var v := ShownPositions(s, company, month);
    var v1 := ShownPositions(s1, company, month);
    ShownRows(s, company, month);
    ShownRows(s1, company, month);
    forall i
      ensures i in v <==> i in v1
    {
      if i in v {
        ValidStaysSelected(s[i], company, month);
        assert Selected(s1[i], company, month);
        NormalizeIdempotent(s[i]);
      }
      if i in v1 {
        NormalizeIdempotent(s[i]);
      }
    }
    IncreasingUnique(v, v1);
  }
}
