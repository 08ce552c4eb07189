/**
 * The scales' input domains of the price chart: the time extent of the
 * valid rows (`d3.extent` over their dates) and the raw price extent (the
 * smallest of `Math.min(Open, Close)` and the largest of
 * `Math.max(Open, Close)`), before d3 rounds it outward with `nice()`.
 */
module Domains {
  import opened Calendar

  /** One drawn row: its date and its two prices, one marker per series. */
  datatype Point = Point(date: Date, open: real, close: real)

  function Min(a: real, b: real): (m: real)
    ensures m <= a && m <= b && (m == a || m == b)
  {
    if a <= b then a else b
  }

  function Max(a: real, b: real): (m: real)
    ensures m >= a && m >= b && (m == a || m == b)
  {
    if a >= b then a else b
  }

  /** Earliest date; on ties the first row, as d3 replaces only a strictly larger minimum. */
  function EarliestDate(ps: seq<Point>): (d: Date)
    requires |ps| > 0
    ensures exists k :: 0 <= k < |ps| && ps[k].date == d
    ensures forall k :: 0 <= k < |ps| ==> EpochDay(d) <= EpochDay(ps[k].date)
  {
    if |ps| == 1 then ps[0].date
    else
      var rest := EarliestDate(ps[1..]);
      assert forall k :: 1 <= k < |ps| ==> ps[k] == ps[1..][k - 1];
      if EpochDay(ps[0].date) <= EpochDay(rest) then ps[0].date else rest
  }

  function LatestDate(ps: seq<Point>): (d: Date)
    requires |ps| > 0
    ensures exists k :: 0 <= k < |ps| && ps[k].date == d
    ensures forall k :: 0 <= k < |ps| ==> EpochDay(ps[k].date) <= EpochDay(d)
  {
    if |ps| == 1 then ps[0].date
    else
      var rest := LatestDate(ps[1..]);
      assert forall k :: 1 <= k < |ps| ==> ps[k] == ps[1..][k - 1];
      if EpochDay(ps[0].date) >= EpochDay(rest) then ps[0].date else rest
  }

  /** The lowest price on the chart: the smaller of open and close, minimised over the points. */
  function LowPrice(ps: seq<Point>): (lo: real)
    requires |ps| > 0
    ensures exists k :: 0 <= k < |ps| && lo == Min(ps[k].open, ps[k].close)
    ensures forall k :: 0 <= k < |ps| ==> lo <= ps[k].open && lo <= ps[k].close
  {
    if |ps| == 1 then Min(ps[0].open, ps[0].close)
    else
      var rest := LowPrice(ps[1..]);
      assert forall k :: 1 <= k < |ps| ==> ps[k] == ps[1..][k - 1];
      Min(Min(ps[0].open, ps[0].close), rest)
  }

  /** The highest price on the chart: the larger of open and close, maximised over the points. */
  function HighPrice(ps: seq<Point>): (hi: real)
    requires |ps| > 0
    ensures exists k :: 0 <= k < |ps| && hi == Max(ps[k].open, ps[k].close)
    ensures forall k :: 0 <= k < |ps| ==> ps[k].open <= hi && ps[k].close <= hi
  {
    if |ps| == 1 then Max(ps[0].open, ps[0].close)
    else
      var rest := HighPrice(ps[1..]);
      assert forall k :: 1 <= k < |ps| ==> ps[k] == ps[1..][k - 1];
      Max(Max(ps[0].open, ps[0].close), rest)
  }

  datatype DateRange = DateRange(first: Date, last: Date)
  datatype PriceRange = PriceRange(lo: real, hi: real)

  /** What a render puts on screen: both domains and the points of both series. */
  datatype Chart = Chart(x: DateRange, y: PriceRange, points: seq<Point>)

  predicate OnChart(c: Chart, p: Point) {
    EpochDay(c.x.first) <= EpochDay(p.date) <= EpochDay(c.x.last)
    && c.y.lo <= p.open <= c.y.hi && c.y.lo <= p.close <= c.y.hi
  }

  /** The chart of a non-empty series: ordered domains that hold every point. */
  function BuildChart(ps: seq<Point>): (c: Chart)
    requires |ps| > 0
    ensures c.points == ps
    ensures EpochDay(c.x.first) <= EpochDay(c.x.last) && c.y.lo <= c.y.hi
    ensures forall k :: 0 <= k < |ps| ==> OnChart(c, ps[k])
    ensures exists k :: 0 <= k < |ps| && ps[k].date == c.x.first
    ensures exists k :: 0 <= k < |ps| && ps[k].date == c.x.last
    ensures exists k :: 0 <= k < |ps| && c.y.lo == Min(ps[k].open, ps[k].close)
    ensures exists k :: 0 <= k < |ps| && c.y.hi == Max(ps[k].open, ps[k].close)
  {
    Chart(DateRange(EarliestDate(ps), LatestDate(ps)), PriceRange(LowPrice(ps), HighPrice(ps)), ps)
  }

  /** Identical prices everywhere give a zero-width raw price domain; `nice()` is not modelled. */
  lemma FlatPricesCollapse(ps: seq<Point>, v: real)
    requires |ps| > 0 && forall k :: 0 <= k < |ps| ==> ps[k].open == v && ps[k].close == v
    ensures BuildChart(ps).y == PriceRange(v, v)
  {
  }
}
