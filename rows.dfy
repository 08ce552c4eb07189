/**
 * The rows of the uploaded table as the chart sees them, the two filters of
 * `renderChart` (by selection, then by validity) and the per-row normaliser.
 *
 * `filter` returns a new array holding the same row objects, so a filter
 * result is modelled as a list of positions into the table: writing through
 * an element of it writes the table's row at that position.
 */
module Rows {
  import opened Options
  import opened Text
  import opened Calendar
  import opened Coercion

  /** The four columns the chart reads; other columns are never touched. */
  datatype RowRec = RowRec(date: Value, company: Value, open: Value, close: Value)

  // ---------------------------------------------------------------------------
  // Positions

  predicate InRange(ps: seq<int>, n: int) {
    forall k :: 0 <= k < |ps| ==> 0 <= ps[k] < n
  }

  predicate Increasing(ps: seq<int>) {
    forall i, j :: 0 <= i < j < |ps| ==> ps[i] < ps[j]
  }

  /** The positions 0 .. n-1 in order: a whole table. */
  function AllPositions(n: nat): (ps: seq<int>)
    ensures |ps| == n && Increasing(ps) && InRange(ps, n)
    ensures forall k :: 0 <= k < n ==> ps[k] == k
  {
    seq(n, i => i)
  }

  lemma AllPositionsHoldsAll(n: nat)
    ensures forall i :: i in AllPositions(n) <==> 0 <= i < n
  {
    var ps := AllPositions(n);
    forall i | 0 <= i < n
      ensures i in ps
    {
      assert ps[i] == i;
    }
  }

  lemma IncreasingCons(ps: seq<int>)
    requires ps != [] && Increasing(ps[1..])
    requires forall i :: i in ps[1..] ==> ps[0] < i
    ensures Increasing(ps)
  {
    forall i, j | 0 <= i < j < |ps|
      ensures ps[i] < ps[j]
    {
      if i == 0 {
        assert ps[j] == ps[1..][j - 1] && ps[1..][j - 1] in ps[1..];
      } else {
        assert ps[i] == ps[1..][i - 1] && ps[j] == ps[1..][j - 1];
      }
    }
  }

  lemma KeepHeadIncreasing(ps: seq<int>, rest: seq<int>)
    requires ps != [] && forall i :: i in rest ==> i in ps[1..]
    requires Increasing(ps[1..]) ==> Increasing(rest)
    ensures Increasing(ps) ==> Increasing([ps[0]] + rest)
  {
    if Increasing(ps) {
      IncreasingHead(ps);
      var r := [ps[0]] + rest;
      assert r[1..] == rest;
      IncreasingCons(r);
    }
  }

  lemma IncreasingHead(ps: seq<int>)
    requires ps != [] && Increasing(ps)
    ensures Increasing(ps[1..])
    ensures forall i :: i in ps[1..] ==> ps[0] < i
  {
  }

  /**
   * `Array.prototype.filter` over the rows at positions `ps`: the positions whose
   * row passes `p`, in the order of `ps`.
   */
  function FilterPositions(s: seq<RowRec>, ps: seq<int>, p: RowRec -> bool): (r: seq<int>)
    requires InRange(ps, |s|)
    ensures InRange(r, |s|) && |r| <= |ps|
    ensures forall i :: i in r <==> i in ps && 0 <= i < |s| && p(s[i])
    ensures Increasing(ps) ==> Increasing(r)
    decreases |ps|
  {
    if ps == [] then []
    else
      var rest := FilterPositions(s, ps[1..], p);
      assert forall i :: i in ps <==> i == ps[0] || i in ps[1..];
      if p(s[ps[0]]) then
        KeepHeadIncreasing(ps, rest);
        [ps[0]] + rest
      else rest
  }

  /** When every row at the listed positions passes, the filter returns the list unchanged. */
  lemma {:induction false} FilterAllPass(s: seq<RowRec>, ps: seq<int>, p: RowRec -> bool)
    requires InRange(ps, |s|) && forall k :: 0 <= k < |ps| ==> p(s[ps[k]])
    ensures FilterPositions(s, ps, p) == ps
    decreases |ps|
  {
    if ps != [] {
      assert forall k :: 0 <= k < |ps| - 1 ==> ps[1..][k] == ps[k + 1];
      FilterAllPass(s, ps[1..], p);
      assert p(s[ps[0]]);
    }
  }

  /** An increasing list of positions is determined by which positions it holds. */
  lemma {:induction false} IncreasingUnique(a: seq<int>, b: seq<int>)
    requires Increasing(a) && Increasing(b)
    requires forall x :: x in a <==> x in b
    ensures a == b
  {
    if a != [] || b != [] {
      if a != [] {
        assert a[0] in a;
      }
      if b != [] {
        assert b[0] in b;
      }
      assert a[0] in b && b[0] in a;
      var j :| 0 <= j < |a| && a[j] == b[0];
      var k :| 0 <= k < |b| && b[k] == a[0];
      assert a[0] <= a[j] && b[0] <= b[k];
      forall x
        ensures x in a[1..] <==> x in b[1..]
      {
        if x in a[1..] {
          var i :| 1 <= i < |a| && a[i] == x;
          assert x in b && x != b[0];
        }
        if x in b[1..] {
          var i :| 1 <= i < |b| && b[i] == x;
          assert x in a && x != a[0];
        }
      }
      IncreasingUnique(a[1..], b[1..]);
    }
  }

  /** Filtering distributes over concatenation: the filter keeps order. */
  lemma {:induction false} FilterConcat(s: seq<RowRec>, ps: seq<int>, qs: seq<int>, p: RowRec -> bool)
    requires InRange(ps, |s|) && InRange(qs, |s|)
    ensures FilterPositions(s, ps + qs, p) == FilterPositions(s, ps, p) + FilterPositions(s, qs, p)
    decreases |ps|
  {
    if ps != [] {
      assert (ps + qs)[1..] == ps[1..] + qs;
      FilterConcat(s, ps[1..], qs, p);
    } else {
      assert ps + qs == qs;
    }
  }

  // ---------------------------------------------------------------------------
  // The selection filter

  /** The row is the chosen company's, and its date, read as a Date, falls in the chosen month. */
  predicate Selected(r: RowRec, company: string, month: string) {
    r.company == Str(company) && MonthOfValue(r.date) == month
  }

  // ---------------------------------------------------------------------------
  // The normaliser (the body of the `forEach`)

  /**
   * A string date becomes the `%Y-%m-%d` parse of its text before the first space
   * (null when that fails), a Date stays, anything else becomes null.
   */
  function NormalizeDate(v: Value): (r: Value)
    ensures r.DateObj? || r.Null?
  {
    match v
    case Str(s) =>
      (match ParseIsoDate(TextBeforeSpace(s))
       case Some(d) => DateObj(d)
       case None => Null)
    case DateObj(_) => v
    case _ => Null
  }

  function NormalizeRow(r: RowRec): RowRec {
    r.(date := NormalizeDate(r.date), open := Num(ToNumber(r.open)), close := Num(ToNumber(r.close)))
  }

  /** The row the normaliser leaves: a Date or null, and two numbers. */
  predicate Normalized(r: RowRec) {
    (r.date.DateObj? || r.date.Null?) && r.open.Num? && r.close.Num?
  }

  /** The normaliser writes the coercions of its row's own fields and nothing else. */
  lemma NormalizeRowFields(r: RowRec)
    ensures Normalized(NormalizeRow(r)) && NormalizeRow(r).company == r.company
    ensures r.date.Str? ==>
      NormalizeRow(r).date == match ParseIsoDate(TextBeforeSpace(r.date.s))
                              case Some(d) => DateObj(d)
                              case None => Null
    ensures r.date.DateObj? ==> NormalizeRow(r).date == r.date
    ensures !r.date.Str? && !r.date.DateObj? ==> NormalizeRow(r).date == Null
    ensures NormalizeRow(r).open == Num(ToNumber(r.open)) && NormalizeRow(r).close == Num(ToNumber(r.close))
  {
  }

  /** A second pass changes nothing: a Date stays a Date, null stays null, a number stays. */
  lemma NormalizeIdempotent(r: RowRec)
    ensures NormalizeRow(NormalizeRow(r)) == NormalizeRow(r)
  {
  }

  lemma NormalizedIsFixed(r: RowRec)
    requires Normalized(r)
    ensures NormalizeRow(r) == r
  {
  }

  // ---------------------------------------------------------------------------
  // The validity filter

  /** The date is present and both prices coerce to a number other than NaN. */
  predicate IsValid(r: RowRec) {
    r.date != Null && !IsNaN(r.open) && !IsNaN(r.close)
  }

  /** A row that can be drawn: a Date and two numbers other than NaN. */
  predicate Plottable(r: RowRec) {
    r.date.DateObj? && r.open.Num? && r.open.n.Fin? && r.close.Num? && r.close.n.Fin?
  }

  /** After normalising, the validity test accepts exactly the drawable rows. */
  lemma ValidNormalizedPlottable(r: RowRec)
    requires Normalized(r)
    ensures IsValid(r) <==> Plottable(r)
  {
  }

  /** A date text that does not parse dooms its row whatever its prices. */
  lemma UnparseableDateRejected(r: RowRec)
    requires r.date.Str? && ParseIsoDate(TextBeforeSpace(r.date.s)).None?
    ensures !IsValid(NormalizeRow(r))
  {
  }

  /** A parseable date with numeric prices is kept, with exactly those prices. */
  lemma NumericRowAccepted(r: RowRec, d: Date, o: real, c: real)
    requires r.date.Str? && ParseIsoDate(TextBeforeSpace(r.date.s)) == Some(d)
    requires ToNumber(r.open) == Fin(o) && ToNumber(r.close) == Fin(c)
    ensures IsValid(NormalizeRow(r)) && Plottable(NormalizeRow(r))
    ensures NormalizeRow(r).date == DateObj(d)
    ensures NormalizeRow(r).open == Num(Fin(o)) && NormalizeRow(r).close == Num(Fin(c))
  {
  }

  /** An empty cell (null from the decoder) coerces to 0, so `isNaN` is false for it. */
  lemma EmptyPriceIsZero(r: RowRec)
    requires r.open == Null
    ensures NormalizeRow(r).open == Num(Fin(0.0)) && !IsNaN(NormalizeRow(r).open)
  {
  }

  /** A selected row that survives normalisation as valid is still selected. */
  lemma ValidStaysSelected(r: RowRec, company: string, month: string)
    requires Selected(r, company, month) && IsValid(NormalizeRow(r))
    ensures Selected(NormalizeRow(r), company, month)
    ensures month == MonthName(NormalizeRow(r).date.d.month)
  {
    match r.date
    case Str(s) =>
      MonthOfDateString(s);
      MonthOfDate(NormalizeRow(r).date.d);
    case DateObj(d) =>
      MonthOfDate(d);
  }
}
