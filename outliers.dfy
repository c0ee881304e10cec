/** The IQR outlier filter of modules/outliers.py and the quantile it uses
    (pandas' default: linear interpolation between closest ranks). */
module Outliers {
  import opened Wrappers
  import opened Frames

  predicate Sorted(s: seq<real>) {
    forall i, j :: 0 <= i < j < |s| ==> s[i] <= s[j]
  }

  /** x put in front of the first element not below it. */
  function Insert(x: real, s: seq<real>): seq<real> {
    if |s| == 0 || x <= s[0] then [x] + s
    else [s[0]] + Insert(x, s[1..])
  }

  /** The values in ascending order (the order quantiles are read in): the
      same values, each as often, sorted. */
  function Sort(s: seq<real>): (r: seq<real>)
    ensures Sorted(r)
    ensures multiset(r) == multiset(s)
    ensures |r| == |s|
  {
    if |s| == 0 then []
    else
      assert s == [s[0]] + s[1..];
      InsertSorted(s[0], Sort(s[1..]));
      var r := Insert(s[0], Sort(s[1..]));
      assert |multiset(r)| == |multiset(s)|;
      r
  }

  lemma {:induction false} InsertSorted(x: real, s: seq<real>)
    requires Sorted(s)
    ensures Sorted(Insert(x, s))
    ensures multiset(Insert(x, s)) == multiset(s) + multiset{x}
    decreases |s|
  {
    if |s| == 0 || x <= s[0] {
      assert Insert(x, s) == [x] + s;
      SortedCons(x, s);
    } else {
      var t := Insert(x, s[1..]);
      InsertSorted(x, s[1..]);
      assert forall y :: y in s[1..] ==> s[0] <= y;
      LowerBoundKept(s[0], x, s[1..], t);
      SortedCons(s[0], t);
      assert Insert(x, s) == [s[0]] + t;
      assert s == [s[0]] + s[1..];
    }
  }

  /** A sorted sequence stays sorted with a lower bound of it put in front. */
  lemma SortedCons(h: real, t: seq<real>)
    requires Sorted(t) && forall y :: y in t ==> h <= y
    ensures Sorted([h] + t)
  {
    var r := [h] + t;
    forall i, j | 0 <= i < j < |r|
      ensures r[i] <= r[j]
    {
      assert r[j] == t[j - 1] && t[j - 1] in t;
      if i > 0 {
        assert r[i] == t[i - 1];
      }
    }
  }

  lemma LowerBoundKept(b: real, x: real, s: seq<real>, t: seq<real>)
    requires b <= x && forall y :: y in s ==> b <= y
    requires multiset(t) == multiset(s) + multiset{x}
    ensures forall y :: y in t ==> b <= y
  {
    forall y | y in t
      ensures b <= y
    {
      assert multiset(t)[y] > 0;
      assert (multiset(s) + multiset{x})[y] == multiset(s)[y] + multiset{x}[y];
      if y != x {
        assert multiset{x}[y] == 0;
        assert multiset(s)[y] > 0;
        assert y in s;
      }
    }
  }

  lemma ScaleMonotone(a: real, b: real, c: real)
    requires 0.0 <= a && b <= c
    ensures a * b <= a * c
  {
    assert a * c - a * b == a * (c - b);
  }

  /** The rank position (n-1)·q of the q-quantile among n sorted values. */
  function Position(n: nat, q: real): (h: real)
    requires n > 0 && 0.0 <= q <= 1.0
    ensures 0.0 <= h <= (n - 1) as real
  {
    var a := (n - 1) as real;
    assert 0.0 <= a * q by {
      ScaleMonotone(a, 0.0, q);
      assert a * 0.0 == 0.0;
    }
    assert a * q <= a by {
      ScaleMonotone(a, q, 1.0);
      assert a * 1.0 == a;
    }
    a * q
  }

  lemma PositionMonotone(n: nat, q1: real, q2: real)
    requires n > 0 && 0.0 <= q1 <= q2 <= 1.0
    ensures Position(n, q1) <= Position(n, q2)
  {
    ScaleMonotone((n - 1) as real, q1, q2);
  }

  /** The index below the rank position. */
  function Rank(n: nat, q: real): (i: nat)
    requires n > 0 && 0.0 <= q <= 1.0
    ensures i < n
    ensures i as real <= Position(n, q) < i as real + 1.0
  {
    Position(n, q).Floor
  }

  /** Linear interpolation from a towards b by the fraction t. */
  function Lerp(a: real, b: real, t: real): real {
    a + t * (b - a)
  }

  lemma LerpBetween(a: real, b: real, t: real)
    requires a <= b && 0.0 <= t <= 1.0
    ensures a <= Lerp(a, b, t) <= b
  {
    ScaleMonotone(b - a, 0.0, t);
    ScaleMonotone(b - a, t, 1.0);
  }

  lemma LerpMonotone(a: real, b: real, t1: real, t2: real)
    requires a <= b && 0.0 <= t1 <= t2 <= 1.0
    ensures Lerp(a, b, t1) <= Lerp(a, b, t2)
  {
    ScaleMonotone(b - a, t1, t2);
    assert t1 * (b - a) <= t2 * (b - a);
  }

  /** The q-quantile of sorted values: at rank position h = (n-1)·q, the value
      at floor(h) moved towards the next value by the fractional part of h. */
  function Quantile(s: seq<real>, q: real): (r: real)
    requires |s| > 0 && 0.0 <= q <= 1.0
    ensures Position(|s|, q) == Rank(|s|, q) as real ==> r == s[Rank(|s|, q)]
    ensures Sorted(s) && Rank(|s|, q) + 1 < |s| ==> s[Rank(|s|, q)] <= r <= s[Rank(|s|, q) + 1]
  {
    var i := Rank(|s|, q);
    if i + 1 < |s| then
      var t := Position(|s|, q) - i as real;
      assert Sorted(s) ==> s[i] <= Lerp(s[i], s[i + 1], t) <= s[i + 1] by {
        if Sorted(s) {
          LerpBetween(s[i], s[i + 1], t);
        }
      }
      Lerp(s[i], s[i + 1], t)
    else s[i]
  }

  /** A quantile of sorted values lies between the least and the greatest. */
  lemma QuantileBetween(s: seq<real>, q: real)
    requires |s| > 0 && Sorted(s) && 0.0 <= q <= 1.0
    ensures s[0] <= Quantile(s, q) <= s[|s| - 1]
  {
    var i := Rank(|s|, q);
    if i + 1 < |s| {
      LerpBetween(s[i], s[i + 1], Position(|s|, q) - i as real);
    }
  }

  /** A larger q never gives a smaller quantile; in particular Q1 <= Q3. */
  lemma QuantileMonotone(s: seq<real>, q1: real, q2: real)
    requires |s| > 0 && Sorted(s) && 0.0 <= q1 <= q2 <= 1.0
    ensures Quantile(s, q1) <= Quantile(s, q2)
  {
    var n := |s|;
    PositionMonotone(n, q1, q2);
    var i1, i2 := Rank(n, q1), Rank(n, q2);
    assert i1 <= i2;
    if i1 == i2 {
      if i1 + 1 < n {
        LerpMonotone(s[i1], s[i1 + 1], Position(n, q1) - i1 as real, Position(n, q2) - i2 as real);
      }
    } else {
      if i1 + 1 < n {
        LerpBetween(s[i1], s[i1 + 1], Position(n, q1) - i1 as real);
      }
      if i2 + 1 < n {
        LerpBetween(s[i2], s[i2 + 1], Position(n, q2) - i2 as real);
      }
      assert s[i1 + 1] <= s[i2];
    }
  }

  /** Every quantile of a constant sequence is that constant. */
  lemma QuantileOfConstant(s: seq<real>, q: real, x: real)
    requires |s| > 0 && 0.0 <= q <= 1.0
    requires forall k :: 0 <= k < |s| ==> s[k] == x
    ensures Quantile(s, q) == x
  {
  }

  /** Series.quantile(q): the q-quantile of a column's numbers, missing cells
      skipped; None (NaN) when the column holds no number. */
  function ColumnQuantile(cells: seq<Cell>, q: real): (r: Option<real>)
    requires 0.0 <= q <= 1.0
    ensures r.Some? <==> NumbersOf(cells) != []
  {
    var xs := NumbersOf(cells);
    if xs == [] then None
    else
      Some(Quantile(Sort(xs), q))
  }

  /** A column's quantile lies between two of its own numbers. */
  lemma ColumnQuantileBetween(cells: seq<Cell>, q: real)
    requires 0.0 <= q <= 1.0 && NumbersOf(cells) != []
    ensures exists lo :: Num(lo) in cells && lo <= ColumnQuantile(cells, q).value
    ensures exists hi :: Num(hi) in cells && ColumnQuantile(cells, q).value <= hi
  {
    var xs := NumbersOf(cells);
    var s := Sort(xs);
    QuantileBetween(s, q);
    assert s[0] in multiset(xs) && s[|s| - 1] in multiset(xs);
    assert Num(s[0]) in cells && Num(s[|s| - 1]) in cells;
  }

  /** The inclusive bounds of one column's step. */
  datatype Fence = Fence(lower: real, upper: real)

  /** [Q1 - m·IQR, Q3 + m·IQR] with IQR = Q3 - Q1. */
  function FenceOf(q1: real, q3: real, m: real): (r: Fence)
    ensures r.lower + r.upper == q1 + q3
    ensures r.upper - r.lower == (q3 - q1) + 2.0 * (m * (q3 - q1))
  {
    var iqr := q3 - q1;
    Fence(q1 - m * iqr, q3 + m * iqr)
  }

  /** The bounds computed step by step, as the loop does, are FenceOf's. */
  lemma FenceOfComputes(q1: real, q3: real, m: real, iqr: real, lower: real, upper: real)
    requires iqr == q3 - q1 && lower == q1 - m * iqr && upper == q3 + m * iqr
    ensures Fence(lower, upper) == FenceOf(q1, q3, m)
  {
  }

  /** A non-negative multiplier widens [Q1, Q3]; it never narrows it. */
  lemma FenceWidens(q1: real, q3: real, m: real)
    requires q1 <= q3 && m >= 0.0
    ensures FenceOf(q1, q3, m).lower <= q1 && q3 <= FenceOf(q1, q3, m).upper
  {
    ScaleMonotone(m, 0.0, q3 - q1);
  }

  /** With IQR = 0 the multiplier has no effect: the fence is the single point. */
  lemma FenceCollapses(q: real, m: real)
    ensures FenceOf(q, q, m) == Fence(q, q)
  {
    assert q - q == 0.0 && m * 0.0 == 0.0;
  }

  /** The fence of a column; None when its quartiles are NaN. */
  function ColumnFence(cells: seq<Cell>, m: real): (r: Option<Fence>)
    ensures r.Some? <==> NumbersOf(cells) != []
  {
    var q1 := ColumnQuantile(cells, 0.25);
    var q3 := ColumnQuantile(cells, 0.75);
    if q1.Some? && q3.Some? then Some(FenceOf(q1.value, q3.value, m)) else None
  }

  /** (col >= lower) & (col <= upper): a missing cell or a NaN bound fails both comparisons. */
  predicate Admits(fence: Option<Fence>, c: Cell) {
    fence.Some? && c.Num? && fence.value.lower <= c.value && c.value <= fence.value.upper
  }

  /** The boolean mask (col >= lower) & (col <= upper) over the rows. */
  function KeepMask(rows: seq<Row>, j: nat, fence: Option<Fence>): (mask: seq<bool>)
    requires forall row :: row in rows ==> j < |row|
    ensures |mask| == |rows|
    ensures forall i :: 0 <= i < |rows| ==> (mask[i] <==> Admits(fence, rows[i][j]))
  {
    seq(|rows|, i requires 0 <= i < |rows| => Admits(fence, rows[i][j]))
  }

  /** The rows whose cell in column j the fence admits, in order. */
  function KeepRows(rows: seq<Row>, j: nat, fence: Option<Fence>): (r: seq<Row>)
    requires forall row :: row in rows ==> j < |row|
    ensures |r| <= |rows|
  {
    if |rows| == 0 then []
    else
      var last := rows[|rows| - 1];
      KeepRows(rows[..|rows| - 1], j, fence) + (if Admits(fence, last[j]) then [last] else [])
  }

  /** A row is kept exactly when it is one of the rows and the fence admits it. */
  lemma {:induction false} KeepRowsMembers(rows: seq<Row>, j: nat, fence: Option<Fence>)
    requires forall row :: row in rows ==> j < |row|
    ensures forall row :: row in KeepRows(rows, j, fence) <==> row in rows && Admits(fence, row[j])
    decreases |rows|
  {
    if |rows| > 0 {
      var prev := rows[..|rows| - 1];
      assert rows == prev + [rows[|rows| - 1]];
      KeepRowsMembers(prev, j, fence);
    }
  }

  /** The kept rows keep their order. */
  lemma {:induction false} KeepRowsSubseq(rows: seq<Row>, j: nat, fence: Option<Fence>)
    requires forall row :: row in rows ==> j < |row|
    ensures IsSubseq(KeepRows(rows, j, fence), rows)
    decreases |rows|
  {
    if |rows| > 0 {
      var prev := rows[..|rows| - 1];
      var r := KeepRows(rows, j, fence);
      KeepRowsSubseq(prev, j, fence);
      if Admits(fence, rows[|rows| - 1][j]) {
        assert r[..|r| - 1] == KeepRows(prev, j, fence);
      } else {
        assert r == KeepRows(prev, j, fence);
      }
    }
  }

  /** Selecting by the mask keeps exactly the admitted rows: df[mask] is KeepRows. */
  lemma {:induction false} SelectByMask(rows: seq<Row>, j: nat, fence: Option<Fence>)
    requires forall row :: row in rows ==> j < |row|
    ensures Select(rows, KeepMask(rows, j, fence)) == KeepRows(rows, j, fence)
    decreases |rows|
  {
    if |rows| > 0 {
      var prev := rows[..|rows| - 1];
      assert KeepMask(rows, j, fence)[..|rows| - 1] == KeepMask(prev, j, fence);
      SelectByMask(prev, j, fence);
    }
  }

  /** One pass of the loop on a table g: the rows that column j admits, with
      the quartiles computed on g itself. */
  function ColumnStep(g: Frame, j: nat, m: real): (r: Frame)
    requires WellFormed(g) && j < |g.columns|
    ensures WellFormed(r) && r.columns == g.columns
    ensures forall row :: row in r.rows <==> row in g.rows && Admits(ColumnFence(Cells(g, j), m), row[j])
  {
    var fence := ColumnFence(Cells(g, j), m);
    KeepRowsMembers(g.rows, j, fence);
    Frame(g.columns, KeepRows(g.rows, j, fence))
  }

  /** The loop run over the first k column positions of cols, each step on the
      table the previous step left. */
  function Filtered(f: Frame, m: real, cols: seq<nat>, k: nat): (r: Frame)
    requires WellFormed(f) && k <= |cols|
    requires forall l :: 0 <= l < |cols| ==> cols[l] < |f.columns|
    ensures WellFormed(r) && r.columns == f.columns
  {
    if k == 0 then f
    else ColumnStep(Filtered(f, m, cols, k - 1), cols[k - 1], m)
  }

  /** The fence of the step for cols[k], from the quartiles of the table the
      first k steps left. */
  function StepFence(f: Frame, m: real, cols: seq<nat>, k: nat): Option<Fence>
    requires WellFormed(f) && k < |cols|
    requires forall l :: 0 <= l < |cols| ==> cols[l] < |f.columns|
  {
    ColumnFence(Cells(Filtered(f, m, cols, k), cols[k]), m)
  }

  /** Step k + 1 of the loop is ColumnStep on the table step k left. */
  lemma FilteredStep(f: Frame, m: real, cols: seq<nat>, k: nat)
    requires WellFormed(f) && k < |cols|
    requires forall l :: 0 <= l < |cols| ==> cols[l] < |f.columns|
    ensures Filtered(f, m, cols, k + 1) == ColumnStep(Filtered(f, m, cols, k), cols[k], m)
  {
  }

  /** A step keeps a subsequence of the rows, in their order. */
  lemma ColumnStepSubseq(g: Frame, j: nat, m: real)
    requires WellFormed(g) && j < |g.columns|
    ensures IsSubseq(ColumnStep(g, j, m).rows, g.rows)
  {
    KeepRowsSubseq(g.rows, j, ColumnFence(Cells(g, j), m));
  }

  /** The loop keeps a subsequence of the rows, in their order. */
  lemma {:induction false} FilteredSubseq(f: Frame, m: real, cols: seq<nat>, k: nat)
    requires WellFormed(f) && k <= |cols|
    requires forall l :: 0 <= l < |cols| ==> cols[l] < |f.columns|
    ensures IsSubseq(Filtered(f, m, cols, k).rows, f.rows)
  {
    SubseqReflexive(f.rows);
    for i := 0 to k
      invariant IsSubseq(Filtered(f, m, cols, i).rows, f.rows)
    {
      var g := Filtered(f, m, cols, i);
      FilteredStep(f, m, cols, i);
      ColumnStepSubseq(g, cols[i], m);
      SubseqTransitive(Filtered(f, m, cols, i + 1).rows, g.rows, f.rows);
    }
  }

  /** remove_outliers_iqr as a value: the numeric columns in order. The result
      keeps the header and a subsequence of the rows, unchanged. */
  function RemoveOutliers(f: Frame, m: real): (r: Frame)
    requires WellFormed(f)
    ensures WellFormed(r) && r.columns == f.columns
    ensures IsSubseq(r.rows, f.rows) && |r.rows| <= |f.rows|
  {
    var cols := NumericPositions(f.columns);
    var r := Filtered(f, m, cols, |cols|);
    FilteredSubseq(f, m, cols, |cols|);
    SubseqLength(r.rows, f.rows);
    r
  }

  /** The body of the loop for one column: Q1, Q3, the IQR and the two bounds,
      then the rows selected by the mask of values within the bounds. */
  method FilterColumn(current: Frame, col: nat, multiplier: real) returns (next: Frame)
    requires WellFormed(current) && col < |current.columns|
    ensures next == ColumnStep(current, col, multiplier)
  {
    var cells := Cells(current, col);
    var q1 := ColumnQuantile(cells, 0.25);
    var q3 := ColumnQuantile(cells, 0.75);
    var fence: Option<Fence> := None;
    if q1.Some? && q3.Some? {
      var iqr := q3.value - q1.value;
      var lower := q1.value - multiplier * iqr;
      var upper := q3.value + multiplier * iqr;
      fence := Some(Fence(lower, upper));
      FenceOfComputes(q1.value, q3.value, multiplier, iqr, lower, upper);
    }
    assert fence == ColumnFence(cells, multiplier);
    SelectByMask(current.rows, col, fence);
    next := Frame(current.columns, Select(current.rows, KeepMask(current.rows, col, fence)));
  }

  /** The loop of remove_outliers_iqr: df is rebound to a filtered copy once
      per numeric column; with no numeric column the same object comes back. */
  method RemoveOutliersIqr(df: Table, multiplier: real) returns (result: Table)
    requires df.Valid()
    ensures result.Valid() && result.Value() == RemoveOutliers(df.Value(), multiplier)
    ensures NumericPositions(df.columns) == [] ==> result == df
    ensures NumericPositions(df.columns) != [] ==> fresh(result)
  {
    var numCols := NumericPositions(df.columns);
    result := df;
    for k := 0 to |numCols|
      invariant result.Value() == Filtered(df.Value(), multiplier, numCols, k)
      invariant k == 0 ==> result == df
      invariant k > 0 ==> fresh(result)
    {
      var next := FilterColumn(result.Value(), numCols[k], multiplier);
      result := new Table(next);
    }
  }

  /** t lists the tables the loop goes through: t[0] is the input and each
      t[l + 1] is one step on t[l] with column cols[l]. */
  ghost predicate IsTrace(f: Frame, m: real, cols: seq<nat>, t: seq<Frame>)
    requires forall l :: 0 <= l < |cols| ==> cols[l] < |f.columns|
  {
    |t| == |cols| + 1 && t[0] == f
    && (forall l :: 0 <= l < |t| ==> WellFormed(t[l]) && t[l].columns == f.columns)
    && (forall l :: 0 <= l < |cols| ==> t[l + 1] == ColumnStep(t[l], cols[l], m))
  }

  /** Every table the loop goes through, from the input to the result. */
  ghost function Stages(f: Frame, m: real, cols: seq<nat>): (t: seq<Frame>)
    requires WellFormed(f)
    requires forall l :: 0 <= l < |cols| ==> cols[l] < |f.columns|
    ensures |t| == |cols| + 1
    ensures forall l :: 0 <= l <= |cols| ==> t[l] == Filtered(f, m, cols, l)
  {
    seq(|cols| + 1, l requires 0 <= l <= |cols| => Filtered(f, m, cols, l))
  }

  lemma StagesTrace(f: Frame, m: real, cols: seq<nat>)
    requires WellFormed(f)
    requires forall l :: 0 <= l < |cols| ==> cols[l] < |f.columns|
    ensures IsTrace(f, m, cols, Stages(f, m, cols))
  {
    var t := Stages(f, m, cols);
    forall l | 0 <= l < |cols|
      ensures t[l + 1] == ColumnStep(t[l], cols[l], m)
    {
      FilteredStep(f, m, cols, l);
    }
  }

  /** One step of a trace. */
  lemma TraceStep(f: Frame, m: real, cols: seq<nat>, t: seq<Frame>, l: nat)
    requires forall l :: 0 <= l < |cols| ==> cols[l] < |f.columns|
    requires IsTrace(f, m, cols, t) && l < |cols|
    ensures WellFormed(t[l]) && t[l].columns == f.columns
    ensures t[l + 1] == ColumnStep(t[l], cols[l], m)
  {
  }

  /** Along a trace, a row of the last table passed the test of every step. */
  lemma {:induction false} TracePassed(f: Frame, m: real, cols: seq<nat>, t: seq<Frame>, row: Row, k: nat)
    requires forall l :: 0 <= l < |cols| ==> cols[l] < |f.columns|
    requires IsTrace(f, m, cols, t) && k < |cols|
    requires row in t[|cols|].rows
    ensures Admits(ColumnFence(Cells(t[k], cols[k]), m), row[cols[k]])
  {
    if row !in t[k + 1].rows {
      for i := k + 1 to |cols|
        invariant row !in t[i].rows
      {
        TraceStep(f, m, cols, t, i);
      }
    }
    TraceStep(f, m, cols, t, k);
  }

  /** Filtering is cumulative: a surviving row passed every column's test, each
      with the quartiles of the table as it stood at that column's step. */
  lemma FilteredPassedEveryStep(f: Frame, m: real, cols: seq<nat>, row: Row, k: nat)
    requires WellFormed(f)
    requires forall l :: 0 <= l < |cols| ==> cols[l] < |f.columns|
    requires row in Filtered(f, m, cols, |cols|).rows && k < |cols|
    ensures Admits(StepFence(f, m, cols, k), row[cols[k]])
  {
    var t := Stages(f, m, cols);
    StagesTrace(f, m, cols);
    TracePassed(f, m, cols, t, row, k);
  }

  /** A row whose value in a numeric column is missing does not survive: every
      surviving row holds a number in every numeric column. */
  lemma SurvivorsHaveNumbers(f: Frame, m: real, row: Row, j: nat)
    requires WellFormed(f) && j < |f.columns| && f.columns[j].kind == Numeric
    requires row in RemoveOutliers(f, m).rows
    ensures row[j].Num?
  {
    var cols := NumericPositions(f.columns);
    assert IsNumeric(f.columns[j]);
    var k :| 0 <= k < |cols| && cols[k] == j;
    FilteredPassedEveryStep(f, m, cols, row, k);
  }

  /** A missing cell fails both comparisons, so its row does not survive that step. */
  lemma MissingRemovedAtStep(f: Frame, j: nat, m: real, i: nat)
    requires WellFormed(f) && j < |f.columns| && i < |f.rows|
    requires f.rows[i][j] == Missing
    ensures f.rows[i] !in ColumnStep(f, j, m).rows
  {
  }

  /** Only numeric columns are criteria: a table without one comes back unchanged. */
  lemma NoNumericColumnUnchanged(f: Frame, m: real)
    requires WellFormed(f)
    requires forall c :: c in f.columns ==> c.kind == Textual
    ensures RemoveOutliers(f, m) == f
  {
  }

  /** Q1 <= Q3 for every column that holds a number. */
  lemma QuartilesOrdered(cells: seq<Cell>)
    requires NumbersOf(cells) != []
    ensures ColumnQuantile(cells, 0.25).value <= ColumnQuantile(cells, 0.75).value
  {
    QuantileMonotone(Sort(NumbersOf(cells)), 0.25, 0.75);
  }

  /** With m >= 0 the fence contains the interquartile range, so every value in
      [Q1, Q3] passes its column's step. */
  lemma FenceContainsQuartiles(cells: seq<Cell>, m: real)
    requires m >= 0.0 && NumbersOf(cells) != []
    ensures ColumnFence(cells, m).value.lower <= ColumnQuantile(cells, 0.25).value
    ensures ColumnQuantile(cells, 0.75).value <= ColumnFence(cells, m).value.upper
    ensures forall v :: ColumnQuantile(cells, 0.25).value <= v <= ColumnQuantile(cells, 0.75).value ==>
      Admits(ColumnFence(cells, m), Num(v))
  {
    QuartilesOrdered(cells);
    FenceWidens(ColumnQuantile(cells, 0.25).value, ColumnQuantile(cells, 0.75).value, m);
  }

  /** When IQR = 0 both bounds collapse onto Q1: only cells equal to Q1 pass. */
  lemma ZeroIqrKeepsOnlyQ1(cells: seq<Cell>, m: real, c: Cell)
    requires NumbersOf(cells) != []
    requires ColumnQuantile(cells, 0.25) == ColumnQuantile(cells, 0.75)
    ensures Admits(ColumnFence(cells, m), c) <==> c == Num(ColumnQuantile(cells, 0.25).value)
  {
    var q := ColumnQuantile(cells, 0.25).value;
    FenceCollapses(q, m);
    assert ColumnFence(cells, m) == Some(Fence(q, q));
    PointFenceAdmits(q, c);
  }

  /** The single-point fence admits exactly that number. */
  lemma PointFenceAdmits(q: real, c: Cell)
    ensures Admits(Some(Fence(q, q)), c) <==> c == Num(q)
  {
  }

  /** A column whose numbers are all x has the fence [x, x] for every multiplier,
      so its step keeps exactly the rows holding x. */
  lemma ConstantColumnFence(cells: seq<Cell>, m: real, x: real)
    requires Num(x) in cells
    requires forall y :: Num(y) in cells ==> y == x
    ensures ColumnFence(cells, m) == Some(Fence(x, x))
    ensures forall c :: Admits(ColumnFence(cells, m), c) <==> c == Num(x)
  {
    var xs := NumbersOf(cells);
    assert x in xs;
    var s := Sort(xs);
    forall k | 0 <= k < |s|
      ensures s[k] == x
    {
      assert s[k] in multiset(xs);
      assert s[k] in xs;
      assert Num(s[k]) in cells;
    }
    QuantileOfConstant(s, 0.25, x);
    QuantileOfConstant(s, 0.75, x);
    FenceCollapses(x, m);
  }
}
