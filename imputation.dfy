/** Missing-value imputation of modules/cleaning.py: numeric columns are filled
    with their median, text columns with their most frequent string. Both fill
    values are computed from the table before any cell is written. */
module Imputation {
  import opened Wrappers
  import opened Frames
  import opened TextOrder
  import opened Outliers

  /** Series.median(): the 0.5-quantile of the column's numbers; None (NaN)
      when it holds none. */
  function Median(cells: seq<Cell>): (r: Option<real>)
    ensures r.Some? <==> NumbersOf(cells) != []
  {
    ColumnQuantile(cells, 0.5)
  }

  /** The 0.5-quantile of sorted values is the middle value for an odd count and
      the mean of the two middle values for an even count. */
  lemma MedianIsMiddle(s: seq<real>)
    requires |s| > 0
    ensures |s| % 2 == 1 ==> Quantile(s, 0.5) == s[|s| / 2]
    ensures |s| % 2 == 0 ==> Quantile(s, 0.5) == (s[|s| / 2 - 1] + s[|s| / 2]) / 2.0
  {
    var n := |s|;
    var k := (n - 1) / 2;
    var h := Position(n, 0.5);
    if n % 2 == 1 {
      assert (n - 1) as real == 2.0 * k as real;
      assert h == k as real;
      assert Rank(n, 0.5) == k;
    } else {
      assert (n - 1) as real == 2.0 * k as real + 1.0;
      assert h == k as real + 0.5;
      assert Rank(n, 0.5) == k;
      assert k == n / 2 - 1;
    }
  }

  /** How often v occurs among vals. */
  function Count(vals: seq<string>, v: string): nat {
    multiset(vals)[v]
  }

  /** a is at least as good a mode as b: more frequent, or as frequent and not
      after b in string order (pandas lists tied modes sorted; iloc[0] takes the first). */
  predicate Prefers(vals: seq<string>, a: string, b: string) {
    Count(vals, a) > Count(vals, b) || (Count(vals, a) == Count(vals, b) && !Less(b, a))
  }

  /** The candidate every other candidate yields to. */
  function Best(vals: seq<string>, cands: seq<string>): (r: string)
    requires |cands| > 0
    ensures r in cands
    ensures forall c :: c in cands ==> Prefers(vals, r, c)
  {
    if |cands| == 1 then
      LessIrreflexive(cands[0]);
      cands[0]
    else
      var b := Best(vals, cands[1..]);
      assert forall c :: c in cands ==> c == cands[0] || c in cands[1..];
      if Prefers(vals, cands[0], b) then
        forall c | c in cands[1..]
          ensures Prefers(vals, cands[0], c)
        {
          PrefersTransitive(vals, cands[0], b, c);
        }
        LessIrreflexive(cands[0]);
        cands[0]
      else
        PrefersTotal(vals, cands[0], b);
        b
  }

  lemma PrefersTransitive(vals: seq<string>, a: string, b: string, c: string)
    requires Prefers(vals, a, b) && Prefers(vals, b, c)
    ensures Prefers(vals, a, c)
  {
    if Count(vals, a) == Count(vals, b) == Count(vals, c) && a != b {
      LessTotal(a, b);
      if Less(c, a) {
        LessTransitive(c, a, b);
      }
    }
  }

  lemma PrefersTotal(vals: seq<string>, a: string, b: string)
    ensures Prefers(vals, a, b) || Prefers(vals, b, a)
  {
    if a != b {
      LessTotal(a, b);
      if Less(a, b) {
        LessAsymmetric(a, b);
      } else {
        LessAsymmetric(b, a);
      }
    } else {
      LessIrreflexive(a);
    }
  }

  /** Series.mode().iloc[0]: the most frequent string, the least of them in a
      tie; None (NaN) when the column holds no string. */
  function Mode(cells: seq<Cell>): (r: Option<string>)
    ensures r.Some? <==> TextsOf(cells) != []
    ensures r.Some? ==> Text(r.value) in cells
  {
    var ts := TextsOf(cells);
    if ts == [] then None else Some(Best(ts, ts))
  }

  /** The mode is the most frequent string, and among the most frequent the least. */
  lemma ModeIsMostFrequent(cells: seq<Cell>, t: string)
    requires Text(t) in cells
    ensures Mode(cells).Some?
    ensures Count(TextsOf(cells), t) <= Count(TextsOf(cells), Mode(cells).value)
    ensures Count(TextsOf(cells), t) == Count(TextsOf(cells), Mode(cells).value) ==>
      t == Mode(cells).value || Less(Mode(cells).value, t)
  {
    var ts := TextsOf(cells);
    assert t in ts;
    var m := Best(ts, ts);
    assert Prefers(ts, m, t);
    if Count(ts, t) == Count(ts, m) && t != m {
      LessTotal(t, m);
    }
  }

  /** Only one string of a column meets the mode's description, so the tie-break
      makes the mode well defined. */
  lemma ModeUnique(cells: seq<Cell>, v: string)
    requires Text(v) in cells
    requires forall t :: Text(t) in cells ==> Prefers(TextsOf(cells), v, t)
    ensures Mode(cells) == Some(v)
  {
    var ts := TextsOf(cells);
    var m := Best(ts, ts);
    assert Text(m) in cells;
    assert Prefers(ts, v, m) && Prefers(ts, m, v);
    if v != m {
      LessTotal(v, m);
      if Less(v, m) {
        LessAsymmetric(v, m);
      } else {
        LessAsymmetric(m, v);
      }
    }
  }

  /** A row with its missing cells replaced by the column's fill value, where
      there is one. */
  function FillRow(row: Row, fills: seq<Option<Cell>>): (r: Row)
    requires |fills| == |row|
    ensures |r| == |row|
    ensures forall j :: 0 <= j < |row| ==>
      r[j] == (if row[j] == Missing && fills[j].Some? then fills[j].value else row[j])
  {
    seq(|row|, j requires 0 <= j < |row| => if row[j] == Missing && fills[j].Some? then fills[j].value else row[j])
  }

  /** DataFrame.fillna with one value per column. */
  function FillMissing(f: Frame, fills: seq<Option<Cell>>): (r: Frame)
    requires WellFormed(f) && |fills| == |f.columns|
    ensures WellFormed(r) && r.columns == f.columns && |r.rows| == |f.rows|
  {
    Frame(f.columns, seq(|f.rows|, i requires 0 <= i < |f.rows| => FillRow(f.rows[i], fills)))
  }

  /** df[num_cols].median(): a number for each numeric column that has one. */
  function NumericFills(f: Frame): (fills: seq<Option<Cell>>)
    requires WellFormed(f)
    ensures |fills| == |f.columns|
  {
    seq(|f.columns|, j requires 0 <= j < |f.columns| =>
      if IsNumeric(f.columns[j]) && Median(Cells(f, j)).Some? then Some(Num(Median(Cells(f, j)).value)) else None)
  }

  /** df[cat_cols].mode().iloc[0]: a string for each text column that has one. */
  function TextFills(f: Frame): (fills: seq<Option<Cell>>)
    requires WellFormed(f)
    ensures |fills| == |f.columns|
  {
    seq(|f.columns|, j requires 0 <= j < |f.columns| =>
      if IsTextual(f.columns[j]) && Mode(Cells(f, j)).Some? then Some(Text(Mode(Cells(f, j)).value)) else None)
  }

  /** Line 13: numeric columns filled with their medians. */
  function FillNumeric(f: Frame): (r: Frame)
    requires WellFormed(f)
    ensures WellFormed(r) && r.columns == f.columns && |r.rows| == |f.rows|
  {
    FillMissing(f, NumericFills(f))
  }

  /** Line 16: text columns filled with their modes. */
  function FillText(f: Frame): (r: Frame)
    requires WellFormed(f)
    ensures WellFormed(r) && r.columns == f.columns && |r.rows| == |f.rows|
  {
    FillMissing(f, TextFills(f))
  }

  /** Each missing cell of a numeric column becomes the column's median; every
      other cell keeps its value. */
  lemma FillNumericCell(f: Frame, i: nat, j: nat)
    requires WellFormed(f) && i < |f.rows| && j < |f.columns|
    ensures FillNumeric(f).rows[i][j] ==
      if f.rows[i][j] == Missing && IsNumeric(f.columns[j]) && Median(Cells(f, j)).Some?
      then Num(Median(Cells(f, j)).value) else f.rows[i][j]
  {
    assert f.rows[i] in f.rows;
  }

  /** Each missing cell of a text column becomes the column's mode; every other
      cell keeps its value. */
  lemma FillTextCell(f: Frame, i: nat, j: nat)
    requires WellFormed(f) && i < |f.rows| && j < |f.columns|
    ensures FillText(f).rows[i][j] ==
      if f.rows[i][j] == Missing && IsTextual(f.columns[j]) && Mode(Cells(f, j)).Some?
      then Text(Mode(Cells(f, j)).value) else f.rows[i][j]
  {
    assert f.rows[i] in f.rows;
  }

  /** Column j after a fill, in terms of column j before it. */
  lemma FilledColumn(f: Frame, fills: seq<Option<Cell>>, j: nat)
    requires WellFormed(f) && |fills| == |f.columns| && j < |f.columns|
    ensures var g := FillMissing(f, fills);
      forall i :: 0 <= i < |f.rows| ==>
        Cells(g, j)[i] == (if Cells(f, j)[i] == Missing && fills[j].Some? then fills[j].value else Cells(f, j)[i])
  {
    forall i | 0 <= i < |f.rows|
      ensures f.rows[i] in f.rows
    {
    }
  }

  /** A column without a fill value is left as it was. */
  lemma UnfilledColumnKept(f: Frame, fills: seq<Option<Cell>>, j: nat)
    requires WellFormed(f) && |fills| == |f.columns| && j < |f.columns| && fills[j].None?
    ensures Cells(FillMissing(f, fills), j) == Cells(f, j)
  {
    FilledColumn(f, fills, j);
  }

  /** After the numeric fill, a cell of a numeric column is missing exactly when
      it was missing and the column held no number at all. */
  lemma NumericMissingAfterFill(f: Frame, i: nat, j: nat)
    requires WellFormed(f) && i < |f.rows| && j < |f.columns| && IsNumeric(f.columns[j])
    ensures FillNumeric(f).rows[i][j] == Missing <==> f.rows[i][j] == Missing && NumbersOf(Cells(f, j)) == []
  {
    FillNumericCell(f, i, j);
  }

  /** After the text fill, a cell of a text column is missing exactly when it was
      missing and the column held no string at all. */
  lemma TextMissingAfterFill(f: Frame, i: nat, j: nat)
    requires WellFormed(f) && i < |f.rows| && j < |f.columns| && IsTextual(f.columns[j])
    ensures FillText(f).rows[i][j] == Missing <==> f.rows[i][j] == Missing && TextsOf(Cells(f, j)) == []
  {
    FillTextCell(f, i, j);
  }

  /** Filling twice is filling once: the second pass finds every fillable cell
      already filled and every other column unchanged. */
  lemma {:induction false} FillNumericIdempotent(f: Frame)
    requires WellFormed(f)
    ensures FillNumeric(FillNumeric(f)) == FillNumeric(f)
  {
    var g := FillNumeric(f);
    var h := FillNumeric(g);
    forall i | 0 <= i < |g.rows|
      ensures h.rows[i] == g.rows[i]
    {
      forall j | 0 <= j < |g.columns|
        ensures h.rows[i][j] == g.rows[i][j]
      {
        FillNumericCell(g, i, j);
        if g.rows[i][j] == Missing && IsNumeric(g.columns[j]) {
          FillNumericCell(f, i, j);
          assert Median(Cells(f, j)).None?;
          UnfilledColumnKept(f, NumericFills(f), j);
          assert Cells(g, j) == Cells(f, j);
        }
      }
      assert g.rows[i] in g.rows && h.rows[i] in h.rows;
    }
  }

  /** The text fill is idempotent in the same way. */
  lemma {:induction false} FillTextIdempotent(f: Frame)
    requires WellFormed(f)
    ensures FillText(FillText(f)) == FillText(f)
  {
    var g := FillText(f);
    var h := FillText(g);
    forall i | 0 <= i < |g.rows|
      ensures h.rows[i] == g.rows[i]
    {
      forall j | 0 <= j < |g.columns|
        ensures h.rows[i][j] == g.rows[i][j]
      {
        FillTextCell(g, i, j);
        if g.rows[i][j] == Missing && IsTextual(g.columns[j]) {
          FillTextCell(f, i, j);
          assert Mode(Cells(f, j)).None?;
          UnfilledColumnKept(f, TextFills(f), j);
          assert Cells(g, j) == Cells(f, j);
        }
      }
      assert g.rows[i] in g.rows && h.rows[i] in h.rows;
    }
  }
}
