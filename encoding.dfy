/** Label encoding of modules/cleaning.py:31-37: LabelEncoder.fit_transform
    replaces each string of a column by its index among the column's distinct
    strings in sorted order, and the column becomes numeric. */
module LabelEncoding {
  import opened Frames
  import opened TextOrder

  /** le.classes_: the distinct strings of a column. */
  function Classes(cells: seq<Cell>): set<string> {
    set t | t in TextsOf(cells)
  }

  /** The classes that sort before v. */
  function Below(classes: set<string>, v: string): set<string> {
    set w | w in classes && Less(w, v)
  }

  /** The label of v: its index in the sorted classes, which is the number of
      classes before it (searchsorted). */
  function Code(classes: set<string>, v: string): (r: nat)
    ensures r <= |classes|
  {
    SubsetCard(Below(classes, v), classes);
    |Below(classes, v)|
  }

  lemma {:induction false} SubsetCard<T>(a: set<T>, b: set<T>)
    requires a <= b
    ensures |a| <= |b|
    decreases |b|
  {
    if a != {} {
      var x :| x in a;
      SubsetCard(a - {x}, b - {x});
    }
  }

  /** Every label lies in 0..k-1 for the k classes of the column. */
  lemma CodeInRange(classes: set<string>, v: string)
    requires v in classes
    ensures Code(classes, v) < |classes|
  {
    LessIrreflexive(v);
    SubsetCard(Below(classes, v), classes - {v});
  }

  /** Labels follow the string order: an earlier class gets a smaller label. */
  lemma CodeMonotone(classes: set<string>, v: string, w: string)
    requires v in classes && w in classes && Less(v, w)
    ensures Code(classes, v) < Code(classes, w)
  {
    forall u | u in Below(classes, v)
      ensures u in Below(classes, w) - {v}
    {
      LessTransitive(u, v, w);
      LessIrreflexive(v);
    }
    SubsetCard(Below(classes, v), Below(classes, w) - {v});
  }

  /** Distinct classes get distinct labels; equal values trivially equal ones. */
  lemma CodeInjective(classes: set<string>, v: string, w: string)
    requires v in classes && w in classes
    ensures Code(classes, v) == Code(classes, w) <==> v == w
  {
    if v != w {
      LessTotal(v, w);
      if Less(v, w) {
        CodeMonotone(classes, v, w);
      } else {
        CodeMonotone(classes, w, v);
      }
    }
  }

  /** A string becomes its label; other cells are left as they are. */
  function EncodeCell(classes: set<string>, c: Cell): Cell {
    if c.Text? then Num(Code(classes, c.text) as real) else c
  }

  /** df[col] = le.fit_transform(df[col]) for the column at position j. */
  function EncodeColumn(f: Frame, j: nat): (r: Frame)
    requires WellFormed(f) && j < |f.columns|
    ensures WellFormed(r) && |r.columns| == |f.columns| && |r.rows| == |f.rows|
  {
    var classes := Classes(Cells(f, j));
    Frame(f.columns[j := Column(f.columns[j].name, Numeric)],
      seq(|f.rows|, i requires 0 <= i < |f.rows| => f.rows[i][j := EncodeCell(classes, f.rows[i][j])]))
  }

  /** The encoded column's cells and kind, and every other column unchanged. */
  lemma EncodeColumnCells(f: Frame, j: nat)
    requires WellFormed(f) && j < |f.columns|
    ensures var r := EncodeColumn(f, j);
      r.columns[j] == Column(f.columns[j].name, Numeric)
      && (forall k :: 0 <= k < |f.columns| && k != j ==> r.columns[k] == f.columns[k])
      && (forall i :: 0 <= i < |f.rows| ==>
            r.rows[i][j] == EncodeCell(Classes(Cells(f, j)), f.rows[i][j])
            && forall k :: 0 <= k < |f.columns| && k != j ==> r.rows[i][k] == f.rows[i][k])
  {
    forall i | 0 <= i < |f.rows|
      ensures f.rows[i] in f.rows
    {
    }
  }

  /** An encoded column holds only labels in 0..k-1 and no string. */
  lemma EncodedColumnInRange(f: Frame, j: nat, i: nat)
    requires WellFormed(f) && j < |f.columns| && i < |f.rows| && f.rows[i][j].Text?
    ensures EncodeColumn(f, j).rows[i][j].Num?
    ensures 0.0 <= EncodeColumn(f, j).rows[i][j].value < |Classes(Cells(f, j))| as real
  {
    EncodeColumnCells(f, j);
    assert Cells(f, j)[i] == f.rows[i][j];
    assert f.rows[i][j].text in TextsOf(Cells(f, j));
    CodeInRange(Classes(Cells(f, j)), f.rows[i][j].text);
  }

  /** The loop over cat_cols, one column at a time. */
  function EncodeAll(f: Frame, cols: seq<nat>): (r: Frame)
    requires WellFormed(f)
    requires forall k :: 0 <= k < |cols| ==> cols[k] < |f.columns|
    ensures WellFormed(r) && |r.columns| == |f.columns| && |r.rows| == |f.rows|
    decreases |cols|
  {
    if |cols| == 0 then f
    else EncodeColumn(EncodeAll(f, cols[..|cols| - 1]), cols[|cols| - 1])
  }

  /** A column not listed is left as it was. */
  lemma {:induction false} EncodeAllUnlisted(f: Frame, cols: seq<nat>, i: nat, j: nat)
    requires WellFormed(f) && i < |f.rows| && j < |f.columns| && j !in cols
    requires forall k :: 0 <= k < |cols| ==> cols[k] < |f.columns|
    ensures EncodeAll(f, cols).rows[i][j] == f.rows[i][j]
    decreases |cols|
  {
    if |cols| > 0 {
      var prev := cols[..|cols| - 1];
      assert forall k :: 0 <= k < |prev| ==> prev[k] == cols[k];
      assert j !in prev;
      EncodeColumnCells(EncodeAll(f, prev), cols[|cols| - 1]);
      EncodeAllUnlisted(f, prev, i, j);
    }
  }

  lemma EncodeAllUnlistedColumn(f: Frame, cols: seq<nat>, j: nat)
    requires WellFormed(f) && j < |f.columns| && j !in cols
    requires forall k :: 0 <= k < |cols| ==> cols[k] < |f.columns|
    ensures Cells(EncodeAll(f, cols), j) == Cells(f, j)
  {
    forall i | 0 <= i < |f.rows|
      ensures Cells(EncodeAll(f, cols), j)[i] == Cells(f, j)[i]
    {
      EncodeAllUnlisted(f, cols, i, j);
    }
  }

  /** The cell of the encoded column, and a cell of any other column, after one step. */
  lemma EncodeColumnAt(f: Frame, j: nat, i: nat, k: nat)
    requires WellFormed(f) && j < |f.columns| && i < |f.rows| && k < |f.columns|
    ensures EncodeColumn(f, j).rows[i][k] == if k == j then EncodeCell(Classes(Cells(f, j)), f.rows[i][j]) else f.rows[i][k]
  {
    assert f.rows[i] in f.rows;
  }

  /** One more step of the loop: only the cell of the last listed column changes. */
  lemma EncodeAllSnoc(f: Frame, cols: seq<nat>, i: nat, j: nat)
    requires WellFormed(f) && i < |f.rows| && j < |f.columns| && |cols| > 0
    requires forall k :: 0 <= k < |cols| ==> cols[k] < |f.columns|
    ensures var g := EncodeAll(f, cols[..|cols| - 1]);
      EncodeAll(f, cols).rows[i][j]
        == if j == cols[|cols| - 1] then EncodeCell(Classes(Cells(g, j)), g.rows[i][j]) else g.rows[i][j]
  {
    EncodeColumnAt(EncodeAll(f, cols[..|cols| - 1]), cols[|cols| - 1], i, j);
  }

  /** The last listed column is encoded with the classes it had at the start,
      since no earlier step touched it. */
  lemma EncodeAllListedLast(f: Frame, cols: seq<nat>, i: nat)
    requires WellFormed(f) && i < |f.rows| && |cols| > 0
    requires forall k :: 0 <= k < |cols| ==> cols[k] < |f.columns|
    requires cols[|cols| - 1] !in cols[..|cols| - 1]
    ensures var j := cols[|cols| - 1];
      EncodeAll(f, cols).rows[i][j] == EncodeCell(Classes(Cells(f, j)), f.rows[i][j])
  {
    var prev, j := cols[..|cols| - 1], cols[|cols| - 1];
    EncodeAllSnoc(f, cols, i, j);
    EncodeAllUnlistedColumn(f, prev, j);
    EncodeAllUnlisted(f, prev, i, j);
  }

  /** Encoding one column never changes the strings another column holds, so
      the loop encodes every listed column with the classes it had at the start. */
  lemma {:induction false} EncodeAllListed(f: Frame, cols: seq<nat>, i: nat, j: nat)
    requires WellFormed(f) && i < |f.rows| && j in cols
    requires forall k :: 0 <= k < |cols| ==> cols[k] < |f.columns|
    requires forall k, l :: 0 <= k < l < |cols| ==> cols[k] != cols[l]
    ensures EncodeAll(f, cols).rows[i][j] == EncodeCell(Classes(Cells(f, j)), f.rows[i][j])
    decreases |cols|
  {
    var n := |cols|;
    var prev := cols[..n - 1];
    var k :| 0 <= k < n && cols[k] == j;
    if k == n - 1 {
      EncodeAllListedLast(f, cols, i);
    } else {
      assert prev[k] == j;
      EncodeAllSnoc(f, cols, i, j);
      EncodeAllListed(f, prev, i, j);
    }
  }
}
