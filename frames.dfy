/** The table the cleaning core works on: an ordered list of named, typed
    columns and a list of rows, one cell per column. Row selection by a
    boolean mask, subsequences and column positions are the shared vocabulary
    of the outlier filter, the duplicate remover and the column dropper. */
module Frames {

  /** The two column kinds the pipeline tells apart: numeric dtype and object (text) dtype. */
  datatype Kind = Numeric | Textual

  /** A cell holds a number, a string, or nothing (NaN in the data frame). */
  datatype Cell = Num(value: real) | Text(text: string) | Missing

  datatype Column = Column(name: string, kind: Kind)

  type Row = seq<Cell>

  /** The value of a table: its header and its rows, top to bottom. */
  datatype Frame = Frame(columns: seq<Column>, rows: seq<Row>)

  /** Every row has exactly one cell per column. */
  predicate WellFormed(f: Frame) {
    forall row :: row in f.rows ==> |row| == |f.columns|
  }

  /** No cell of the table is missing. */
  predicate NoMissing(f: Frame) {
    forall row, c :: row in f.rows && c in row ==> c != Missing
  }

  predicate IsNumeric(c: Column) { c.kind == Numeric }

  predicate IsTextual(c: Column) { c.kind == Textual }

  /** Column j, top to bottom. */
  function Cells(f: Frame, j: nat): seq<Cell>
    requires WellFormed(f) && j < |f.columns|
  {
    seq(|f.rows|, i requires 0 <= i < |f.rows| => f.rows[i][j])
  }

  /** The numbers of a column in row order, missing and text cells skipped. */
  function NumbersOf(cells: seq<Cell>): (xs: seq<real>)
    ensures |xs| <= |cells|
    ensures forall x :: x in xs <==> Num(x) in cells
  {
    if |cells| == 0 then []
    else
      assert cells == [cells[0]] + cells[1..];
      (if cells[0].Num? then [cells[0].value] else []) + NumbersOf(cells[1..])
  }

  /** The strings of a column in row order, missing and numeric cells skipped. */
  function TextsOf(cells: seq<Cell>): (ts: seq<string>)
    ensures |ts| <= |cells|
    ensures forall t :: t in ts <==> Text(t) in cells
  {
    if |cells| == 0 then []
    else
      assert cells == [cells[0]] + cells[1..];
      (if cells[0].Text? then [cells[0].text] else []) + TextsOf(cells[1..])
  }

  /** Each number occurs among a column's numbers as often as a cell holds it. */
  lemma {:induction false} NumbersOfCounts(cells: seq<Cell>)
    ensures forall x :: multiset(NumbersOf(cells))[x] == multiset(cells)[Num(x)]
    decreases |cells|
  {
    if |cells| > 0 {
      assert cells == [cells[0]] + cells[1..];
      NumbersOfCounts(cells[1..]);
    }
  }

  /** Each string occurs among a column's strings as often as a cell holds it. */
  lemma {:induction false} TextsOfCounts(cells: seq<Cell>)
    ensures forall t :: multiset(TextsOf(cells))[t] == multiset(cells)[Text(t)]
    decreases |cells|
  {
    if |cells| > 0 {
      assert cells == [cells[0]] + cells[1..];
      TextsOfCounts(cells[1..]);
    }
  }

  /** Positions, in increasing order, of the columns that satisfy p. */
  function Positions(cols: seq<Column>, p: Column -> bool): (ps: seq<nat>)
    ensures forall k :: 0 <= k < |ps| ==> ps[k] < |cols| && p(cols[ps[k]])
    ensures forall k, l :: 0 <= k < l < |ps| ==> ps[k] < ps[l]
    ensures forall j :: 0 <= j < |cols| && p(cols[j]) ==> j in ps
  {
    if |cols| == 0 then []
    else Positions(cols[..|cols| - 1], p) + (if p(cols[|cols| - 1]) then [|cols| - 1] else [])
  }

  /** Positions of the numeric columns (select_dtypes(include='number')). */
  function NumericPositions(cols: seq<Column>): seq<nat> {
    Positions(cols, IsNumeric)
  }

  /** Positions of the text columns (select_dtypes(include='object')). */
  function TextPositions(cols: seq<Column>): seq<nat> {
    Positions(cols, IsTextual)
  }

  /** Number of true entries of a mask. */
  function CountTrue(mask: seq<bool>): nat {
    if |mask| == 0 then 0
    else CountTrue(mask[..|mask| - 1]) + (if mask[|mask| - 1] then 1 else 0)
  }

  /** a can be obtained from b by deleting elements: a keeps b's order. */
  predicate IsSubseq<T(==)>(a: seq<T>, b: seq<T>)
    decreases |b|
  {
    if |b| == 0 then |a| == 0
    else
      IsSubseq(a, b[..|b| - 1])
      || (|a| > 0 && a[|a| - 1] == b[|b| - 1] && IsSubseq(a[..|a| - 1], b[..|b| - 1]))
  }

  /** Boolean-mask selection, df[mask]: the elements whose mask entry is true, in order. */
  function Select<T>(s: seq<T>, mask: seq<bool>): (r: seq<T>)
    requires |mask| == |s|
    ensures |r| == CountTrue(mask)
  {
    if |s| == 0 then []
    else Select(s[..|s| - 1], mask[..|s| - 1]) + (if mask[|s| - 1] then [s[|s| - 1]] else [])
  }

  /** The selection keeps the order of s. */
  lemma {:induction false} SelectSubseq<T>(s: seq<T>, mask: seq<bool>)
    requires |mask| == |s|
    ensures IsSubseq(Select(s, mask), s)
    decreases |s|
  {
    if |s| > 0 {
      var n := |s|;
      var r0 := Select(s[..n - 1], mask[..n - 1]);
      var r := Select(s, mask);
      SelectSubseq(s[..n - 1], mask[..n - 1]);
      if mask[n - 1] {
        assert r[..|r| - 1] == r0 && r[|r| - 1] == s[n - 1];
      } else {
        assert r == r0;
      }
    }
  }

  /** An element is selected exactly when some position holding it has a true mask entry. */
  lemma {:induction false} SelectMembers<T>(s: seq<T>, mask: seq<bool>)
    requires |mask| == |s|
    ensures forall i :: 0 <= i < |s| && mask[i] ==> s[i] in Select(s, mask)
    ensures forall x :: x in Select(s, mask) ==> exists i :: 0 <= i < |s| && mask[i] && s[i] == x
    decreases |s|
  {
    if |s| > 0 {
      var n := |s|;
      SelectMembers(s[..n - 1], mask[..n - 1]);
      assert forall i :: 0 <= i < n - 1 ==> s[..n - 1][i] == s[i] && mask[..n - 1][i] == mask[i];
    }
  }

  /** Positions, in increasing order, of the true entries of a mask. */
  function TruePositions(mask: seq<bool>): (ps: seq<nat>)
    ensures |ps| == CountTrue(mask)
    ensures forall k :: 0 <= k < |ps| ==> ps[k] < |mask| && mask[ps[k]]
    ensures forall k, l :: 0 <= k < l < |ps| ==> ps[k] < ps[l]
  {
    if |mask| == 0 then []
    else TruePositions(mask[..|mask| - 1]) + (if mask[|mask| - 1] then [|mask| - 1] else [])
  }

  /** Element k of a selection is the element at the k-th true position. */
  lemma {:induction false} SelectAt<T>(s: seq<T>, mask: seq<bool>)
    requires |mask| == |s|
    ensures forall k :: 0 <= k < |Select(s, mask)| ==> Select(s, mask)[k] == s[TruePositions(mask)[k]]
    decreases |s|
  {
    if |s| > 0 {
      var n := |s|;
      var r0 := Select(s[..n - 1], mask[..n - 1]);
      var ps0 := TruePositions(mask[..n - 1]);
      SelectAt(s[..n - 1], mask[..n - 1]);
      forall k | 0 <= k < |Select(s, mask)|
        ensures Select(s, mask)[k] == s[TruePositions(mask)[k]]
      {
        if k < |r0| {
          assert Select(s, mask)[k] == r0[k] && TruePositions(mask)[k] == ps0[k];
          assert s[..n - 1][ps0[k]] == s[ps0[k]];
        }
      }
    }
  }

  lemma {:induction false} SubseqMembers<T>(a: seq<T>, b: seq<T>)
    requires IsSubseq(a, b)
    ensures forall x :: x in a ==> x in b
    decreases |b|
  {
    if |b| > 0 {
      var b0 := b[..|b| - 1];
      assert b == b0 + [b[|b| - 1]];
      if IsSubseq(a, b0) {
        SubseqMembers(a, b0);
      } else {
        var a0 := a[..|a| - 1];
        assert a == a0 + [a[|a| - 1]];
        SubseqMembers(a0, b0);
      }
    }
  }

  lemma {:induction false} SubseqLength<T>(a: seq<T>, b: seq<T>)
    requires IsSubseq(a, b)
    ensures |a| <= |b|
    decreases |b|
  {
    if |b| > 0 {
      if IsSubseq(a, b[..|b| - 1]) {
        SubseqLength(a, b[..|b| - 1]);
      } else {
        SubseqLength(a[..|a| - 1], b[..|b| - 1]);
      }
    }
  }

  /** Selecting twice is selecting once: subsequence is transitive. */
  lemma {:induction false} SubseqTransitive<T>(a: seq<T>, b: seq<T>, c: seq<T>)
    requires IsSubseq(a, b) && IsSubseq(b, c)
    ensures IsSubseq(a, c)
    decreases |c|
  {
    if |c| == 0 {
      SubseqLength(a, b);
    } else {
      var c0 := c[..|c| - 1];
      if IsSubseq(b, c0) {
        SubseqTransitive(a, b, c0);
      } else {
        var b0 := b[..|b| - 1];
        if IsSubseq(a, b0) {
          SubseqTransitive(a, b0, c0);
        } else {
          SubseqTransitive(a[..|a| - 1], b0, c0);
        }
      }
    }
  }

  /** Every sequence is a subsequence of itself. */
  lemma {:induction false} SubseqReflexive<T>(a: seq<T>)
    ensures IsSubseq(a, a)
    decreases |a|
  {
    if |a| > 0 {
      SubseqReflexive(a[..|a| - 1]);
    }
  }

  /** A prefix of a prefix is a prefix. */
  lemma PrefixOfPrefix<T>(s: seq<T>, a: nat, b: nat)
    requires b <= a <= |s|
    ensures s[..a][..b] == s[..b]
  {
  }

  /** A prefix one longer is the shorter prefix and the next element. */
  lemma TakeSnoc<T>(s: seq<T>, k: nat)
    requires 0 < k <= |s|
    ensures s[..k] == s[..k - 1] + [s[k - 1]]
  {
  }

  /** A mutable data frame object. Several names can refer to the same object,
      so a write through one of them is seen through all of them. */
  class Table {
    var columns: seq<Column>
    var rows: seq<Row>

    constructor (f: Frame)
      ensures Value() == f
    {
      columns := f.columns;
      rows := f.rows;
    }

    function Value(): Frame
      reads this
    {
      Frame(columns, rows)
    }

    ghost predicate Valid()
      reads this
    {
      WellFormed(Value())
    }

    /** Column assignment in place (df[cols] = values): the object now holds f. */
    method Assign(f: Frame)
      modifies this
      ensures Value() == f
    {
      columns := f.columns;
      rows := f.rows;
    }
  }
}
