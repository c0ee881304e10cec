/** Duplicate rows (modules/cleaning.py:18-19): DataFrame.duplicated() flags
    every row equal to an earlier one, drop_duplicates() keeps the rest. */
module Duplicates {
  import opened Frames

  /** duplicated(): row i is flagged when it equals some row before it. */
  function DuplicatedMask(rows: seq<Row>): (mask: seq<bool>)
    ensures |mask| == |rows|
    ensures forall i :: 0 <= i < |rows| ==> (mask[i] <==> exists k :: 0 <= k < i && rows[k] == rows[i])
  {
    seq(|rows|, i requires 0 <= i < |rows| => rows[i] in rows[..i])
  }

  /** duplicated().sum(): at most one per row, and none for a single row. */
  function DuplicateCount(rows: seq<Row>): (r: nat)
    ensures r <= |rows|
    ensures |rows| <= 1 ==> r == 0
  {
    var mask := DuplicatedMask(rows);
    CountTrueSplit(mask);
    assert |rows| == 1 ==> mask == [false] && mask[..0] == [];
    CountTrue(mask)
  }

  /** The complement of a mask. */
  function Negate(mask: seq<bool>): (r: seq<bool>)
    ensures |r| == |mask|
    ensures forall i :: 0 <= i < |mask| ==> r[i] == !mask[i]
  {
    seq(|mask|, i requires 0 <= i < |mask| => !mask[i])
  }

  /** drop_duplicates(), built one row at a time: a row is kept exactly when
      it does not occur among the rows before it. */
  function DropDuplicates(rows: seq<Row>): (r: seq<Row>)
    ensures |r| <= |rows|
    ensures |rows| > 0 ==> |r| > 0 && r[0] == rows[0]
  {
    if |rows| == 0 then []
    else
      var prev := rows[..|rows| - 1];
      DropDuplicates(prev) + (if rows[|rows| - 1] in prev then [] else [rows[|rows| - 1]])
  }

  /** A mask and its complement count every position once. */
  lemma {:induction false} CountTrueSplit(mask: seq<bool>)
    ensures CountTrue(mask) + CountTrue(Negate(mask)) == |mask|
    decreases |mask|
  {
    if |mask| > 0 {
      var n := |mask|;
      assert Negate(mask)[..n - 1] == Negate(mask[..n - 1]);
      CountTrueSplit(mask[..n - 1]);
    }
  }

  /** The flags of a prefix are a prefix of the flags. */
  lemma MaskOfPrefix(rows: seq<Row>, n: nat)
    requires n <= |rows|
    ensures Negate(DuplicatedMask(rows[..n])) == Negate(DuplicatedMask(rows))[..n]
  {
    forall i | 0 <= i < n
      ensures rows[..n][..i] == rows[..i]
    {
    }
  }

  /** The selection df[~df.duplicated()] grows like DropDuplicates: the last row
      is selected exactly when it does not occur before it. */
  lemma MaskSelectionSnoc(rows: seq<Row>)
    requires |rows| > 0
    ensures Select(rows, Negate(DuplicatedMask(rows)))
      == Select(rows[..|rows| - 1], Negate(DuplicatedMask(rows[..|rows| - 1])))
         + (if rows[|rows| - 1] in rows[..|rows| - 1] then [] else [rows[|rows| - 1]])
  {
    MaskOfPrefix(rows, |rows| - 1);
  }

  /** drop_duplicates() is df[~df.duplicated()]: it keeps exactly the rows that
      duplicated() does not flag. */
  lemma DropDuplicatesIsMaskSelection(rows: seq<Row>)
    ensures DropDuplicates(rows) == Select(rows, Negate(DuplicatedMask(rows)))
  {
    for n := 0 to |rows|
      invariant DropDuplicates(rows[..n]) == Select(rows[..n], Negate(DuplicatedMask(rows[..n])))
    {
      assert rows[..n + 1][..n] == rows[..n];
      MaskSelectionSnoc(rows[..n + 1]);
    }
    assert rows[..|rows|] == rows;
  }

  /** The number reported as removed is exactly the number of rows that go. */
  lemma DuplicateCountIsRemoved(rows: seq<Row>)
    ensures DuplicateCount(rows) == |rows| - |DropDuplicates(rows)|
  {
    DropDuplicatesIsMaskSelection(rows);
    CountTrueSplit(DuplicatedMask(rows));
  }

  /** No two rows of the result are equal. */
  predicate Distinct(rows: seq<Row>) {
    forall i, j :: 0 <= i < j < |rows| ==> rows[i] != rows[j]
  }

  /** The two properties of DropDuplicatesDistinct for one list of rows. */
  ghost predicate KeepsEachRowOnce(rows: seq<Row>) {
    Distinct(DropDuplicates(rows)) && forall r :: r in DropDuplicates(rows) <==> r in rows
  }

  /** Growing the list by one row keeps both properties. */
  lemma KeepsEachRowOnceSnoc(rows: seq<Row>)
    requires |rows| > 0 && KeepsEachRowOnce(rows[..|rows| - 1])
    ensures KeepsEachRowOnce(rows)
  {
    var n := |rows|;
    assert rows == rows[..n - 1] + [rows[n - 1]];
    DistinctStep(rows[..n - 1], rows[n - 1], DropDuplicates(rows[..n - 1]), DropDuplicates(rows));
  }

  /** A fresh row is appended to a duplicate-free list of the earlier rows; a
      repeated one is not. */
  lemma DistinctStep(prev: seq<Row>, last: Row, d0: seq<Row>, d: seq<Row>)
    requires Distinct(d0) && forall r :: r in d0 <==> r in prev
    requires d == d0 + (if last in prev then [] else [last])
    ensures Distinct(d) && forall r :: r in d <==> r in prev + [last]
  {
    if last in prev {
      assert d == d0;
    } else {
      AppendFresh(d0, last);
    }
  }

  /** After drop_duplicates() no two rows are equal, and the same rows are present. */
  lemma DropDuplicatesDistinct(rows: seq<Row>)
    ensures Distinct(DropDuplicates(rows))
    ensures forall r :: r in DropDuplicates(rows) <==> r in rows
  {
    assert KeepsEachRowOnce(rows[..0]);
    for n := 0 to |rows|
      invariant KeepsEachRowOnce(rows[..n])
    {
      assert rows[..n + 1][..n] == rows[..n];
      KeepsEachRowOnceSnoc(rows[..n + 1]);
    }
    assert rows[..|rows|] == rows;
  }

  lemma AppendFresh(d: seq<Row>, x: Row)
    requires Distinct(d) && x !in d
    ensures Distinct(d + [x])
    ensures forall r :: r in d + [x] <==> r in d || r == x
  {
    var e := d + [x];
    forall i, j | 0 <= i < j < |e|
      ensures e[i] != e[j]
    {
      assert e[i] == d[i];
      if j < |d| {
        assert e[j] == d[j];
      } else {
        assert d[i] in d;
      }
    }
  }

  /** The kept rows are the first occurrences, in their original order. */
  lemma DropDuplicatesKeepsFirst(rows: seq<Row>)
    ensures IsSubseq(DropDuplicates(rows), rows)
    ensures forall i :: 0 <= i < |rows| && rows[i] !in rows[..i] ==> rows[i] in DropDuplicates(rows)
  {
    DropDuplicatesIsMaskSelection(rows);
    SelectSubseq(rows, Negate(DuplicatedMask(rows)));
    SelectMembers(rows, Negate(DuplicatedMask(rows)));
  }

  /** Nothing is flagged in a table without repeated rows. */
  lemma {:induction false} DistinctHasNoDuplicates(rows: seq<Row>)
    requires Distinct(rows)
    ensures DuplicateCount(rows) == 0 && DropDuplicates(rows) == rows
    decreases |rows|
  {
    if |rows| > 0 {
      var n := |rows|;
      var prev := rows[..n - 1];
      assert Distinct(prev);
      DistinctHasNoDuplicates(prev);
      assert rows[n - 1] !in prev;
      TakeSnoc(rows, n);
      assert rows[..n] == rows;
      DuplicateCountIsRemoved(rows);
    }
  }
}
