/** generate_report of modules/report.py: an eight-entry summary of a cleaning
    run, built from the two tables and the counters, changing neither table. */
module Report {
  import opened Wrappers
  import opened Frames

  /** The values the summary holds: a (rows, columns) shape, a count, a list of
      column names, or a word. */
  datatype Metric = Shape(rows: nat, cols: nat) | Count(n: int) | Names(names: seq<string>) | Word(word: string)

  /** The eight entries of the summary. */
  datatype Key = OriginalShape | CleanedShape | MissingBefore | MissingAfter
    | DuplicatesRemoved | ColumnsEncoded | OutliersRemoved | DroppedColumns

  /** The dictionary key each entry is stored under. */
  function KeyName(k: Key): string {
    match k
    case OriginalShape => "Original Shape"
    case CleanedShape => "Cleaned Shape"
    case MissingBefore => "Missing Values (Before)"
    case MissingAfter => "Missing Values (After)"
    case DuplicatesRemoved => "Duplicates Removed"
    case ColumnsEncoded => "Categorical Columns Encoded"
    case OutliersRemoved => "Outliers Removed (Approx)"
    case DroppedColumns => "Dropped Columns"
  }

  /** The eight key strings are pairwise different, so the dictionary has
      eight entries and none overwrites another. */
  lemma KeyNamesDistinct(k: Key, l: Key)
    ensures KeyName(k) == KeyName(l) <==> k == l
  {
  }

  datatype Entry = Entry(key: Key, value: Metric)

  /** The keys of the summary, in the order the dictionary lists them. */
  const Keys: seq<Key> := [OriginalShape, CleanedShape, MissingBefore, MissingAfter,
    DuplicatesRemoved, ColumnsEncoded, OutliersRemoved, DroppedColumns]

  /** DataFrame.shape */
  function ShapeOf(f: Frame): Metric {
    Shape(|f.rows|, |f.columns|)
  }

  /** isnull().sum() of one column. */
  function CountMissing(cells: seq<Cell>): (r: nat)
    ensures r <= |cells|
    ensures Missing !in cells ==> r == 0
  {
    if |cells| == 0 then 0
    else CountMissing(cells[..|cells| - 1]) + (if cells[|cells| - 1] == Missing then 1 else 0)
  }

  /** The per-column counts of the first k columns, added up. */
  function MissingUpTo(f: Frame, k: nat): nat
    requires WellFormed(f) && k <= |f.columns|
  {
    if k == 0 then 0 else MissingUpTo(f, k - 1) + CountMissing(Cells(f, k - 1))
  }

  /** isnull().sum().sum(): missing cells counted column by column. */
  function MissingCells(f: Frame): (r: nat)
    requires WellFormed(f)
    ensures r == MissingByRows(f.rows)
  {
    MissingUpToByRows(f);
    MissingUpTo(f, |f.columns|)
  }

  /** The same total counted row by row: the reference the column-wise sum is
      checked against. */
  function MissingByRows(rows: seq<Row>): nat {
    if |rows| == 0 then 0 else MissingByRows(rows[..|rows| - 1]) + CountMissing(rows[|rows| - 1])
  }

  lemma CountMissingSnoc(cells: seq<Cell>, c: Cell)
    ensures CountMissing(cells + [c]) == CountMissing(cells) + (if c == Missing then 1 else 0)
  {
    assert (cells + [c])[..|cells|] == cells;
  }

  /** Adding a row of the right width keeps the table well formed. */
  lemma SnocWellFormed(cols: seq<Column>, rows: seq<Row>, r: Row)
    requires WellFormed(Frame(cols, rows)) && |r| == |cols|
    ensures WellFormed(Frame(cols, rows + [r]))
  {
    forall row | row in rows + [r]
      ensures |row| == |cols|
    {
      assert row in rows || row == r;
    }
  }

  /** The added row's cell goes to the foot of every column. */
  lemma CellsSnoc(cols: seq<Column>, rows: seq<Row>, r: Row, j: nat)
    requires WellFormed(Frame(cols, rows)) && WellFormed(Frame(cols, rows + [r])) && j < |cols|
    ensures Cells(Frame(cols, rows + [r]), j) == Cells(Frame(cols, rows), j) + [r[j]]
  {
  }

  /** Adding a row adds its own missing cells to every column prefix's count. */
  lemma {:induction false} MissingUpToSnoc(cols: seq<Column>, rows: seq<Row>, r: Row, k: nat)
    requires WellFormed(Frame(cols, rows)) && |r| == |cols| && k <= |cols|
    ensures WellFormed(Frame(cols, rows + [r]))
    ensures MissingUpTo(Frame(cols, rows + [r]), k) == MissingUpTo(Frame(cols, rows), k) + CountMissing(r[..k])
  {
    var f, g := Frame(cols, rows), Frame(cols, rows + [r]);
    SnocWellFormed(cols, rows, r);
    if k > 0 {
      CellsSnoc(cols, rows, r, k - 1);
      CountMissingSnoc(Cells(f, k - 1), r[k - 1]);
      MissingUpToSnoc(cols, rows, r, k - 1);
      TakeSnoc(r, k);
      CountMissingSnoc(r[..k - 1], r[k - 1]);
    }
  }

  /** Counting column by column and counting row by row give the same total. */
  lemma {:induction false} MissingUpToByRows(f: Frame)
    requires WellFormed(f)
    ensures MissingUpTo(f, |f.columns|) == MissingByRows(f.rows)
    decreases |f.rows|
  {
    if |f.rows| > 0 {
      var n := |f.rows|;
      var prev := Frame(f.columns, f.rows[..n - 1]);
      assert WellFormed(prev) by {
        forall row | row in prev.rows
          ensures |row| == |f.columns|
        {
          assert row in f.rows;
        }
      }
      MissingUpToByRows(prev);
      assert f.rows == prev.rows + [f.rows[n - 1]];
      assert f.rows[n - 1] in f.rows;
      MissingUpToSnoc(f.columns, prev.rows, f.rows[n - 1], |f.columns|);
      assert f.rows[n - 1][..|f.columns|] == f.rows[n - 1];
    } else {
      MissingUpToEmpty(f, |f.columns|);
    }
  }

  lemma {:induction false} MissingUpToEmpty(f: Frame, k: nat)
    requires WellFormed(f) && k <= |f.columns| && |f.rows| == 0
    ensures MissingUpTo(f, k) == 0
  {
    if k > 0 {
      MissingUpToEmpty(f, k - 1);
    }
  }

  lemma {:induction false} CountMissingZero(cells: seq<Cell>)
    ensures CountMissing(cells) == 0 <==> Missing !in cells
  {
    if |cells| > 0 {
      var n := |cells|;
      CountMissingZero(cells[..n - 1]);
      assert cells == cells[..n - 1] + [cells[n - 1]];
    }
  }

  /** The total is zero exactly when no cell is missing. */
  lemma {:induction false} MissingZeroIffNone(f: Frame)
    requires WellFormed(f)
    ensures MissingCells(f) == 0 <==> NoMissing(f)
  {
    RowsZeroIffNone(f.rows);
  }

  lemma {:induction false} RowsZeroIffNone(rows: seq<Row>)
    ensures MissingByRows(rows) == 0 <==> forall row, c :: row in rows && c in row ==> c != Missing
  {
    if |rows| > 0 {
      var n := |rows|;
      RowsZeroIffNone(rows[..n - 1]);
      CountMissingZero(rows[n - 1]);
      assert rows == rows[..n - 1] + [rows[n - 1]];
      assert forall row :: row in rows <==> row in rows[..n - 1] || row == rows[n - 1];
    }
  }

  /** `dropped_columns or "None"`: the list when it is non-empty, else the word. */
  function DroppedOrNone(dropped: Option<seq<string>>): Metric {
    if dropped.Some? && |dropped.value| > 0 then Names(dropped.value) else Word("None")
  }

  /** The summary dictionary, in its insertion order: each key paired with its value. */
  function GenerateReport(original: Frame, cleaned: Frame, encodedCount: int, duplicatesRemoved: int,
                          outliersRemoved: int, dropped: Option<seq<string>>): (r: seq<Entry>)
    requires WellFormed(original) && WellFormed(cleaned)
    ensures |r| == |Keys| && forall k :: 0 <= k < |r| ==> r[k].key == Keys[k]
  {
    var values := [ShapeOf(original), ShapeOf(cleaned), Count(MissingCells(original)), Count(MissingCells(cleaned)),
      Count(duplicatesRemoved), Count(encodedCount), Count(outliersRemoved), DroppedOrNone(dropped)];
    seq(|Keys|, k requires 0 <= k < |Keys| => Entry(Keys[k], values[k]))
  }

  /** report[key]: the value of the first entry with that key. */
  function Lookup(entries: seq<Entry>, key: Key): (r: Option<Metric>)
    ensures r.Some? <==> exists k :: 0 <= k < |entries| && entries[k].key == key
  {
    if |entries| == 0 then None
    else if entries[0].key == key then Some(entries[0].value)
    else
      var r := Lookup(entries[1..], key);
      assert forall k :: 1 <= k < |entries| ==> entries[1..][k - 1] == entries[k];
      r
  }

  /** Lookup finds the entry at k when no earlier entry has its key. */
  lemma {:induction false} LookupAt(entries: seq<Entry>, k: nat)
    requires k < |entries|
    requires forall l :: 0 <= l < k ==> entries[l].key != entries[k].key
    ensures Lookup(entries, entries[k].key) == Some(entries[k].value)
    decreases k
  {
    if k > 0 {
      LookupAt(entries[1..], k - 1);
    }
  }

  /** The eight keys are pairwise different. */
  lemma KeysDistinct()
    ensures forall k, l :: 0 <= k < l < |Keys| ==> Keys[k] != Keys[l]
  {
  }

  /** Every key of the summary finds its own entry. */
  lemma LookupKey(r: seq<Entry>, k: nat)
    requires |r| == |Keys| && k < |Keys| && forall l :: 0 <= l < |r| ==> r[l].key == Keys[l]
    ensures Lookup(r, Keys[k]) == Some(r[k].value)
  {
    KeysDistinct();
    LookupAt(r, k);
  }

  /** What each key of the summary reports: both shapes, both missing totals
      (equal to the row-by-row count), the three counters unchanged, and the
      dropped list or "None". */
  lemma ReportValues(original: Frame, cleaned: Frame, encodedCount: int, duplicatesRemoved: int,
                     outliersRemoved: int, dropped: Option<seq<string>>)
    requires WellFormed(original) && WellFormed(cleaned)
    ensures var r := GenerateReport(original, cleaned, encodedCount, duplicatesRemoved, outliersRemoved, dropped);
      Lookup(r, OriginalShape) == Some(Shape(|original.rows|, |original.columns|))
      && Lookup(r, CleanedShape) == Some(Shape(|cleaned.rows|, |cleaned.columns|))
      && Lookup(r, MissingBefore) == Some(Count(MissingByRows(original.rows)))
      && Lookup(r, MissingAfter) == Some(Count(MissingByRows(cleaned.rows)))
      && Lookup(r, DuplicatesRemoved) == Some(Count(duplicatesRemoved))
      && Lookup(r, ColumnsEncoded) == Some(Count(encodedCount))
      && Lookup(r, OutliersRemoved) == Some(Count(outliersRemoved))
      && Lookup(r, DroppedColumns) == Some(
           if dropped.None? || dropped.value == [] then Word("None") else Names(dropped.value))
  {
    var r := GenerateReport(original, cleaned, encodedCount, duplicatesRemoved, outliersRemoved, dropped);
    LookupKey(r, 0);
    LookupKey(r, 1);
    LookupKey(r, 2);
    LookupKey(r, 3);
    LookupKey(r, 4);
    LookupKey(r, 5);
    LookupKey(r, 6);
    LookupKey(r, 7);
  }

  /** Of the original table the summary reads only its shape and its missing
      total: two originals of one shape give the same entries but the missing count. */
  lemma ReportIgnoresOriginalCells(a: Frame, b: Frame, cleaned: Frame, encodedCount: int, duplicatesRemoved: int,
                                   outliersRemoved: int, dropped: Option<seq<string>>)
    requires WellFormed(a) && WellFormed(b) && WellFormed(cleaned)
    requires |a.rows| == |b.rows| && |a.columns| == |b.columns|
    ensures var ra := GenerateReport(a, cleaned, encodedCount, duplicatesRemoved, outliersRemoved, dropped);
      var rb := GenerateReport(b, cleaned, encodedCount, duplicatesRemoved, outliersRemoved, dropped);
      forall k :: 0 <= k < |Keys| && Keys[k] != MissingBefore ==> ra[k] == rb[k]
  {
  }
}
