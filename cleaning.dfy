/** clean_data of modules/cleaning.py: drop the requested columns, fill missing
    cells and drop duplicate rows, filter outliers, label-encode the text
    columns, and count what each step removed or encoded. */
module Cleaning {
  import opened Wrappers
  import opened Frames
  import opened Outliers
  import opened Imputation
  import opened Duplicates
  import opened LabelEncoding

  /** Some column of f carries the name n. */
  predicate HasColumn(f: Frame, n: string) {
    exists c :: c in f.columns && c.name == n
  }

  /** [col for col in drop_columns if col in df.columns] */
  function Requested(names: seq<string>, f: Frame): (r: seq<string>)
    ensures forall n :: n in r <==> n in names && HasColumn(f, n)
  {
    if |names| == 0 then []
    else
      var r0 := Requested(names[..|names| - 1], f);
      var last := names[|names| - 1];
      assert names == names[..|names| - 1] + [last];
      r0 + (if HasColumn(f, last) then [last] else [])
  }

  /** The columns that stay: those whose name is not listed. */
  function KeepColumns(cols: seq<Column>, names: seq<string>): (mask: seq<bool>)
    ensures |mask| == |cols|
    ensures forall j :: 0 <= j < |cols| ==> (mask[j] <==> cols[j].name !in names)
  {
    seq(|cols|, j requires 0 <= j < |cols| => cols[j].name !in names)
  }

  /** df.drop(columns=...): every column named in the list goes, in every row. */
  function DropColumns(f: Frame, names: seq<string>): (r: Frame)
    requires WellFormed(f)
    ensures WellFormed(r) && |r.rows| == |f.rows|
  {
    var mask := KeepColumns(f.columns, Requested(names, f));
    Frame(Select(f.columns, mask), seq(|f.rows|, i requires 0 <= i < |f.rows| => Select(f.rows[i], mask)))
  }

  /** Exactly the columns whose name was requested are dropped, whether or not
      every requested name exists; the others keep their order. Absent names
      have no effect. */
  lemma DropColumnsKeeps(f: Frame, names: seq<string>)
    requires WellFormed(f)
    ensures IsSubseq(DropColumns(f, names).columns, f.columns)
    ensures forall c :: c in DropColumns(f, names).columns <==> c in f.columns && c.name !in names
  {
    var req := Requested(names, f);
    var mask := KeepColumns(f.columns, req);
    SelectSubseq(f.columns, mask);
    SelectMembers(f.columns, mask);
    forall c | c in f.columns
      ensures c.name in req <==> c.name in names
    {
      assert HasColumn(f, c.name);
    }
  }

  /** The kept columns keep their cells: column k of the result is column
      ps[k] of the input, for the increasing positions ps of the columns whose
      name was not requested. */
  lemma DropColumnsCells(f: Frame, names: seq<string>)
    requires WellFormed(f)
    ensures var r := DropColumns(f, names);
      var ps := TruePositions(KeepColumns(f.columns, Requested(names, f)));
      |ps| == |r.columns|
      && (forall k, l :: 0 <= k < l < |ps| ==> ps[k] < ps[l])
      && forall k :: 0 <= k < |ps| ==>
        ps[k] < |f.columns| && f.columns[ps[k]].name !in names
        && r.columns[k] == f.columns[ps[k]] && Cells(r, k) == Cells(f, ps[k])
  {
    var mask := KeepColumns(f.columns, Requested(names, f));
    var r := DropColumns(f, names);
    var ps := TruePositions(mask);
    SelectAt(f.columns, mask);
    forall k | 0 <= k < |ps|
      ensures f.columns[ps[k]].name !in names
      ensures Cells(r, k) == Cells(f, ps[k])
    {
      assert HasColumn(f, f.columns[ps[k]].name) by {
        assert f.columns[ps[k]] in f.columns;
      }
      forall i | 0 <= i < |f.rows|
        ensures Cells(r, k)[i] == Cells(f, ps[k])[i]
      {
        assert f.rows[i] in f.rows;
        SelectAt(f.rows[i], mask);
      }
    }
  }

  /** The switches clean_data takes. */
  datatype Options = Options(
    dropColumns: seq<string>,
    doCleaning: bool,
    doOutliers: bool,
    doEncoding: bool,
    iqrMultiplier: real)

  /** What clean_data returns: the table and the three counters. */
  datatype Cleaned = Cleaned(table: Frame, encodedCount: nat, duplicatesRemoved: nat, outliersRemoved: nat)

  /** Lines 8-9: nothing is dropped, and no copy is made, for an empty list. */
  function AfterDrop(f: Frame, o: Options): (r: Frame)
    requires WellFormed(f)
    ensures WellFormed(r) && |r.rows| == |f.rows|
  {
    if |o.dropColumns| > 0 then DropColumns(f, o.dropColumns) else f
  }

  /** Lines 12-16: the numeric fill, then the text fill on its result. */
  function Filled(f: Frame): (r: Frame)
    requires WellFormed(f)
    ensures WellFormed(r) && r.columns == f.columns && |r.rows| == |f.rows|
  {
    FillText(FillNumeric(f))
  }

  /** Lines 11-22: the table after the cleaning branch and the duplicate count. */
  function AfterCleaning(d: Frame, doCleaning: bool): (r: (Frame, nat))
    requires WellFormed(d)
    ensures WellFormed(r.0) && r.0.columns == d.columns
    ensures |r.0.rows| + r.1 == |d.rows|
  {
    if doCleaning then
      var g := Filled(d);
      DuplicateCountIsRemoved(g.rows);
      DropDuplicatesDistinct(g.rows);
      DropDuplicatesKeepsFirst(g.rows);
      (Frame(g.columns, DropDuplicates(g.rows)), DuplicateCount(g.rows))
    else (d, 0)
  }

  /** Lines 11-37 as a value, on the table left after line 9. cat_cols are the
      text columns when line 15 or 21 runs, before the outlier step; the fills
      do not change column kinds. */
  function Pipeline(d: Frame, o: Options): (r: Cleaned)
    requires WellFormed(d)
    ensures WellFormed(r.table)
  {
    var (c, dups) := AfterCleaning(d, o.doCleaning);
    var cat := TextPositions(d.columns);
    var t := if o.doOutliers then RemoveOutliers(c, o.iqrMultiplier) else c;
    var e := if o.doEncoding then EncodeAll(t, cat) else t;
    Cleaned(e, if o.doEncoding then |cat| else 0, dups, |c.rows| - |t.rows|)
  }

  /** clean_data as a value. */
  function Clean(f: Frame, o: Options): (r: Cleaned)
    requires WellFormed(f)
    ensures WellFormed(r.table)
  {
    Pipeline(AfterDrop(f, o), o)
  }

  /** Line 16 reads the first row of df[cat_cols].mode(). Each column's modes
      are its most frequent strings, padded with NaN to the longest such list,
      so that frame has a first row exactly when some text column holds a
      string. The numeric fill at line 13 leaves text columns alone, so this
      can be read on the table line 11 receives. */
  predicate HasModeRow(d: Frame)
    requires WellFormed(d)
    ensures HasModeRow(d) <==> exists j :: 0 <= j < |d.columns| && IsTextual(d.columns[j]) && Mode(Cells(d, j)).Some?
  {
    exists j :: 0 <= j < |d.columns| && IsTextual(d.columns[j]) && TextsOf(Cells(d, j)) != []
  }

  /** clean_data as written: with cleaning on and no mode row, iloc[0] at line
      16 raises IndexError and the call returns nothing. Otherwise the text
      fill of line 16 is the per-column fill Clean performs. */
  function CleanAsWritten(f: Frame, o: Options): (r: Result<Cleaned>)
    requires WellFormed(f)
    ensures r.Failure? <==> o.doCleaning && !HasModeRow(AfterDrop(f, o))
    ensures r.Success? ==> r.value == Clean(f, o)
  {
    if o.doCleaning && !HasModeRow(AfterDrop(f, o)) then Failure("IndexError: single positional indexer is out-of-bounds")
    else Success(Clean(f, o))
  }

  /** An upload with no row, or with no text column, makes clean_data raise
      whenever cleaning is on, whatever is dropped and whether or not a cell is
      missing. */
  lemma NoTextUploadFails(f: Frame, o: Options)
    requires WellFormed(f) && o.doCleaning
    requires |f.rows| == 0 || forall j :: 0 <= j < |f.columns| ==> IsNumeric(f.columns[j])
    ensures CleanAsWritten(f, o).Failure?
  {
    var d := AfterDrop(f, o);
    if |o.dropColumns| > 0 {
      DropColumnsKeeps(f, o.dropColumns);
    }
    assert forall c :: c in d.columns ==> c in f.columns;
    NoModeRowWithoutText(d);
  }

  /** A table with no row, or with only numeric columns, has no mode row. */
  lemma NoModeRowWithoutText(d: Frame)
    requires WellFormed(d)
    requires |d.rows| == 0 || forall c :: c in d.columns ==> IsNumeric(c)
    ensures !HasModeRow(d)
  {
    forall j | 0 <= j < |d.columns|
      ensures !IsTextual(d.columns[j]) || TextsOf(Cells(d, j)) == []
    {
      if |d.rows| == 0 {
        assert |Cells(d, j)| == 0;
      } else {
        assert d.columns[j] in d.columns;
      }
    }
  }

  /** The intended behaviour, which Clean models: a table of numeric columns,
      each holding a number, comes out of cleaning with no missing cell, and
      the text fill simply has nothing to do. */
  lemma NoTextUploadCleaned(f: Frame, o: Options)
    requires WellFormed(f) && o.doCleaning
    requires forall j :: 0 <= j < |f.columns| ==> IsNumeric(f.columns[j]) && NumbersOf(Cells(f, j)) != []
    ensures NoMissing(Clean(f, o).table)
  {
    var d := AfterDrop(f, o);
    if |o.dropColumns| > 0 {
      DropColumnsCells(f, o.dropColumns);
    }
    CleanedHasNoMissing(f, o);
  }

  /** One numeric column holding 1.0 and a missing cell. */
  const NumericSample: Frame := Frame([Column("x", Numeric)], [[Num(1.0)], [Missing]])

  /** On the numeric sample with cleaning on, clean_data as written raises,
      where the corrected pipeline fills the missing cell. */
  lemma NumericSampleFails(o: Options)
    requires o.doCleaning
    ensures WellFormed(NumericSample) && NumericSample.rows[1][0] == Missing
    ensures CleanAsWritten(NumericSample, o).Failure?
    ensures NoMissing(Clean(NumericSample, o).table)
  {
    assert Cells(NumericSample, 0)[0] == Num(1.0);
    NoTextUploadFails(NumericSample, o);
    NoTextUploadCleaned(NumericSample, o);
  }

  /** Every input row is accounted for: it is in the result, was a duplicate, or
      was an outlier. In particular the result never has more rows than the input. */
  lemma CleanRowAccounting(f: Frame, o: Options)
    requires WellFormed(f)
    ensures |Clean(f, o).table.rows| + Clean(f, o).duplicatesRemoved + Clean(f, o).outliersRemoved == |f.rows|
    ensures |Clean(f, o).table.rows| <= |f.rows|
  {
    var d := AfterDrop(f, o);
    var (c, dups) := AfterCleaning(d, o.doCleaning);
    var t := if o.doOutliers then RemoveOutliers(c, o.iqrMultiplier) else c;
    var cat := TextPositions(d.columns);
    assert |t.rows| <= |c.rows|;
  }

  /** A switched-off step reports zero; the encoded count is the number of text
      columns captured before the outlier step; the header keeps its width. */
  lemma CleanCounters(f: Frame, o: Options)
    requires WellFormed(f)
    ensures !o.doCleaning ==> Clean(f, o).duplicatesRemoved == 0
    ensures !o.doOutliers ==> Clean(f, o).outliersRemoved == 0
    ensures Clean(f, o).encodedCount == if o.doEncoding then |TextPositions(AfterDrop(f, o).columns)| else 0
    ensures |Clean(f, o).table.columns| == |AfterDrop(f, o).columns|
  {
  }

  /** With cleaning on, the result has no two equal rows before outliers and
      encoding run: the rows fed to the outlier step are distinct. */
  lemma CleaningLeavesDistinctRows(f: Frame, o: Options)
    requires WellFormed(f) && o.doCleaning
    ensures Distinct(AfterCleaning(AfterDrop(f, o), o.doCleaning).0.rows)
  {
    DropDuplicatesDistinct(Filled(AfterDrop(f, o)).rows);
  }

  /** Every column holds a value of its own kind, so each has a fill value. */
  predicate EveryColumnHasValue(f: Frame)
    requires WellFormed(f)
  {
    forall j :: 0 <= j < |f.columns| ==>
      (IsNumeric(f.columns[j]) ==> NumbersOf(Cells(f, j)) != [])
      && (IsTextual(f.columns[j]) ==> TextsOf(Cells(f, j)) != [])
  }

  /** After both fills, a table whose every column has a value has no missing cell. */
  lemma FilledHasNoMissing(f: Frame)
    requires WellFormed(f) && EveryColumnHasValue(f)
    ensures NoMissing(Filled(f))
  {
    var g := FillNumeric(f);
    var h := FillText(g);
    forall i, j | 0 <= i < |h.rows| && 0 <= j < |h.columns|
      ensures h.rows[i][j] != Missing
    {
      FillTextCell(g, i, j);
      FillNumericCell(f, i, j);
      if IsTextual(f.columns[j]) {
        UnfilledColumnKept(f, NumericFills(f), j);
        assert Cells(g, j) == Cells(f, j);
      }
    }
    forall row, c | row in h.rows && c in row
      ensures c != Missing
    {
      var i :| 0 <= i < |h.rows| && h.rows[i] == row;
      var j :| 0 <= j < |row| && row[j] == c;
    }
  }

  /** Keeping a subsequence of the rows keeps the table free of missing cells. */
  lemma SubseqKeepsNoMissing(f: Frame, rows: seq<Row>)
    requires NoMissing(f) && IsSubseq(rows, f.rows)
    ensures NoMissing(Frame(f.columns, rows))
  {
    SubseqMembers(rows, f.rows);
  }

  /** Label encoding turns strings into numbers and never produces a missing cell. */
  lemma EncodingKeepsNoMissing(f: Frame, cols: seq<nat>)
    requires WellFormed(f) && NoMissing(f)
    requires forall k :: 0 <= k < |cols| ==> cols[k] < |f.columns|
    requires forall k, l :: 0 <= k < l < |cols| ==> cols[k] != cols[l]
    ensures NoMissing(EncodeAll(f, cols))
  {
    var e := EncodeAll(f, cols);
    forall i, j | 0 <= i < |e.rows| && 0 <= j < |e.columns|
      ensures e.rows[i][j] != Missing
    {
      assert f.rows[i] in f.rows && f.rows[i][j] in f.rows[i];
      if j in cols {
        EncodeAllListed(f, cols, i, j);
      } else {
        EncodeAllUnlisted(f, cols, i, j);
      }
    }
    forall row, c | row in e.rows && c in row
      ensures c != Missing
    {
      var i :| 0 <= i < |e.rows| && e.rows[i] == row;
      var j :| 0 <= j < |row| && row[j] == c;
    }
  }

  /** With cleaning on and a value in every column that is kept, the cleaned
      table has no missing cell at all, whatever the other switches are. */
  lemma CleanedHasNoMissing(f: Frame, o: Options)
    requires WellFormed(f) && o.doCleaning && EveryColumnHasValue(AfterDrop(f, o))
    ensures NoMissing(Clean(f, o).table)
  {
    var d := AfterDrop(f, o);
    var g := Filled(d);
    FilledHasNoMissing(d);
    DropDuplicatesKeepsFirst(g.rows);
    SubseqKeepsNoMissing(g, DropDuplicates(g.rows));
    var c := AfterCleaning(d, o.doCleaning).0;
    var t := if o.doOutliers then RemoveOutliers(c, o.iqrMultiplier) else c;
    if o.doOutliers {
      SubseqKeepsNoMissing(c, t.rows);
    }
    if o.doEncoding {
      var cat := TextPositions(d.columns);
      EncodingKeepsNoMissing(t, cat);
    }
  }

  /** The object that enters line 11, after lines 11-37 have run on it: the
      fills at lines 13 and 16 write into it, and so does the encoding at line
      34 when no step before it made a copy (drop_duplicates always copies; the
      outlier filter copies only when there is a numeric column). */
  function InPlace(d: Frame, o: Options): (r: Frame)
    requires WellFormed(d)
    ensures WellFormed(r)
  {
    if o.doCleaning then Filled(d)
    else if o.doEncoding && (!o.doOutliers || NumericPositions(d.columns) == []) then
      EncodeAll(d, TextPositions(d.columns))
    else d
  }

  /** The caller's own table after clean_data returns. With an empty drop list
      df is still the caller's object when line 11 is reached. */
  function CallerAfter(f: Frame, o: Options): (r: Frame)
    requires WellFormed(f)
    ensures WellFormed(r)
  {
    if |o.dropColumns| > 0 then f else InPlace(f, o)
  }

  /** The caller's table keeps its shape; only cell values and kinds can change. */
  lemma CallerKeepsShape(f: Frame, o: Options)
    requires WellFormed(f)
    ensures |CallerAfter(f, o).rows| == |f.rows| && |CallerAfter(f, o).columns| == |f.columns|
  {
  }

  /** Whenever the caller's table changes, it agrees with the table the
      pipeline worked on at the point where the copy was made. */
  lemma CallerSeesFills(f: Frame, o: Options)
    requires WellFormed(f) && |o.dropColumns| == 0 && o.doCleaning
    ensures CallerAfter(f, o) == Filled(f)
    ensures Clean(f, o).duplicatesRemoved == DuplicateCount(CallerAfter(f, o).rows)
  {
  }

  /** Pipeline, step by step as the method computes it. */
  lemma PipelineUnfolds(d: Frame, o: Options, c: Frame, dups: nat, t: Frame, e: Frame)
    requires WellFormed(d) && (c, dups) == AfterCleaning(d, o.doCleaning)
    requires t == if o.doOutliers then RemoveOutliers(c, o.iqrMultiplier) else c
    requires e == if o.doEncoding then EncodeAll(t, TextPositions(d.columns)) else t
    ensures Pipeline(d, o) == Cleaned(e, if o.doEncoding then |TextPositions(d.columns)| else 0, dups, |c.rows| - |t.rows|)
  {
  }

  /** InPlace, by which object the encoding loop writes into. */
  lemma InPlaceUnfolds(d: Frame, o: Options, c: Frame, dups: nat, t: Frame, e: Frame)
    requires WellFormed(d) && (c, dups) == AfterCleaning(d, o.doCleaning)
    requires t == if o.doOutliers then RemoveOutliers(c, o.iqrMultiplier) else c
    requires e == if o.doEncoding then EncodeAll(t, TextPositions(d.columns)) else t
    ensures InPlace(d, o) ==
      if !o.doCleaning && (!o.doOutliers || NumericPositions(c.columns) == []) then e
      else if o.doCleaning then Filled(d)
      else d
  {
    if !o.doCleaning {
      assert c == d;
      if o.doOutliers && NumericPositions(d.columns) == [] {
        NoNumericColumnUnchanged(d, o.iqrMultiplier);
      }
    }
  }

  /** Lines 11-22 on the object df names: the fills write into it, then
      drop_duplicates rebinds df to a new object. cat_cols is read in between. */
  method CleaningBranch(df: Table, doCleaning: bool) returns (next: Table, catCols: seq<nat>, duplicatesRemoved: nat)
    requires df.Valid()
    modifies df
    ensures next.Valid()
    ensures (next.Value(), duplicatesRemoved) == AfterCleaning(old(df.Value()), doCleaning)
    ensures catCols == TextPositions(old(df.Value()).columns)
    ensures df.Value() == if doCleaning then Filled(old(df.Value())) else old(df.Value())
    ensures if doCleaning then fresh(next) else next == df
  {
    if doCleaning {
      df.Assign(FillNumeric(df.Value()));
      catCols := TextPositions(df.columns);
      df.Assign(FillText(df.Value()));
      duplicatesRemoved := DuplicateCount(df.rows);
      DropDuplicatesDistinct(df.rows);
      next := new Table(Frame(df.columns, DropDuplicates(df.rows)));
    } else {
      catCols := TextPositions(df.columns);
      duplicatesRemoved := 0;
      next := df;
    }
  }

  /** Lines 24-29: the outlier filter and the number of rows it removed. */
  method OutlierBranch(df: Table, doOutliers: bool, iqrMultiplier: real) returns (next: Table, outliersRemoved: nat)
    requires df.Valid()
    ensures next.Valid()
    ensures next.Value() == if doOutliers then RemoveOutliers(df.Value(), iqrMultiplier) else df.Value()
    ensures outliersRemoved == |df.rows| - |next.rows|
    ensures if doOutliers && NumericPositions(df.columns) != [] then fresh(next) else next == df
  {
    if doOutliers {
      var beforeRows := |df.rows|;
      next := RemoveOutliersIqr(df, iqrMultiplier);
      outliersRemoved := beforeRows - |next.rows|;
    } else {
      next := df;
      outliersRemoved := 0;
    }
  }

  /** Lines 31-37: each captured text column is encoded in place. */
  method EncodingBranch(df: Table, catCols: seq<nat>, doEncoding: bool) returns (encodedCount: nat)
    requires df.Valid()
    requires forall k :: 0 <= k < |catCols| ==> catCols[k] < |df.columns|
    modifies df
    ensures df.Valid()
    ensures df.Value() == if doEncoding then EncodeAll(old(df.Value()), catCols) else old(df.Value())
    ensures encodedCount == if doEncoding then |catCols| else 0
  {
    if doEncoding {
      ghost var t := df.Value();
      for k := 0 to |catCols|
        invariant df.Valid() && df.Value() == EncodeAll(t, catCols[..k])
      {
        df.Assign(EncodeColumn(df.Value(), catCols[k]));
        PrefixOfPrefix(catCols, k + 1, k);
      }
      assert catCols[..|catCols|] == catCols;
      encodedCount := |catCols|;
    } else {
      encodedCount := 0;
    }
  }

  /** Lines 11-29 on the object df names when line 11 is reached: the
      cleaning branch, then the outlier branch on whatever object it left. */
  method CleanAndFilter(df: Table, o: Options)
    returns (cur: Table, catCols: seq<nat>, duplicatesRemoved: nat, outliersRemoved: nat, ghost c: Frame)
    requires df.Valid()
    modifies df
    ensures cur.Valid()
    ensures (c, duplicatesRemoved) == AfterCleaning(old(df.Value()), o.doCleaning)
    ensures cur.Value() == if o.doOutliers then RemoveOutliers(c, o.iqrMultiplier) else c
    ensures outliersRemoved == |c.rows| - |cur.rows|
    ensures catCols == TextPositions(old(df.Value()).columns)
    ensures df.Value() == if o.doCleaning then Filled(old(df.Value())) else old(df.Value())
    ensures cur == df <==> !o.doCleaning && (!o.doOutliers || NumericPositions(c.columns) == [])
    ensures cur != df ==> fresh(cur)
  {
    var cleaned;
    cleaned, catCols, duplicatesRemoved := CleaningBranch(df, o.doCleaning);
    c := cleaned.Value();
    cur, outliersRemoved := OutlierBranch(cleaned, o.doOutliers, o.iqrMultiplier);
  }

  /** Lines 11-37 on the object df names when line 11 is reached. */
  method RunPipeline(df: Table, o: Options)
    returns (result: Table, encodedCount: nat, duplicatesRemoved: nat, outliersRemoved: nat)
    requires df.Valid()
    modifies df
    ensures Pipeline(old(df.Value()), o) == Cleaned(result.Value(), encodedCount, duplicatesRemoved, outliersRemoved)
    ensures df.Value() == InPlace(old(df.Value()), o)
  {
    ghost var d := df.Value();
    var cur, catCols;
    ghost var c;
    cur, catCols, duplicatesRemoved, outliersRemoved, c := CleanAndFilter(df, o);
    ghost var t := cur.Value();
    encodedCount := EncodingBranch(cur, catCols, o.doEncoding);
    result := cur;
    PipelineUnfolds(d, o, c, duplicatesRemoved, t, result.Value());
    InPlaceUnfolds(d, o, c, duplicatesRemoved, t, result.Value());
  }

  /** clean_data on a mutable table. The returned object may be the caller's own
      object, and df itself is written to exactly as CallerAfter says. */
  method CleanData(df: Table, dropColumns: seq<string>, doCleaning: bool, doOutliers: bool,
                   doEncoding: bool, iqrMultiplier: real)
    returns (result: Table, encodedCount: nat, duplicatesRemoved: nat, outliersRemoved: nat)
    requires df.Valid()
    modifies df
    ensures var o := Options(dropColumns, doCleaning, doOutliers, doEncoding, iqrMultiplier);
      Clean(old(df.Value()), o) == Cleaned(result.Value(), encodedCount, duplicatesRemoved, outliersRemoved)
    ensures df.Value() == CallerAfter(old(df.Value()), Options(dropColumns, doCleaning, doOutliers, doEncoding, iqrMultiplier))
  {
    var o := Options(dropColumns, doCleaning, doOutliers, doEncoding, iqrMultiplier);
    if |dropColumns| > 0 {
      var dropped := new Table(DropColumns(df.Value(), dropColumns));
      result, encodedCount, duplicatesRemoved, outliersRemoved := RunPipeline(dropped, o);
    } else {
      result, encodedCount, duplicatesRemoved, outliersRemoved := RunPipeline(df, o);
    }
  }
}
