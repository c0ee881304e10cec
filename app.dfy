/** The parts of app.py that decide something: the file type of an upload and
    the reader it selects, the IQR multiplier handed to clean_data, the report
    call, and the name and format of the download. */
module App {
  import opened Wrappers
  import opened Frames
  import opened Cleaning
  import opened Report

  // ---------------------------------------------------------------------------
  // File type (app.py:49)
  // ---------------------------------------------------------------------------

  /** str.lower() on one character, for ASCII letters. */
  function LowerChar(c: char): char {
    if 'A' <= c <= 'Z' then (c as int - 'A' as int + 'a' as int) as char else c
  }

  /** str.lower(): every character lowered, the length kept. */
  function Lower(s: string): (r: string)
    ensures |r| == |s| && forall i :: 0 <= i < |s| ==> r[i] == LowerChar(s[i])
  {
    seq(|s|, i requires 0 <= i < |s| => LowerChar(s[i]))
  }

  /** name.split('.')[-1]: the longest suffix of the name without a dot. It is
      the whole name when there is no dot, and is preceded by a dot otherwise. */
  function AfterLastDot(s: string): (r: string)
    ensures |r| <= |s| && r == s[|s| - |r|..]
    ensures '.' !in r
    ensures |r| < |s| ==> s[|s| - |r| - 1] == '.'
  {
    if |s| == 0 then ""
    else if s[|s| - 1] == '.' then ""
    else
      var r := AfterLastDot(s[..|s| - 1]);
      r + [s[|s| - 1]]
  }

  /** file_type */
  function FileType(name: string): (r: string)
    ensures |r| <= |name| && '.' !in r
    ensures forall i :: 0 <= i < |r| ==> !('A' <= r[i] <= 'Z')
  {
    Lower(AfterLastDot(name))
  }

  /** The extension is whatever follows the last dot, however many dots the
      stem holds, and a name without a dot is its own extension. */
  lemma {:induction false} AfterLastDotOf(stem: string, ext: string)
    requires '.' !in ext
    ensures AfterLastDot(stem + "." + ext) == ext
    ensures '.' !in stem ==> AfterLastDot(stem) == stem
  {
    var s := stem + "." + ext;
    var r := AfterLastDot(s);
    assert s[|stem|] == '.';
    assert forall j :: |s| - |r| <= j < |s| ==> s[j] == r[j - (|s| - |r|)];
    assert forall j :: |stem| < j < |s| ==> s[j] == ext[j - |stem| - 1];
    assert s[|s| - |ext|..] == ext;
    if '.' !in stem {
      var q := AfterLastDot(stem);
      assert forall j :: 0 <= j < |stem| ==> stem[j] != '.';
    }
  }

  /** Lowering twice is lowering once, and a lowered string holds no
      upper-case letter while every other character is kept. */
  lemma LowerIdempotent(s: string)
    ensures Lower(Lower(s)) == Lower(s)
    ensures forall i :: 0 <= i < |s| ==> !('A' <= Lower(s)[i] <= 'Z')
    ensures forall i :: 0 <= i < |s| && !('A' <= s[i] <= 'Z') ==> Lower(s)[i] == s[i]
  {
  }

  /** "DATA.CSV", "data.Csv" and "data.csv" all have file type csv. */
  lemma FileTypeIgnoresCase(stem: string)
    ensures FileType(stem + ".csv") == FileType(stem + ".CSV") == FileType(stem + ".Csv") == "csv"
    ensures FileType(stem + ".xlsx") == FileType(stem + ".XLSX") == "xlsx"
  {
    ExtensionOf(stem, "csv", ".csv");
    ExtensionOf(stem, "CSV", ".CSV");
    ExtensionOf(stem, "Csv", ".Csv");
    ExtensionOf(stem, "xlsx", ".xlsx");
    ExtensionOf(stem, "XLSX", ".XLSX");
    LowerExtensions();
  }

  lemma LowerExtensions()
    ensures Lower("csv") == Lower("CSV") == Lower("Csv") == "csv"
    ensures Lower("xlsx") == Lower("XLSX") == "xlsx"
  {
    assert LowerChar('C') == 'c' && LowerChar('S') == 's' && LowerChar('V') == 'v';
    assert LowerChar('X') == 'x' && LowerChar('L') == 'l';
  }

  lemma ExtensionOf(stem: string, ext: string, dotExt: string)
    requires '.' !in ext && dotExt == "." + ext
    ensures FileType(stem + dotExt) == Lower(ext)
  {
    var name := stem + dotExt;
    assert name == stem + "." + ext;
    AfterLastDotOf(stem, ext);
    assert AfterLastDot(name) == ext;
  }

  // ---------------------------------------------------------------------------
  // Reader choice (app.py:50-56)
  // ---------------------------------------------------------------------------

  datatype Reader = CsvReader | ExcelReader

  /** read_csv for csv, read_excel for xlsx, and for any other type the error
      message, after which the run stops. */
  function SelectReader(fileType: string): (r: Result<Reader>)
    ensures r == Success(CsvReader) <==> fileType == "csv"
    ensures r == Success(ExcelReader) <==> fileType == "xlsx"
    ensures r.Failure? <==> fileType != "csv" && fileType != "xlsx"
    ensures r.Failure? ==> r.error == "Unsupported file format."
  {
    if fileType == "csv" then Success(CsvReader)
    else if fileType == "xlsx" then Success(ExcelReader)
    else Failure("Unsupported file format.")
  }

  /** An upload is read exactly when its extension is csv or xlsx in some
      case; a name without a dot is taken whole as its own file type. */
  lemma ReaderOfUpload(stem: string, ext: string)
    requires '.' !in ext
    ensures SelectReader(FileType(stem + "." + ext)).Success? <==> Lower(ext) == "csv" || Lower(ext) == "xlsx"
    ensures '.' !in stem ==> (SelectReader(FileType(stem)).Failure? <==> Lower(stem) != "csv" && Lower(stem) != "xlsx")
  {
    AfterLastDotOf(stem, ext);
  }

  // ---------------------------------------------------------------------------
  // IQR multiplier (app.py:68-70)
  // ---------------------------------------------------------------------------

  /** The slider runs from 1.0 to 3.0 in steps of 0.1, so its value is
      1.0 + step/10 for a step in 0..20. */
  const SliderSteps: nat := 20

  /** iqr_multiplier: 1.5 unless outlier removal is on, then the slider value. */
  function IqrMultiplier(doOutliers: bool, step: nat): (m: real)
    requires step <= SliderSteps
    ensures 1.0 <= m <= 3.0
    ensures !doOutliers ==> m == 1.5
    ensures doOutliers ==> (m - 1.0) * 10.0 == step as real
  {
    if doOutliers then 1.0 + step as real / 10.0 else 1.5
  }

  /** The slider starts at 1.5, so leaving it untouched gives the same
      multiplier as not showing it. */
  lemma SliderDefault()
    ensures IqrMultiplier(true, 5) == IqrMultiplier(false, 0) == 1.5
  {
  }

  // ---------------------------------------------------------------------------
  // Download (app.py:101-110)
  // ---------------------------------------------------------------------------

  /** pat occurs in s at position i. */
  predicate OccursAt(s: string, pat: string, i: nat) {
    i + |pat| <= |s| && s[i..i + |pat|] == pat
  }

  /** str.replace(pat, rep): every occurrence of pat, scanned left to right
      without overlap, is replaced. Matching is case-sensitive. */
  function Replace(s: string, pat: string, rep: string): (r: string)
    requires |pat| > 0
    ensures |rep| <= |pat| ==> |r| <= |s|
    ensures |s| < |pat| ==> r == s
    decreases |s|
  {
    if |s| < |pat| then s
    else if s[..|pat|] == pat then rep + Replace(s[|pat|..], pat, rep)
    else [s[0]] + Replace(s[1..], pat, rep)
  }

  /** A string without the pattern is returned as it is. */
  lemma {:induction false} ReplaceAbsent(s: string, pat: string, rep: string)
    requires |pat| > 0 && forall i :: 0 <= i <= |s| - |pat| ==> !OccursAt(s, pat, i)
    ensures Replace(s, pat, rep) == s
    decreases |s|
  {
    if |s| >= |pat| {
      assert !OccursAt(s, pat, 0);
      forall i | 0 <= i <= |s[1..]| - |pat|
        ensures !OccursAt(s[1..], pat, i)
      {
        assert !OccursAt(s, pat, i + 1);
        assert s[1..][i..i + |pat|] == s[i + 1..i + 1 + |pat|];
      }
      ReplaceAbsent(s[1..], pat, rep);
    }
  }

  /** A character that cannot start a match is passed over unchanged. */
  lemma ReplaceStep(c: char, b: string, pat: string, rep: string)
    requires |pat| > 0 && c != pat[0]
    ensures Replace([c] + b, pat, rep) == [c] + Replace(b, pat, rep)
  {
    var s := [c] + b;
    assert s[1..] == b;
    if |s| < |pat| {
      ReplaceAbsent(b, pat, rep);
    } else {
      assert s[..|pat|][0] == c;
    }
  }

  /** A prefix that cannot start a match is passed over unchanged. */
  lemma {:induction false} ReplaceSkip(a: string, b: string, pat: string, rep: string)
    requires |pat| > 0 && pat[0] !in a
    ensures Replace(a + b, pat, rep) == a + Replace(b, pat, rep)
    decreases |a|
  {
    if |a| > 0 {
      var c, a1 := a[0], a[1..];
      assert a == [c] + a1;
      assert pat[0] !in a1 && c != pat[0];
      ReplaceSkip(a1, b, pat, rep);
      ReplaceStep(c, a1 + b, pat, rep);
      assert a + b == [c] + (a1 + b);
      assert a + Replace(b, pat, rep) == [c] + (a1 + Replace(b, pat, rep));
    } else {
      assert a + b == b;
    }
  }

  /** The download is CSV for a csv upload and Excel otherwise. */
  datatype Format = Csv | Excel(sheet: string)

  function OutputFormat(fileType: string): (r: Format)
    ensures r == Csv <==> fileType == "csv"
    ensures r.Excel? ==> r.sheet == "Cleaned Data"
  {
    if fileType == "csv" then Csv else Excel("Cleaned Data")
  }

  /** The download name as app.py:103 and :109 build it: every ".csv" (or
      ".xlsx") removed, case-sensitively, and the suffix appended. */
  function DownloadName(name: string, fileType: string): (r: string)
    ensures var suffix := if fileType == "csv" then "_cleaned.csv" else "_cleaned.xlsx";
      |suffix| <= |r| <= |name| + |suffix| && r[|r| - |suffix|..] == suffix
  {
    if fileType == "csv" then Replace(name, ".csv", "") + "_cleaned.csv"
    else Replace(name, ".xlsx", "") + "_cleaned.xlsx"
  }

  /** For a lower-case extension and a stem without a dot, the download name is
      the stem with the suffix. */
  lemma DownloadNameOfStem(stem: string)
    requires '.' !in stem
    ensures DownloadName(stem + ".csv", FileType(stem + ".csv")) == stem + "_cleaned.csv"
    ensures DownloadName(stem + ".xlsx", FileType(stem + ".xlsx")) == stem + "_cleaned.xlsx"
  {
    FileTypeIgnoresCase(stem);
    ReplaceSkip(stem, ".csv", ".csv", "");
    ReplaceSkip(stem, ".xlsx", ".xlsx", "");
    ReplaceWhole(".csv");
    ReplaceWhole(".xlsx");
    assert Replace(stem + ".csv", ".csv", "") == stem;
    assert Replace(stem + ".xlsx", ".xlsx", "") == stem;
  }

  /** The pattern alone is replaced by nothing. */
  lemma ReplaceWhole(pat: string)
    requires |pat| > 0
    ensures Replace(pat, pat, "") == ""
  {
    assert pat[..|pat|] == pat && pat[|pat|..] == "";
  }

  /** ".CSV" holds no ".csv": the case-sensitive replace leaves it as it is. */
  lemma ReplaceKeepsUpperCase()
    ensures Replace(".CSV", ".csv", "") == ".CSV"
  {
    var s := ".CSV";
    assert s[..4][1] == 'C';
    assert s[1..] == "CSV";
  }

  /** An upload such as "a.CSV" is read as CSV, yet its download name keeps the
      upper-case extension in the middle: "a.CSV_cleaned.csv". */
  lemma UpperCaseExtensionKept(stem: string)
    requires '.' !in stem
    ensures FileType(stem + ".CSV") == "csv"
    ensures DownloadName(stem + ".CSV", FileType(stem + ".CSV")) == stem + ".CSV" + "_cleaned.csv"
  {
    var name := stem + ".CSV";
    ExtensionOf(stem, "CSV", ".CSV");
    LowerExtensions();
    assert FileType(name) == "csv";
    ReplaceSkip(stem, ".CSV", ".csv", "");
    ReplaceKeepsUpperCase();
    assert Replace(name, ".csv", "") == name;
  }

  /** The name without its extension: the text before the last dot, or the
      whole name when there is none. */
  function StemOf(name: string): (r: string)
    ensures r <= name
    ensures '.' in name ==> |r| < |name| && name[|r|] == '.'
    ensures '.' !in name ==> r == name
  {
    var ext := AfterLastDot(name);
    if |ext| < |name| then
      var r := name[..|name| - |ext| - 1];
      assert name[|r|] == '.' && r <= name;
      r
    else
      assert ext == name[0..] == name;
      name
  }

  /** The download name with the extension the file type came from removed,
      whatever its case. */
  function CorrectedDownloadName(name: string, fileType: string): (r: string)
    ensures var suffix := if fileType == "csv" then "_cleaned.csv" else "_cleaned.xlsx";
      |suffix| <= |r| <= |name| + |suffix| && r[|r| - |suffix|..] == suffix && r[..|r| - |suffix|] <= name
  {
    StemOf(name) + (if fileType == "csv" then "_cleaned.csv" else "_cleaned.xlsx")
  }

  /** The stem is everything before the last dot, for every extension case and
      every stem, dotted or not. */
  lemma CorrectedNameOfStem(stem: string, ext: string)
    requires '.' !in ext
    ensures StemOf(stem + "." + ext) == stem
    ensures Lower(ext) == "csv" ==> CorrectedDownloadName(stem + "." + ext, FileType(stem + "." + ext)) == stem + "_cleaned.csv"
    ensures Lower(ext) == "xlsx" ==> CorrectedDownloadName(stem + "." + ext, FileType(stem + "." + ext)) == stem + "_cleaned.xlsx"
  {
    var name := stem + "." + ext;
    StemOfDotted(stem, ext);
    assert FileType(name) == Lower(ext) by {
      AfterLastDotOf(stem, ext);
    }
  }

  lemma StemOfDotted(stem: string, ext: string)
    requires '.' !in ext
    ensures StemOf(stem + "." + ext) == stem
  {
    AfterLastDotOf(stem, ext);
    assert (stem + "." + ext)[..|stem|] == stem;
  }

  /** Where the name is ordinary the two names agree. */
  lemma CorrectedAgreesOnLowerCase(stem: string)
    requires '.' !in stem
    ensures CorrectedDownloadName(stem + ".csv", "csv") == DownloadName(stem + ".csv", "csv")
    ensures CorrectedDownloadName(stem + ".xlsx", "xlsx") == DownloadName(stem + ".xlsx", "xlsx")
  {
    DownloadNameOfStem(stem);
    FileTypeIgnoresCase(stem);
    CorrectedNameOfStem(stem, "csv");
    CorrectedNameOfStem(stem, "xlsx");
  }

  // ---------------------------------------------------------------------------
  // The report on a cleaning run (app.py:73-89)
  // ---------------------------------------------------------------------------

  /** The report as app.py:82-89 requests it: original_df is the caller's df,
      read after clean_data has returned, so it is CallerAfter of the upload. */
  function ReportAsWritten(f: Frame, o: Options): (r: seq<Entry>)
    requires WellFormed(f)
    ensures |r| == |Keys|
  {
    var c := Clean(f, o);
    GenerateReport(CallerAfter(f, o), c.table, c.encodedCount, c.duplicatesRemoved, c.outliersRemoved, Some(o.dropColumns))
  }

  /** The report on the upload as it was before cleaning. */
  function ReportIntended(f: Frame, o: Options): (r: seq<Entry>)
    requires WellFormed(f)
    ensures |r| == |Keys|
  {
    var c := Clean(f, o);
    GenerateReport(f, c.table, c.encodedCount, c.duplicatesRemoved, c.outliersRemoved, Some(o.dropColumns))
  }

  /** With no column dropped and cleaning on, a table whose columns each hold a
      value is reported as having had no missing cell, whatever it had. */
  lemma AsWrittenBeforeIsZero(f: Frame, o: Options)
    requires WellFormed(f) && |o.dropColumns| == 0 && o.doCleaning && EveryColumnHasValue(f)
    ensures Lookup(ReportAsWritten(f, o), MissingBefore) == Some(Count(0))
  {
    var c := Clean(f, o);
    ReportValues(CallerAfter(f, o), c.table, c.encodedCount, c.duplicatesRemoved, c.outliersRemoved, Some(o.dropColumns));
    FilledHasNoMissing(f);
    MissingZeroIffNone(CallerAfter(f, o));
  }

  /** A numeric column holding 1.0 and a missing cell, beside a text column
      holding "a" and "b", so that line 16 of the cleaning step has a mode row. */
  const Sample: Frame := Frame([Column("x", Numeric), Column("y", Textual)], [[Num(1.0), Text("a")], [Missing, Text("b")]])

  const SampleOptions: Options := Options([], true, false, false, 1.5)

  /** A numeric column whose first cell is a number beside a text column of
      strings: each column holds a value of its kind. */
  lemma TwoColumnsHaveValues(n: string, m: string, x: real, c: Cell, s: string, t: string)
    ensures var f := Frame([Column(n, Numeric), Column(m, Textual)], [[Num(x), Text(s)], [c, Text(t)]]);
      WellFormed(f) && EveryColumnHasValue(f)
  {
    var f := Frame([Column(n, Numeric), Column(m, Textual)], [[Num(x), Text(s)], [c, Text(t)]]);
    assert Cells(f, 0)[0] == Num(x) && Cells(f, 1)[0] == Text(s);
  }

  /** Each column of the sample holds a value of its kind. */
  lemma SampleHasValues()
    ensures WellFormed(Sample) && EveryColumnHasValue(Sample)
  {
    TwoColumnsHaveValues("x", "y", 1.0, Missing, "a", "b");
  }

  /** Of the sample's four cells, one is missing. */
  lemma SampleMissingOne()
    ensures MissingByRows(Sample.rows) == 1
  {
    var r0, r1 := [Num(1.0), Text("a")], [Missing, Text("b")];
    assert Sample.rows[..1] == [r0] && [r0][..0] == [];
    CountMissingSnoc([Num(1.0)], Text("a"));
    CountMissingSnoc([Missing], Text("b"));
    assert r0 == [Num(1.0)] + [Text("a")] && r1 == [Missing] + [Text("b")];
    assert [Num(1.0)][..0] == [] && [Missing][..0] == [];
  }

  /** The sample is a table with one missing cell and a value in each column. */
  lemma SampleFacts()
    ensures WellFormed(Sample) && EveryColumnHasValue(Sample) && MissingByRows(Sample.rows) == 1
  {
    SampleHasValues();
    SampleMissingOne();
  }

  /** The sample has one missing cell, but its report says it had none. */
  lemma AsWrittenMisreportsSample()
    ensures WellFormed(Sample) && MissingByRows(Sample.rows) == 1
    ensures Lookup(ReportAsWritten(Sample, SampleOptions), MissingBefore) == Some(Count(0))
  {
    SampleFacts();
    AsWrittenBeforeIsZero(Sample, SampleOptions);
  }

  /** The intended report counts the missing cells of the upload itself, and
      agrees with the as-written one on every other key. */
  lemma IntendedCountsUpload(f: Frame, o: Options)
    requires WellFormed(f)
    ensures Lookup(ReportIntended(f, o), MissingBefore) == Some(Count(MissingByRows(f.rows)))
    ensures forall k :: 0 <= k < |Keys| && Keys[k] != MissingBefore ==> ReportIntended(f, o)[k] == ReportAsWritten(f, o)[k]
  {
    var c := Clean(f, o);
    ReportValues(f, c.table, c.encodedCount, c.duplicatesRemoved, c.outliersRemoved, Some(o.dropColumns));
    CallerKeepsShape(f, o);
    ReportIgnoresOriginalCells(f, CallerAfter(f, o), c.table, c.encodedCount, c.duplicatesRemoved, c.outliersRemoved, Some(o.dropColumns));
  }

  /** The click handler as app.py:73-89 writes it: clean_data on the upload,
      then the report on the same, now possibly modified, object. */
  method HandleClean(df: Table, o: Options) returns (cleaned: Table, report: seq<Entry>)
    requires df.Valid()
    modifies df
    ensures cleaned.Value() == Clean(old(df.Value()), o).table
    ensures report == ReportAsWritten(old(df.Value()), o)
    ensures df.Value() == CallerAfter(old(df.Value()), o)
  {
    var encodedCount, dupes, outliers;
    cleaned, encodedCount, dupes, outliers :=
      CleanData(df, o.dropColumns, o.doCleaning, o.doOutliers, o.doEncoding, o.iqrMultiplier);
    report := GenerateReport(df.Value(), cleaned.Value(), encodedCount, dupes, outliers, Some(o.dropColumns));
  }

  /** The handler with the upload's value taken before clean_data can write to it. */
  method HandleCleanCorrected(df: Table, o: Options) returns (cleaned: Table, report: seq<Entry>)
    requires df.Valid()
    modifies df
    ensures cleaned.Value() == Clean(old(df.Value()), o).table
    ensures report == ReportIntended(old(df.Value()), o)
    ensures df.Value() == CallerAfter(old(df.Value()), o)
  {
    var original := df.Value();
    var encodedCount, dupes, outliers;
    cleaned, encodedCount, dupes, outliers :=
      CleanData(df, o.dropColumns, o.doCleaning, o.doOutliers, o.doEncoding, o.iqrMultiplier);
    report := GenerateReport(original, cleaned.Value(), encodedCount, dupes, outliers, Some(o.dropColumns));
  }
}
