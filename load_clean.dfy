/** Stage 1, the event normaliser (1_load_clean.py): per-stay series become
    long (sample_id, hours, variable, value) rows, and the manifest becomes a
    label table keyed by `{split}_{row index}`. Files are values: the series
    files of a split are a map from path to frame, and "the file exists" is
    membership in that map. */
module LoadClean {
  import opened Wrappers
  import opened Strings
  import opened Seqs
  import opened Sorting
  import opened Tables

  datatype LoadError =
    | NoTimeColumn
    | NonNumericTime(column: string)
    | NoFilenameColumn
    | NoLabelColumns
    | BadFilename(row: nat)
    | SeriesNotFound(path: string)
    | MeltMissingArgument

  // ---------------------------------------------------------------------------
  // Time column and unit conversion
  // ---------------------------------------------------------------------------

  const TimeCandidates: seq<string> := ["Hours", "hours", "Time", "time", "Minutes", "minutes"]

  /** `_detect_time_column`: the first candidate, in preference order, that is a
      column of the series. */
  function DetectTimeColumn(columns: seq<string>): (r: Result<string, LoadError>)
    ensures r.Failure? <==> forall c :: c in TimeCandidates ==> c !in columns
    ensures r.Failure? ==> r.error == NoTimeColumn
    ensures r.Success? ==> r.value in columns
    ensures r.Success? ==> exists k :: 0 <= k < |TimeCandidates| && TimeCandidates[k] == r.value
                                       && forall j :: 0 <= j < k ==> TimeCandidates[j] !in columns
  {
    match FirstPresent(TimeCandidates, columns)
    case Some(k) => Success(TimeCandidates[k])
    case None => Failure(NoTimeColumn)
  }

  /** The unit test of `_to_hours`: "min" occurs in the lower-cased name. */
  predicate IsMinuteColumn(name: string) {
    Contains(Lower(name), "min")
  }

  /** One time value of column timeCol, in hours. */
  function HoursOf(timeCol: string, t: real): (h: real)
    ensures IsMinuteColumn(timeCol) ==> h * 60.0 == t
    ensures !IsMinuteColumn(timeCol) ==> h == t
  {
    if IsMinuteColumn(timeCol) then t / 60.0 else t
  }

  /** `_to_hours`: the time column's values converted to hours, elementwise. */
  function ToHours(timeCol: string, times: seq<real>): (r: seq<real>)
    ensures |r| == |times|
    ensures forall i :: 0 <= i < |r| ==> r[i] == HoursOf(timeCol, times[i])
  {
    seq(|times|, i requires 0 <= i < |times| => HoursOf(timeCol, times[i]))
  }

  /** Conversion to hours keeps the order of time values. */
  lemma HoursOfMonotone(timeCol: string, a: real, b: real)
    requires a <= b
    ensures HoursOf(timeCol, a) <= HoursOf(timeCol, b)
  {
  }

  lemma MinuteNamesAreMinutes()
    ensures IsMinuteColumn("Minutes") && IsMinuteColumn("minutes")
  {
    assert Lower("Minutes") == "minutes" && Lower("minutes") == "minutes";
    assert "minutes"[..3] == "min";
  }

  /** A name whose lower-cased form has no 'n' is no minute column. */
  lemma NoNNotMinute(c: string)
    requires 'n' !in Lower(c)
    ensures !IsMinuteColumn(c)
  {
    assert 'n' in "min";
    if Contains(Lower(c), "min") { ContainsChars(Lower(c), "min", 'n'); }
  }

  /** Of the six recognised time columns, exactly the two minute columns are
      divided by 60. */
  lemma MinuteCandidates()
    ensures forall c :: c in TimeCandidates ==> (IsMinuteColumn(c) <==> c == "Minutes" || c == "minutes")
  {
    MinuteNamesAreMinutes();
    assert Lower("Hours") == "hours" && Lower("hours") == "hours";
    assert Lower("Time") == "time" && Lower("time") == "time";
    NoNNotMinute("Hours");
    NoNNotMinute("hours");
    NoNNotMinute("Time");
    NoNNotMinute("time");
  }

  // ---------------------------------------------------------------------------
  // Manifest header: normalised names, filename column, label columns
  // ---------------------------------------------------------------------------

  /** One column name as `_read_listfile` renames it (`c.strip().lower()`):
      the name with the white space at both ends cut off, lower-cased; it has
      no surrounding white space and no upper-case letter. */
  function NormalizeColumn(c: string): (r: string)
    ensures exists i, j ::
              && 0 <= i <= j <= |c| && r == Lower(c[i..j])
              && forall k :: 0 <= k < i || j <= k < |c| ==> IsSpace(c[k])
    ensures Stripped(r)
    ensures forall k :: 0 <= k < |r| ==> !('A' <= r[k] <= 'Z')
  {
    var i := |c| - |TrimLeft(c)|;
    var j := i + |TrimRight(TrimLeft(c))|;
    TrimBothSlice(c, i, j);
    assert Lower(Strip(c)) == Lower(c[i..j]);
    LowerKeepsStripped(Strip(c));
    LowerHasNoUpper(Strip(c));
    Lower(Strip(c))
  }

  /** The column renaming of `_read_listfile`, name by name. */
  function NormalizeColumns(columns: seq<string>): (r: seq<string>)
    ensures |r| == |columns|
    ensures forall i :: 0 <= i < |r| ==> r[i] == NormalizeColumn(columns[i])
  {
    seq(|columns|, i requires 0 <= i < |columns| => NormalizeColumn(columns[i]))
  }

  /** Normalising already normalised names changes nothing. */
  lemma NormalizeColumnsIdempotent(columns: seq<string>)
    ensures NormalizeColumns(NormalizeColumns(columns)) == NormalizeColumns(columns)
  {
    var once := NormalizeColumns(columns);
    forall i | 0 <= i < |once|
      ensures NormalizeColumn(once[i]) == once[i]
    {
      StripOfStripped(once[i]);
      LowerIdempotent(Strip(columns[i]));
    }
  }

  /** First position of a name containing sub. */
  function FirstContaining(columns: seq<string>, sub: string): (r: Option<nat>)
    ensures r.None? <==> forall c :: c in columns ==> !Contains(c, sub)
    ensures r.Some? ==> r.value < |columns| && Contains(columns[r.value], sub)
    ensures r.Some? ==> forall j :: 0 <= j < r.value ==> !Contains(columns[j], sub)
  {
    if columns == [] then None
    else if Contains(columns[0], sub) then
      assert columns[0] in columns;
      Some(0)
    else
      assert columns == [columns[0]] + columns[1..];
      match FirstContaining(columns[1..], sub)
      case None => None
      case Some(k) =>
        assert columns[k + 1] == columns[1..][k] && columns[k + 1] in columns;
        Some(k + 1)
  }

  /** The filename-column step of process_split: keep a literal "filename"
      column, else rename (every occurrence of) the first name containing
      "file", else fail. */
  function ResolveFilenameColumn(columns: seq<string>): (r: Result<seq<string>, LoadError>)
    ensures "filename" in columns ==> r == Success(columns)
    ensures r.Failure? <==> "filename" !in columns && forall c :: c in columns ==> !Contains(c, "file")
    ensures r.Failure? ==> r.error == NoFilenameColumn
    ensures r.Success? ==> |r.value| == |columns| && "filename" in r.value
    ensures r.Success? && "filename" !in columns ==>
      exists k :: 0 <= k < |columns| && Contains(columns[k], "file")
        && (forall j :: 0 <= j < k ==> !Contains(columns[j], "file"))
        && (forall i :: 0 <= i < |columns| ==>
              r.value[i] == if columns[i] == columns[k] then "filename" else columns[i])
  {
    if "filename" in columns then Success(columns)
    else
      match FirstContaining(columns, "file")
      case None => Failure(NoFilenameColumn)
      case Some(k) =>
        var renamed := seq(|columns|, i requires 0 <= i < |columns| =>
          if columns[i] == columns[k] then "filename" else columns[i]);
        assert renamed[k] == "filename";
        Success(renamed)
  }

  const LabelExclude: set<string> :=
    {"stay", "stay_id", "subject_id", "hadm_id", "icustay_id", "filename", "time", "hours"}

  /** `_extract_labels_columns`: the non-identifier columns, in column order. */
  function ExtractLabelColumns(columns: seq<string>): (r: seq<string>)
    ensures forall c :: c in r ==> c in columns && c !in LabelExclude
    ensures forall c :: c in columns && c !in LabelExclude ==> c in r
    ensures Subseq(r, columns)
  {
    Without(columns, LabelExclude)
  }

  /** The manifest's resolved column names and its label columns. */
  datatype Header = Header(columns: seq<string>, labelCols: seq<string>)

  /** Lines 66-78 of process_split on the raw manifest header. */
  function ManifestHeader(raw: seq<string>): (r: Result<Header, LoadError>)
    ensures r.Success? ==>
              && ResolveFilenameColumn(NormalizeColumns(raw)).Success?
              && r.value.columns == ResolveFilenameColumn(NormalizeColumns(raw)).value
    ensures r.Success? ==> |r.value.columns| == |raw| && "filename" in r.value.columns
    ensures r.Success? ==> r.value.labelCols != [] && r.value.labelCols == ExtractLabelColumns(r.value.columns)
    ensures r.Failure? <==>
      ResolveFilenameColumn(NormalizeColumns(raw)).Failure?
      || ExtractLabelColumns(ResolveFilenameColumn(NormalizeColumns(raw)).value) == []
  {
    var columns :- ResolveFilenameColumn(NormalizeColumns(raw));
    var labelCols := ExtractLabelColumns(columns);
    if labelCols == [] then Failure(NoLabelColumns) else Success(Header(columns, labelCols))
  }

  // ---------------------------------------------------------------------------
  // Split discovery
  // ---------------------------------------------------------------------------

  const SplitNames: seq<string> := ["train", "val", "validation", "test"]

  /** `_find_splits`: the canonical split names whose listfile exists, each once,
      in canonical order. `hasListfile(name)` stands for the existence of
      `task_root/name/listfile.csv`. */
  method FindSplits(hasListfile: string -> bool) returns (order: seq<string>)
    ensures forall s :: s in order ==> s in SplitNames && hasListfile(s)
    ensures forall s :: s in SplitNames && hasListfile(s) ==> s in order
    ensures NoDup(order)
    ensures Subseq(order, SplitNames)
  {
    var found: seq<string> := [];
    for i := 0 to |SplitNames|
      invariant forall s :: s in found ==> s in SplitNames[..i] && hasListfile(s)
      invariant forall s :: s in SplitNames[..i] && hasListfile(s) ==> s in found
    {
      if hasListfile(SplitNames[i]) {
        found := found + [SplitNames[i]];
      }
      assert SplitNames[..i + 1] == SplitNames[..i] + [SplitNames[i]];
    }
    assert SplitNames[..|SplitNames|] == SplitNames;
    order := [];
    for i := 0 to |SplitNames|
      invariant forall s :: s in order ==> s in SplitNames[..i] && s in found
      invariant forall s :: s in SplitNames[..i] && s in found ==> s in order
      invariant NoDup(order)
      invariant Subseq(order, SplitNames[..i])
    {
      var name := SplitNames[i];
      assert SplitNames[..i + 1] == SplitNames[..i] + [name];
      if name in found && name !in order {
        SubseqAppendBoth(order, SplitNames[..i], name);
        order := order + [name];
      } else {
        SubseqExtend(order, SplitNames[..i], name);
      }
    }
  }

  // ---------------------------------------------------------------------------
  // Series file resolution
  // ---------------------------------------------------------------------------

  /** `os.path.join(a, b)` for POSIX paths. */
  function Join(a: string, b: string): string {
    if |b| > 0 && b[0] == '/' then b
    else if a == [] || a[|a| - 1] == '/' then a + b
    else a + "/" + b
  }

  /** `os.path.basename`: what follows the last '/'. */
  function Basename(p: string): (r: string)
    ensures '/' !in r
    ensures EndsWith(p, r)
    ensures '/' !in p ==> r == p
    ensures |r| == |p| || p[|p| - |r| - 1] == '/'
  {
    if p == [] then []
    else if p[|p| - 1] == '/' then []
    else
      var r := Basename(p[..|p| - 1]) + [p[|p| - 1]];
      assert p == p[..|p| - 1] + [p[|p| - 1]];
      r
  }

  /** Lines 87-94: split_dir/filename if it exists, else split_dir/basename(filename)
      if that exists, else a not-found error naming the first path. */
  function ResolveSeriesPath(splitDir: string, filename: string, isFile: string -> bool): (r: Result<string, LoadError>)
    ensures r.Success? ==> isFile(r.value)
    ensures isFile(Join(splitDir, filename)) ==> r == Success(Join(splitDir, filename))
    ensures !isFile(Join(splitDir, filename)) && r.Success? ==> r.value == Join(splitDir, Basename(filename))
    ensures r.Failure? <==> !isFile(Join(splitDir, filename)) && !isFile(Join(splitDir, Basename(filename)))
    ensures r.Failure? ==> r.error == SeriesNotFound(Join(splitDir, filename))
  {
    var primary := Join(splitDir, filename);
    if isFile(primary) then Success(primary)
    else
      var alt := Join(splitDir, Basename(filename));
      if isFile(alt) then Success(alt) else Failure(SeriesNotFound(primary))
  }

  /** The fallback only matters for manifest names with a directory part. */
  lemma FallbackNeedsDirectory(splitDir: string, filename: string, isFile: string -> bool)
    requires '/' !in filename
    ensures ResolveSeriesPath(splitDir, filename, isFile).Success? <==> isFile(Join(splitDir, filename))
  {
  }

  // ---------------------------------------------------------------------------
  // Sample ids
  // ---------------------------------------------------------------------------

  /** `f"{split}_{idx}"`. */
  function SampleId(split: string, idx: nat): string {
    split + "_" + NatToString(idx)
  }

  /** Within one split, distinct manifest rows get distinct sample ids. */
  lemma SampleIdInjective(split: string, i: nat, j: nat)
    requires SampleId(split, i) == SampleId(split, j)
    ensures i == j
  {
    var n := |split| + 1;
    assert NatToString(i) == SampleId(split, i)[n..];
    assert NatToString(j) == SampleId(split, j)[n..];
    NatToStringInjective(i, j);
  }

  /** The ids of rows 0..n-1 of a split are pairwise distinct. */
  lemma SampleIdsDistinct(split: string, ids: seq<string>)
    requires forall i :: 0 <= i < |ids| ==> ids[i] == SampleId(split, i)
    ensures NoDup(ids)
  {
    forall i, j | 0 <= i < j < |ids| ensures ids[i] != ids[j] {
      if ids[i] == ids[j] {
        SampleIdInjective(split, i, j);
      }
    }
  }

  /** Sample ids compare as strings, so row 10 sorts before row 2. */
  lemma SampleIdsSortAsText()
    ensures StrLt(SampleId("train", 10), SampleId("train", 2))
  {
    assert NatToString(10) == "10" && NatToString(2) == "2";
    var a, b := SampleId("train", 10), SampleId("train", 2);
    assert a == "train_10" && b == "train_2";
    assert a[6..] == "10" && b[6..] == "2";
    assert StrLt(a[6..], b[6..]);
    assert a[5..] == "_10" && b[5..] == "_2";
    assert StrLt(a[5..], b[5..]);
    assert a[4..] == "n_10" && b[4..] == "n_2";
    assert StrLt(a[4..], b[4..]);
    assert a[3..] == "in_10" && b[3..] == "in_2";
    assert StrLt(a[3..], b[3..]);
    assert a[2..] == "ain_10" && b[2..] == "ain_2";
    assert StrLt(a[2..], b[2..]);
    assert a[1..] == "rain_10" && b[1..] == "rain_2";
    assert StrLt(a[1..], b[1..]);
  }

  // ---------------------------------------------------------------------------
  // Melting a wide series into long rows
  // ---------------------------------------------------------------------------

  /** A melted row: (time value, variable name, numeric value). */
  datatype LongRow = LongRow(hours: real, variable: string, value: real)

  predicate TimesNumeric(f: Frame, k: nat)
    requires Rectangular(f) && k < |f.columns|
  {
    forall i :: 0 <= i < |f.rows| ==> f.rows[i][k].Num?
  }

  predicate TimesSorted(f: Frame, k: nat)
    requires Rectangular(f) && k < |f.columns| && TimesNumeric(f, k)
  {
    forall i, i' :: 0 <= i <= i' < |f.rows| ==> f.rows[i][k].x <= f.rows[i'][k].x
  }

  /** The cell at row i, column j survives `dropna` and `to_numeric`. */
  predicate Kept(f: Frame, i: nat, j: nat, parse: string -> Option<real>)
    requires Rectangular(f) && i < |f.rows| && j < |f.columns|
  {
    Coerce(f.rows[i][j], parse).Some?
  }

  /** The position (row, column) of a cell in the wide frame. */
  datatype Origin = Origin(row: nat, col: nat)

  /** Column-major order: by column, then by row. */
  predicate Before(a: Origin, b: Origin) {
    a.col < b.col || (a.col == b.col && a.row < b.row)
  }

  predicate ColumnMajor(o: seq<Origin>) {
    forall a, b :: 0 <= a < b < |o| ==> Before(o[a], o[b])
  }

  /** The cells of column j among rows 0..m-1 that melt keeps, top to bottom. */
  function KeptCells(f: Frame, j: nat, parse: string -> Option<real>, m: nat): (o: seq<Origin>)
    requires Rectangular(f) && j < |f.columns| && m <= |f.rows|
    ensures forall a :: 0 <= a < |o| ==> o[a].col == j && o[a].row < m && Kept(f, o[a].row, j, parse)
    ensures forall i :: 0 <= i < m && Kept(f, i, j, parse) ==> Origin(i, j) in o
    ensures ColumnMajor(o)
    ensures |o| <= m
  {
    if m == 0 then []
    else
      var p := KeptCells(f, j, parse, m - 1);
      if Kept(f, m - 1, j, parse) then p + [Origin(m - 1, j)] else p
  }

  /** The number of columns below n other than column k. */
  function ValueColumnsBelow(k: nat, n: nat): nat {
    if k < n then n - 1 else n
  }

  /** The cells melt keeps among columns 0..n-1 other than the time column k:
      `value_vars` in column order, each column top to bottom. */
  function MeltOrigins(f: Frame, k: nat, parse: string -> Option<real>, n: nat): (o: seq<Origin>)
    requires Rectangular(f) && n <= |f.columns|
    ensures forall a :: 0 <= a < |o| ==>
      o[a].col < n && o[a].col != k && o[a].row < |f.rows| && Kept(f, o[a].row, o[a].col, parse)
    ensures ColumnMajor(o)
  {
    if n == 0 then []
    else if n - 1 == k then MeltOrigins(f, k, parse, n - 1)
    else
      var p := MeltOrigins(f, k, parse, n - 1);
      var c := KeptCells(f, n - 1, parse, |f.rows|);
      var o := p + c;
      assert ColumnMajor(o) by {
        forall a, b | 0 <= a < b < |o| ensures Before(o[a], o[b]) {
          if b < |p| { assert o[a] == p[a] && o[b] == p[b]; }
          else if a >= |p| { assert o[a] == c[a - |p|] && o[b] == c[b - |p|]; }
          else { assert o[a] == p[a] && o[b] == c[b - |p|]; }
        }
      }
      o
  }

  lemma {:induction false} MeltOriginsBound(f: Frame, k: nat, parse: string -> Option<real>, n: nat)
    requires Rectangular(f) && n <= |f.columns|
    ensures |MeltOrigins(f, k, parse, n)| <= ValueColumnsBelow(k, n) * |f.rows|
  {
    if n > 0 {
      MeltOriginsBound(f, k, parse, n - 1);
      if n - 1 != k {
        assert ValueColumnsBelow(k, n) == ValueColumnsBelow(k, n - 1) + 1;
        assert ValueColumnsBelow(k, n) * |f.rows| == ValueColumnsBelow(k, n - 1) * |f.rows| + |f.rows|;
      }
    }
  }

  /** Every kept cell outside the time column is among the origins. */
  lemma {:induction false} MeltOriginsComplete(f: Frame, k: nat, parse: string -> Option<real>, n: nat)
    requires Rectangular(f) && n <= |f.columns|
    ensures forall i, j :: 0 <= i < |f.rows| && 0 <= j < n && j != k && Kept(f, i, j, parse) ==>
      Origin(i, j) in MeltOrigins(f, k, parse, n)
  {
    if n > 0 {
      MeltOriginsComplete(f, k, parse, n - 1);
      if n - 1 != k {
        var p := MeltOrigins(f, k, parse, n - 1);
        var c := KeptCells(f, n - 1, parse, |f.rows|);
        forall i, j | 0 <= i < |f.rows| && 0 <= j < n && j != k && Kept(f, i, j, parse)
          ensures Origin(i, j) in p + c
        {
          if j < n - 1 { assert Origin(i, j) in p; } else { assert Origin(i, j) in c; }
        }
      }
    }
  }

  /** The long row melt emits for a kept cell. */
  function MeltRow(f: Frame, k: nat, c: Origin, parse: string -> Option<real>): LongRow
    requires Rectangular(f) && k < |f.columns| && TimesNumeric(f, k)
    requires c.row < |f.rows| && c.col < |f.columns| && Kept(f, c.row, c.col, parse)
  {
    LongRow(f.rows[c.row][k].x, f.columns[c.col], Coerce(f.rows[c.row][c.col], parse).value)
  }

  /** `_melt_long(df, time_col)`: one (time, column, value) row for each cell of
      a non-time column whose value is present and numeric, column by column
      and then row by row; the time column's values are carried unchanged. */
  function MeltLong(f: Frame, timeCol: string, parse: string -> Option<real>): (r: seq<LongRow>)
    requires WellFormed(f) && timeCol in f.columns && TimesNumeric(f, IndexOf(f.columns, timeCol))
    ensures |r| <= (|f.columns| - 1) * |f.rows|
    ensures var k := IndexOf(f.columns, timeCol); var o := MeltOrigins(f, k, parse, |f.columns|);
      |r| == |o| && forall a :: 0 <= a < |r| ==> r[a] == MeltRow(f, k, o[a], parse)
  {
    var k := IndexOf(f.columns, timeCol);
    var o := MeltOrigins(f, k, parse, |f.columns|);
    MeltOriginsBound(f, k, parse, |f.columns|);
    MeltRows(f, k, o, parse)
  }

  /** The long rows of the given kept cells, in the given order. */
  function MeltRows(f: Frame, k: nat, o: seq<Origin>, parse: string -> Option<real>): (r: seq<LongRow>)
    requires Rectangular(f) && k < |f.columns| && TimesNumeric(f, k)
    requires forall a :: 0 <= a < |o| ==> o[a].row < |f.rows| && o[a].col < |f.columns| && Kept(f, o[a].row, o[a].col, parse)
    ensures |r| == |o|
    ensures forall a :: 0 <= a < |o| ==> r[a] == MeltRow(f, k, o[a], parse)
  {
    if o == [] then []
    else MeltRows(f, k, o[..|o| - 1], parse) + [MeltRow(f, k, o[|o| - 1], parse)]
  }

  /** Melt output names only non-time columns of the frame. */
  lemma MeltVariables(f: Frame, timeCol: string, parse: string -> Option<real>)
    requires WellFormed(f) && timeCol in f.columns && TimesNumeric(f, IndexOf(f.columns, timeCol))
    ensures var r := MeltLong(f, timeCol, parse);
      forall a :: 0 <= a < |r| ==> r[a].variable in f.columns && r[a].variable != timeCol
  {
    var k := IndexOf(f.columns, timeCol);
    var o := MeltOrigins(f, k, parse, |f.columns|);
    var r := MeltLong(f, timeCol, parse);
    forall a | 0 <= a < |r| ensures r[a].variable in f.columns && r[a].variable != timeCol {
      assert f.columns[o[a].col] != f.columns[k];
    }
  }

  /** Every present, numeric cell of a non-time column is melted. */
  lemma MeltComplete(f: Frame, timeCol: string, parse: string -> Option<real>)
    requires WellFormed(f) && timeCol in f.columns && TimesNumeric(f, IndexOf(f.columns, timeCol))
    ensures var k := IndexOf(f.columns, timeCol);
      forall i, j :: 0 <= i < |f.rows| && 0 <= j < |f.columns| && j != k && Kept(f, i, j, parse) ==>
        MeltRow(f, k, Origin(i, j), parse) in MeltLong(f, timeCol, parse)
  {
    var k := IndexOf(f.columns, timeCol);
    var o := MeltOrigins(f, k, parse, |f.columns|);
    var r := MeltLong(f, timeCol, parse);
    MeltOriginsComplete(f, k, parse, |f.columns|);
    forall i, j | 0 <= i < |f.rows| && 0 <= j < |f.columns| && j != k && Kept(f, i, j, parse)
      ensures MeltRow(f, k, Origin(i, j), parse) in r
    {
      var a :| 0 <= a < |o| && o[a] == Origin(i, j);
      assert r[a] == MeltRow(f, k, Origin(i, j), parse);
    }
  }

  /** The position in the melt output of a kept cell outside the time column. */
  lemma MeltCellIndex(f: Frame, timeCol: string, parse: string -> Option<real>, i: nat, j: nat) returns (a: nat)
    requires WellFormed(f) && timeCol in f.columns && TimesNumeric(f, IndexOf(f.columns, timeCol))
    requires i < |f.rows| && j < |f.columns| && j != IndexOf(f.columns, timeCol) && Kept(f, i, j, parse)
    ensures a < |MeltLong(f, timeCol, parse)|
    ensures MeltLong(f, timeCol, parse)[a] == MeltRow(f, IndexOf(f.columns, timeCol), Origin(i, j), parse)
  {
    MeltComplete(f, timeCol, parse);
    var r := MeltLong(f, timeCol, parse);
    a :| 0 <= a < |r| && r[a] == MeltRow(f, IndexOf(f.columns, timeCol), Origin(i, j), parse);
  }

  /** When the rows are in time order, each variable's rows come out in time
      order. */
  lemma MeltChronologicalPerVariable(f: Frame, timeCol: string, parse: string -> Option<real>)
    requires WellFormed(f) && timeCol in f.columns && TimesNumeric(f, IndexOf(f.columns, timeCol))
    requires TimesSorted(f, IndexOf(f.columns, timeCol))
    ensures var r := MeltLong(f, timeCol, parse);
      forall a, b :: 0 <= a < b < |r| && r[a].variable == r[b].variable ==> r[a].hours <= r[b].hours
  {
    var k := IndexOf(f.columns, timeCol);
    var o := MeltOrigins(f, k, parse, |f.columns|);
    var r := MeltLong(f, timeCol, parse);
    forall a, b | 0 <= a < b < |r| && r[a].variable == r[b].variable
      ensures r[a].hours <= r[b].hours
    {
      assert Before(o[a], o[b]);
      assert f.columns[o[a].col] == f.columns[o[b].col];
    }
  }

  /** The output as a whole is column-major: a later row never names an earlier
      column of the frame. */
  lemma MeltColumnMajor(f: Frame, timeCol: string, parse: string -> Option<real>)
    requires WellFormed(f) && timeCol in f.columns && TimesNumeric(f, IndexOf(f.columns, timeCol))
    ensures var r := MeltLong(f, timeCol, parse);
      forall a, b :: 0 <= a < b < |r| ==>
        r[a].variable in f.columns && r[b].variable in f.columns &&
        IndexOf(f.columns, r[a].variable) <= IndexOf(f.columns, r[b].variable)
  {
    var k := IndexOf(f.columns, timeCol);
    var o := MeltOrigins(f, k, parse, |f.columns|);
    var r := MeltLong(f, timeCol, parse);
    forall a, b | 0 <= a < b < |r|
      ensures r[a].variable in f.columns && r[b].variable in f.columns
      ensures IndexOf(f.columns, r[a].variable) <= IndexOf(f.columns, r[b].variable)
    {
      assert Before(o[a], o[b]);
      IndexOfNoDup(f.columns, o[a].col);
      IndexOfNoDup(f.columns, o[b].col);
    }
  }

  /** Two variables, "a" and "b", observed at hours 0 and 1. */
  const TwoVariables: Frame := Frame(["hours", "a", "b"], [[Num(0.0), Num(5.0), Num(7.0)], [Num(1.0), Num(6.0), Num(8.0)]])

  /** A column whose first m cells are all kept contributes every one of them. */
  lemma {:induction false} KeptCellsAll(f: Frame, j: nat, parse: string -> Option<real>, m: nat)
    requires Rectangular(f) && j < |f.columns| && m <= |f.rows|
    requires forall i :: 0 <= i < m ==> Kept(f, i, j, parse)
    ensures |KeptCells(f, j, parse, m)| == m
    ensures forall i :: 0 <= i < m ==> KeptCells(f, j, parse, m)[i] == Origin(i, j)
  {
    if m > 0 {
      var p := KeptCells(f, j, parse, m - 1);
      KeptCellsAll(f, j, parse, m - 1);
      assert Kept(f, m - 1, j, parse);
      assert KeptCells(f, j, parse, m) == p + [Origin(m - 1, j)];
    }
  }

  lemma TwoVariablesOrigins(parse: string -> Option<real>)
    ensures MeltOrigins(TwoVariables, 0, parse, 3) == [Origin(0, 1), Origin(1, 1), Origin(0, 2), Origin(1, 2)]
  {
    var f := TwoVariables;
    assert Rectangular(f);
    var a := KeptCells(f, 1, parse, 2);
    var b := KeptCells(f, 2, parse, 2);
    assert a == [Origin(0, 1), Origin(1, 1)] by {
      KeptCellsAll(f, 1, parse, 2);
    }
    assert b == [Origin(0, 2), Origin(1, 2)] by {
      KeptCellsAll(f, 2, parse, 2);
    }
    assert MeltOrigins(f, 0, parse, 1) == [];
    assert MeltOrigins(f, 0, parse, 2) == a;
    assert MeltOrigins(f, 0, parse, 3) == a + b;
  }

  lemma TwoVariablesShape()
    ensures WellFormed(TwoVariables) && "hours" in TwoVariables.columns
    ensures IndexOf(TwoVariables.columns, "hours") == 0 && TimesNumeric(TwoVariables, 0)
  {
    assert IndexOf(TwoVariables.columns, "hours") == 0;
  }

  /** The long rows of the cells (0, 1), (1, 1), (0, 2), (1, 2) of TwoVariables. */
  lemma TwoVariablesRows(parse: string -> Option<real>)
    ensures Rectangular(TwoVariables) && TimesNumeric(TwoVariables, 0)
    ensures Kept(TwoVariables, 0, 1, parse) && Kept(TwoVariables, 1, 1, parse)
    ensures Kept(TwoVariables, 0, 2, parse) && Kept(TwoVariables, 1, 2, parse)
    ensures MeltRow(TwoVariables, 0, Origin(0, 1), parse) == LongRow(0.0, "a", 5.0)
    ensures MeltRow(TwoVariables, 0, Origin(1, 1), parse) == LongRow(1.0, "a", 6.0)
    ensures MeltRow(TwoVariables, 0, Origin(0, 2), parse) == LongRow(0.0, "b", 7.0)
    ensures MeltRow(TwoVariables, 0, Origin(1, 2), parse) == LongRow(1.0, "b", 8.0)
  {
  }

  /** TwoVariables melts to hours 0, 1, 0, 1: the output is not in time order
      within a sample. */
  lemma MeltIsColumnMajor(parse: string -> Option<real>)
    ensures MeltLong(TwoVariables, "hours", parse)
      == [LongRow(0.0, "a", 5.0), LongRow(1.0, "a", 6.0), LongRow(0.0, "b", 7.0), LongRow(1.0, "b", 8.0)]
  {
    TwoVariablesShape();
    TwoVariablesOrigins(parse);
    TwoVariablesRows(parse);
    var r := MeltLong(TwoVariables, "hours", parse);
    assert r == [r[0], r[1], r[2], r[3]];
  }

  // ---------------------------------------------------------------------------
  // Cleaning one series
  // ---------------------------------------------------------------------------

  /** The time value of a row, for ordering; non-numeric cells never reach a
      sort because CleanSample rejects them first. */
  function TimeCell(row: seq<Cell>, k: nat): real {
    if k < |row| && row[k].Num? then row[k].x else 0.0
  }

  /** The key `sort_values(by=time_col)` orders rows by. */
  function TimeKey(k: nat): seq<Cell> -> SortKey {
    row => SortKey("", TimeCell(row, k))
  }

  lemma SortedByTime(rows: seq<seq<Cell>>, k: nat)
    requires SortedBy(rows, TimeKey(k))
    ensures forall i, i' :: 0 <= i <= i' < |rows| ==> TimeCell(rows[i], k) <= TimeCell(rows[i'], k)
  {
    forall i, i' | 0 <= i <= i' < |rows| ensures TimeCell(rows[i], k) <= TimeCell(rows[i'], k) {
      if i < i' {
        assert KeyLe(TimeKey(k)(rows[i]), TimeKey(k)(rows[i']));
      }
    }
  }

  /** Every element of a permutation is an element of the original. */
  lemma PermutedMembers<T>(a: seq<T>, b: seq<T>)
    requires multiset(a) == multiset(b)
    ensures forall i :: 0 <= i < |b| ==> b[i] in a
    ensures forall i :: 0 <= i < |a| ==> a[i] in b
  {
    forall i | 0 <= i < |b| ensures b[i] in a { assert b[i] in multiset(a); }
    forall i | 0 <= i < |a| ensures a[i] in b { assert a[i] in multiset(b); }
  }

  /** Line 102: the columns melted against the time column. */
  function MeltedColumns(columns: seq<string>, timeCol: string): (r: seq<string>)
    ensures forall c :: c in r ==> c in columns && c != timeCol && c != "hours"
    ensures forall c :: c in columns && c != timeCol && c != "hours" ==> c in r
    ensures NoDup(columns) ==> NoDup(r)
  {
    Without(columns, {timeCol, "hours"})
  }

  /** One row of `df[[time_col] + value_vars]`: the time cell, then the cells
      of the melted columns in column order. */
  function WideRow(columns: seq<string>, row: seq<Cell>, timeCol: string): (r: seq<Cell>)
    requires NoDup(columns) && timeCol in columns && |row| == |columns|
    ensures |r| == 1 + |MeltedColumns(columns, timeCol)|
    ensures r[0] == row[IndexOf(columns, timeCol)]
    ensures forall j :: 0 < j < |r| ==> r[j] == row[IndexOf(columns, MeltedColumns(columns, timeCol)[j - 1])]
  {
    [row[IndexOf(columns, timeCol)]] + Project(row, columns, MeltedColumns(columns, timeCol))
  }

  /** Line 103: the time column followed by the melted columns. */
  function WideFrame(columns: seq<string>, rows: seq<seq<Cell>>, timeCol: string): (w: Frame)
    requires NoDup(columns) && timeCol in columns
    requires forall i :: 0 <= i < |rows| ==> |rows[i]| == |columns|
    ensures WellFormed(w) && |w.rows| == |rows|
    ensures w.columns == [timeCol] + MeltedColumns(columns, timeCol)
    ensures forall i :: 0 <= i < |rows| ==> w.rows[i][0] == rows[i][IndexOf(columns, timeCol)]
    ensures forall i, j :: 0 <= i < |rows| && 0 < j < |w.columns| ==>
      w.columns[j] in columns && w.rows[i][j] == rows[i][IndexOf(columns, w.columns[j])]
  {
    var cols := MeltedColumns(columns, timeCol);
    var w := Frame([timeCol] + cols, WideRows(columns, rows, timeCol));
    assert forall j :: 0 < j < |w.columns| ==> w.columns[j] == cols[j - 1];
    w
  }

  function WideRows(columns: seq<string>, rows: seq<seq<Cell>>, timeCol: string): (r: seq<seq<Cell>>)
    requires NoDup(columns) && timeCol in columns
    requires forall i :: 0 <= i < |rows| ==> |rows[i]| == |columns|
    ensures |r| == |rows|
    ensures forall i :: 0 <= i < |rows| ==> r[i] == WideRow(columns, rows[i], timeCol)
    decreases |rows|
  {
    if rows == [] then []
    else WideRows(columns, rows[..|rows| - 1], timeCol) + [WideRow(columns, rows[|rows| - 1], timeCol)]
  }

  /** Lines 97-103: the rows sorted by the time column, cut down to the time
      column and the melted columns. */
  function SeriesWide(ts: Frame, timeCol: string): (w: Frame)
    requires WellFormed(ts) && timeCol in ts.columns
    ensures WellFormed(w) && |w.rows| == |ts.rows|
    ensures w.columns == [timeCol] + MeltedColumns(ts.columns, timeCol)
  {
    var sorted := SortBy(ts.rows, TimeKey(IndexOf(ts.columns, timeCol)));
    PermutedMembers(ts.rows, sorted);
    WideFrame(ts.columns, sorted, timeCol)
  }

  /** The sorted rows behind SeriesWide: a permutation of the series' rows, in
      time order, from which the wide frame takes its cells. */
  lemma SeriesWideRows(ts: Frame, timeCol: string)
    requires WellFormed(ts) && timeCol in ts.columns
    ensures var k := IndexOf(ts.columns, timeCol); var sorted := SortBy(ts.rows, TimeKey(k));
      multiset(sorted) == multiset(ts.rows)
      && (forall i, i' :: 0 <= i <= i' < |sorted| ==> TimeCell(sorted[i], k) <= TimeCell(sorted[i'], k))
      && (forall i :: 0 <= i < |sorted| ==> sorted[i] in ts.rows)
      && (forall i :: 0 <= i < |sorted| ==> |sorted[i]| == |ts.columns|)
      && SeriesWide(ts, timeCol) == WideFrame(ts.columns, sorted, timeCol)
  {
    var k := IndexOf(ts.columns, timeCol);
    var sorted := SortBy(ts.rows, TimeKey(k));
    PermutedMembers(ts.rows, sorted);
    SortedByTime(sorted, k);
  }

  /** With numeric times, the wide frame's time column is numeric and in order. */
  lemma SeriesWideTimes(ts: Frame, timeCol: string)
    requires WellFormed(ts) && timeCol in ts.columns && TimesNumeric(ts, IndexOf(ts.columns, timeCol))
    ensures var w := SeriesWide(ts, timeCol); TimesNumeric(w, 0) && TimesSorted(w, 0)
  {
    var k := IndexOf(ts.columns, timeCol);
    var w := SeriesWide(ts, timeCol);
    var sorted := SortBy(ts.rows, TimeKey(k));
    SeriesWideRows(ts, timeCol);
    forall i | 0 <= i < |w.rows| ensures w.rows[i][0].Num? && TimeCell(sorted[i], k) == w.rows[i][0].x {
      var i' :| 0 <= i' < |ts.rows| && ts.rows[i'] == sorted[i];
    }
  }

  /** A melted series: the detected time column and the long rows, whose
      times are still in the time column's own unit. */
  datatype Melted = Melted(timeCol: string, rows: seq<LongRow>)

  /** Lines 96-104 with the time column passed on to the melt. */
  function MeltSeries(ts: Frame, parse: string -> Option<real>): (r: Result<Melted, LoadError>)
    requires WellFormed(ts)
    ensures DetectTimeColumn(ts.columns).Failure? ==> r == Failure(NoTimeColumn)
    ensures DetectTimeColumn(ts.columns).Success? ==>
      var timeCol := DetectTimeColumn(ts.columns).value;
      (r.Failure? <==> !TimesNumeric(ts, IndexOf(ts.columns, timeCol)))
      && (r.Failure? ==> r.error == NonNumericTime(timeCol))
      && (r.Success? ==> r.value.timeCol == timeCol)
  {
    var timeCol :- DetectTimeColumn(ts.columns);
    if !TimesNumeric(ts, IndexOf(ts.columns, timeCol)) then Failure(NonNumericTime(timeCol))
    else
      var w := SeriesWide(ts, timeCol);
      SeriesWideRows(ts, timeCol);
      assert IndexOf(w.columns, timeCol) == 0;
      assert TimesNumeric(w, 0) by {
        forall i | 0 <= i < |w.rows| ensures w.rows[i][0].Num? {
          var row := SortBy(ts.rows, TimeKey(IndexOf(ts.columns, timeCol)))[i];
          var i' :| 0 <= i' < |ts.rows| && ts.rows[i'] == row;
        }
      }
      Success(Melted(timeCol, MeltLong(w, timeCol, parse)))
  }

  /** Lines 96-111 with the time converted to hours: the sample's events. */
  function CleanSample(ts: Frame, sampleId: string, parse: string -> Option<real>): (r: Result<seq<CleanEvent>, LoadError>)
    requires WellFormed(ts)
    ensures r.Failure? <==> MeltSeries(ts, parse).Failure?
    ensures r.Failure? ==> r.error == MeltSeries(ts, parse).error
    ensures r.Success? ==> forall a :: 0 <= a < |r.value| ==> r.value[a].sampleId == sampleId
  {
    var m :- MeltSeries(ts, parse);
    Success(TimedEvents(sampleId, m.timeCol, m.rows))
  }

  /** Lines 107-111 on melted rows: the sample id added, the time in hours. */
  function TimedEvents(sampleId: string, timeCol: string, rows: seq<LongRow>): (r: seq<CleanEvent>)
    ensures |r| == |rows|
    ensures forall a :: 0 <= a < |rows| ==>
      r[a] == CleanEvent(sampleId, HoursOf(timeCol, rows[a].hours), rows[a].variable, rows[a].value)
  {
    if rows == [] then []
    else
      var last := rows[|rows| - 1];
      TimedEvents(sampleId, timeCol, rows[..|rows| - 1]) + [CleanEvent(sampleId, HoursOf(timeCol, last.hours), last.variable, last.value)]
  }

  /** Row i of the series records e.value under column e.variable, at a time
      that e.hours expresses in hours. */
  predicate ObservedAt(ts: Frame, timeCol: string, i: nat, e: CleanEvent, parse: string -> Option<real>)
    requires WellFormed(ts) && timeCol in ts.columns
  {
    i < |ts.rows| && e.variable in ts.columns
    && ts.rows[i][IndexOf(ts.columns, timeCol)].Num?
    && e.hours == HoursOf(timeCol, ts.rows[i][IndexOf(ts.columns, timeCol)].x)
    && Coerce(ts.rows[i][IndexOf(ts.columns, e.variable)], parse) == Some(e.value)
  }

  /** The wide-frame cell that long row a of a melt came from. */
  lemma MeltLongOrigin(w: Frame, timeCol: string, parse: string -> Option<real>, a: nat) returns (c: Origin)
    requires WellFormed(w) && timeCol in w.columns && IndexOf(w.columns, timeCol) == 0 && TimesNumeric(w, 0)
    requires a < |MeltLong(w, timeCol, parse)|
    ensures c.row < |w.rows| && 0 < c.col < |w.columns| && Kept(w, c.row, c.col, parse)
    ensures MeltLong(w, timeCol, parse)[a] == MeltRow(w, 0, c, parse)
  {
    c := MeltOrigins(w, 0, parse, |w.columns|)[a];
  }

  /** The series row behind row r of the wide frame, cell for cell. */
  lemma WideRowSource(ts: Frame, timeCol: string, r: nat) returns (i: nat)
    requires WellFormed(ts) && timeCol in ts.columns && r < |SeriesWide(ts, timeCol).rows|
    ensures var w := SeriesWide(ts, timeCol);
      i < |ts.rows| && w.rows[r][0] == ts.rows[i][IndexOf(ts.columns, timeCol)]
      && forall j :: 0 < j < |w.columns| ==> w.rows[r][j] == ts.rows[i][IndexOf(ts.columns, w.columns[j])]
  {
    var sorted := SortBy(ts.rows, TimeKey(IndexOf(ts.columns, timeCol)));
    SeriesWideRows(ts, timeCol);
    i :| 0 <= i < |ts.rows| && ts.rows[i] == sorted[r];
  }

  /** The series row that event a of a cleaned sample was melted from. */
  lemma CleanSampleEvent(ts: Frame, sampleId: string, parse: string -> Option<real>, a: nat) returns (i: nat)
    requires WellFormed(ts) && CleanSample(ts, sampleId, parse).Success?
    requires a < |CleanSample(ts, sampleId, parse).value|
    ensures var timeCol := DetectTimeColumn(ts.columns).value; var e := CleanSample(ts, sampleId, parse).value[a];
      e.variable in MeltedColumns(ts.columns, timeCol) && ObservedAt(ts, timeCol, i, e, parse)
  {
    var timeCol := DetectTimeColumn(ts.columns).value;
    var w := SeriesWide(ts, timeCol);
    var m := MeltSeries(ts, parse).value;
    MeltSeriesRows(ts, parse);
    var c := MeltLongOrigin(w, timeCol, parse, a);
    i := WideRowSource(ts, timeCol, c.row);
    assert w.columns[c.col] == MeltedColumns(ts.columns, timeCol)[c.col - 1];
  }

  /** Every event of a cleaned sample is an observation of the series, under a
      melted column, with its time in hours. */
  lemma CleanSampleSound(ts: Frame, sampleId: string, parse: string -> Option<real>)
    requires WellFormed(ts) && CleanSample(ts, sampleId, parse).Success?
    ensures var timeCol := DetectTimeColumn(ts.columns).value; var events := CleanSample(ts, sampleId, parse).value;
      forall a :: 0 <= a < |events| ==>
        events[a].variable in MeltedColumns(ts.columns, timeCol)
        && exists i :: ObservedAt(ts, timeCol, i, events[a], parse)
  {
    var timeCol := DetectTimeColumn(ts.columns).value;
    var events := CleanSample(ts, sampleId, parse).value;
    forall a | 0 <= a < |events|
      ensures events[a].variable in MeltedColumns(ts.columns, timeCol)
      ensures exists i :: ObservedAt(ts, timeCol, i, events[a], parse)
    {
      var i := CleanSampleEvent(ts, sampleId, parse, a);
    }
  }

  /** The event CleanSample emits for a kept cell (row i, column c) of the series. */
  function EventOf(ts: Frame, sampleId: string, timeCol: string, i: nat, c: string, parse: string -> Option<real>): CleanEvent
    requires WellFormed(ts) && timeCol in ts.columns && c in ts.columns && i < |ts.rows|
    requires ts.rows[i][IndexOf(ts.columns, timeCol)].Num? && Coerce(ts.rows[i][IndexOf(ts.columns, c)], parse).Some?
  {
    CleanEvent(sampleId, HoursOf(timeCol, ts.rows[i][IndexOf(ts.columns, timeCol)].x), c,
      Coerce(ts.rows[i][IndexOf(ts.columns, c)], parse).value)
  }

  /** The wide row that row i of the series was sorted to. */
  lemma WideRowOf(ts: Frame, timeCol: string, i: nat) returns (r: nat)
    requires WellFormed(ts) && timeCol in ts.columns && i < |ts.rows|
    ensures var w := SeriesWide(ts, timeCol);
      r < |w.rows| && w.rows[r][0] == ts.rows[i][IndexOf(ts.columns, timeCol)]
      && forall j :: 0 < j < |w.columns| ==> w.rows[r][j] == ts.rows[i][IndexOf(ts.columns, w.columns[j])]
  {
    var sorted := SortBy(ts.rows, TimeKey(IndexOf(ts.columns, timeCol)));
    SeriesWideRows(ts, timeCol);
    assert ts.rows[i] in multiset(sorted);
    r :| 0 <= r < |sorted| && sorted[r] == ts.rows[i];
  }

  /** The melt of a successful series is the melt of its wide frame, whose
      time column comes first. */
  lemma MeltSeriesRows(ts: Frame, parse: string -> Option<real>)
    requires WellFormed(ts) && MeltSeries(ts, parse).Success?
    ensures var timeCol := DetectTimeColumn(ts.columns).value; var w := SeriesWide(ts, timeCol);
      MeltSeries(ts, parse).value.timeCol == timeCol
      && IndexOf(w.columns, timeCol) == 0 && TimesNumeric(w, 0)
      && MeltSeries(ts, parse).value.rows == MeltLong(w, timeCol, parse)
  {
    var timeCol := DetectTimeColumn(ts.columns).value;
    SeriesWideTimes(ts, timeCol);
  }

  lemma CleanSampleCell(ts: Frame, sampleId: string, parse: string -> Option<real>, i: nat, c: string)
    requires WellFormed(ts) && CleanSample(ts, sampleId, parse).Success?
    requires i < |ts.rows| && c in MeltedColumns(ts.columns, DetectTimeColumn(ts.columns).value)
    requires Coerce(ts.rows[i][IndexOf(ts.columns, c)], parse).Some?
    ensures var timeCol := DetectTimeColumn(ts.columns).value;
      ts.rows[i][IndexOf(ts.columns, timeCol)].Num?
      && EventOf(ts, sampleId, timeCol, i, c, parse) in CleanSample(ts, sampleId, parse).value
  {
    var timeCol := DetectTimeColumn(ts.columns).value;
    var events := CleanSample(ts, sampleId, parse).value;
    var w := SeriesWide(ts, timeCol);
    MeltSeriesRows(ts, parse);
    var m := MeltSeries(ts, parse).value;
    var r := WideRowOf(ts, timeCol, i);
    var cols := MeltedColumns(ts.columns, timeCol);
    var j := 1 + IndexOf(cols, c);
    assert w.columns[j] == c;
    assert Kept(w, r, j, parse);
    var a := MeltCellIndex(w, timeCol, parse, r, j);
    var e := MeltRow(w, 0, Origin(r, j), parse);
    assert m.rows[a] == e;
    assert events[a] == CleanEvent(sampleId, HoursOf(timeCol, e.hours), e.variable, e.value);
    assert events[a] == EventOf(ts, sampleId, timeCol, i, c, parse);
  }

  /** Every present, numeric cell of a melted column becomes an event. */
  lemma CleanSampleComplete(ts: Frame, sampleId: string, parse: string -> Option<real>)
    requires WellFormed(ts) && CleanSample(ts, sampleId, parse).Success?
    ensures var timeCol := DetectTimeColumn(ts.columns).value;
      forall i, c ::
        (0 <= i < |ts.rows| && c in MeltedColumns(ts.columns, timeCol)
         && Coerce(ts.rows[i][IndexOf(ts.columns, c)], parse).Some?) ==>
          ts.rows[i][IndexOf(ts.columns, timeCol)].Num?
          && EventOf(ts, sampleId, timeCol, i, c, parse) in CleanSample(ts, sampleId, parse).value
  {
    var timeCol := DetectTimeColumn(ts.columns).value;
    forall i, c | 0 <= i < |ts.rows| && c in MeltedColumns(ts.columns, timeCol)
        && Coerce(ts.rows[i][IndexOf(ts.columns, c)], parse).Some?
      ensures ts.rows[i][IndexOf(ts.columns, timeCol)].Num?
      ensures EventOf(ts, sampleId, timeCol, i, c, parse) in CleanSample(ts, sampleId, parse).value
    {
      CleanSampleCell(ts, sampleId, parse, i, c);
    }
  }

  /** Each variable's events come out in time order. */
  lemma CleanSampleChronological(ts: Frame, sampleId: string, parse: string -> Option<real>)
    requires WellFormed(ts) && CleanSample(ts, sampleId, parse).Success?
    ensures var events := CleanSample(ts, sampleId, parse).value;
      forall a, b :: 0 <= a < b < |events| && events[a].variable == events[b].variable ==>
        events[a].hours <= events[b].hours
  {
    var timeCol := DetectTimeColumn(ts.columns).value;
    var events := CleanSample(ts, sampleId, parse).value;
    var w := SeriesWide(ts, timeCol);
    var m := MeltSeries(ts, parse).value;
    MeltSeriesRows(ts, parse);
    SeriesWideTimes(ts, timeCol);
    MeltChronologicalPerVariable(w, timeCol, parse);
    forall a, b | 0 <= a < b < |events| && events[a].variable == events[b].variable
      ensures events[a].hours <= events[b].hours
    {
      HoursOfMonotone(timeCol, m.rows[a].hours, m.rows[b].hours);
    }
  }

  // ---------------------------------------------------------------------------
  // The melt call as written
  // ---------------------------------------------------------------------------

  /** Lines 96-104 as written: `_melt_long` is called without its time-column
      argument, which raises before anything is melted. Only the failures of
      the earlier lines (time column detection and conversion) come first. */
  function CleanSampleAsWritten(ts: Frame, sampleId: string, parse: string -> Option<real>): (r: Result<seq<CleanEvent>, LoadError>)
    requires WellFormed(ts)
    ensures r.Failure?
    ensures MeltSeries(ts, parse).Success? ==> r.error == MeltMissingArgument
  {
    var _ :- MeltSeries(ts, parse);
    Failure(MeltMissingArgument)
  }

  /** As written, no series with a usable time column yields events, while the
      corrected CleanSample does. */
  lemma AsWrittenLosesEverySample(ts: Frame, sampleId: string, parse: string -> Option<real>)
    requires WellFormed(ts) && MeltSeries(ts, parse).Success?
    ensures CleanSampleAsWritten(ts, sampleId, parse).Failure?
    ensures CleanSample(ts, sampleId, parse).Success?
  {
  }

  /** Lines 96-111 with the argument supplied but the time left as melted: the
      melt renames the raw time column to "hours", so the fallback at lines
      105-106 never fires and the converted ts["hours"] is never used. */
  function CleanSampleRawTimes(ts: Frame, sampleId: string, parse: string -> Option<real>): (r: Result<seq<CleanEvent>, LoadError>)
    requires WellFormed(ts)
    ensures r.Failure? <==> CleanSample(ts, sampleId, parse).Failure?
    ensures r.Success? ==> |r.value| == |CleanSample(ts, sampleId, parse).value|
    ensures r.Success? ==> forall a :: 0 <= a < |r.value| ==>
      var e := CleanSample(ts, sampleId, parse).value[a];
      r.value[a] == e.(hours := if IsMinuteColumn(DetectTimeColumn(ts.columns).value) then e.hours * 60.0 else e.hours)
  {
    var m :- MeltSeries(ts, parse);
    Success(RawEvents(sampleId, m.rows))
  }

  /** Melted rows with the sample id added and the times left as they are. */
  function RawEvents(sampleId: string, rows: seq<LongRow>): (r: seq<CleanEvent>)
    ensures |r| == |rows|
    ensures forall a :: 0 <= a < |rows| ==> r[a] == CleanEvent(sampleId, rows[a].hours, rows[a].variable, rows[a].value)
  {
    if rows == [] then []
    else
      var last := rows[|rows| - 1];
      RawEvents(sampleId, rows[..|rows| - 1]) + [CleanEvent(sampleId, last.hours, last.variable, last.value)]
  }

  /** A series timed in minutes, with one reading at minute 60. */
  const MinuteSeries: Frame := Frame(["minutes", "hr"], [[Num(60.0), Num(80.0)]])

  lemma MinuteSeriesTimeColumn()
    ensures DetectTimeColumn(MinuteSeries.columns) == Success("minutes")
  {
    var cs := MinuteSeries.columns;
    assert "Hours" !in cs && "hours" !in cs && "Time" !in cs;
    assert "time" !in cs && "Minutes" !in cs && "minutes" in cs;
    FirstPresentAt(TimeCandidates, cs, 5);
  }

  lemma MinuteSeriesWide()
    ensures SeriesWide(MinuteSeries, "minutes") == MinuteSeries
  {
    var ts := MinuteSeries;
    assert IndexOf(ts.columns, "minutes") == 0;
    assert MeltedColumns(ts.columns, "minutes") == ["hr"];
    assert SortBy(ts.rows, TimeKey(0)) == ts.rows;
    assert IndexOf(ts.columns, "hr") == 1;
    var w := WideFrame(ts.columns, ts.rows, "minutes");
    assert w.columns == ts.columns;
    assert |w.rows[0]| == 2 && w.rows[0][0] == Num(60.0) && w.rows[0][1] == Num(80.0);
    assert w.rows[0] == ts.rows[0];
    assert w.rows == ts.rows;
  }

  lemma MinuteSeriesMeltLong(parse: string -> Option<real>)
    ensures MeltLong(MinuteSeries, "minutes", parse) == [LongRow(60.0, "hr", 80.0)]
  {
    var w := MinuteSeries;
    assert IndexOf(w.columns, "minutes") == 0;
    assert KeptCells(w, 1, parse, 1) == [Origin(0, 1)];
    assert MeltOrigins(w, 0, parse, 2) == [Origin(0, 1)];
  }

  lemma MinuteSeriesMelts(parse: string -> Option<real>)
    ensures MeltSeries(MinuteSeries, parse) == Success(Melted("minutes", [LongRow(60.0, "hr", 80.0)]))
  {
    MinuteSeriesTimeColumn();
    MinuteSeriesWide();
    MinuteSeriesMeltLong(parse);
  }

  /** The corrected cleaning reports a minute-60 reading at hour 1. */
  lemma MinuteReadingConverted(ts: Frame, timeCol: string, id: string, parse: string -> Option<real>)
    requires WellFormed(ts) && MeltSeries(ts, parse) == Success(Melted(timeCol, [LongRow(60.0, "hr", 80.0)]))
    requires IsMinuteColumn(timeCol)
    ensures CleanSample(ts, id, parse) == Success([CleanEvent(id, 1.0, "hr", 80.0)])
  {
    var rows := [LongRow(60.0, "hr", 80.0)];
    assert rows[..0] == [];
    assert HoursOf(timeCol, 60.0) == 1.0;
    assert TimedEvents(id, timeCol, rows) == [CleanEvent(id, 1.0, "hr", 80.0)];
  }

  /** Cleaning as written reports a minute-60 reading at hour 60. */
  lemma MinuteReadingRaw(ts: Frame, timeCol: string, id: string, parse: string -> Option<real>)
    requires WellFormed(ts) && MeltSeries(ts, parse) == Success(Melted(timeCol, [LongRow(60.0, "hr", 80.0)]))
    ensures CleanSampleRawTimes(ts, id, parse) == Success([CleanEvent(id, 60.0, "hr", 80.0)])
  {
    var rows := [LongRow(60.0, "hr", 80.0)];
    assert rows[..0] == [];
    assert RawEvents(id, rows) == [CleanEvent(id, 60.0, "hr", 80.0)];
  }

  /** A series timed in a minute column whose reading at minute 60 melts as such
      reports it at hours == 60.0 as written, and at hours == 1.0 when converted. */
  lemma MinutesNotConverted(ts: Frame, timeCol: string, id: string, parse: string -> Option<real>)
    requires WellFormed(ts) && MeltSeries(ts, parse) == Success(Melted(timeCol, [LongRow(60.0, "hr", 80.0)]))
    requires IsMinuteColumn(timeCol)
    ensures CleanSampleRawTimes(ts, id, parse) == Success([CleanEvent(id, 60.0, "hr", 80.0)])
    ensures CleanSample(ts, id, parse) == Success([CleanEvent(id, 1.0, "hr", 80.0)])
  {
    MinuteReadingConverted(ts, timeCol, id, parse);
    MinuteReadingRaw(ts, timeCol, id, parse);
  }

  /** MinuteSeries is such a series. */
  lemma MinuteSeriesNotConverted(parse: string -> Option<real>)
    ensures CleanSampleRawTimes(MinuteSeries, "train_0", parse) == Success([CleanEvent("train_0", 60.0, "hr", 80.0)])
    ensures CleanSample(MinuteSeries, "train_0", parse) == Success([CleanEvent("train_0", 1.0, "hr", 80.0)])
  {
    var ts := MinuteSeries;
    assert WellFormed(ts);
    assert MeltSeries(ts, parse) == Success(Melted("minutes", [LongRow(60.0, "hr", 80.0)])) by {
      MinuteSeriesMelts(parse);
    }
    assert IsMinuteColumn("minutes") by {
      MinuteNamesAreMinutes();
    }
    MinutesNotConverted(ts, "minutes", "train_0", parse);
  }

  // ---------------------------------------------------------------------------
  // Processing a split
  // ---------------------------------------------------------------------------

  /** The cleaning a split applies to each series file under its sample id. */
  type Cleaner = (Frame, string) --> Result<seq<CleanEvent>, LoadError>

  /** Lines 96-111: CleanSample with pandas' number parser fixed. */
  function SampleCleaner(parse: string -> Option<real>): Cleaner {
    (ts: Frame, sampleId: string) requires WellFormed(ts) => CleanSample(ts, sampleId, parse)
  }

  /** The cleaner accepts every file of the split. */
  ghost predicate FilesFit(fs: map<string, Frame>, clean: Cleaner) {
    forall p, sampleId :: p in fs ==> clean.requires(fs[p], sampleId)
  }

  /** Lines 87-111 for manifest row idx: resolve its series file among the
      split's files `fs`, read it and clean it under the id `{split}_{idx}`.
      A filename cell that is not text (a missing or numeric cell) cannot be
      joined to a path. */
  function LoadRow(splitDir: string, split: string, h: Header, row: seq<Cell>, idx: nat,
                   fs: map<string, Frame>, clean: Cleaner): Result<seq<CleanEvent>, LoadError>
    requires |row| == |h.columns| && "filename" in h.columns
    requires FilesFit(fs, clean)
  {
    match row[IndexOf(h.columns, "filename")]
    case Text(name) =>
      var path :- ResolveSeriesPath(splitDir, name, p => p in fs);
      clean(fs[path], SampleId(split, idx))
    case _ => Failure(BadFilename(idx))
  }

  /** A row whose filename cell is text loads the series the path resolution
      finds, under the row's sample id; any other filename cell is an error. */
  lemma LoadRowCases(splitDir: string, split: string, h: Header, row: seq<Cell>, idx: nat,
                     fs: map<string, Frame>, clean: Cleaner)
    requires |row| == |h.columns| && "filename" in h.columns
    requires FilesFit(fs, clean)
    ensures var r := LoadRow(splitDir, split, h, row, idx, fs, clean); var cell := row[IndexOf(h.columns, "filename")];
      (!cell.Text? ==> r == Failure(BadFilename(idx)))
      && (cell.Text? ==>
            var path := ResolveSeriesPath(splitDir, cell.s, p => p in fs);
            (path.Failure? ==> r == Failure(path.error))
            && (path.Success? ==> path.value in fs && r == clean(fs[path.value], SampleId(split, idx))))
  {
  }

  /** Under CleanSample, a loaded row's events all carry the row's sample id. */
  lemma LoadRowTagged(splitDir: string, split: string, h: Header, row: seq<Cell>, idx: nat,
                      fs: map<string, Frame>, parse: string -> Option<real>)
    requires |row| == |h.columns| && "filename" in h.columns
    requires forall p :: p in fs ==> WellFormed(fs[p])
    ensures FilesFit(fs, SampleCleaner(parse))
    ensures var r := LoadRow(splitDir, split, h, row, idx, fs, SampleCleaner(parse));
      r.Success? ==> forall a :: 0 <= a < |r.value| ==> r.value[a].sampleId == SampleId(split, idx)
  {
    LoadRowCases(splitDir, split, h, row, idx, fs, SampleCleaner(parse));
  }

  /** What a split produces: per manifest row, its sample id and events, and
      the label table. */
  datatype CleanSplit = CleanSplit(sampleIds: seq<string>, events: seq<seq<CleanEvent>>, labels: LabelTable<Cell>)

  /** Header facts the row loop relies on. */
  predicate HeaderFits(h: Header, lf: Frame) {
    Rectangular(lf) && |h.columns| == |lf.columns| && "filename" in h.columns
    && forall c :: c in h.labelCols ==> c in h.columns
  }

  lemma ManifestHeaderFits(lf: Frame)
    requires Rectangular(lf) && ManifestHeader(lf.columns).Success?
    ensures HeaderFits(ManifestHeader(lf.columns).value, lf)
  {
  }

  /** Manifest rows 0..n-1 processed in order: each row's events, or the error
      of the first row that fails. */
  function LoadRows(splitDir: string, split: string, h: Header, lf: Frame, fs: map<string, Frame>,
                    clean: Cleaner, n: nat): Result<seq<seq<CleanEvent>>, LoadError>
    requires HeaderFits(h, lf) && n <= |lf.rows|
    requires FilesFit(fs, clean)
  {
    if n == 0 then Success([])
    else
      var prev :- LoadRows(splitDir, split, h, lf, fs, clean, n - 1);
      var events :- LoadRow(splitDir, split, h, lf.rows[n - 1], n - 1, fs, clean);
      Success(prev + [events])
  }

  /** One more row: its events are appended, or its error ends the split. */
  lemma LoadRowsStep(splitDir: string, split: string, h: Header, lf: Frame,
                     fs: map<string, Frame>, clean: Cleaner, n: nat, events: seq<seq<CleanEvent>>)
    requires HeaderFits(h, lf) && n < |lf.rows|
    requires FilesFit(fs, clean)
    requires LoadRows(splitDir, split, h, lf, fs, clean, n) == Success(events)
    ensures var row := LoadRow(splitDir, split, h, lf.rows[n], n, fs, clean);
      LoadRows(splitDir, split, h, lf, fs, clean, n + 1)
        == if row.Failure? then Failure(row.error) else Success(events + [row.value])
  {
  }

  /** When rows 0..n-1 all load, entry i holds row i's events. */
  lemma {:induction false} LoadRowsElement(splitDir: string, split: string, h: Header, lf: Frame,
                                           fs: map<string, Frame>, clean: Cleaner, n: nat, i: nat)
    requires HeaderFits(h, lf) && n <= |lf.rows| && i < n
    requires FilesFit(fs, clean)
    requires LoadRows(splitDir, split, h, lf, fs, clean, n).Success?
    ensures |LoadRows(splitDir, split, h, lf, fs, clean, n).value| == n
    ensures LoadRow(splitDir, split, h, lf.rows[i], i, fs, clean).Success?
    ensures LoadRows(splitDir, split, h, lf, fs, clean, n).value[i]
         == LoadRow(splitDir, split, h, lf.rows[i], i, fs, clean).value
  {
    if i < n - 1 {
      LoadRowsElement(splitDir, split, h, lf, fs, clean, n - 1, i);
    } else if n > 1 {
      LoadRowsLength(splitDir, split, h, lf, fs, clean, n - 1);
    }
  }

  lemma {:induction false} LoadRowsLength(splitDir: string, split: string, h: Header, lf: Frame,
                                          fs: map<string, Frame>, clean: Cleaner, n: nat)
    requires HeaderFits(h, lf) && n <= |lf.rows|
    requires FilesFit(fs, clean)
    requires LoadRows(splitDir, split, h, lf, fs, clean, n).Success?
    ensures |LoadRows(splitDir, split, h, lf, fs, clean, n).value| == n
  {
    if n > 0 {
      LoadRowsLength(splitDir, split, h, lf, fs, clean, n - 1);
    }
  }

  /** When rows 0..n-1 do not all load, the error is that of a row i that
      fails while rows 0..i-1 all load. */
  lemma {:induction false} LoadRowsFailure(splitDir: string, split: string, h: Header, lf: Frame,
                                           fs: map<string, Frame>, clean: Cleaner, n: nat)
    returns (i: nat)
    requires HeaderFits(h, lf) && n <= |lf.rows|
    requires FilesFit(fs, clean)
    requires LoadRows(splitDir, split, h, lf, fs, clean, n).Failure?
    ensures i < n && LoadRows(splitDir, split, h, lf, fs, clean, i).Success?
    ensures LoadRow(splitDir, split, h, lf.rows[i], i, fs, clean).Failure?
    ensures LoadRows(splitDir, split, h, lf, fs, clean, n).error == LoadRow(splitDir, split, h, lf.rows[i], i, fs, clean).error
  {
    if LoadRows(splitDir, split, h, lf, fs, clean, n - 1).Failure? {
      i := LoadRowsFailure(splitDir, split, h, lf, fs, clean, n - 1);
      assert LoadRows(splitDir, split, h, lf, fs, clean, n).error == LoadRows(splitDir, split, h, lf, fs, clean, n - 1).error;
    } else {
      i := n - 1;
      LoadRowsStep(splitDir, split, h, lf, fs, clean, i, LoadRows(splitDir, split, h, lf, fs, clean, i).value);
    }
  }

  /** The ids `{split}_{i}` of manifest rows 0..n-1. */
  function SplitIds(split: string, n: nat): (r: seq<string>)
    ensures |r| == n && forall i :: 0 <= i < n ==> r[i] == SampleId(split, i)
  {
    seq(n, i requires 0 <= i < n => SampleId(split, i))
  }

  /** Line 122: the label records of manifest rows 0..n-1, keyed by their ids. */
  function LabelRecords(split: string, h: Header, lf: Frame, n: nat): (r: seq<LabelRow<Cell>>)
    requires HeaderFits(h, lf) && n <= |lf.rows|
    ensures |r| == n
    ensures forall i :: 0 <= i < n ==>
      r[i] == LabelRow(SampleId(split, i), Project(lf.rows[i], h.columns, h.labelCols))
  {
    seq(n, i requires 0 <= i < n => LabelRow(SampleId(split, i), Project(lf.rows[i], h.columns, h.labelCols)))
  }

  /** Row n's id and record extend those of rows 0..n-1. */
  lemma RecordsStep(split: string, h: Header, lf: Frame, n: nat)
    requires HeaderFits(h, lf) && n < |lf.rows|
    ensures SplitIds(split, n + 1) == SplitIds(split, n) + [SampleId(split, n)]
    ensures LabelRecords(split, h, lf, n + 1)
         == LabelRecords(split, h, lf, n) + [LabelRow(SampleId(split, n), Project(lf.rows[n], h.columns, h.labelCols))]
  {
  }

  /** What processing the manifest's rows yields: the rows' events, each row's
      id and label record; or the first failing row's error. */
  function SplitResult(splitDir: string, split: string, h: Header, lf: Frame, fs: map<string, Frame>,
                       clean: Cleaner): Result<CleanSplit, LoadError>
    requires HeaderFits(h, lf)
    requires FilesFit(fs, clean)
  {
    var events :- LoadRows(splitDir, split, h, lf, fs, clean, |lf.rows|);
    Success(CleanSplit(SplitIds(split, |lf.rows|), events,
                       LabelTable(h.labelCols, LabelRecords(split, h, lf, |lf.rows|))))
  }

  /** A processed split has one id, one event list and one label record per
      manifest row, in manifest order; the ids are distinct, each record is
      keyed by its row's id and holds one value per label column. A failed
      split reports the error of a row that fails after all earlier rows load. */
  lemma SplitResultSound(splitDir: string, split: string, h: Header, lf: Frame, fs: map<string, Frame>,
                         clean: Cleaner)
    requires HeaderFits(h, lf)
    requires FilesFit(fs, clean)
    ensures var r := SplitResult(splitDir, split, h, lf, fs, clean);
      r.Success? ==>
        |r.value.sampleIds| == |r.value.events| == |r.value.labels.rows| == |lf.rows|
        && NoDup(r.value.sampleIds)
        && r.value.labels.columns == h.labelCols
        && LabelsRectangular(r.value.labels)
        && forall i :: 0 <= i < |lf.rows| ==>
             r.value.sampleIds[i] == SampleId(split, i)
             && r.value.labels.rows[i].sampleId == r.value.sampleIds[i]
             && LoadRow(splitDir, split, h, lf.rows[i], i, fs, clean) == Success(r.value.events[i])
             && r.value.labels.rows[i].values == Project(lf.rows[i], h.columns, h.labelCols)
    ensures var r := SplitResult(splitDir, split, h, lf, fs, clean);
      r.Failure? ==>
        exists i :: 0 <= i < |lf.rows|
          && LoadRows(splitDir, split, h, lf, fs, clean, i).Success?
          && LoadRow(splitDir, split, h, lf.rows[i], i, fs, clean) == Failure(r.error)
  {
    var n := |lf.rows|;
    var rows := LoadRows(splitDir, split, h, lf, fs, clean, n);
    if rows.Success? {
      SampleIdsDistinct(split, SplitIds(split, n));
      LoadRowsLength(splitDir, split, h, lf, fs, clean, n);
      forall i | 0 <= i < n
        ensures LoadRow(splitDir, split, h, lf.rows[i], i, fs, clean) == Success(rows.value[i])
      {
        LoadRowsElement(splitDir, split, h, lf, fs, clean, n, i);
      }
      if n > 0 {
        LoadRowsElement(splitDir, split, h, lf, fs, clean, n, 0);
      }
    } else {
      var i := LoadRowsFailure(splitDir, split, h, lf, fs, clean, n);
    }
  }

  /** The per-row loop of `process_split` (lines 85-114), under a header that
      fits the manifest. */
  method ProcessRows(splitDir: string, split: string, h: Header, lf: Frame, fs: map<string, Frame>,
                     clean: Cleaner) returns (r: Result<CleanSplit, LoadError>)
    requires HeaderFits(h, lf)
    requires FilesFit(fs, clean)
    ensures r == SplitResult(splitDir, split, h, lf, fs, clean)
  {
    var ids: seq<string> := [];
    var events: seq<seq<CleanEvent>> := [];
    var records: seq<LabelRow<Cell>> := [];
    for idx := 0 to |lf.rows|
      invariant LoadRows(splitDir, split, h, lf, fs, clean, idx) == Success(events)
      invariant ids == SplitIds(split, idx)
      invariant records == LabelRecords(split, h, lf, idx)
    {
      var sample := LoadRow(splitDir, split, h, lf.rows[idx], idx, fs, clean);
      if sample.Failure? {
        SplitFails(splitDir, split, h, lf, fs, clean, idx, events);
        return Failure(sample.error);
      }
      LoadRowsStep(splitDir, split, h, lf, fs, clean, idx, events);
      var id := SampleId(split, idx);
      var record := LabelRow(id, Project(lf.rows[idx], h.columns, h.labelCols));
      RecordsStep(split, h, lf, idx);
      ids := ids + [id];
      events := events + [sample.value];
      records := records + [record];
    }
    r := Success(CleanSplit(ids, events, LabelTable(h.labelCols, records)));
  }

  /** `process_split`: the manifest `lf` of `task_root/split` and the files `fs`
      under it. The header is resolved first; then rows are processed in
      manifest order and the first error aborts the split. */
  method ProcessSplit(taskRoot: string, split: string, lf: Frame, fs: map<string, Frame>,
                      parse: string -> Option<real>) returns (r: Result<CleanSplit, LoadError>)
    requires Rectangular(lf)
    requires forall p :: p in fs ==> WellFormed(fs[p])
    ensures ManifestHeader(lf.columns).Failure? ==> r == Failure(ManifestHeader(lf.columns).error)
    ensures ManifestHeader(lf.columns).Success? ==>
      HeaderFits(ManifestHeader(lf.columns).value, lf) && FilesFit(fs, SampleCleaner(parse))
      && r == SplitResult(Join(taskRoot, split), split, ManifestHeader(lf.columns).value, lf, fs, SampleCleaner(parse))
  {
    var header := ManifestHeader(lf.columns);
    if header.Failure? {
      return Failure(header.error);
    }
    ManifestHeaderFits(lf);
    r := ProcessRows(Join(taskRoot, split), split, header.value, lf, fs, SampleCleaner(parse));
  }

  /** A failing row after rows that all load fails the split with its error. */
  lemma SplitFails(splitDir: string, split: string, h: Header, lf: Frame,
                   fs: map<string, Frame>, clean: Cleaner, n: nat, events: seq<seq<CleanEvent>>)
    requires HeaderFits(h, lf) && n < |lf.rows|
    requires FilesFit(fs, clean)
    requires LoadRows(splitDir, split, h, lf, fs, clean, n) == Success(events)
    requires LoadRow(splitDir, split, h, lf.rows[n], n, fs, clean).Failure?
    ensures SplitResult(splitDir, split, h, lf, fs, clean) == Failure(LoadRow(splitDir, split, h, lf.rows[n], n, fs, clean).error)
  {
    LoadRowsStep(splitDir, split, h, lf, fs, clean, n, events);
    LoadRowsAbort(splitDir, split, h, lf, fs, clean, n + 1);
  }

  /** Once a prefix of the rows fails, the whole split fails with its error. */
  lemma {:induction false} LoadRowsAbort(splitDir: string, split: string, h: Header, lf: Frame,
                                         fs: map<string, Frame>, clean: Cleaner, n: nat)
    requires HeaderFits(h, lf) && n <= |lf.rows|
    requires FilesFit(fs, clean)
    requires LoadRows(splitDir, split, h, lf, fs, clean, n).Failure?
    ensures LoadRows(splitDir, split, h, lf, fs, clean, |lf.rows|) == LoadRows(splitDir, split, h, lf, fs, clean, n)
    decreases |lf.rows| - n
  {
    if n < |lf.rows| {
      LoadRowsAbort(splitDir, split, h, lf, fs, clean, n + 1);
    }
  }
}
