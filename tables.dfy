/** The tables that flow between the stages: raw CSV frames, long-format events
    before and after vocabulary encoding, and per-split label tables. */
module Tables {
  import opened Wrappers
  import opened Seqs
  import opened Sorting

  /** One cell of a CSV read by pandas: missing (NaN), a number, or text. */
  datatype Cell = Missing | Num(x: real) | Text(s: string)

  /** `dropna` followed by `pd.to_numeric(errors="coerce")` and a second
      `dropna`: a number is kept, a missing cell is dropped, and text is kept
      exactly when pandas' number parser (the parameter `parse`) accepts it. */
  function Coerce(c: Cell, parse: string -> Option<real>): Option<real> {
    match c
    case Missing => None
    case Num(x) => Some(x)
    case Text(s) => parse(s)
  }

  /** A table as read from CSV: named columns and rows of cells, row-major. */
  datatype Frame = Frame(columns: seq<string>, rows: seq<seq<Cell>>)

  predicate Rectangular(f: Frame) {
    forall i :: 0 <= i < |f.rows| ==> |f.rows[i]| == |f.columns|
  }

  /** pandas' read_csv gives distinct column names and rectangular rows. */
  predicate WellFormed(f: Frame) {
    NoDup(f.columns) && Rectangular(f)
  }

  /** `row[sel]`: the cells of the selected columns, in selection order. */
  function Project<V>(row: seq<V>, columns: seq<string>, sel: seq<string>): (r: seq<V>)
    requires |row| == |columns|
    requires forall c :: c in sel ==> c in columns
    ensures |r| == |sel|
    ensures forall j :: 0 <= j < |sel| ==> r[j] == row[IndexOf(columns, sel[j])]
  {
    seq(|sel|, j requires 0 <= j < |sel| => row[IndexOf(columns, sel[j])])
  }

  /** A stage-1 event row: (sample_id, hours, variable, value). */
  datatype CleanEvent = CleanEvent(sampleId: string, hours: real, variable: string, value: real)

  /** A stage-2 event row: the variable name replaced by its vocabulary id. */
  datatype EncodedEvent = EncodedEvent(sampleId: string, hours: real, varId: int, value: real)

  /** The (sample_id, hours) keys of `sort_values(["sample_id", "hours"])`. */
  function CleanKey(e: CleanEvent): SortKey {
    SortKey(e.sampleId, e.hours)
  }

  function EncodedKey(e: EncodedEvent): SortKey {
    SortKey(e.sampleId, e.hours)
  }

  /** One label record: the sample id and one value per label column. */
  datatype LabelRow<V> = LabelRow(sampleId: string, values: seq<V>)

  /** A label table; `columns` are the label columns, `sample_id` is kept apart. */
  datatype LabelTable<V> = LabelTable(columns: seq<string>, rows: seq<LabelRow<V>>)

  predicate LabelsRectangular<V>(t: LabelTable<V>) {
    forall i :: 0 <= i < |t.rows| ==> |t.rows[i].values| == |t.columns|
  }
}
