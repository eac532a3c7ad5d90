/** Stage 4, the target builder (4_build_targets.py): the label table is
    reordered to the packed tensor's sample order, then the task name picks
    the target columns. The `sample_id` column is the row key of a label
    table and is kept apart from its label columns; no selection can pick it
    (it is not a candidate of any task and phenotyping excludes it). Values
    are a type parameter: the `astype(int)` / `astype(float)` casts are not
    part of this model. */
module BuildTargets {
  import opened Wrappers
  import opened Strings
  import opened Seqs
  import opened Tables
  import LoadClean

  datatype Task = Mortality | Decompensation | LengthOfStay | Phenotyping

  datatype TargetError =
    | NoTargetColumn(task: Task)
    | UnknownTask(name: string)
    | MissingSample(id: string)

  // ---------------------------------------------------------------------------
  // Task dispatch
  // ---------------------------------------------------------------------------

  /** Lines 11, 12, 19, 26 and 32: the task a name selects once lower-cased. */
  function ParseTask(name: string): (r: Option<Task>)
    ensures r == Some(Mortality) <==> Lower(name) == "in_hospital_mortality" || Lower(name) == "mortality"
    ensures r == Some(Decompensation) <==> Lower(name) == "decompensation"
    ensures r == Some(LengthOfStay) <==> Lower(name) == "length_of_stay" || Lower(name) == "los"
    ensures r == Some(Phenotyping) <==> Lower(name) == "phenotyping"
  {
    var t := Lower(name);
    if t == "in_hospital_mortality" || t == "mortality" then Some(Mortality)
    else if t == "decompensation" then Some(Decompensation)
    else if t == "length_of_stay" || t == "los" then Some(LengthOfStay)
    else if t == "phenotyping" then Some(Phenotyping)
    else None
  }

  /** Task names are matched without regard to letter case. */
  lemma ParseTaskCaseInsensitive(name: string)
    ensures ParseTask(Lower(name)) == ParseTask(name)
  {
    LowerIdempotent(name);
  }

  /** "LOS" selects the length-of-stay task. */
  lemma UpperCaseLos()
    ensures ParseTask("LOS") == Some(LengthOfStay)
  {
    assert Lower("LOS") == "los";
  }

  /** Lines 14, 21 and 27: the label columns each single-column task tries, in order. */
  function Candidates(t: Task): seq<string>
    requires !t.Phenotyping?
  {
    match t
    case Mortality => ["in_hospital_mortality", "mortality", "label"]
    case Decompensation => ["decompensation", "label"]
    case LengthOfStay => ["length_of_stay", "los", "remain_los"]
  }

  /** Line 34: the identifier columns phenotyping leaves out. */
  const PhenotypeExclude: set<string> :=
    {"sample_id", "filename", "stay", "stay_id", "subject_id", "hadm_id", "icustay_id"}

  /** The target columns of task t over a label table's columns: the first
      present candidate, or for phenotyping every non-identifier column. */
  function SelectColumns(t: Task, columns: seq<string>): (r: Result<seq<string>, TargetError>)
    ensures r.Failure? ==> r.error == NoTargetColumn(t)
    ensures r.Success? ==> forall c :: c in r.value ==> c in columns
    ensures !t.Phenotyping? ==> (r.Success? <==> exists c :: c in Candidates(t) && c in columns)
    ensures !t.Phenotyping? && r.Success? ==>
      |r.value| == 1
      && exists k :: 0 <= k < |Candidates(t)| && Candidates(t)[k] == r.value[0]
                     && forall j :: 0 <= j < k ==> Candidates(t)[j] !in columns
    ensures t.Phenotyping? ==>
      (r.Success? <==> exists c :: c in columns && c !in PhenotypeExclude)
    ensures t.Phenotyping? && r.Success? ==>
      Subseq(r.value, columns)
      && forall c :: c in r.value <==> c in columns && c !in PhenotypeExclude
  {
    if t.Phenotyping? then
      var cols := Without(columns, PhenotypeExclude);
      if cols == [] then
        assert forall c :: c in columns && c !in PhenotypeExclude ==> c in cols;
        Failure(NoTargetColumn(t))
      else
        assert cols[0] in cols;
        Success(cols)
    else
      match FirstPresent(Candidates(t), columns)
      case None => Failure(NoTargetColumn(t))
      case Some(k) => Success([Candidates(t)[k]])
  }

  /** The row key never counts as a label column: selecting over the table
      with its `sample_id` column in front gives the same columns. */
  lemma SampleIdNeverSelected(t: Task, columns: seq<string>)
    ensures SelectColumns(t, ["sample_id"] + columns) == SelectColumns(t, columns)
  {
    var all := ["sample_id"] + columns;
    assert all[1..] == columns;
    if t.Phenotyping? {
      assert Without(all, PhenotypeExclude) == Without(columns, PhenotypeExclude);
    } else {
      var cands := Candidates(t);
      assert "sample_id" !in cands;
      assert forall c :: c in cands ==> (c in all <==> c in columns);
      FirstPresentSame(cands, all, columns);
    }
  }

  /** A first-present search only looks at which candidates are present. */
  lemma {:induction false} FirstPresentSame(cands: seq<string>, a: seq<string>, b: seq<string>)
    requires forall c :: c in cands ==> (c in a <==> c in b)
    ensures FirstPresent(cands, a) == FirstPresent(cands, b)
    decreases |cands|
  {
    if cands != [] {
      FirstPresentSame(cands[1..], a, b);
    }
  }

  /** `build_targets`: one target row per label row, holding that row's values
      in the selected columns. */
  function BuildTargets<V>(task: string, labels: LabelTable<V>): (r: Result<seq<seq<V>>, TargetError>)
    requires LabelsRectangular(labels)
    ensures ParseTask(task).None? <==> r == Failure(UnknownTask(Lower(task)))
    ensures ParseTask(task).Some? ==>
      var sel := SelectColumns(ParseTask(task).value, labels.columns);
      (r.Failure? <==> sel.Failure?)
      && (r.Failure? ==> r.error == sel.error)
      && (r.Success? ==>
            |r.value| == |labels.rows|
            && forall i :: 0 <= i < |r.value| ==>
                 |r.value[i]| == |sel.value|
                 && forall j :: 0 <= j < |sel.value| ==>
                      r.value[i][j] == labels.rows[i].values[IndexOf(labels.columns, sel.value[j])])
  {
    match ParseTask(task)
    case None => Failure(UnknownTask(Lower(task)))
    case Some(t) =>
      var cols :- SelectColumns(t, labels.columns);
      Success(seq(|labels.rows|, i requires 0 <= i < |labels.rows| =>
        Project(labels.rows[i].values, labels.columns, cols)))
  }

  /** A single-column task gives an N x 1 target taken from the first present
      candidate column. */
  lemma SingleColumnTargets<V>(task: string, labels: LabelTable<V>, i: nat)
    requires LabelsRectangular(labels)
    requires ParseTask(task).Some? && !ParseTask(task).value.Phenotyping?
    requires BuildTargets(task, labels).Success? && i < |labels.rows|
    ensures var y := BuildTargets(task, labels).value; var t := ParseTask(task).value;
      exists k :: 0 <= k < |Candidates(t)| && Candidates(t)[k] in labels.columns
        && (forall j :: 0 <= j < k ==> Candidates(t)[j] !in labels.columns)
        && y[i] == [labels.rows[i].values[IndexOf(labels.columns, Candidates(t)[k])]]
  {
    var t := ParseTask(task).value;
    var sel := SelectColumns(t, labels.columns).value;
    var k :| 0 <= k < |Candidates(t)| && Candidates(t)[k] == sel[0]
             && forall j :: 0 <= j < k ==> Candidates(t)[j] !in labels.columns;
    assert sel[0] in sel;
  }

  // ---------------------------------------------------------------------------
  // Alignment (`labels.set_index("sample_id").loc[seq_ids].reset_index()`)
  // ---------------------------------------------------------------------------

  /** The label rows keyed by id, in table order (see MatchingFilter). */
  function Matching<V>(rows: seq<LabelRow<V>>, id: string): (r: seq<LabelRow<V>>)
    ensures forall a :: 0 <= a < |r| ==> r[a] in rows && r[a].sampleId == id
    ensures forall i :: 0 <= i < |rows| && rows[i].sampleId == id ==> rows[i] in r
    decreases |rows|
  {
    if rows == [] then []
    else
      var init := rows[..|rows| - 1];
      var last := rows[|rows| - 1];
      assert rows == init + [last];
      if last.sampleId == id then Matching(init, id) + [last] else Matching(init, id)
  }

  /** The rows `.loc` selects for id are a subsequence of the table that holds
      each row with that id as often as the table does, and no other row. */
  lemma {:induction false} MatchingFilter<V>(rows: seq<LabelRow<V>>, id: string)
    ensures Subseq(Matching(rows, id), rows)
    ensures forall i :: 0 <= i < |rows| ==>
              multiset(Matching(rows, id))[rows[i]]
              == if rows[i].sampleId == id then multiset(rows)[rows[i]] else 0
    decreases |rows|
  {
    if rows != [] {
      var init := rows[..|rows| - 1];
      var last := rows[|rows| - 1];
      assert rows == init + [last];
      var g := Matching(init, id);
      MatchingFilter(init, id);
      assert multiset(rows) == multiset(init) + multiset{last};
      if last.sampleId == id {
        assert Matching(rows, id) == g + [last];
        SubseqAppendBoth(g, init, last);
      } else {
        assert Matching(rows, id) == g;
        SubseqExtend(g, init, last);
        assert forall i :: 0 <= i < |rows| && rows[i].sampleId == id ==> rows[i] != last;
      }
      forall i | 0 <= i < |rows|
        ensures multiset(Matching(rows, id))[rows[i]]
                == if rows[i].sampleId == id then multiset(rows)[rows[i]] else 0
      {
        if rows[i] !in init {
          assert rows[i] == last;
          assert multiset(init)[last] == 0;
          assert multiset(g)[last] == 0;
        } else {
          var j :| 0 <= j < |init| && init[j] == rows[i];
        }
      }
    }
  }

  function RowIds<V>(rows: seq<LabelRow<V>>): (r: seq<string>)
    ensures |r| == |rows| && forall i :: 0 <= i < |rows| ==> r[i] == rows[i].sampleId
  {
    seq(|rows|, i requires 0 <= i < |rows| => rows[i].sampleId)
  }

  /** `align_samples`: for each id of the tensor, in order, the label rows with
      that id; an id without a label row is an error, the first one is reported. */
  function AlignSamples<V>(seqIds: seq<string>, labels: LabelTable<V>): (r: Result<LabelTable<V>, TargetError>)
    ensures r.Success? <==> forall k :: 0 <= k < |seqIds| ==> seqIds[k] in RowIds(labels.rows)
    ensures r.Failure? ==> r.error.MissingSample? && r.error.id in seqIds && r.error.id !in RowIds(labels.rows)
    ensures r.Success? ==> r.value.columns == labels.columns
    ensures r.Success? ==> forall k :: 0 <= k < |r.value.rows| ==> r.value.rows[k] in labels.rows
    decreases |seqIds|
  {
    if seqIds == [] then Success(LabelTable(labels.columns, []))
    else
      var init := seqIds[..|seqIds| - 1];
      var id := seqIds[|seqIds| - 1];
      assert forall k :: 0 <= k < |init| ==> init[k] == seqIds[k];
      var prev := AlignSamples(init, labels);
      if prev.Failure? then
        assert prev.error.id in seqIds by { assert prev.error.id in init; }
        prev
      else
        var m := Matching(labels.rows, id);
        if m == [] then
          assert forall i :: 0 <= i < |labels.rows| ==> RowIds(labels.rows)[i] != id;
          Failure(MissingSample(id))
        else
          assert m[0] in m;
          Success(LabelTable(labels.columns, prev.value.rows + m))
  }

  /** An id no row has matches nothing. */
  lemma {:induction false} MatchingNone<V>(rows: seq<LabelRow<V>>, id: string)
    requires forall i :: 0 <= i < |rows| ==> rows[i].sampleId != id
    ensures Matching(rows, id) == []
    decreases |rows|
  {
    if rows != [] {
      MatchingNone(rows[..|rows| - 1], id);
    }
  }

  /** With unique ids in the labels, an id has exactly one row. */
  lemma {:induction false} MatchingUnique<V>(rows: seq<LabelRow<V>>, i: nat)
    requires NoDup(RowIds(rows)) && i < |rows|
    ensures Matching(rows, rows[i].sampleId) == [rows[i]]
    decreases |rows|
  {
    var n := |rows|;
    var id := rows[i].sampleId;
    var init := rows[..n - 1];
    assert forall a :: 0 <= a < |init| ==> RowIds(init)[a] == RowIds(rows)[a];
    if i == n - 1 {
      assert forall a :: 0 <= a < |init| ==> RowIds(rows)[a] != RowIds(rows)[n - 1];
      MatchingNone(init, id);
    } else {
      assert RowIds(rows)[i] != RowIds(rows)[n - 1];
      MatchingUnique(init, i);
    }
  }

  /** An aligned prefix: the rows of the last id follow those of the others. */
  lemma AlignStep<V>(seqIds: seq<string>, labels: LabelTable<V>)
    requires seqIds != [] && AlignSamples(seqIds, labels).Success?
    ensures var init := seqIds[..|seqIds| - 1];
      AlignSamples(init, labels).Success?
      && AlignSamples(seqIds, labels).value.rows
         == AlignSamples(init, labels).value.rows + Matching(labels.rows, seqIds[|seqIds| - 1])
  {
  }

  /** With unique ids in the labels, alignment gives one row per tensor sample,
      and row k is the label row of sample k. */
  lemma {:induction false} AlignUnique<V>(seqIds: seq<string>, labels: LabelTable<V>)
    requires NoDup(RowIds(labels.rows))
    requires AlignSamples(seqIds, labels).Success?
    ensures var rows := AlignSamples(seqIds, labels).value.rows;
      |rows| == |seqIds|
      && forall k :: 0 <= k < |seqIds| ==> rows[k].sampleId == seqIds[k] && rows[k] in labels.rows
    decreases |seqIds|
  {
    if seqIds != [] {
      var n := |seqIds|;
      var init := seqIds[..n - 1];
      var id := seqIds[n - 1];
      AlignStep(seqIds, labels);
      AlignUnique(init, labels);
      assert id in RowIds(labels.rows);
      var i :| 0 <= i < |labels.rows| && RowIds(labels.rows)[i] == id;
      MatchingUnique(labels.rows, i);
      var prev := AlignSamples(init, labels).value.rows;
      var rows := AlignSamples(seqIds, labels).value.rows;
      assert rows == prev + [labels.rows[i]];
      forall k | 0 <= k < n
        ensures rows[k].sampleId == seqIds[k] && rows[k] in labels.rows
      {
        if k < n - 1 {
          assert rows[k] == prev[k] && seqIds[k] == init[k];
        }
      }
    }
  }

  // ---------------------------------------------------------------------------
  // Across the stages
  // ---------------------------------------------------------------------------

  /** Label tables keyed the way stage 1 keys them, `{split}_{row}`, have
      unique ids. */
  lemma Stage1IdsUnique<V>(split: string, labels: LabelTable<V>)
    requires forall i :: 0 <= i < |labels.rows| ==> labels.rows[i].sampleId == LoadClean.SampleId(split, i)
    ensures NoDup(RowIds(labels.rows))
  {
    LoadClean.SampleIdsDistinct(split, RowIds(labels.rows));
  }

  /** For a stage-1 label table and tensor ids that all have labels, target
      row k holds the labels of tensor sample k, whatever order the tensor
      put its samples in. */
  lemma TargetsFollowTensorOrder<V>(task: string, split: string, labels: LabelTable<V>, seqIds: seq<string>)
    requires LabelsRectangular(labels)
    requires forall i :: 0 <= i < |labels.rows| ==> labels.rows[i].sampleId == LoadClean.SampleId(split, i)
    requires forall k :: 0 <= k < |seqIds| ==> seqIds[k] in RowIds(labels.rows)
    ensures AlignSamples(seqIds, labels).Success?
    ensures var aligned := AlignSamples(seqIds, labels).value;
      LabelsRectangular(aligned)
      && var y := BuildTargets(task, aligned);
      y.Success? ==>
        |y.value| == |seqIds|
        && forall k :: 0 <= k < |seqIds| ==>
             (exists i :: 0 <= i < |labels.rows|
                && labels.rows[i].sampleId == seqIds[k]
                && y.value[k] == Project(labels.rows[i].values, labels.columns,
                                         SelectColumns(ParseTask(task).value, labels.columns).value))
  {
    Stage1IdsUnique(split, labels);
    AlignUnique(seqIds, labels);
    var aligned := AlignSamples(seqIds, labels).value;
    assert LabelsRectangular(aligned) by {
      forall k | 0 <= k < |aligned.rows| ensures |aligned.rows[k].values| == |aligned.columns| {
        assert aligned.rows[k] in labels.rows;
      }
    }
    var y := BuildTargets(task, aligned);
    if y.Success? {
      var sel := SelectColumns(ParseTask(task).value, labels.columns).value;
      forall k | 0 <= k < |seqIds|
        ensures exists i :: 0 <= i < |labels.rows| && labels.rows[i].sampleId == seqIds[k]
                 && y.value[k] == Project(labels.rows[i].values, labels.columns, sel)
      {
        var i :| 0 <= i < |labels.rows| && labels.rows[i] == aligned.rows[k];
        assert y.value[k] == Project(labels.rows[i].values, labels.columns, sel);
      }
    }
  }
}
