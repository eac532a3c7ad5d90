/** Stage 2, the vocabulary builder (2_format_convert.py): the variable names
    of every per-sample file become a sorted vocabulary with ids 1..N (0 is
    kept for padding), and each split's events are re-encoded by that
    vocabulary. Directory listings are sequences in listing order; a parquet
    file is its name, its column names and its event rows. */
module FormatConvert {
  import opened Wrappers
  import opened Strings
  import opened Seqs
  import opened Sorting
  import opened Tables

  /** A parquet file under a clean split directory. */
  datatype EventFile = EventFile(name: string, columns: seq<string>, rows: seq<CleanEvent>)

  /** An entry of the clean root: a split directory and its files, or anything else. */
  datatype Entry = Directory(name: string, files: seq<EventFile>) | Other(name: string)

  datatype ConvertError =
    | NoVariableColumn(file: string)
    | MissingColumns(file: string)
    | NoEventFiles

  /** Lines 16 and 37: a parquet file other than the split's labels file. */
  predicate IsEventFile(name: string) {
    EndsWith(name, ".parquet") && name != "labels.parquet"
  }

  // ---------------------------------------------------------------------------
  // The vocabulary
  // ---------------------------------------------------------------------------

  /** `df["variable"].unique()`. */
  function RowVars(rows: seq<CleanEvent>): set<string> {
    set e | e in rows :: e.variable
  }

  /** The variables of the event files among files. */
  function FileVars(files: seq<EventFile>): set<string>
    decreases |files|
  {
    if files == [] then {}
    else
      var f := files[|files| - 1];
      FileVars(files[..|files| - 1]) + if IsEventFile(f.name) then RowVars(f.rows) else {}
  }

  function EntryVars(e: Entry): set<string> {
    if e.Directory? then FileVars(e.files) else {}
  }

  /** The variables of every event file of every split directory under the root. */
  function RootVars(root: seq<Entry>): set<string>
    decreases |root|
  {
    if root == [] then {} else RootVars(root[..|root| - 1]) + EntryVars(root[|root| - 1])
  }

  /** Reading only the "variable" column needs the file to have one. */
  predicate FileReadable(f: EventFile) {
    IsEventFile(f.name) ==> "variable" in f.columns
  }

  predicate DirReadable(e: Entry) {
    e.Directory? ==> forall j :: 0 <= j < |e.files| ==> FileReadable(e.files[j])
  }

  predicate RootReadable(root: seq<Entry>) {
    forall i :: 0 <= i < |root| ==> DirReadable(root[i])
  }

  /** x precedes every other element of s. */
  predicate IsLeast(x: string, s: set<string>) {
    x in s && forall w :: w in s ==> x == w || StrLt(x, w)
  }

  /** A non-empty finite set of strings has a least element. */
  lemma {:induction false} Least(s: set<string>) returns (x: string)
    requires s != {}
    ensures IsLeast(x, s)
    decreases |s|
  {
    var y :| y in s;
    if s == {y} {
      x := y;
    } else {
      var m := Least(s - {y});
      StrLtTotal(y, m);
      if StrLt(y, m) {
        forall w | w in s && w != y ensures StrLt(y, w) {
          if w != m {
            StrLtTransitive(y, m, w);
          }
        }
        x := y;
      } else {
        x := m;
      }
    }
  }

  /** `sorted(list(variables))`: the set in Python's string order. */
  method SortStrings(vars: set<string>) returns (r: seq<string>)
    ensures StrictlyAscending(r)
    ensures forall v :: v in r <==> v in vars
  {
    r := [];
    var rest := vars;
    while rest != {}
      invariant StrictlyAscending(r)
      invariant forall v :: v in vars <==> v in r || v in rest
      invariant forall v, w :: v in r && w in rest ==> StrLt(v, w)
      decreases rest
    {
      ghost var least := Least(rest);
      var x :| x in rest && IsLeast(x, rest);
      forall w | w in rest - {x} ensures StrLt(x, w) {
        assert IsLeast(x, rest);
        assert w in rest && w != x;
      }
      r := r + [x];
      rest := rest - {x};
    }
  }

  /** `load_variable_vocab`: every split directory of the root, every event
      file in it, the union of their variables, sorted. A file without a
      "variable" column stops the scan. */
  method LoadVariableVocab(root: seq<Entry>) returns (r: Result<seq<string>, ConvertError>)
    ensures r.Success? <==> RootReadable(root)
    ensures r.Failure? ==> r.error.NoVariableColumn?
    ensures r.Success? ==> StrictlyAscending(r.value)
    ensures r.Success? ==> forall v :: v in r.value <==> v in RootVars(root)
  {
    var variables: set<string> := {};
    for i := 0 to |root|
      invariant variables == RootVars(root[..i])
      invariant forall k :: 0 <= k < i ==> DirReadable(root[k])
    {
      assert root[..i + 1][..i] == root[..i];
      if root[i].Directory? {
        var found := ScanDirectory(root[i].files);
        if found.Failure? {
          return Failure(found.error);
        }
        variables := variables + found.value;
      }
    }
    assert root[..|root|] == root;
    var vocab := SortStrings(variables);
    return Success(vocab);
  }

  /** The inner loop of `load_variable_vocab` over one split directory. */
  method ScanDirectory(files: seq<EventFile>) returns (r: Result<set<string>, ConvertError>)
    ensures r.Success? <==> DirReadable(Directory("", files))
    ensures r.Failure? ==> r.error.NoVariableColumn?
    ensures r.Success? ==> r.value == FileVars(files)
  {
    var variables: set<string> := {};
    for j := 0 to |files|
      invariant variables == FileVars(files[..j])
      invariant forall k :: 0 <= k < j ==> FileReadable(files[k])
    {
      assert files[..j + 1][..j] == files[..j];
      var f := files[j];
      if IsEventFile(f.name) {
        if "variable" !in f.columns {
          assert !FileReadable(files[j]);
          return Failure(NoVariableColumn(f.name));
        }
        variables := variables + RowVars(f.rows);
      }
    }
    assert files[..|files|] == files;
    return Success(variables);
  }

  /** An event file's variables are among those of the split directory holding it. */
  lemma {:induction false} FileVarsMember(files: seq<EventFile>, j: nat, e: CleanEvent)
    requires j < |files| && IsEventFile(files[j].name) && e in files[j].rows
    ensures e.variable in FileVars(files)
    decreases |files|
  {
    if j < |files| - 1 {
      FileVarsMember(files[..|files| - 1], j, e);
    }
  }

  /** An event file's variables are among those of the root holding it. */
  lemma {:induction false} RootVarsMember(root: seq<Entry>, i: nat, j: nat, e: CleanEvent)
    requires i < |root| && root[i].Directory? && j < |root[i].files|
    requires IsEventFile(root[i].files[j].name) && e in root[i].files[j].rows
    ensures e.variable in RootVars(root)
    decreases |root|
  {
    if i < |root| - 1 {
      RootVarsMember(root[..|root| - 1], i, j, e);
    } else {
      FileVarsMember(root[i].files, j, e);
    }
  }

  // ---------------------------------------------------------------------------
  // Variable ids
  // ---------------------------------------------------------------------------

  /** `build_var_to_id`: vocab[i] gets id i + 1; a repeated name keeps the
      id of its last position, as in the dict comprehension. */
  function BuildVarToId(vocab: seq<string>): (m: map<string, int>)
    ensures forall v :: v in m <==> v in vocab
    ensures forall v :: v in m ==> 1 <= m[v] <= |vocab| && vocab[m[v] - 1] == v
    decreases |vocab|
  {
    if vocab == [] then map[]
    else
      var n := |vocab|;
      assert forall v :: v in vocab <==> v in vocab[..n - 1] || v == vocab[n - 1];
      BuildVarToId(vocab[..n - 1])[vocab[n - 1] := n]
  }

  /** The name behind a vocabulary id. */
  function Decode(vocab: seq<string>, k: int): string
    requires 1 <= k <= |vocab|
  {
    vocab[k - 1]
  }

  /** Distinct names get distinct ids, and the id 0 is never given out. */
  lemma VarToIdInjective(vocab: seq<string>, a: string, b: string)
    requires a in BuildVarToId(vocab) && b in BuildVarToId(vocab)
    requires BuildVarToId(vocab)[a] == BuildVarToId(vocab)[b]
    ensures a == b
    ensures BuildVarToId(vocab)[a] != 0
  {
  }

  /** Over a duplicate-free vocabulary the ids are a bijection onto 1..N whose
      inverse is Decode. */
  lemma VarToIdBijection(vocab: seq<string>)
    requires NoDup(vocab)
    ensures forall v :: v in BuildVarToId(vocab) ==> Decode(vocab, BuildVarToId(vocab)[v]) == v
    ensures forall k :: 1 <= k <= |vocab| ==>
      Decode(vocab, k) in BuildVarToId(vocab) && BuildVarToId(vocab)[Decode(vocab, k)] == k
  {
    var m := BuildVarToId(vocab);
    forall k | 1 <= k <= |vocab|
      ensures Decode(vocab, k) in m && m[Decode(vocab, k)] == k
    {
      assert vocab[k - 1] in vocab;
      var j := m[vocab[k - 1]] - 1;
      assert vocab[j] == vocab[k - 1];
    }
  }

  /** A strictly ascending vocabulary, as LoadVariableVocab builds, has no duplicates. */
  lemma AscendingNoDup(vocab: seq<string>)
    requires StrictlyAscending(vocab)
    ensures NoDup(vocab)
  {
    forall i, j | 0 <= i < j < |vocab| ensures vocab[i] != vocab[j] {
      if vocab[i] == vocab[j] {
        StrLtIrreflexive(vocab[i]);
      }
    }
  }

  // ---------------------------------------------------------------------------
  // Re-encoding events
  // ---------------------------------------------------------------------------

  function EncodeEvent(e: CleanEvent, m: map<string, int>): EncodedEvent
    requires e.variable in m
  {
    EncodedEvent(e.sampleId, e.hours, m[e.variable], e.value)
  }

  /** Lines 44-47: `var_id = variable.map(var_to_id)`, rows with no id
      dropped, the variable column replaced by var_id. */
  function Encode(rows: seq<CleanEvent>, m: map<string, int>): (r: seq<EncodedEvent>)
    ensures |r| <= |rows|
    ensures (forall i :: 0 <= i < |rows| ==> rows[i].variable in m) ==> |r| == |rows|
    decreases |rows|
  {
    if rows == [] then []
    else
      var e := rows[|rows| - 1];
      var rest := Encode(rows[..|rows| - 1], m);
      if e.variable in m then rest + [EncodeEvent(e, m)] else rest
  }

  /** The rows whose variable has an id (see MappedFilter). */
  function Mapped(rows: seq<CleanEvent>, m: map<string, int>): (r: seq<CleanEvent>)
    ensures forall e :: e in r <==> e in rows && e.variable in m
    decreases |rows|
  {
    if rows == [] then []
    else
      var e := rows[|rows| - 1];
      var rest := Mapped(rows[..|rows| - 1], m);
      assert rows == rows[..|rows| - 1] + [e];
      if e.variable in m then rest + [e] else rest
  }

  /** The rows whose variable has an id keep their order in rows and appear as
      often as rows holds them. */
  lemma {:induction false} MappedFilter(rows: seq<CleanEvent>, m: map<string, int>)
    ensures Subseq(Mapped(rows, m), rows)
    ensures forall e :: multiset(Mapped(rows, m))[e] == if e.variable in m then multiset(rows)[e] else 0
    decreases |rows|
  {
    if rows != [] {
      var init := rows[..|rows| - 1];
      var e := rows[|rows| - 1];
      assert rows == init + [e];
      var rest := Mapped(init, m);
      MappedFilter(init, m);
      assert multiset(rows) == multiset(init) + multiset{e};
      if e.variable in m {
        assert Mapped(rows, m) == rest + [e];
        SubseqAppendBoth(rest, init, e);
      } else {
        assert Mapped(rows, m) == rest;
        SubseqExtend(rest, init, e);
      }
    }
  }

  function DecodeEvent(vocab: seq<string>, x: EncodedEvent): CleanEvent
    requires 1 <= x.varId <= |vocab|
  {
    CleanEvent(x.sampleId, x.hours, Decode(vocab, x.varId), x.value)
  }

  /** Every id Encode writes lies in 1..N. */
  lemma {:induction false} EncodeIds(rows: seq<CleanEvent>, vocab: seq<string>)
    ensures forall a :: 0 <= a < |Encode(rows, BuildVarToId(vocab))| ==>
      1 <= Encode(rows, BuildVarToId(vocab))[a].varId <= |vocab|
    decreases |rows|
  {
    if rows != [] {
      EncodeIds(rows[..|rows| - 1], vocab);
    }
  }

  /** Decoding the ids written under BuildVarToId(vocab) gives back exactly
      the rows whose variable is in the vocabulary, in order. */
  lemma {:induction false} EncodeDecode(rows: seq<CleanEvent>, vocab: seq<string>)
    ensures var enc := Encode(rows, BuildVarToId(vocab));
      (forall a :: 0 <= a < |enc| ==> 1 <= enc[a].varId <= |vocab|)
      && |enc| == |Mapped(rows, BuildVarToId(vocab))|
      && forall a :: 0 <= a < |enc| ==> DecodeEvent(vocab, enc[a]) == Mapped(rows, BuildVarToId(vocab))[a]
    decreases |rows|
  {
    EncodeIds(rows, vocab);
    if rows != [] {
      var m := BuildVarToId(vocab);
      var init := rows[..|rows| - 1];
      var e := rows[|rows| - 1];
      EncodeDecode(init, vocab);
      EncodeIds(init, vocab);
      var enc := Encode(rows, m);
      var prev := Encode(init, m);
      if e.variable in m {
        assert enc == prev + [EncodeEvent(e, m)];
        assert Mapped(rows, m) == Mapped(init, m) + [e];
        assert DecodeEvent(vocab, EncodeEvent(e, m)) == e;
        forall a | 0 <= a < |enc| ensures DecodeEvent(vocab, enc[a]) == Mapped(rows, m)[a] {
          if a < |prev| {
            assert enc[a] == prev[a] && Mapped(rows, m)[a] == Mapped(init, m)[a];
          }
        }
      } else {
        assert enc == prev && Mapped(rows, m) == Mapped(init, m);
      }
    }
  }

  /** When every variable has an id nothing is dropped: decoding returns the rows. */
  lemma {:induction false} EncodeDecodeTotal(rows: seq<CleanEvent>, vocab: seq<string>)
    requires forall i :: 0 <= i < |rows| ==> rows[i].variable in vocab
    ensures var enc := Encode(rows, BuildVarToId(vocab));
      |enc| == |rows|
      && forall a :: 0 <= a < |enc| ==> 1 <= enc[a].varId <= |vocab| && DecodeEvent(vocab, enc[a]) == rows[a]
    decreases |rows|
  {
    EncodeDecode(rows, vocab);
    MappedAll(rows, BuildVarToId(vocab));
  }

  lemma {:induction false} MappedAll(rows: seq<CleanEvent>, m: map<string, int>)
    requires forall i :: 0 <= i < |rows| ==> rows[i].variable in m
    ensures Mapped(rows, m) == rows
    decreases |rows|
  {
    if rows != [] {
      MappedAll(rows[..|rows| - 1], m);
      assert rows == rows[..|rows| - 1] + [rows[|rows| - 1]];
    }
  }

  /** Re-encoding keeps every kept row's sample id, time and value, and no key
      grows past a bound all the input keys stay under. */
  lemma {:induction false} EncodeBound(rows: seq<CleanEvent>, m: map<string, int>, k: SortKey)
    requires forall i :: 0 <= i < |rows| ==> KeyLe(CleanKey(rows[i]), k)
    ensures forall a :: 0 <= a < |Encode(rows, m)| ==> KeyLe(EncodedKey(Encode(rows, m)[a]), k)
    decreases |rows|
  {
    if rows != [] {
      EncodeBound(rows[..|rows| - 1], m, k);
    }
  }

  /** Dropping rows and replacing names by ids keeps (sample_id, hours) order. */
  lemma {:induction false} EncodeSorted(rows: seq<CleanEvent>, m: map<string, int>)
    requires SortedBy(rows, CleanKey)
    ensures SortedBy(Encode(rows, m), EncodedKey)
    decreases |rows|
  {
    if rows != [] {
      var n := |rows|;
      var init := rows[..n - 1];
      assert SortedBy(init, CleanKey) by {
        forall i, j | 0 <= i < j < |init| ensures KeyLe(CleanKey(init[i]), CleanKey(init[j])) {
          assert init[i] == rows[i] && init[j] == rows[j];
        }
      }
      EncodeSorted(init, m);
      EncodeBound(init, m, CleanKey(rows[n - 1]));
    }
  }

  /** One event file after line 43 to line 47: sorted, then re-encoded. */
  function ConvertFile(f: EventFile, m: map<string, int>): seq<EncodedEvent> {
    Encode(SortBy(f.rows, CleanKey), m)
  }

  /** Each converted file is non-decreasing in (sample_id, hours). */
  lemma ConvertFileSorted(f: EventFile, m: map<string, int>)
    ensures SortedBy(ConvertFile(f, m), EncodedKey)
  {
    EncodeSorted(SortBy(f.rows, CleanKey), m);
  }

  /** Ids read back as variable names, table by table. */
  function DecodeAll(vocab: seq<string>, enc: seq<EncodedEvent>): seq<CleanEvent>
    requires forall a :: 0 <= a < |enc| ==> 1 <= enc[a].varId <= |vocab|
  {
    seq(|enc|, a requires 0 <= a < |enc| => DecodeEvent(vocab, enc[a]))
  }

  /** With a vocabulary covering the file, conversion keeps every row: decoded,
      the output is the file's rows in (sample_id, hours) order. */
  lemma ConvertFileRoundTrip(f: EventFile, vocab: seq<string>)
    requires forall e :: e in f.rows ==> e.variable in vocab
    ensures var out := ConvertFile(f, BuildVarToId(vocab));
      (forall a :: 0 <= a < |out| ==> 1 <= out[a].varId <= |vocab|)
      && DecodeAll(vocab, out) == SortBy(f.rows, CleanKey)
  {
    var sorted := SortBy(f.rows, CleanKey);
    forall i | 0 <= i < |sorted| ensures sorted[i].variable in vocab {
      assert sorted[i] in multiset(f.rows);
    }
    EncodeDecodeTotal(sorted, vocab);
  }

  /** Hence conversion neither drops nor duplicates a row of a covered file. */
  lemma ConvertFileComplete(f: EventFile, vocab: seq<string>)
    requires forall e :: e in f.rows ==> e.variable in vocab
    ensures var out := ConvertFile(f, BuildVarToId(vocab));
      |out| == |f.rows|
      && (forall a :: 0 <= a < |out| ==> 1 <= out[a].varId <= |vocab|)
      && multiset(DecodeAll(vocab, out)) == multiset(f.rows)
  {
    ConvertFileRoundTrip(f, vocab);
  }

  // ---------------------------------------------------------------------------
  // Converting a split
  // ---------------------------------------------------------------------------

  /** The event files of a split listing, in listing order. */
  function EventFiles(files: seq<EventFile>): seq<EventFile> {
    if files == [] then []
    else (if IsEventFile(files[0].name) then [files[0]] else []) + EventFiles(files[1..])
  }

  /** The event files are exactly the listed files whose name marks them. */
  lemma {:induction false} EventFilesMembers(files: seq<EventFile>)
    ensures forall f :: f in EventFiles(files) <==> f in files && IsEventFile(f.name)
  {
    if files != [] {
      EventFilesMembers(files[1..]);
      assert forall f :: f in files <==> f == files[0] || f in files[1..];
    }
  }

  lemma {:induction false} EventFilesAppend(a: seq<EventFile>, b: seq<EventFile>)
    ensures EventFiles(a + b) == EventFiles(a) + EventFiles(b)
    decreases |a|
  {
    if a != [] {
      var head := if IsEventFile(a[0].name) then [a[0]] else [];
      assert (a + b)[0] == a[0] && (a + b)[1..] == a[1..] + b;
      assert EventFiles(a + b) == head + EventFiles(a[1..] + b);
      EventFilesAppend(a[1..], b);
      assert EventFiles(a) == head + EventFiles(a[1..]);
    } else {
      assert a + b == b;
    }
  }

  /** Line 41: the file has all four long-format columns. */
  predicate HasEventColumns(f: EventFile) {
    "sample_id" in f.columns && "hours" in f.columns && "variable" in f.columns && "value" in f.columns
  }

  /** Position of the first file without the long-format columns. */
  function FirstWithoutColumns(ev: seq<EventFile>): (r: Option<nat>)
    ensures r.None? <==> forall k :: 0 <= k < |ev| ==> HasEventColumns(ev[k])
    ensures r.Some? ==> r.value < |ev| && !HasEventColumns(ev[r.value])
    ensures r.Some? ==> forall k :: 0 <= k < r.value ==> HasEventColumns(ev[k])
  {
    if ev == [] then None
    else if !HasEventColumns(ev[0]) then Some(0)
    else
      match FirstWithoutColumns(ev[1..])
      case None => None
      case Some(k) => Some(k + 1)
  }

  /** `pd.concat(records)`: the tables one after another. */
  function Flatten<T>(parts: seq<seq<T>>): (r: seq<T>)
    decreases |parts|
  {
    if parts == [] then [] else Flatten(parts[..|parts| - 1]) + parts[|parts| - 1]
  }

  function TotalLength<T>(parts: seq<seq<T>>): nat
    decreases |parts|
  {
    if parts == [] then 0 else TotalLength(parts[..|parts| - 1]) + |parts[|parts| - 1]|
  }

  /** The concatenation holds all the rows, part after part. */
  lemma {:induction false} FlattenLength<T>(parts: seq<seq<T>>)
    ensures |Flatten(parts)| == TotalLength(parts)
    decreases |parts|
  {
    if parts != [] {
      FlattenLength(parts[..|parts| - 1]);
    }
  }

  /** Each event file converted, in listing order. */
  function ConvertAll(ev: seq<EventFile>, m: map<string, int>): (r: seq<seq<EncodedEvent>>)
    ensures |r| == |ev|
    ensures forall k :: 0 <= k < |ev| ==> r[k] == ConvertFile(ev[k], m)
    decreases |ev|
  {
    if ev == [] then [] else ConvertAll(ev[..|ev| - 1], m) + [ConvertFile(ev[|ev| - 1], m)]
  }

  /** One more listed file: it joins the event files when its name says so. */
  lemma EventFilesStep(files: seq<EventFile>, j: nat)
    requires j < |files|
    ensures EventFiles(files[..j + 1])
         == EventFiles(files[..j]) + if IsEventFile(files[j].name) then [files[j]] else []
  {
    assert files[..j + 1] == files[..j] + [files[j]];
    EventFilesAppend(files[..j], [files[j]]);
  }

  /** A file with the columns keeps the first-bad search empty, and its
      conversion is appended. */
  lemma ConvertAllStep(ev: seq<EventFile>, f: EventFile, m: map<string, int>)
    requires FirstWithoutColumns(ev).None? && HasEventColumns(f)
    ensures FirstWithoutColumns(ev + [f]).None?
    ensures ConvertAll(ev + [f], m) == ConvertAll(ev, m) + [ConvertFile(f, m)]
  {
    assert forall k :: 0 <= k < |ev| ==> (ev + [f])[k] == ev[k];
    assert (ev + [f])[..|ev|] == ev;
  }

  /** An event file without the columns, after event files that all have
      them, is the first bad file of the whole listing. */
  lemma FirstBadFile(files: seq<EventFile>, j: nat)
    requires j < |files| && IsEventFile(files[j].name) && !HasEventColumns(files[j])
    requires FirstWithoutColumns(EventFiles(files[..j])).None?
    ensures var ev := EventFiles(files); var bad := FirstWithoutColumns(ev);
      bad.Some? && ev[bad.value] == files[j]
  {
    var seen := EventFiles(files[..j]);
    var tail := files[j..];
    assert files == files[..j] + tail;
    EventFilesAppend(files[..j], tail);
    assert tail[0] == files[j];
    assert EventFiles(tail)[0] == files[j];
    var ev := EventFiles(files);
    assert ev[|seen|] == files[j];
    var bad := FirstWithoutColumns(ev);
    assert forall k :: 0 <= k < |seen| ==> ev[k] == seen[k];
    assert forall k :: 0 <= k < |seen| ==> HasEventColumns(ev[k]);
    assert bad.Some? && bad.value <= |seen|;
    assert bad.value >= |seen|;
  }

  /** What a split produces: its labels table and its events table. */
  datatype ConvertedSplit<L> = ConvertedSplit(labels: L, events: seq<EncodedEvent>)

  /** `convert_split`: the labels are copied; every event file of the listing,
      in listing order, is checked, sorted and re-encoded, and the results are
      concatenated. The first file without the four columns stops the split;
      a split without event files is an error. */
  method ConvertSplit<L>(labels: L, files: seq<EventFile>, m: map<string, int>)
    returns (r: Result<ConvertedSplit<L>, ConvertError>)
    ensures var ev := EventFiles(files); var bad := FirstWithoutColumns(ev);
      (bad.Some? ==> r == Failure(MissingColumns(ev[bad.value].name)))
      && (bad.None? && ev == [] ==> r == Failure(NoEventFiles))
      && (bad.None? && ev != [] ==> r == Success(ConvertedSplit(labels, Flatten(ConvertAll(ev, m)))))
  {
    var records: seq<seq<EncodedEvent>> := [];
    for j := 0 to |files|
      invariant FirstWithoutColumns(EventFiles(files[..j])).None?
      invariant records == ConvertAll(EventFiles(files[..j]), m)
    {
      var f := files[j];
      EventFilesStep(files, j);
      if IsEventFile(f.name) {
        if !HasEventColumns(f) {
          FirstBadFile(files, j);
          return Failure(MissingColumns(f.name));
        }
        ConvertAllStep(EventFiles(files[..j]), f, m);
        records := records + [ConvertFile(f, m)];
      }
    }
    assert files[..|files|] == files;
    if records == [] {
      return Failure(NoEventFiles);
    }
    r := Success(ConvertedSplit(labels, Flatten(records)));
  }

  /** A vocabulary built from a root covers every event file of every split
      under it, so converting any of those splits with it drops no row: the
      split's events table has as many rows as its event files together. */
  lemma SameRootDropsNothing(root: seq<Entry>, vocab: seq<string>, i: nat)
    requires forall v :: v in vocab <==> v in RootVars(root)
    requires i < |root| && root[i].Directory?
    ensures var ev := EventFiles(root[i].files);
      forall k :: 0 <= k < |ev| ==> |ConvertFile(ev[k], BuildVarToId(vocab))| == |ev[k].rows|
    ensures var ev := EventFiles(root[i].files);
      |Flatten(ConvertAll(ev, BuildVarToId(vocab)))| == TotalLength(seq(|ev|, k requires 0 <= k < |ev| => ev[k].rows))
  {
    var files := root[i].files;
    var ev := EventFiles(files);
    var m := BuildVarToId(vocab);
    forall k | 0 <= k < |ev|
      ensures |ConvertFile(ev[k], m)| == |ev[k].rows|
    {
      var f := ev[k];
      EventFilesMembers(files);
      assert f in files;
      var j :| 0 <= j < |files| && files[j] == f;
      forall e | e in f.rows ensures e.variable in vocab {
        RootVarsMember(root, i, j, e);
      }
      ConvertFileComplete(f, vocab);
    }
    var parts := ConvertAll(ev, m);
    FlattenLength(parts);
    TotalLengthPointwise(parts, seq(|ev|, k requires 0 <= k < |ev| => ev[k].rows));
  }

  /** Two lists of parts with equal part lengths have equal total length. */
  lemma {:induction false} TotalLengthPointwise<S, T>(a: seq<seq<S>>, b: seq<seq<T>>)
    requires |a| == |b| && forall k :: 0 <= k < |a| ==> |a[k]| == |b[k]|
    ensures TotalLength(a) == TotalLength(b)
    decreases |a|
  {
    if a != [] {
      TotalLengthPointwise(a[..|a| - 1], b[..|b| - 1]);
    }
  }

  /** Concatenating sorted files in listing order need not give a sorted table:
      a later file may hold a smaller sample id. */
  lemma ConcatenationNotSorted()
    ensures var late := [EncodedEvent("train_1", 0.0, 1, 5.0)];
      var early := [EncodedEvent("train_0", 0.0, 1, 5.0)];
      SortedBy(late, EncodedKey) && SortedBy(early, EncodedKey)
      && !SortedBy(Flatten([late, early]), EncodedKey)
  {
    var late := [EncodedEvent("train_1", 0.0, 1, 5.0)];
    var early := [EncodedEvent("train_0", 0.0, 1, 5.0)];
    var all := Flatten([late, early]);
    assert [late, early][..1] == [late];
    assert [late][..0] == [];
    assert Flatten([late]) == late;
    assert all == late + early;
    assert StrLt("train_0", "train_1") by {
      assert "train_0"[1..] == "rain_0" && "train_1"[1..] == "rain_1";
      assert "rain_0"[1..] == "ain_0" && "rain_1"[1..] == "ain_1";
      assert "ain_0"[1..] == "in_0" && "ain_1"[1..] == "in_1";
      assert "in_0"[1..] == "n_0" && "in_1"[1..] == "n_1";
      assert "n_0"[1..] == "_0" && "n_1"[1..] == "_1";
      assert "_0"[1..] == "0" && "_1"[1..] == "1";
    }
    StrLtAsymmetric("train_0", "train_1");
    assert !KeyLe(EncodedKey(all[0]), EncodedKey(all[1]));
  }
}
