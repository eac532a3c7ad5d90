/** Stage 3, the sequence packer (3_build_seq.py): a split's events are sorted
    by (sample_id, hours), grouped by sample in order of first appearance, and
    each group is packed into a max_len x 4 array of (hours, var_id, value, 0)
    rows: left-aligned and zero-padded when it fits, its newest max_len events
    when it does not. */
module BuildSeq {
  import opened Strings
  import opened Seqs
  import opened Sorting
  import opened Tables

  // ---------------------------------------------------------------------------
  // Grouping (`groupby("sample_id", sort=False)`)
  // ---------------------------------------------------------------------------

  function SampleIds(events: seq<EncodedEvent>): set<string> {
    set e | e in events :: e.sampleId
  }

  /** The distinct sample ids, in order of first appearance. */
  function SampleOrder(events: seq<EncodedEvent>): (r: seq<string>)
    ensures NoDup(r)
    ensures forall id :: id in r <==> id in SampleIds(events)
    decreases |events|
  {
    if events == [] then []
    else
      var init := events[..|events| - 1];
      var e := events[|events| - 1];
      assert events == init + [e];
      var prev := SampleOrder(init);
      if e.sampleId in prev then prev else prev + [e.sampleId]
  }

  /** The events of one sample, in their order in events (see GroupFilter). */
  function Group(events: seq<EncodedEvent>, id: string): (r: seq<EncodedEvent>)
    ensures forall x :: x in r <==> x in events && x.sampleId == id
    ensures |r| <= |events|
    decreases |events|
  {
    if events == [] then []
    else
      var init := events[..|events| - 1];
      var e := events[|events| - 1];
      assert events == init + [e];
      if e.sampleId == id then Group(init, id) + [e] else Group(init, id)
  }

  /** The group of a sample is a subsequence of events holding each event of
      that sample as often as events does, and nothing else. */
  lemma {:induction false} GroupFilter(events: seq<EncodedEvent>, id: string)
    ensures Subseq(Group(events, id), events)
    ensures forall x :: multiset(Group(events, id))[x] == if x.sampleId == id then multiset(events)[x] else 0
    decreases |events|
  {
    if events != [] {
      var init := events[..|events| - 1];
      var e := events[|events| - 1];
      assert events == init + [e];
      var g := Group(init, id);
      GroupFilter(init, id);
      assert multiset(events) == multiset(init) + multiset{e};
      if e.sampleId == id {
        assert Group(events, id) == g + [e];
        SubseqAppendBoth(g, init, e);
      } else {
        assert Group(events, id) == g;
        SubseqExtend(g, init, e);
      }
    }
  }

  /** Every sample of the order has a non-empty group. */
  lemma GroupNonEmpty(events: seq<EncodedEvent>, id: string)
    requires id in SampleOrder(events)
    ensures |Group(events, id)| > 0
  {
    var e :| e in events && e.sampleId == id;
    assert e in Group(events, id);
  }

  /** Filtering by sample keeps any bound the keys stay under. */
  lemma {:induction false} GroupBound(events: seq<EncodedEvent>, id: string, k: SortKey)
    requires forall i :: 0 <= i < |events| ==> KeyLe(EncodedKey(events[i]), k)
    ensures forall a :: 0 <= a < |Group(events, id)| ==> KeyLe(EncodedKey(Group(events, id)[a]), k)
    decreases |events|
  {
    if events != [] {
      GroupBound(events[..|events| - 1], id, k);
    }
  }

  lemma SortedInit(s: seq<EncodedEvent>)
    requires SortedBy(s, EncodedKey) && s != []
    ensures SortedBy(s[..|s| - 1], EncodedKey)
  {
    var init := s[..|s| - 1];
    forall i, j | 0 <= i < j < |init| ensures KeyLe(EncodedKey(init[i]), EncodedKey(init[j])) {
      assert init[i] == s[i] && init[j] == s[j];
    }
  }

  /** The times of g never decrease. */
  predicate Chronological(g: seq<EncodedEvent>) {
    forall a, b :: 0 <= a < b < |g| ==> g[a].hours <= g[b].hours
  }

  /** After the sort, each group is in time order. */
  lemma {:induction false} GroupChronological(events: seq<EncodedEvent>, id: string)
    requires SortedBy(events, EncodedKey)
    ensures Chronological(Group(events, id))
    decreases |events|
  {
    if events != [] {
      var n := |events|;
      SortedInit(events);
      GroupChronological(events[..n - 1], id);
      GroupBound(events[..n - 1], id, EncodedKey(events[n - 1]));
      var prev := Group(events[..n - 1], id);
      var g := Group(events, id);
      if events[n - 1].sampleId != id {
        assert g == prev;
      } else {
        assert g == prev + [events[n - 1]];
        StrLtIrreflexive(id);
        forall a, b | 0 <= a < b < |g| ensures g[a].hours <= g[b].hours {
          if b == |g| - 1 {
            assert g[a] == prev[a] && prev[a] in prev && prev[a].sampleId == id;
            assert g[b] == events[n - 1];
            assert KeyLe(EncodedKey(prev[a]), EncodedKey(events[n - 1]));
          } else {
            assert g[a] == prev[a] && g[b] == prev[b];
          }
        }
      }
    }
  }

  /** After the sort, the samples come in ascending id order (as strings). */
  lemma {:induction false} SortedSampleOrder(events: seq<EncodedEvent>)
    requires SortedBy(events, EncodedKey)
    ensures StrictlyAscending(SampleOrder(events))
    decreases |events|
  {
    if events != [] {
      var n := |events|;
      var init := events[..n - 1];
      var e := events[n - 1];
      SortedInit(events);
      SortedSampleOrder(init);
      var prev := SampleOrder(init);
      if e.sampleId !in prev {
        forall v | v in prev ensures StrLt(v, e.sampleId) {
          var x :| x in init && x.sampleId == v;
          var i :| 0 <= i < |init| && init[i] == x;
          assert KeyLe(EncodedKey(events[i]), EncodedKey(events[n - 1]));
        }
      }
    }
  }

  // ---------------------------------------------------------------------------
  // Packing one sample
  // ---------------------------------------------------------------------------

  /** The packed row of one event: time, variable id, value and the unused column. */
  function Row(e: EncodedEvent): seq<real> {
    [e.hours, e.varId as real, e.value, 0.0]
  }

  const ZeroRow: seq<real> := [0.0, 0.0, 0.0, 0.0]

  /** The events a max_len array keeps: all of them, or the last max_len. */
  function Kept(g: seq<EncodedEvent>, maxLen: nat): (r: seq<EncodedEvent>)
    ensures |r| == if |g| <= maxLen then |g| else maxLen
    ensures r == g[|g| - |r|..]
  {
    if |g| <= maxLen then g else g[|g| - maxLen..]
  }

  /** The max_len x 4 array a sample's events are packed into: max_len rows
      of four cells, the fourth column zero. */
  function Packed(g: seq<EncodedEvent>, maxLen: nat): (p: seq<seq<real>>)
    ensures |p| == maxLen
    ensures forall r :: 0 <= r < maxLen ==> |p[r]| == 4 && p[r][3] == 0.0
  {
    var kept := Kept(g, maxLen);
    seq(maxLen, r requires 0 <= r < maxLen => if r < |kept| then Row(kept[r]) else ZeroRow)
  }

  /** The first min(count, max_len) rows are the newest that many events, in
      order; every later row is zero. */
  lemma PackedSuffix(g: seq<EncodedEvent>, maxLen: nat)
    ensures var n := if |g| <= maxLen then |g| else maxLen;
      (forall r :: 0 <= r < n ==> Packed(g, maxLen)[r] == Row(g[|g| - n + r]))
      && (forall r :: n <= r < maxLen ==> Packed(g, maxLen)[r] == ZeroRow)
  {
  }

  /** A sample that fits is copied whole from row 0, the rest zero-padded. */
  lemma PackedShort(g: seq<EncodedEvent>, maxLen: nat)
    requires |g| <= maxLen
    ensures forall r :: 0 <= r < |g| ==> Packed(g, maxLen)[r] == Row(g[r])
    ensures forall r :: |g| <= r < maxLen ==> Packed(g, maxLen)[r] == ZeroRow
  {
    PackedSuffix(g, maxLen);
  }

  /** A sample that does not fit loses its oldest events: row r holds event
      count - max_len + r, and no row is padding. */
  lemma PackedLong(g: seq<EncodedEvent>, maxLen: nat)
    requires |g| > maxLen
    ensures forall r :: 0 <= r < maxLen ==> Packed(g, maxLen)[r] == Row(g[|g| - maxLen + r])
  {
    PackedSuffix(g, maxLen);
  }

  /** With max_len 2, three events keep the second and the third. */
  lemma PackedNewestTwo(e0: EncodedEvent, e1: EncodedEvent, e2: EncodedEvent)
    ensures Packed([e0, e1, e2], 2) == [Row(e1), Row(e2)]
  {
    PackedLong([e0, e1, e2], 2);
  }

  /** `pad_truncate` for one group: a zero max_len x 4 array into which the
      kept events' times, ids and values are written row by row. */
  method PackSample(g: seq<EncodedEvent>, maxLen: nat) returns (arr: array2<real>)
    ensures fresh(arr)
    ensures arr.Length0 == maxLen && arr.Length1 == 4
    ensures forall r, c :: 0 <= r < maxLen && 0 <= c < 4 ==> arr[r, c] == Packed(g, maxLen)[r][c]
  {
    arr := new real[maxLen, 4]((r, c) => 0.0);
    var s := g;
    if |g| > maxLen {
      s := g[|g| - maxLen..];
    }
    assert s == Kept(g, maxLen);
    for i := 0 to |s|
      invariant forall r, c :: 0 <= r < i && 0 <= c < 4 ==> arr[r, c] == Row(s[r])[c]
      invariant forall r, c :: i <= r < maxLen && 0 <= c < 4 ==> arr[r, c] == 0.0
    {
      arr[i, 0] := s[i].hours;
      arr[i, 1] := s[i].varId as real;
      arr[i, 2] := s[i].value;
    }
  }

  /** The array packed for sample k of events. */
  predicate HoldsPacked(arr: array2<real>, events: seq<EncodedEvent>, id: string, maxLen: nat)
    reads arr
  {
    arr.Length0 == maxLen && arr.Length1 == 4
    && forall r, c :: 0 <= r < maxLen && 0 <= c < 4 ==> arr[r, c] == Packed(Group(events, id), maxLen)[r][c]
  }

  /** `pad_truncate`: one (sample_id, array) pair per sample, in order of first
      appearance, each array packed from that sample's events alone. */
  method PadTruncate(events: seq<EncodedEvent>, maxLen: nat) returns (packed: seq<(string, array2<real>)>)
    requires maxLen >= 1
    ensures |packed| == |SampleOrder(events)|
    ensures forall k :: 0 <= k < |packed| ==> packed[k].0 == SampleOrder(events)[k]
    ensures forall k :: 0 <= k < |packed| ==> fresh(packed[k].1)
    ensures forall k :: 0 <= k < |packed| ==> HoldsPacked(packed[k].1, events, packed[k].0, maxLen)
    ensures forall k, l :: 0 <= k < l < |packed| ==> packed[k].1 != packed[l].1
  {
    var order := SampleOrder(events);
    packed := [];
    for k := 0 to |order|
      invariant |packed| == k
      invariant forall i :: 0 <= i < k ==> packed[i].0 == order[i]
      invariant forall i :: 0 <= i < k ==> fresh(packed[i].1)
      invariant forall i :: 0 <= i < k ==> HoldsPacked(packed[i].1, events, packed[i].0, maxLen)
      invariant forall i, l :: 0 <= i < l < k ==> packed[i].1 != packed[l].1
    {
      var arr := PackSample(Group(events, order[k]), maxLen);
      packed := packed + [(order[k], arr)];
    }
  }

  /** `process_split`: the events sorted by (sample_id, hours), packed, and
      split into the id list and the stacked arrays, index for index. Stacking
      needs at least one array: `stacked` is false, and nothing is saved, for
      a split without events. */
  method ProcessSplit(events: seq<EncodedEvent>, maxLen: nat)
    returns (stacked: bool, sampleIds: seq<string>, xs: seq<array2<real>>)
    requires maxLen >= 1
    ensures stacked <==> events != []
    ensures var sorted := SortBy(events, EncodedKey);
      sampleIds == SampleOrder(sorted)
      && |xs| == |sampleIds|
      && forall k :: 0 <= k < |xs| ==> HoldsPacked(xs[k], sorted, sampleIds[k], maxLen)
  {
    var sorted := SortBy(events, EncodedKey);
    var packed := PadTruncate(sorted, maxLen);
    sampleIds := seq(|packed|, k requires 0 <= k < |packed| => packed[k].0);
    xs := seq(|packed|, k requires 0 <= k < |packed| => packed[k].1);
    stacked := packed != [];
    if events != [] {
      assert sorted[0].sampleId in SampleIds(sorted);
    }
  }

  /** The samples of a split after the sort: ascending ids, each in time order
      and each a reordering-free selection of the sorted table. */
  lemma SplitOrder(events: seq<EncodedEvent>)
    ensures var sorted := SortBy(events, EncodedKey);
      StrictlyAscending(SampleOrder(sorted))
      && (forall id :: id in SampleOrder(sorted) <==> id in SampleIds(events))
      && forall id :: Chronological(Group(sorted, id))
  {
    var sorted := SortBy(events, EncodedKey);
    SortedSampleOrder(sorted);
    forall id ensures id in SampleIds(sorted) <==> id in SampleIds(events) {
      if id in SampleIds(sorted) {
        var e :| e in sorted && e.sampleId == id;
        assert e in multiset(sorted);
      }
      if id in SampleIds(events) {
        var e :| e in events && e.sampleId == id;
        assert e in multiset(events);
      }
    }
    forall id ensures Chronological(Group(sorted, id)) {
      GroupChronological(sorted, id);
    }
  }
}
