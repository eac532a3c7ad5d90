/** The table sorts the pipeline asks pandas for (`sort_values`). Only what
    every correct sort guarantees is modelled: the result is ordered by the key
    and is a permutation of the input. Tie order is left open. */
module Sorting {
  import opened Strings

  /** A sort key (string part, numeric part), compared lexicographically.
      `sort_values(["sample_id", "hours"])` uses both parts; a sort on the time
      column alone uses a constant string part. */
  datatype SortKey = SortKey(id: string, t: real)

  predicate KeyLe(a: SortKey, b: SortKey) {
    StrLt(a.id, b.id) || (a.id == b.id && a.t <= b.t)
  }

  lemma KeyLeTotal(a: SortKey, b: SortKey)
    ensures KeyLe(a, b) || KeyLe(b, a)
  {
    StrLtTotal(a.id, b.id);
  }

  lemma KeyLeTransitive(a: SortKey, b: SortKey, c: SortKey)
    requires KeyLe(a, b) && KeyLe(b, c)
    ensures KeyLe(a, c)
  {
    if StrLt(a.id, b.id) && StrLt(b.id, c.id) {
      StrLtTransitive(a.id, b.id, c.id);
    }
  }

  predicate SortedBy<T>(s: seq<T>, key: T -> SortKey) {
    forall i, j :: 0 <= i < j < |s| ==> KeyLe(key(s[i]), key(s[j]))
  }

  /** Sortedness checked on neighbours only implies sortedness. */
  lemma {:induction false} SortedByAdjacent<T>(s: seq<T>, key: T -> SortKey)
    requires forall i :: 0 <= i < |s| - 1 ==> KeyLe(key(s[i]), key(s[i + 1]))
    ensures SortedBy(s, key)
    decreases |s|
  {
    if |s| > 1 {
      SortedByAdjacent(s[1..], key);
      forall j | 1 < j < |s|
        ensures KeyLe(key(s[0]), key(s[j]))
      {
        assert KeyLe(key(s[1]), key(s[j])) by { assert s[1..][0] == s[1] && s[1..][j - 1] == s[j]; }
        KeyLeTransitive(key(s[0]), key(s[1]), key(s[j]));
      }
    }
  }

  /** x before a sorted s whose first key is not below x's. */
  lemma SortedFront<T>(x: T, s: seq<T>, key: T -> SortKey)
    requires SortedBy(s, key) && (s == [] || KeyLe(key(x), key(s[0])))
    ensures SortedBy([x] + s, key)
  {
    forall j | 0 < j < |s| + 1
      ensures KeyLe(key(x), key(([x] + s)[j]))
    {
      if j > 1 {
        KeyLeTransitive(key(x), key(s[0]), key(s[j - 1]));
      }
    }
  }

  /** head before a sorted rest made of head's sorted tail plus an x not below head. */
  lemma SortedCons<T>(head: T, tail: seq<T>, x: T, rest: seq<T>, key: T -> SortKey)
    requires SortedBy([head] + tail, key) && KeyLe(key(head), key(x))
    requires SortedBy(rest, key) && multiset(rest) == multiset(tail) + multiset{x}
    ensures SortedBy([head] + rest, key)
  {
    forall y | y in rest ensures KeyLe(key(head), key(y)) {
      assert y in multiset(rest);
      if y != x {
        assert y in tail;
        var j :| 0 <= j < |tail| && tail[j] == y;
        assert ([head] + tail)[0] == head && ([head] + tail)[j + 1] == y;
      }
    }
    var r := [head] + rest;
    forall i, j | 0 <= i < j < |r| ensures KeyLe(key(r[i]), key(r[j])) {
      if i == 0 {
        assert r[j] in rest;
      } else {
        assert r[i] == rest[i - 1] && r[j] == rest[j - 1];
      }
    }
  }

  function Insert<T>(x: T, s: seq<T>, key: T -> SortKey): (r: seq<T>)
    requires SortedBy(s, key)
    ensures SortedBy(r, key)
    ensures multiset(r) == multiset(s) + multiset{x}
  {
    if s == [] || KeyLe(key(x), key(s[0])) then
      SortedFront(x, s, key);
      [x] + s
    else
      KeyLeTotal(key(x), key(s[0]));
      assert s == [s[0]] + s[1..];
      assert SortedBy(s[1..], key) by {
        forall i, j | 0 <= i < j < |s[1..]| ensures KeyLe(key(s[1..][i]), key(s[1..][j])) {
          assert s[1..][i] == s[i + 1] && s[1..][j] == s[j + 1];
        }
      }
      var rest := Insert(x, s[1..], key);
      SortedCons(s[0], s[1..], x, rest, key);
      [s[0]] + rest
  }

  /** `sort_values`: an ordered permutation of s. */
  function SortBy<T>(s: seq<T>, key: T -> SortKey): (r: seq<T>)
    ensures SortedBy(r, key)
    ensures multiset(r) == multiset(s)
    ensures |r| == |s|
  {
    if s == [] then []
    else
      assert s == [s[0]] + s[1..];
      Insert(s[0], SortBy(s[1..], key), key)
  }
}
