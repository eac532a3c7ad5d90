/** Sequence searches and filters shared by the stages: list comprehensions that
    drop excluded names, first-present searches over candidate lists, and the
    relations used to state that such results keep the original order. */
module Seqs {
  import opened Wrappers

  predicate NoDup<T(==)>(s: seq<T>) {
    forall i, j :: 0 <= i < j < |s| ==> s[i] != s[j]
  }

  /** a is obtained from b by deleting elements, without reordering. */
  predicate Subseq<T(==)>(a: seq<T>, b: seq<T>)
    decreases |b|
  {
    if a == [] then true
    else if b == [] then false
    else (a[0] == b[0] && Subseq(a[1..], b[1..])) || Subseq(a, b[1..])
  }

  /** The first position of x in s. */
  function IndexOf<T(==)>(s: seq<T>, x: T): (r: nat)
    requires x in s
    ensures r < |s| && s[r] == x
    ensures forall j :: 0 <= j < r ==> s[j] != x
  {
    if s[0] == x then 0 else 1 + IndexOf(s[1..], x)
  }

  /** In a list without duplicates, the first position of s[j] is j. */
  lemma IndexOfNoDup<T>(s: seq<T>, j: nat)
    requires NoDup(s) && j < |s|
    ensures IndexOf(s, s[j]) == j
  {
  }

  /** `[c for c in s if c not in excl]`. */
  function Without<T(==)>(s: seq<T>, excl: set<T>): (r: seq<T>)
    ensures forall x :: x in r ==> x in s && x !in excl
    ensures forall x :: x in s && x !in excl ==> x in r
    ensures Subseq(r, s)
    ensures |r| <= |s|
    ensures NoDup(s) ==> NoDup(r)
  {
    if s == [] then []
    else if s[0] in excl then Without(s[1..], excl)
    else
      var rest := Without(s[1..], excl);
      assert Subseq(rest, s[1..]);
      [s[0]] + rest
  }

  /** Position, in cands, of the first candidate that occurs in present
      (the early-return `for cand in cands: if cand in present: return cand`). */
  function FirstPresent<T(==)>(cands: seq<T>, present: seq<T>): (r: Option<nat>)
    ensures r.None? <==> forall c :: c in cands ==> c !in present
    ensures r.Some? ==> r.value < |cands| && cands[r.value] in present
    ensures r.Some? ==> forall j :: 0 <= j < r.value ==> cands[j] !in present
  {
    if cands == [] then None
    else if cands[0] in present then Some(0)
    else
      match FirstPresent(cands[1..], present)
      case None => None
      case Some(k) => Some(k + 1)
  }

  /** The first present candidate is the one at position k when it is present
      and no earlier candidate is. */
  lemma {:induction false} FirstPresentAt<T>(cands: seq<T>, present: seq<T>, k: nat)
    requires k < |cands| && cands[k] in present
    requires forall j :: 0 <= j < k ==> cands[j] !in present
    ensures FirstPresent(cands, present) == Some(k)
    decreases k
  {
    if k > 0 {
      FirstPresentAt(cands[1..], present, k - 1);
    }
  }

  /** Elements of a subsequence occur in the same relative order in the whole. */
  lemma {:induction false} SubseqMembers<T>(a: seq<T>, b: seq<T>)
    requires Subseq(a, b)
    ensures forall x :: x in a ==> x in b
    decreases |b|
  {
    if a != [] {
      if a[0] == b[0] && Subseq(a[1..], b[1..]) {
        SubseqMembers(a[1..], b[1..]);
        assert forall x :: x in a ==> x == a[0] || x in a[1..];
      } else {
        SubseqMembers(a, b[1..]);
      }
    }
  }

  lemma {:induction false} SubseqLast<T>(b: seq<T>, x: T)
    ensures Subseq([x], b + [x])
    decreases |b|
  {
    if b != [] {
      SubseqLast(b[1..], x);
      assert (b + [x])[1..] == b[1..] + [x];
    }
  }

  /** Keeping a new last element in both keeps the subsequence relation. */
  lemma {:induction false} SubseqAppendBoth<T>(a: seq<T>, b: seq<T>, x: T)
    requires Subseq(a, b)
    ensures Subseq(a + [x], b + [x])
    decreases |b|
  {
    if a == [] {
      SubseqLast(b, x);
      assert a + [x] == [x];
    } else {
      assert (a + [x])[0] == a[0] && (a + [x])[1..] == a[1..] + [x];
      assert (b + [x])[0] == b[0] && (b + [x])[1..] == b[1..] + [x];
      if a[0] == b[0] && Subseq(a[1..], b[1..]) {
        SubseqAppendBoth(a[1..], b[1..], x);
      } else {
        SubseqAppendBoth(a, b[1..], x);
      }
    }
  }

  /** Dropping a new last element of the whole keeps the subsequence relation. */
  lemma {:induction false} SubseqExtend<T>(a: seq<T>, b: seq<T>, y: T)
    requires Subseq(a, b)
    ensures Subseq(a, b + [y])
    decreases |b|
  {
    if a != [] {
      assert (b + [y])[0] == b[0] && (b + [y])[1..] == b[1..] + [y];
      if a[0] == b[0] && Subseq(a[1..], b[1..]) {
        SubseqExtend(a[1..], b[1..], y);
      } else {
        SubseqExtend(a, b[1..], y);
      }
    }
  }
}
