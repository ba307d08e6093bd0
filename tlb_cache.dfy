/** The translation-lookaside buffer: a bounded list of page-to-frame entries
    kept in insertion order, unique by page number, whose oldest entry (index 0)
    is dropped when a new entry would exceed the capacity. */
module TlbCache {

  datatype TlbEntry = TlbEntry(pageNumber: int, frameNumber: int, lastUsed: nat)

  /** `tlb.find(entry => entry.pageNumber === page)` with `tlb.indexOf` of the
      result: the index of the first entry for the page, or -1. */
  function Find(t: seq<TlbEntry>, page: int): (r: int)
    ensures -1 <= r < |t|
    ensures r == -1 <==> forall i :: 0 <= i < |t| ==> t[i].pageNumber != page
    ensures r >= 0 ==> t[r].pageNumber == page
    ensures r >= 0 ==> forall i :: 0 <= i < r ==> t[i].pageNumber != page
  {
    if t == [] then -1
    else if t[0].pageNumber == page then 0
    else
      var r := Find(t[1..], page);
      assert forall i :: 1 <= i < |t| ==> t[i] == t[1..][i - 1];
      if r == -1 then -1 else r + 1
  }

  /** No two entries share a page number: the first entry's page occurs
      nowhere after it, and the same holds of the rest. */
  predicate UniquePages(t: seq<TlbEntry>)
    decreases |t|
  {
    t == [] || ((forall x :: x in t[1..] ==> x.pageNumber != t[0].pageNumber) && UniquePages(t[1..]))
  }

  /** Uniqueness in the index form: no two positions share a page number. */
  lemma {:induction false} UniquePagesAt(t: seq<TlbEntry>, i: int, j: int)
    requires UniquePages(t) && 0 <= i < j < |t|
    ensures t[i].pageNumber != t[j].pageNumber
    decreases |t|
  {
    if i == 0 {
      assert t[j] == t[1..][j - 1];
      assert t[j] in t[1..];
    } else {
      assert t[i] == t[1..][i - 1] && t[j] == t[1..][j - 1];
      UniquePagesAt(t[1..], i - 1, j - 1);
    }
  }

  /** Appending an entry whose page is not yet present keeps pages unique. */
  lemma {:induction false} UniquePagesAppend(t: seq<TlbEntry>, e: TlbEntry)
    requires UniquePages(t) && forall x :: x in t ==> x.pageNumber != e.pageNumber
    ensures UniquePages(t + [e])
    decreases |t|
  {
    if t != [] {
      assert (t + [e])[1..] == t[1..] + [e];
      assert forall x :: x in t[1..] ==> x in t;
      UniquePagesAppend(t[1..], e);
    }
  }

  /** `a` is `b` with some entries left out, the rest in the same order. */
  ghost predicate IsSubsequence(a: seq<TlbEntry>, b: seq<TlbEntry>)
    decreases |b|
  {
    if a == [] then true
    else if b == [] then false
    else if a[0] == b[0] then IsSubsequence(a[1..], b[1..])
    else IsSubsequence(a, b[1..])
  }

  /** Leaving out the first entry of a subsequence keeps it a subsequence. */
  lemma {:induction false} SubsequenceTail(a: seq<TlbEntry>, b: seq<TlbEntry>)
    requires a != [] && IsSubsequence(a, b)
    ensures IsSubsequence(a[1..], b)
    decreases |b|
  {
    assert b != [];
    if a[0] != b[0] {
      SubsequenceTail(a, b[1..]);
    }
    // now IsSubsequence(a[1..], b[1..]) holds in both cases
    if a[1..] != [] && a[1..][0] == b[0] {
      SubsequenceTail(a[1..], b[1..]);
    }
  }

  /** A subsequence of the tail of `b` is a subsequence of `b`. */
  lemma SubsequenceOfTail(a: seq<TlbEntry>, b: seq<TlbEntry>)
    requires b != [] && IsSubsequence(a, b[1..])
    ensures IsSubsequence(a, b)
  {
    if a != [] && a[0] == b[0] {
      SubsequenceTail(a, b[1..]);
    }
  }

  /** `tlb.filter(entry => entry.pageNumber !== page)`. */
  function RemovePage(t: seq<TlbEntry>, page: int): (r: seq<TlbEntry>)
    ensures |r| <= |t|
    ensures forall e :: e in r <==> e in t && e.pageNumber != page
    ensures IsSubsequence(r, t)
    ensures UniquePages(t) ==> UniquePages(r)
  {
    if t == [] then []
    else
      var rest := RemovePage(t[1..], page);
      assert t == [t[0]] + t[1..];
      if t[0].pageNumber == page then
        SubsequenceOfTail(rest, t);
        rest
      else
        assert ([t[0]] + rest)[1..] == rest;
        [t[0]] + rest
  }

  /** The filter keeps every copy of an entry of another page and no copy of
      an entry of the page, whether or not the list has duplicates. */
  lemma {:induction false} RemovePageCounts(t: seq<TlbEntry>, page: int)
    ensures forall x :: multiset(RemovePage(t, page))[x] == if x.pageNumber != page then multiset(t)[x] else 0
    decreases |t|
  {
    if t != [] {
      RemovePageCounts(t[1..], page);
      assert t == [t[0]] + t[1..];
      assert multiset(t) == multiset([t[0]]) + multiset(t[1..]);
      var rest := RemovePage(t[1..], page);
      if t[0].pageNumber != page {
        assert multiset([t[0]] + rest) == multiset([t[0]]) + multiset(rest);
      }
    }
  }

  /** `updateTLB`: filter out the page, shift the oldest survivor off when the
      filtered list is already at capacity, push the new entry. */
  function Insert(t: seq<TlbEntry>, e: TlbEntry, capacity: nat): (r: seq<TlbEntry>)
    requires capacity > 0
    ensures |r| > 0 && r[|r| - 1] == e
    ensures |t| <= capacity ==> |r| <= capacity
    ensures UniquePages(t) ==> UniquePages(r)
    ensures forall x :: x in r ==> x in t || x == e
    ensures IsSubsequence(r[..|r| - 1], t)
    ensures forall x :: x in r[..|r| - 1] ==> x.pageNumber != e.pageNumber
    ensures |RemovePage(t, e.pageNumber)| < capacity ==> r[..|r| - 1] == RemovePage(t, e.pageNumber)
    ensures |RemovePage(t, e.pageNumber)| >= capacity ==> r[..|r| - 1] == RemovePage(t, e.pageNumber)[1..]
  {
    var kept := RemovePage(t, e.pageNumber);
    var survivors := if |kept| >= capacity then kept[1..] else kept;
    assert |kept| >= capacity ==> IsSubsequence(kept[1..], t) by {
      if |kept| >= capacity {
        SubsequenceTail(kept, t);
      }
    }
    assert (survivors + [e])[..|survivors|] == survivors;
    assert forall x :: x in survivors ==> x in kept;
    assert UniquePages(t) ==> UniquePages(survivors + [e]) by {
      if UniquePages(t) {
        assert UniquePages(kept);
        assert UniquePages(survivors);
        assert forall x :: x in survivors ==> x.pageNumber != e.pageNumber;
        UniquePagesAppend(survivors, e);
      }
    }
    survivors + [e]
  }

  /** After an insertion the page is found, at the last position. */
  lemma FindAfterInsert(t: seq<TlbEntry>, e: TlbEntry, capacity: nat)
    requires capacity > 0
    ensures var r := Insert(t, e, capacity); Find(r, e.pageNumber) == |r| - 1
  {
    var r := Insert(t, e, capacity);
    forall i | 0 <= i < |r| - 1 ensures r[i].pageNumber != e.pageNumber {
      assert r[i] in r[..|r| - 1];
    }
  }
}
