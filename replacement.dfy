/** Physical frames and the victim choice of the four page-replacement
    policies. Each policy is a left-to-right fold over the frames with a strict
    comparison, so a tie always goes to the lowest frame index. */
module Replacement {

  /** One physical frame: whether it holds a page, which page (-1 when free)
      and the clock value of its last installation or access. */
  datatype Frame = Frame(used: bool, pageNumber: int, lastUsed: nat)

  /** The frame every slot starts as, and returns to on reset. */
  const EmptyFrame := Frame(false, -1, 0)

  /** The replacement algorithm; `Other` is any other selector value, for
      which the victim is frame 0. */
  datatype Policy = FIFO | LRU | MRU | OPTIMAL | Other

  /** JavaScript's Number.MAX_SAFE_INTEGER: the distance of a page the
      lookahead never references again. */
  const MaxSafeInteger: int := 9007199254740991

  /** `memory.findIndex(frame => !frame.used)`: the lowest free frame, or -1. */
  function FirstFree(m: seq<Frame>): (r: int)
    ensures -1 <= r < |m|
    ensures r == -1 <==> forall j :: 0 <= j < |m| ==> m[j].used
    ensures r >= 0 ==> !m[r].used && forall j :: 0 <= j < r ==> m[j].used
  {
    if m == [] then -1
    else if !m[0].used then 0
    else
      var r := FirstFree(m[1..]);
      assert forall j :: 1 <= j < |m| ==> m[j] == m[1..][j - 1];
      if r == -1 then -1 else r + 1
  }

  /** The reduce that FIFO and LRU share, over frames [0, k): the index
      reached by keeping the accumulator unless a frame has a strictly
      smaller `lastUsed`. */
  function OldestScan(m: seq<Frame>, k: nat): (r: nat)
    requires 0 < k <= |m|
    ensures r < k
    ensures forall j :: 0 <= j < k ==> m[r].lastUsed <= m[j].lastUsed
    ensures forall j :: 0 <= j < r ==> m[j].lastUsed > m[r].lastUsed
  {
    if k == 1 then 0
    else
      var acc := OldestScan(m, k - 1);
      if m[k - 1].lastUsed < m[acc].lastUsed then k - 1 else acc
  }

  /** The MRU reduce over frames [0, k): switch only on a strictly larger
      `lastUsed`. */
  function NewestScan(m: seq<Frame>, k: nat): (r: nat)
    requires 0 < k <= |m|
    ensures r < k
    ensures forall j :: 0 <= j < k ==> m[j].lastUsed <= m[r].lastUsed
    ensures forall j :: 0 <= j < r ==> m[j].lastUsed < m[r].lastUsed
  {
    if k == 1 then 0
    else
      var acc := NewestScan(m, k - 1);
      if m[k - 1].lastUsed > m[acc].lastUsed then k - 1 else acc
  }

  /** `findIndex` of the first lookahead address on the given page, or -1. */
  function FirstReference(lookahead: seq<int>, page: int, pageSize: nat): (r: int)
    requires pageSize > 0
    ensures -1 <= r < |lookahead|
    ensures r == -1 <==> forall i :: 0 <= i < |lookahead| ==> lookahead[i] / pageSize != page
    ensures r >= 0 ==> lookahead[r] / pageSize == page
    ensures r >= 0 ==> forall i :: 0 <= i < r ==> lookahead[i] / pageSize != page
  {
    if lookahead == [] then -1
    else if lookahead[0] / pageSize == page then 0
    else
      var r := FirstReference(lookahead[1..], page, pageSize);
      assert forall i :: 1 <= i < |lookahead| ==> lookahead[i] == lookahead[1..][i - 1];
      if r == -1 then -1 else r + 1
  }

  /** The OPTIMAL distance of a resident page: its next reference, or the
      sentinel when there is none. */
  function Distance(lookahead: seq<int>, page: int, pageSize: nat): (r: int)
    requires pageSize > 0
    ensures (forall i :: 0 <= i < |lookahead| ==> lookahead[i] / pageSize != page) ==> r == MaxSafeInteger
    ensures (exists i :: 0 <= i < |lookahead| && lookahead[i] / pageSize == page) ==>
      0 <= r < |lookahead| && lookahead[r] / pageSize == page &&
      forall i :: 0 <= i < r ==> lookahead[i] / pageSize != page
  {
    var r := FirstReference(lookahead, page, pageSize);
    if r == -1 then MaxSafeInteger else r
  }

  /** A frame that OPTIMAL considers: one whose page number is not -1. */
  predicate Resident(f: Frame) {
    f.pageNumber != -1
  }

  predicate SomeResident(m: seq<Frame>) {
    exists j :: 0 <= j < |m| && Resident(m[j])
  }

  /** `pageAccessTimes`: for each resident frame, keyed by its index, the
      distance of its page. */
  function AccessTimes(m: seq<Frame>, lookahead: seq<int>, pageSize: nat): (t: map<int, int>)
    requires pageSize > 0
    ensures forall j :: j in t <==> 0 <= j < |m| && Resident(m[j])
    ensures forall j :: j in t ==> t[j] == Distance(lookahead, m[j].pageNumber, pageSize)
  {
    map j | 0 <= j < |m| && Resident(m[j]) :: Distance(lookahead, m[j].pageNumber, pageSize)
  }

  /** The reduce over `Object.keys(pageAccessTimes)` restricted to keys in
      [0, k), visited in ascending order (the order `Object.keys` gives integer
      keys): the first key seeds the accumulator, a later one replaces it only
      with a strictly larger time. -1 when there is no key in [0, k). */
  function FarthestScan(t: map<int, int>, k: nat): (r: int)
    ensures -1 <= r < k
    ensures r == -1 <==> forall j :: 0 <= j < k ==> j !in t
    ensures r >= 0 ==> r in t
    ensures r >= 0 ==> forall j :: 0 <= j < k && j in t ==> t[j] <= t[r]
    ensures r >= 0 ==> forall j :: 0 <= j < r && j in t ==> t[j] < t[r]
  {
    if k == 0 then -1
    else
      var acc := FarthestScan(t, k - 1);
      if k - 1 !in t then acc
      else if acc == -1 then k - 1
      else if t[k - 1] > t[acc] then k - 1
      else acc
  }

  /** The victim frame of a fault with every frame in use. FIFO and LRU take
      the lowest index whose `lastUsed` is minimal, MRU the lowest index whose
      `lastUsed` is maximal, OPTIMAL the lowest resident index whose page has
      the largest distance. */
  function Victim(policy: Policy, m: seq<Frame>, lookahead: seq<int>, pageSize: nat): (r: nat)
    requires pageSize > 0 && |m| > 0
    requires policy == OPTIMAL ==> SomeResident(m)
    ensures r < |m|
    ensures policy == FIFO || policy == LRU ==>
      (forall j :: 0 <= j < |m| ==> m[r].lastUsed <= m[j].lastUsed) &&
      (forall j :: 0 <= j < r ==> m[j].lastUsed > m[r].lastUsed)
    ensures policy == MRU ==>
      (forall j :: 0 <= j < |m| ==> m[j].lastUsed <= m[r].lastUsed) &&
      (forall j :: 0 <= j < r ==> m[j].lastUsed < m[r].lastUsed)
    ensures policy == OPTIMAL ==> Resident(m[r])
    ensures policy == OPTIMAL ==>
      (forall j :: 0 <= j < |m| && Resident(m[j]) ==>
        Distance(lookahead, m[j].pageNumber, pageSize) <= Distance(lookahead, m[r].pageNumber, pageSize)) &&
      (forall j :: 0 <= j < r && Resident(m[j]) ==>
        Distance(lookahead, m[j].pageNumber, pageSize) < Distance(lookahead, m[r].pageNumber, pageSize))
    ensures policy == Other ==> r == 0
  {
    match policy
    case FIFO => OldestScan(m, |m|)
    case LRU => OldestScan(m, |m|)
    case MRU => NewestScan(m, |m|)
    case OPTIMAL => FarthestScan(AccessTimes(m, lookahead, pageSize), |m|)
    case Other => 0
  }

  /** A page that the lookahead never references again is evicted by OPTIMAL
      in preference to any page that it does reference. */
  lemma OptimalPrefersUnreferenced(m: seq<Frame>, lookahead: seq<int>, pageSize: nat, j: nat)
    requires pageSize > 0 && j < |m| && Resident(m[j]) && |lookahead| < MaxSafeInteger
    requires forall i :: 0 <= i < |lookahead| ==> lookahead[i] / pageSize != m[j].pageNumber
    ensures var v := Victim(OPTIMAL, m, lookahead, pageSize);
      FirstReference(lookahead, m[v].pageNumber, pageSize) == -1
  {
    var v := Victim(OPTIMAL, m, lookahead, pageSize);
    assert Distance(lookahead, m[j].pageNumber, pageSize) == MaxSafeInteger;
    assert Distance(lookahead, m[j].pageNumber, pageSize) <= Distance(lookahead, m[v].pageNumber, pageSize);
  }

  /** Prepending an address whose page is not the given one shifts that page's
      next reference by one and keeps "never referenced" as it is. */
  lemma FirstReferenceAfterHead(va: int, lookahead: seq<int>, page: int, pageSize: nat)
    requires pageSize > 0 && va / pageSize != page
    ensures var r := FirstReference(lookahead, page, pageSize);
      FirstReference([va] + lookahead, page, pageSize) == if r == -1 then -1 else r + 1
  {
    assert ([va] + lookahead)[1..] == lookahead;
  }

  /** The scan looks only at the order of the times: two tables with the same
      keys whose times compare alike give the same frame. */
  lemma {:induction false} FarthestScanKeepsOrder(t1: map<int, int>, t2: map<int, int>, k: nat)
    requires forall j :: j in t1 <==> j in t2
    requires forall i, j :: i in t1 && j in t1 ==> (t1[i] > t1[j] <==> t2[i] > t2[j])
    ensures FarthestScan(t1, k) == FarthestScan(t2, k)
  {
    if k > 0 {
      FarthestScanKeepsOrder(t1, t2, k - 1);
    }
  }

  /** The lookahead OPTIMAL reads still begins with the faulting address, whose
      page is resident in no frame. With that head present or absent, every
      distance keeps its order, so the scan chooses the same frame. */
  lemma AccessTimesIgnoreHead(m: seq<Frame>, va: int, lookahead: seq<int>, pageSize: nat)
    requires pageSize > 0 && |lookahead| < MaxSafeInteger - 1
    requires forall j :: 0 <= j < |m| ==> m[j].pageNumber != va / pageSize
    ensures FarthestScan(AccessTimes(m, [va] + lookahead, pageSize), |m|) == FarthestScan(AccessTimes(m, lookahead, pageSize), |m|)
  {
    var t1, t2 := AccessTimes(m, [va] + lookahead, pageSize), AccessTimes(m, lookahead, pageSize);
    forall i, j | i in t1 && j in t1 ensures t1[i] > t1[j] <==> t2[i] > t2[j] {
      DistanceOrderIgnoresHead(va, lookahead, m[i].pageNumber, m[j].pageNumber, pageSize);
    }
    FarthestScanKeepsOrder(t1, t2, |m|);
  }

  /** Prepending the head shifts every finite distance by one and leaves the
      sentinel alone, which keeps the strict order of any two distances. */
  lemma DistanceOrderIgnoresHead(va: int, lookahead: seq<int>, p: int, q: int, pageSize: nat)
    requires pageSize > 0 && va / pageSize != p && va / pageSize != q && |lookahead| < MaxSafeInteger - 1
    ensures Distance([va] + lookahead, p, pageSize) > Distance([va] + lookahead, q, pageSize) <==>
            Distance(lookahead, p, pageSize) > Distance(lookahead, q, pageSize)
  {
    FirstReferenceAfterHead(va, lookahead, p, pageSize);
    FirstReferenceAfterHead(va, lookahead, q, pageSize);
  }

  /** The same statement for the whole victim choice, for every policy. */
  lemma VictimIgnoresHead(policy: Policy, m: seq<Frame>, va: int, lookahead: seq<int>, pageSize: nat)
    requires pageSize > 0 && |m| > 0 && |lookahead| < MaxSafeInteger - 1
    requires policy == OPTIMAL ==> SomeResident(m)
    requires forall j :: 0 <= j < |m| ==> m[j].pageNumber != va / pageSize
    ensures Victim(policy, m, [va] + lookahead, pageSize) == Victim(policy, m, lookahead, pageSize)
  {
    if policy == OPTIMAL {
      AccessTimesIgnoreHead(m, va, lookahead, pageSize);
    }
  }
}
