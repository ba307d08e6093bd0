/** A concrete run that shows the stale TLB entry left by a replacement: two
    frames, a two-entry TLB, LRU. Page 1 is evicted to make room for page 2,
    but its TLB entry survives, so the next access to page 1 is a TLB hit on
    the frame that now holds page 2. With the entry invalidated the same
    access faults. */
module StaleTlb {
  import opened AddressSpace
  import opened Replacement
  import opened TlbCache
  import opened Engine

  /** PAGE_SIZE 16, 4 pages, 2 frames, FRAME_SIZE 16, TLB capacity 2. */
  const Small := Config(16, 4, 2, 16, 2)

  /** The accesses 0, 16, 0, 32: faults on pages 0 and 1, a TLB hit on page 0,
      and a fault on page 2 that evicts page 1 (least recently used). */
  const Prefix: seq<int> := [0, 16, 0, 32]

  /** The states after each access of the prefix. */
  const S1 := State([0, -1, -1, -1], [TlbEntry(0, 0, 1)], [Frame(true, 0, 1), EmptyFrame], Metrics(1, 1, 0, 1), 1)
  const S2 := State([0, 1, -1, -1], [TlbEntry(0, 0, 1), TlbEntry(1, 1, 2)],
    [Frame(true, 0, 1), Frame(true, 1, 2)], Metrics(2, 2, 0, 2), 2)
  const S3 := State([0, 1, -1, -1], [TlbEntry(0, 0, 1), TlbEntry(1, 1, 2)],
    [Frame(true, 0, 3), Frame(true, 1, 2)], Metrics(3, 2, 1, 2), 3)
  /** As written: page 1's entry is still in the TLB. */
  const S4AsWritten := State([0, -1, 1, -1], [TlbEntry(1, 1, 2), TlbEntry(2, 1, 4)],
    [Frame(true, 0, 3), Frame(true, 2, 4)], Metrics(4, 3, 1, 3), 4)
  /** With invalidation: page 1's entry is gone, page 0's is kept. */
  const S4 := State([0, -1, 1, -1], [TlbEntry(0, 0, 1), TlbEntry(2, 1, 4)],
    [Frame(true, 0, 3), Frame(true, 2, 4)], Metrics(4, 3, 1, 3), 4)

  lemma SmallValid()
    ensures Small.Valid() && Small.VirtualSpace() == 64
  {
    ProductIsMul(4, 16);
  }

  lemma FirstAccess(invalidate: bool)
    ensures Small.Valid() && WellFormed(Small, Initial(Small)) && Small.ValidAddress(0)
    ensures StepWith(Small, LRU, Prefix, Initial(Small), 0, invalidate).state == S1
  {
    SmallValid();
    var s := Initial(Small);
    assert s.pageTable == [-1, -1, -1, -1] && s.memory == [EmptyFrame, EmptyFrame];
    assert FirstFree(s.memory) == 0;
  }

  /** The second access faults on page 1 and takes the free frame 1. */
  lemma SecondFault()
    ensures Small.Valid() && WellFormed(Small, S1)
    ensures HandleFault(Small, LRU, Prefix[1..], S1, 1, 2) ==
      FaultResult([0, 1, -1, -1], [Frame(true, 0, 1), Frame(true, 1, 2)], 1, -1)
  {
    SmallValid();
    assert FirstFree(S1.memory) == 1;
  }

  lemma SecondAccess(invalidate: bool)
    ensures Small.Valid() && WellFormed(Small, S1) && Small.ValidAddress(16)
    ensures StepWith(Small, LRU, Prefix[1..], S1, 16, invalidate).state == S2
  {
    SmallValid();
    SecondFault();
    assert Find(S1.tlb, 1) == -1;
    FaultPathShape(Small, LRU, Prefix[1..], S1, 1, invalidate);
    FaultTlbIs(Small, S1, HandleFault(Small, LRU, Prefix[1..], S1, 1, 2), 1, 2, invalidate);
    assert RemovePage(S1.tlb, 1) == S1.tlb;
  }

  lemma ThirdAccess(invalidate: bool)
    ensures Small.Valid() && WellFormed(Small, S2) && Small.ValidAddress(0)
    ensures StepWith(Small, LRU, Prefix[2..], S2, 0, invalidate).state == S3
  {
    SmallValid();
    assert Find(S2.tlb, 0) == 0;
  }

  /** The fourth access faults on page 2; no frame is free, and LRU picks
      frame 1 (lastUsed 2, against 3), evicting page 1. */
  lemma FourthFault()
    ensures Small.Valid() && WellFormed(Small, S3)
    ensures HandleFault(Small, LRU, Prefix[3..], S3, 2, 4) ==
      FaultResult([0, -1, 1, -1], [Frame(true, 0, 3), Frame(true, 2, 4)], 1, 1)
  {
    SmallValid();
    assert FirstFree(S3.memory) == -1;
    assert Victim(LRU, S3.memory, Prefix[3..], 16) == 1;
  }

  /** As written the TLB keeps page 1's entry and shifts out page 0's; with
      invalidation page 1's entry goes and page 0's stays. */
  lemma FourthRefill()
    ensures Insert(S3.tlb, TlbEntry(2, 1, 4), 2) == S4AsWritten.tlb
    ensures Insert(RemovePage(S3.tlb, 1), TlbEntry(2, 1, 4), 2) == S4.tlb
  {
    assert RemovePage(S3.tlb, 2) == S3.tlb;
    assert RemovePage(S3.tlb, 1) == [TlbEntry(0, 0, 1)];
  }

  lemma FourthAccess(invalidate: bool)
    ensures Small.Valid() && WellFormed(Small, S3) && Small.ValidAddress(32)
    ensures StepWith(Small, LRU, Prefix[3..], S3, 32, invalidate).state == if invalidate then S4 else S4AsWritten
  {
    SmallValid();
    FourthFault();
    FourthRefill();
    assert Find(S3.tlb, 2) == -1;
    FaultPathShape(Small, LRU, Prefix[3..], S3, 2, invalidate);
    FaultTlbIs(Small, S3, HandleFault(Small, LRU, Prefix[3..], S3, 2, 4), 2, 4, invalidate);
  }

  /** The state after the prefix, for either version. */
  function After(invalidate: bool): State {
    if invalidate then S4 else S4AsWritten
  }

  lemma RunFromThird(invalidate: bool)
    ensures Small.Valid() && WellFormed(Small, S3) && forall a :: a in Prefix[3..] ==> Small.ValidAddress(a)
    ensures RunWith(Small, LRU, S3, Prefix[3..], invalidate) == After(invalidate)
  {
    FourthAccess(invalidate);
    assert Prefix[3..] == [32] && Prefix[3..][1..] == [];
  }

  lemma RunFromSecond(invalidate: bool)
    ensures Small.Valid() && WellFormed(Small, S2) && forall a :: a in Prefix[2..] ==> Small.ValidAddress(a)
    ensures RunWith(Small, LRU, S2, Prefix[2..], invalidate) == After(invalidate)
  {
    ThirdAccess(invalidate);
    RunFromThird(invalidate);
    assert Prefix[2..] == [0, 32] && Prefix[2..][1..] == Prefix[3..];
  }

  lemma RunFromFirst(invalidate: bool)
    ensures Small.Valid() && WellFormed(Small, S1) && forall a :: a in Prefix[1..] ==> Small.ValidAddress(a)
    ensures RunWith(Small, LRU, S1, Prefix[1..], invalidate) == After(invalidate)
  {
    SecondAccess(invalidate);
    RunFromSecond(invalidate);
    assert Prefix[1..] == [16, 0, 32] && Prefix[1..][1..] == Prefix[2..];
  }

  /** The prefix leads to S4AsWritten as written and to S4 with invalidation. */
  lemma PrefixRun(invalidate: bool)
    ensures Small.Valid() && WellFormed(Small, Initial(Small)) && forall a :: a in Prefix ==> Small.ValidAddress(a)
    ensures RunWith(Small, LRU, Initial(Small), Prefix, invalidate) == After(invalidate)
  {
    FirstAccess(invalidate);
    RunFromFirst(invalidate);
    assert Prefix[0] == 0;
  }

  /** Address 16 after the prefix as written: page 1's stale entry is found. */
  lemma FifthAsWritten(s: State)
    requires s == S4AsWritten
    ensures Small.Valid() && WellFormed(Small, s) && Small.ValidAddress(16)
    ensures var o := StepWith(Small, LRU, [16], s, 16, false);
      o.trace == HitTrace && o.frame == 1 && o.physical == 16
  {
    SmallValid();
    SplitAddress(Small, 16);
    assert Find(s.tlb, 1) == 0;
    HitPathShape(Small, LRU, [16], s, 1, false);
  }

  /** Address 16 after the prefix with invalidation: page 1 is in neither the
      TLB nor the page table. */
  lemma FifthInvalidated(s: State)
    requires s == S4
    ensures Small.Valid() && WellFormed(Small, s) && Small.ValidAddress(16)
    ensures StepWith(Small, LRU, [16], s, 16, true).trace == FaultTrace
  {
    SmallValid();
    SplitAddress(Small, 16);
    assert Find(s.tlb, 1) == -1;
    TraceShape(Small, LRU, [16], s, 1, true);
  }

  /** The finding, from the state the accesses 0, 16, 0, 32 lead to (see
      `PrefixRun`): page 1 is unmapped and frame 1 holds page 2. As written
      the access 16 is then a TLB hit on frame 1, so it reads page 2's memory
      at physical address 16; with the victim's entry invalidated it is a page
      fault. */
  lemma StaleEntryHits(invalidate: bool)
    ensures Small.Valid() && WellFormed(Small, After(invalidate)) && Small.ValidAddress(16)
    ensures After(invalidate).pageTable[1] == -1 && After(invalidate).memory[1].pageNumber == 2
    ensures var o := StepWith(Small, LRU, [16], After(invalidate), 16, invalidate);
      (invalidate ==> o.trace == FaultTrace) &&
      (!invalidate ==> o.trace == HitTrace && o.frame == 1 && o.physical == 16)
  {
    if invalidate {
      FifthInvalidated(After(invalidate));
    } else {
      FifthAsWritten(After(invalidate));
    }
  }
}
