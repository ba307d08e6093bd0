/** The translation engine as a state machine over explicit values: one call of
    `StepWith` is the processing of one virtual address (the clock tick, the TLB
    lookup, the page-table lookup, fault handling and the four counters). */
module Engine {
  import opened AddressSpace
  import opened Replacement
  import opened TlbCache

  /** The phase tags of one translation, in the order they are recorded. */
  datatype Phase = TlbLookup | TlbHit | TlbMiss | PageTableHit | PageFault | MemoryUpdate

  const HitTrace: seq<Phase> := [TlbLookup, TlbHit, MemoryUpdate]
  const TableHitTrace: seq<Phase> := [TlbLookup, TlbMiss, PageTableHit, MemoryUpdate]
  const FaultTrace: seq<Phase> := [TlbLookup, TlbMiss, PageFault, MemoryUpdate]

  datatype Metrics = Metrics(totalAddresses: nat, pageFaults: nat, tlbHits: nat, tlbMisses: nat)

  const ZeroMetrics := Metrics(0, 0, 0, 0)

  /** Every address is either a TLB hit or a TLB miss, and a fault is a kind of miss. */
  predicate Balanced(s: State) {
    s.metrics.totalAddresses == s.metrics.tlbHits + s.metrics.tlbMisses && s.metrics.pageFaults <= s.metrics.tlbMisses
  }

  /** Page table, TLB, physical memory, counters and the logical clock. */
  datatype State = State(pageTable: seq<int>, tlb: seq<TlbEntry>, memory: seq<Frame>, metrics: Metrics, clock: nat)

  /** The state after a reset: every page unmapped, TLB empty, every frame free. */
  function Initial(c: Config): (r: State)
    ensures |r.pageTable| == c.numPages && forall p :: 0 <= p < |r.pageTable| ==> r.pageTable[p] == -1
    ensures r.tlb == []
    ensures |r.memory| == c.numFrames && forall f :: 0 <= f < |r.memory| ==> !r.memory[f].used
    ensures r.metrics.totalAddresses == 0 && Balanced(r) && r.clock == 0
  {
    State(seq(c.numPages, _ => -1), [], seq(c.numFrames, _ => EmptyFrame), ZeroMetrics, 0)
  }

  predicate FrameWellFormed(c: Config, fr: Frame, clock: nat) {
    (if fr.used then 0 <= fr.pageNumber < c.numPages else fr.pageNumber == -1) && fr.lastUsed <= clock
  }

  predicate EntryWellFormed(c: Config, e: TlbEntry) {
    0 <= e.pageNumber < c.numPages && 0 <= e.frameNumber < c.numFrames
  }

  /** Sizes and ranges: the page table has one slot per page holding -1 or a
      frame index; a used frame holds a valid page, a free one holds -1; no
      stamp is ahead of the clock; the TLB is within capacity, unique by page,
      and its entries name valid pages and frames. */
  predicate WellFormed(c: Config, s: State) {
    && |s.pageTable| == c.numPages
    && |s.memory| == c.numFrames
    && (forall p :: 0 <= p < |s.pageTable| ==> -1 <= s.pageTable[p] < c.numFrames)
    && (forall f :: 0 <= f < |s.memory| ==> FrameWellFormed(c, s.memory[f], s.clock))
    && |s.tlb| <= c.tlbSize
    && UniquePages(s.tlb)
    && (forall e :: e in s.tlb ==> EntryWellFormed(c, e))
  }

  /** The page table and the frames describe the same mapping: page p is
      mapped to frame f exactly when frame f is in use and holds p. */
  predicate TablesAgree(s: State) {
    forall p, f :: 0 <= p < |s.pageTable| && 0 <= f < |s.memory| ==>
      (s.pageTable[p] == f <==> s.memory[f].used && s.memory[f].pageNumber == p)
  }

  /** Every TLB entry repeats the page table's mapping of its page. */
  predicate TlbAgrees(s: State) {
    forall e :: e in s.tlb ==> 0 <= e.pageNumber < |s.pageTable| && s.pageTable[e.pageNumber] == e.frameNumber
  }

  /** What holds of every state the simulator reaches. */
  predicate Invariant(c: Config, s: State) {
    WellFormed(c, s) && TablesAgree(s) && TlbAgrees(s) && Balanced(s)
  }

  /** `updateMemoryUsage`: restamp one frame, nothing else. */
  function Touch(m: seq<Frame>, f: nat, stamp: nat): (r: seq<Frame>)
    requires f < |m|
    ensures |r| == |m| && r[f].used == m[f].used && r[f].pageNumber == m[f].pageNumber && r[f].lastUsed == stamp
    ensures forall g :: 0 <= g < |m| && g != f ==> r[g] == m[g]
  {
    m[f := m[f].(lastUsed := stamp)]
  }

  /** What fault handling leaves behind: the new page table and frames, the
      frame that now holds the page, and the page evicted from it (-1 when a
      free frame was taken). */
  datatype FaultResult = FaultResult(pageTable: seq<int>, memory: seq<Frame>, frame: nat, evicted: int)

  /** The frame `handlePageFault` fills: the lowest free frame, or, when every
      frame is in use, the policy's victim. */
  function ChooseFrame(c: Config, policy: Policy, lookahead: seq<int>, m: seq<Frame>): (f: nat)
    requires c.pageSize > 0 && |m| > 0
    requires forall j :: 0 <= j < |m| && m[j].used ==> Resident(m[j])
    ensures f < |m|
    ensures FirstFree(m) != -1 ==> f == FirstFree(m)
    ensures FirstFree(m) == -1 ==> f == Victim(policy, m, lookahead, c.pageSize)
  {
    var free := FirstFree(m);
    if free != -1 then free else (assert Resident(m[0]); Victim(policy, m, lookahead, c.pageSize))
  }

  /** The rest of `handlePageFault` once the frame is chosen: when no frame was
      free, unmap the page the frame held; map the new page to the frame and
      install it with the current stamp. */
  function Install(c: Config, s: State, page: int, stamp: nat, frame: nat): (r: FaultResult)
    requires c.Valid() && WellFormed(c, s) && 0 <= page < c.numPages && s.clock <= stamp && frame < c.numFrames
    requires FirstFree(s.memory) != -1 ==> frame == FirstFree(s.memory)
    ensures FaultWellFormed(c, r, stamp) && r.frame == frame
    ensures r.memory == s.memory[frame := Frame(true, page, stamp)]
    ensures FirstFree(s.memory) != -1 ==> r.evicted == -1 && r.pageTable == s.pageTable[page := frame]
    ensures FirstFree(s.memory) == -1 ==>
      r.evicted == s.memory[frame].pageNumber && 0 <= r.evicted < c.numPages &&
      r.pageTable == s.pageTable[r.evicted := -1][page := frame]
  {
    var memory := s.memory[frame := Frame(true, page, stamp)];
    assert forall f :: 0 <= f < |memory| && f != frame ==> memory[f] == s.memory[f];
    assert forall f :: 0 <= f < |memory| ==> FrameWellFormed(c, memory[f], stamp);
    if FirstFree(s.memory) != -1 then
      FaultResult(s.pageTable[page := frame], memory, frame, -1)
    else
      var victimPage := s.memory[frame].pageNumber;
      var table := if victimPage != -1 then s.pageTable[victimPage := -1] else s.pageTable;
      FaultResult(table[page := frame], memory, frame, victimPage)
  }

  /** `handlePageFault`: choose the frame, then install the page in it. */
  function HandleFault(c: Config, policy: Policy, lookahead: seq<int>, s: State, page: int, stamp: nat): (r: FaultResult)
    requires c.Valid() && WellFormed(c, s) && 0 <= page < c.numPages && s.clock <= stamp
    ensures FaultWellFormed(c, r, stamp)
    ensures r.frame == ChooseFrame(c, policy, lookahead, s.memory)
    ensures r == Install(c, s, page, stamp, r.frame)
  {
    assert forall j :: 0 <= j < |s.memory| && s.memory[j].used ==> Resident(s.memory[j]) by {
      assert forall j :: 0 <= j < |s.memory| ==> FrameWellFormed(c, s.memory[j], s.clock);
    }
    Install(c, s, page, stamp, ChooseFrame(c, policy, lookahead, s.memory))
  }

  /** A fault keeps the page table and the frames in agreement: the evicted
      page is unmapped, the new page is mapped to its frame, nothing else moves. */
  lemma FaultKeepsTablesAgree(c: Config, s: State, page: int, stamp: nat, frame: nat)
    requires c.Valid() && WellFormed(c, s) && TablesAgree(s) && 0 <= page < c.numPages && s.clock <= stamp
    requires frame < c.numFrames && (FirstFree(s.memory) != -1 ==> frame == FirstFree(s.memory))
    requires s.pageTable[page] == -1
    ensures var r := Install(c, s, page, stamp, frame);
      TablesAgree(s.(pageTable := r.pageTable, memory := r.memory)) &&
      r.evicted != page &&
      (forall q :: 0 <= q < c.numPages && q != page && q != r.evicted ==> r.pageTable[q] == s.pageTable[q]) &&
      (r.evicted != -1 ==> r.pageTable[r.evicted] == -1)
  {
    var r := Install(c, s, page, stamp, frame);
    var pt, m := r.pageTable, r.memory;
    if r.evicted != -1 {
      assert s.memory[frame].used;
      assert s.pageTable[r.evicted] == frame;
    } else {
      assert !s.memory[frame].used;
    }
    assert forall q :: 0 <= q < |pt| && q != page && q != r.evicted ==> pt[q] == s.pageTable[q];
    forall p | 0 <= p < |pt| && pt[p] != -1
      ensures 0 <= pt[p] < |m| && m[pt[p]].used && m[pt[p]].pageNumber == p
    {
      if p != page {
        assert pt[p] == s.pageTable[p];
        assert s.memory[s.pageTable[p]].pageNumber == p;
        assert s.pageTable[p] != frame;
      }
    }
    forall f | 0 <= f < |m| && m[f].used
      ensures 0 <= m[f].pageNumber < |pt| && pt[m[f].pageNumber] == f
    {
      if f != frame {
        var q := s.memory[f].pageNumber;
        assert m[f] == s.memory[f];
        assert s.pageTable[q] == f;
        assert pt[q] == s.pageTable[q];
      }
    }
  }

  /** The result of translating one page: the new state, the frame that holds
      the page and the recorded phases. */
  datatype Translation = Translation(state: State, frame: nat, trace: seq<Phase>)

  /** The result of translating one address. */
  datatype Outcome = Outcome(state: State, frame: nat, physical: int, trace: seq<Phase>)

  /** The counters after a TLB hit. */
  function CountHit(m: Metrics): (r: Metrics)
    ensures r.totalAddresses == m.totalAddresses + 1 && r.tlbHits == m.tlbHits + 1
    ensures r.tlbMisses == m.tlbMisses && r.pageFaults == m.pageFaults
    ensures m.totalAddresses == m.tlbHits + m.tlbMisses ==> r.totalAddresses == r.tlbHits + r.tlbMisses
  {
    Metrics(m.totalAddresses + 1, m.pageFaults, m.tlbHits + 1, m.tlbMisses)
  }

  /** The counters after a TLB miss. */
  function CountMiss(m: Metrics): (r: Metrics)
    ensures r.totalAddresses == m.totalAddresses + 1 && r.tlbMisses == m.tlbMisses + 1
    ensures r.tlbHits == m.tlbHits && r.pageFaults == m.pageFaults
    ensures m.totalAddresses == m.tlbHits + m.tlbMisses ==> r.totalAddresses == r.tlbHits + r.tlbMisses
  {
    Metrics(m.totalAddresses + 1, m.pageFaults, m.tlbHits, m.tlbMisses + 1)
  }

  /** The counters after a page fault, on top of the miss. */
  function CountFault(m: Metrics): (r: Metrics)
    ensures r.pageFaults == m.pageFaults + 1
    ensures r.totalAddresses == m.totalAddresses && r.tlbHits == m.tlbHits && r.tlbMisses == m.tlbMisses
  {
    Metrics(m.totalAddresses, m.pageFaults + 1, m.tlbHits, m.tlbMisses)
  }

  /** The TLB-hit path: restamp the frame the entry names. */
  function HitPath(c: Config, s: State, i: nat): (o: Translation)
    requires c.Valid() && WellFormed(c, s) && i < |s.tlb|
    ensures WellFormed(c, o.state) && o.state.clock == s.clock + 1 && o.frame < c.numFrames
  {
    assert s.tlb[i] in s.tlb;
    var stamp := s.clock + 1;
    var f := s.tlb[i].frameNumber;
    var metrics := CountHit(s.metrics);
    Translation(State(s.pageTable, s.tlb, Touch(s.memory, f, stamp), metrics, stamp), f, HitTrace)
  }

  /** The page-table-hit path: refill the TLB and restamp the frame. */
  function TableHitPath(c: Config, s: State, page: nat): (o: Translation)
    requires c.Valid() && WellFormed(c, s) && page < c.numPages && s.pageTable[page] != -1
    ensures WellFormed(c, o.state) && o.state.clock == s.clock + 1 && o.frame < c.numFrames
  {
    var stamp := s.clock + 1;
    var f := s.pageTable[page];
    var tlb := Insert(s.tlb, TlbEntry(page, f, stamp), c.tlbSize);
    assert forall e :: e in tlb ==> EntryWellFormed(c, e);
    var m := Touch(s.memory, f, stamp);
    assert forall g :: 0 <= g < |m| ==> FrameWellFormed(c, m[g], stamp);
    Translation(State(s.pageTable, tlb, m, CountMiss(s.metrics), stamp), f, TableHitTrace)
  }

  /** The TLB the fault path refills: with `invalidate`, the evicted page's
      entry is dropped first. */
  function FaultTlb(c: Config, s: State, r: FaultResult, page: nat, stamp: nat, invalidate: bool): (t: seq<TlbEntry>)
    requires c.Valid() && WellFormed(c, s) && r.frame < c.numFrames && page < c.numPages
    ensures |t| <= c.tlbSize && UniquePages(t)
    ensures forall e :: e in t ==> EntryWellFormed(c, e)
  {
    var kept := if invalidate && r.evicted != -1 then RemovePage(s.tlb, r.evicted) else s.tlb;
    Insert(kept, TlbEntry(page, r.frame, stamp), c.tlbSize)
  }

  /** What `HandleFault` guarantees of its result, for a stamp `stamp`. */
  predicate FaultWellFormed(c: Config, r: FaultResult, stamp: nat) {
    && r.frame < c.numFrames
    && |r.pageTable| == c.numPages && (forall p :: 0 <= p < |r.pageTable| ==> -1 <= r.pageTable[p] < c.numFrames)
    && |r.memory| == c.numFrames && (forall f :: 0 <= f < |r.memory| ==> FrameWellFormed(c, r.memory[f], stamp))
  }

  /** The page-fault path once the fault is handled: refill the TLB and count
      the fault. */
  function FaultPath(c: Config, s: State, page: nat, r: FaultResult, invalidate: bool): (o: Translation)
    requires c.Valid() && WellFormed(c, s) && page < c.numPages && FaultWellFormed(c, r, s.clock + 1)
    ensures WellFormed(c, o.state) && o.state.clock == s.clock + 1 && o.frame < c.numFrames
  {
    var stamp := s.clock + 1;
    var tlb := FaultTlb(c, s, r, page, stamp, invalidate);
    var metrics := CountFault(CountMiss(s.metrics));
    Translation(State(r.pageTable, tlb, r.memory, metrics, stamp), r.frame, FaultTrace)
  }

  /** `simulateAddressTranslation` once the address is split: TLB lookup, then
      page-table lookup, then fault handling. With `invalidate` the TLB entry of
      an evicted page is dropped on replacement; without it this is the code as
      written. `lookahead` is the pending queue OPTIMAL reads. */
  function TranslatePage(c: Config, policy: Policy, lookahead: seq<int>, s: State, page: nat, invalidate: bool): (o: Translation)
    requires c.Valid() && WellFormed(c, s) && page < c.numPages
    ensures WellFormed(c, o.state) && o.state.clock == s.clock + 1 && o.frame < c.numFrames
  {
    var i := Find(s.tlb, page);
    if i != -1 then HitPath(c, s, i)
    else if s.pageTable[page] != -1 then TableHitPath(c, s, page)
    else FaultPath(c, s, page, HandleFault(c, policy, lookahead, s, page, s.clock + 1), invalidate)
  }

  /** One virtual address: advance the clock, split the address, translate.
      On every path the physical address is frame * frameSize + va % pageSize. */
  function StepWith(c: Config, policy: Policy, lookahead: seq<int>, s: State, va: int, invalidate: bool): (o: Outcome)
    requires c.Valid() && WellFormed(c, s) && c.ValidAddress(va)
    ensures WellFormed(c, o.state) && o.state.clock == s.clock + 1 && o.frame < c.numFrames
    ensures o.physical == o.frame * c.frameSize + va % c.pageSize
  {
    SplitAddress(c, va);
    var t := TranslatePage(c, policy, lookahead, s, va / c.pageSize, invalidate);
    Outcome(t.state, t.frame, t.frame * c.frameSize + va % c.pageSize, t.trace)
  }

  /** The engine: the victim's TLB entry is invalidated on replacement. */
  function Step(c: Config, policy: Policy, lookahead: seq<int>, s: State, va: int): (o: Outcome)
    requires c.Valid() && WellFormed(c, s) && c.ValidAddress(va)
    ensures o.physical == PhysicalAddress(c, o.frame, va)
    ensures Invariant(c, s) ==> Invariant(c, o.state)
  {
    SplitAddress(c, va);
    if Invariant(c, s) then
      KeepsInvariant(c, policy, lookahead, s, PageOf(c, va));
      StepWith(c, policy, lookahead, s, va, true)
    else
      StepWith(c, policy, lookahead, s, va, true)
  }

  /** The code as written: the victim's TLB entry survives replacement. */
  function StepAsWritten(c: Config, policy: Policy, lookahead: seq<int>, s: State, va: int): (o: Outcome)
    requires c.Valid() && WellFormed(c, s) && c.ValidAddress(va)
    ensures o.physical == PhysicalAddress(c, o.frame, va)
    ensures TablesAgree(s) ==> TablesAgree(o.state)
  {
    SplitAddress(c, va);
    if TablesAgree(s) then
      KeepsTablesAgree(c, policy, lookahead, s, PageOf(c, va), false);
      StepWith(c, policy, lookahead, s, va, false)
    else
      StepWith(c, policy, lookahead, s, va, false)
  }

  lemma TracesDiffer()
    ensures HitTrace != TableHitTrace && HitTrace != FaultTrace && TableHitTrace != FaultTrace
  {
    assert HitTrace[1] != TableHitTrace[1] && HitTrace[1] != FaultTrace[1] && TableHitTrace[2] != FaultTrace[2];
  }

  /** The trace is one of the three shapes, and the TLB and the page table
      decide which: a hit exactly when the page is in the TLB, a page-table hit
      exactly when it is not but is mapped, a fault exactly when it is neither. */
  lemma TraceShape(c: Config, policy: Policy, lookahead: seq<int>, s: State, page: nat, invalidate: bool)
    requires c.Valid() && WellFormed(c, s) && page < c.numPages
    ensures var o := TranslatePage(c, policy, lookahead, s, page, invalidate);
      (o.trace == HitTrace <==> Find(s.tlb, page) != -1) &&
      (o.trace == TableHitTrace <==> Find(s.tlb, page) == -1 && s.pageTable[page] != -1) &&
      (o.trace == FaultTrace <==> Find(s.tlb, page) == -1 && s.pageTable[page] == -1)
  {
    TracesDiffer();
  }

  /** Each translation counts one address and exactly one of a TLB hit or a TLB
      miss; the fault counter grows by one on the fault path only. So the
      counters stay balanced. */
  lemma CountersBalance(c: Config, policy: Policy, lookahead: seq<int>, s: State, page: nat, invalidate: bool)
    requires c.Valid() && WellFormed(c, s) && page < c.numPages
    ensures var o := TranslatePage(c, policy, lookahead, s, page, invalidate);
      var m, m' := s.metrics, o.state.metrics;
      m'.totalAddresses == m.totalAddresses + 1 &&
      m'.tlbHits + m'.tlbMisses == m.tlbHits + m.tlbMisses + 1 &&
      m.tlbHits <= m'.tlbHits && m.tlbMisses <= m'.tlbMisses &&
      m'.pageFaults == (if o.trace == FaultTrace then m.pageFaults + 1 else m.pageFaults) &&
      (m'.pageFaults > m.pageFaults ==> m'.tlbMisses > m.tlbMisses) &&
      (Balanced(s) ==> Balanced(o.state))
  {
    TracesDiffer();
  }

  /** A TLB hit changes neither the TLB (its membership or order) nor the page
      table; only the hit frame's `lastUsed` is restamped. */
  lemma TlbHitOnlyRestamps(c: Config, policy: Policy, lookahead: seq<int>, s: State, page: nat, invalidate: bool)
    requires c.Valid() && WellFormed(c, s) && page < c.numPages
    requires Find(s.tlb, page) != -1
    ensures var o := TranslatePage(c, policy, lookahead, s, page, invalidate);
      o.state.tlb == s.tlb && o.state.pageTable == s.pageTable &&
      o.frame == s.tlb[Find(s.tlb, page)].frameNumber &&
      o.state.memory == s.memory[o.frame := s.memory[o.frame].(lastUsed := s.clock + 1)]
  {
  }

  /** After any translation the page is in the TLB, so translating the same
      page again at once is a TLB hit. */
  lemma RepeatIsTlbHit(c: Config, policy: Policy, lookahead: seq<int>, s: State, page: nat, invalidate: bool)
    requires c.Valid() && WellFormed(c, s) && page < c.numPages
    ensures var o := TranslatePage(c, policy, lookahead, s, page, invalidate);
      Find(o.state.tlb, page) != -1 &&
      TranslatePage(c, policy, lookahead, o.state, page, invalidate).trace == HitTrace
  {
    var o := TranslatePage(c, policy, lookahead, s, page, invalidate);
    var stamp := s.clock + 1;
    if Find(s.tlb, page) == -1 {
      if s.pageTable[page] != -1 {
        FindAfterInsert(s.tlb, TlbEntry(page, s.pageTable[page], stamp), c.tlbSize);
      } else {
        var r := HandleFault(c, policy, lookahead, s, page, stamp);
        var kept := if invalidate && r.evicted != -1 then RemovePage(s.tlb, r.evicted) else s.tlb;
        FindAfterInsert(kept, TlbEntry(page, r.frame, stamp), c.tlbSize);
      }
    }
    TraceShape(c, policy, lookahead, o.state, page, invalidate);
  }

  /** Both versions keep the page table and the frames in agreement. */
  lemma KeepsTablesAgree(c: Config, policy: Policy, lookahead: seq<int>, s: State, page: nat, invalidate: bool)
    requires c.Valid() && WellFormed(c, s) && TablesAgree(s) && page < c.numPages
    ensures TablesAgree(TranslatePage(c, policy, lookahead, s, page, invalidate).state)
  {
    var o := TranslatePage(c, policy, lookahead, s, page, invalidate);
    var i := Find(s.tlb, page);
    if i != -1 {
      assert s.tlb[i] in s.tlb;
      TouchKeepsTablesAgree(s, o.state, s.tlb[i].frameNumber, s.clock + 1);
    } else if s.pageTable[page] != -1 {
      TouchKeepsTablesAgree(s, o.state, s.pageTable[page], s.clock + 1);
    } else {
      var r := HandleFault(c, policy, lookahead, s, page, s.clock + 1);
      FaultKeepsTablesAgree(c, s, page, s.clock + 1, r.frame);
    }
  }

  /** Restamping a frame moves no mapping. */
  lemma TouchKeepsTablesAgree(s: State, t: State, f: nat, stamp: nat)
    requires TablesAgree(s) && f < |s.memory|
    requires t.pageTable == s.pageTable && t.memory == Touch(s.memory, f, stamp)
    ensures TablesAgree(t)
  {
  }

  /** On the fault path with invalidation, the refilled TLB repeats the new
      page table. */
  lemma FaultTlbAgrees(c: Config, s: State, page: nat, stamp: nat, frame: nat)
    requires c.Valid() && WellFormed(c, s) && TablesAgree(s) && TlbAgrees(s) && page < c.numPages
    requires frame < c.numFrames && (FirstFree(s.memory) != -1 ==> frame == FirstFree(s.memory))
    requires s.pageTable[page] == -1 && s.clock <= stamp
    ensures var r := Install(c, s, page, stamp, frame);
      TlbAgrees(State(r.pageTable, FaultTlb(c, s, r, page, stamp, true), r.memory, s.metrics, s.clock))
  {
    FaultKeepsTablesAgree(c, s, page, stamp, frame);
    var r := Install(c, s, page, stamp, frame);
    var kept := if r.evicted != -1 then RemovePage(s.tlb, r.evicted) else s.tlb;
    var e := TlbEntry(page, r.frame, stamp);
    var tlb := Insert(kept, e, c.tlbSize);
    assert tlb == FaultTlb(c, s, r, page, stamp, true);
    forall x | x in tlb
      ensures 0 <= x.pageNumber < |r.pageTable| && r.pageTable[x.pageNumber] == x.frameNumber
    {
      if x != e {
        assert x in kept && x in s.tlb && x.pageNumber != r.evicted;
        assert EntryWellFormed(c, x) && s.pageTable[x.pageNumber] == x.frameNumber;
      }
    }
  }

  /** With invalidation every TLB entry keeps repeating the page table. */
  lemma KeepsTlbAgrees(c: Config, policy: Policy, lookahead: seq<int>, s: State, page: nat)
    requires c.Valid() && WellFormed(c, s) && TablesAgree(s) && TlbAgrees(s) && page < c.numPages
    ensures TlbAgrees(TranslatePage(c, policy, lookahead, s, page, true).state)
  {
    if Find(s.tlb, page) == -1 {
      if s.pageTable[page] != -1 {
        TableHitKeepsTlbAgrees(c, s, page);
      } else {
        var r := HandleFault(c, policy, lookahead, s, page, s.clock + 1);
        FaultPathKeepsTlbAgrees(c, s, page, r.frame);
      }
    }
  }

  lemma TableHitKeepsTlbAgrees(c: Config, s: State, page: nat)
    requires c.Valid() && WellFormed(c, s) && TlbAgrees(s) && page < c.numPages && s.pageTable[page] != -1
    ensures TlbAgrees(TableHitPath(c, s, page).state)
  {
    var e := TlbEntry(page, s.pageTable[page], s.clock + 1);
    assert TableHitPath(c, s, page).state.tlb == Insert(s.tlb, e, c.tlbSize);
  }

  lemma FaultPathKeepsTlbAgrees(c: Config, s: State, page: nat, frame: nat)
    requires c.Valid() && WellFormed(c, s) && TablesAgree(s) && TlbAgrees(s) && page < c.numPages
    requires frame < c.numFrames && (FirstFree(s.memory) != -1 ==> frame == FirstFree(s.memory))
    requires s.pageTable[page] == -1
    ensures TlbAgrees(FaultPath(c, s, page, Install(c, s, page, s.clock + 1, frame), true).state)
  {
    FaultTlbAgrees(c, s, page, s.clock + 1, frame);
  }

  /** With invalidation the translation is correct: the chosen frame holds the
      page and the page table maps the page to it. */
  lemma TranslatesToResidentFrame(c: Config, policy: Policy, lookahead: seq<int>, s: State, page: nat)
    requires c.Valid() && WellFormed(c, s) && TablesAgree(s) && TlbAgrees(s) && page < c.numPages
    ensures var o := TranslatePage(c, policy, lookahead, s, page, true);
      o.state.pageTable[page] == o.frame &&
      o.state.memory[o.frame].used && o.state.memory[o.frame].pageNumber == page
  {
    var i := Find(s.tlb, page);
    if i != -1 {
      HitPathResident(c, s, page, i);
    } else if s.pageTable[page] != -1 {
      assert s.memory[s.pageTable[page]].pageNumber == page;
    } else {
      var r := HandleFault(c, policy, lookahead, s, page, s.clock + 1);
      FaultPathResident(c, s, page, r.frame);
    }
  }

  lemma HitPathResident(c: Config, s: State, page: nat, i: nat)
    requires c.Valid() && WellFormed(c, s) && TablesAgree(s) && TlbAgrees(s) && page < c.numPages
    requires i < |s.tlb| && s.tlb[i].pageNumber == page
    ensures var o := HitPath(c, s, i);
      o.state.pageTable[page] == o.frame &&
      o.state.memory[o.frame].used && o.state.memory[o.frame].pageNumber == page
  {
    assert s.tlb[i] in s.tlb;
    assert s.pageTable[page] == s.tlb[i].frameNumber;
  }

  lemma FaultPathResident(c: Config, s: State, page: nat, frame: nat)
    requires c.Valid() && WellFormed(c, s) && page < c.numPages
    requires frame < c.numFrames && (FirstFree(s.memory) != -1 ==> frame == FirstFree(s.memory))
    requires s.pageTable[page] == -1
    ensures var o := FaultPath(c, s, page, Install(c, s, page, s.clock + 1, frame), true);
      o.state.pageTable[page] == o.frame &&
      o.state.memory[o.frame].used && o.state.memory[o.frame].pageNumber == page
  {
  }

  /** The invariant of reachable states is kept by every translation. */
  lemma KeepsInvariant(c: Config, policy: Policy, lookahead: seq<int>, s: State, page: nat)
    requires c.Valid() && Invariant(c, s) && page < c.numPages
    ensures Invariant(c, TranslatePage(c, policy, lookahead, s, page, true).state)
  {
    KeepsTablesAgree(c, policy, lookahead, s, page, true);
    KeepsTlbAgrees(c, policy, lookahead, s, page);
    CountersBalance(c, policy, lookahead, s, page, true);
  }

  /** The frame a translation touches carries the newest stamp of all frames,
      and no other frame shares it: MRU evicts it on the next replacement, and
      with two or more frames FIFO and LRU never do. */
  lemma StampsNewest(c: Config, policy: Policy, lookahead: seq<int>, s: State, page: nat, invalidate: bool)
    requires c.Valid() && WellFormed(c, s) && page < c.numPages
    ensures var o := TranslatePage(c, policy, lookahead, s, page, invalidate);
      var m := o.state.memory;
      m[o.frame].lastUsed == o.state.clock &&
      (forall g :: 0 <= g < |m| && g != o.frame ==> m[g].lastUsed < m[o.frame].lastUsed) &&
      Victim(MRU, m, lookahead, c.pageSize) == o.frame &&
      (c.numFrames > 1 ==> Victim(LRU, m, lookahead, c.pageSize) != o.frame)
  {
    var o := TranslatePage(c, policy, lookahead, s, page, invalidate);
    var m := o.state.memory;
    assert forall g :: 0 <= g < |m| && g != o.frame ==> m[g] == s.memory[g];
    if c.numFrames > 1 {
      var g := if o.frame == 0 then 1 else 0;
      assert m[g].lastUsed < m[o.frame].lastUsed;
    }
  }

  /** The stale lookahead: OPTIMAL reads the queue before the current address
      was removed from it. A faulting page is resident in no frame, so the
      translation is the same with that head present or absent. */
  lemma IgnoresStaleHead(c: Config, policy: Policy, va: int, lookahead: seq<int>, s: State, page: nat, invalidate: bool)
    requires c.Valid() && WellFormed(c, s) && TablesAgree(s) && page < c.numPages
    requires va / c.pageSize == page && |lookahead| < MaxSafeInteger - 1
    ensures TranslatePage(c, policy, [va] + lookahead, s, page, invalidate) ==
            TranslatePage(c, policy, lookahead, s, page, invalidate)
  {
    if Find(s.tlb, page) == -1 && s.pageTable[page] == -1 {
      var m := s.memory;
      assert forall j :: 0 <= j < |m| && m[j].used ==> Resident(m[j]) by {
        assert forall j :: 0 <= j < |m| ==> FrameWellFormed(c, m[j], s.clock);
      }
      if FirstFree(m) == -1 {
        forall j | 0 <= j < |m| ensures m[j].pageNumber != va / c.pageSize {
          assert m[j].used;
        }
        assert Resident(m[0]);
        VictimIgnoresHead(policy, m, va, lookahead, c.pageSize);
      }
      assert ChooseFrame(c, policy, [va] + lookahead, m) == ChooseFrame(c, policy, lookahead, m);
    }
  }

  /** The state a TLB hit leaves, field by field. */
  lemma HitPathShape(c: Config, policy: Policy, lookahead: seq<int>, s: State, page: nat, invalidate: bool)
    requires c.Valid() && WellFormed(c, s) && page < c.numPages && Find(s.tlb, page) != -1
    ensures var f := s.tlb[Find(s.tlb, page)].frameNumber;
      var o := TranslatePage(c, policy, lookahead, s, page, invalidate);
      o.frame == f && o.trace == HitTrace &&
      o.state == State(s.pageTable, s.tlb, Touch(s.memory, f, s.clock + 1),
        CountHit(s.metrics), s.clock + 1)
  {
  }

  /** With the page missing from the TLB but mapped, the translation takes
      the page-table-hit path. */
  lemma TakesTableHitPath(c: Config, policy: Policy, lookahead: seq<int>, s: State, page: nat, invalidate: bool)
    requires c.Valid() && WellFormed(c, s) && page < c.numPages
    requires Find(s.tlb, page) == -1 && s.pageTable[page] != -1
    ensures TranslatePage(c, policy, lookahead, s, page, invalidate) == TableHitPath(c, s, page)
  {
  }

  /** The state a page-table hit leaves, field by field. */
  lemma TableHitPathShape(c: Config, policy: Policy, lookahead: seq<int>, s: State, page: nat, invalidate: bool)
    requires c.Valid() && WellFormed(c, s) && page < c.numPages
    requires Find(s.tlb, page) == -1 && s.pageTable[page] != -1
    ensures var f := s.pageTable[page];
      var o := TranslatePage(c, policy, lookahead, s, page, invalidate);
      f >= 0 && o.frame == f && o.trace == TableHitTrace &&
      o.state == State(s.pageTable, Insert(s.tlb, TlbEntry(page, f, s.clock + 1), c.tlbSize),
        Touch(s.memory, f, s.clock + 1), CountMiss(s.metrics), s.clock + 1)
  {
    TakesTableHitPath(c, policy, lookahead, s, page, invalidate);
    TableHitPathFields(c, s, page);
  }

  /** The page-table-hit path, written out as a whole translation. */
  lemma TableHitPathFields(c: Config, s: State, page: nat)
    requires c.Valid() && WellFormed(c, s) && page < c.numPages && s.pageTable[page] != -1
    ensures var f := s.pageTable[page];
      TableHitPath(c, s, page) == Translation(State(s.pageTable, Insert(s.tlb, TlbEntry(page, f, s.clock + 1), c.tlbSize),
        Touch(s.memory, f, s.clock + 1), CountMiss(s.metrics), s.clock + 1), f, TableHitTrace)
  {
  }

  /** With the page neither in the TLB nor mapped, the translation takes the
      fault path on the result of fault handling. */
  lemma TakesFaultPath(c: Config, policy: Policy, lookahead: seq<int>, s: State, page: nat, invalidate: bool)
    requires c.Valid() && WellFormed(c, s) && page < c.numPages
    requires Find(s.tlb, page) == -1 && s.pageTable[page] == -1
    ensures TranslatePage(c, policy, lookahead, s, page, invalidate)
      == FaultPath(c, s, page, HandleFault(c, policy, lookahead, s, page, s.clock + 1), invalidate)
  {
  }

  /** The fault path keeps fault handling's page table and frames. */
  lemma FaultPathFields(c: Config, s: State, page: nat, r: FaultResult, invalidate: bool)
    requires c.Valid() && WellFormed(c, s) && page < c.numPages && FaultWellFormed(c, r, s.clock + 1)
    ensures FaultPath(c, s, page, r, invalidate) == Translation(
      State(r.pageTable, FaultTlb(c, s, r, page, s.clock + 1, invalidate), r.memory,
        CountFault(CountMiss(s.metrics)), s.clock + 1), r.frame, FaultTrace)
  {
  }

  /** The refilled TLB: drop the victim's entry when invalidating, then insert. */
  lemma FaultTlbIs(c: Config, s: State, r: FaultResult, page: nat, stamp: nat, invalidate: bool)
    requires c.Valid() && WellFormed(c, s) && r.frame < c.numFrames && page < c.numPages
    ensures var kept := if invalidate && r.evicted != -1 then RemovePage(s.tlb, r.evicted) else s.tlb;
      FaultTlb(c, s, r, page, stamp, invalidate) == Insert(kept, TlbEntry(page, r.frame, stamp), c.tlbSize)
  {
  }

  /** The translation a page fault produces: fault handling's page table and
      frames, the refilled TLB, the miss and the fault counted. */
  lemma FaultPathShape(c: Config, policy: Policy, lookahead: seq<int>, s: State, page: nat, invalidate: bool)
    requires c.Valid() && WellFormed(c, s) && page < c.numPages
    requires Find(s.tlb, page) == -1 && s.pageTable[page] == -1
    ensures var r := HandleFault(c, policy, lookahead, s, page, s.clock + 1);
      TranslatePage(c, policy, lookahead, s, page, invalidate) == Translation(
        State(r.pageTable, FaultTlb(c, s, r, page, s.clock + 1, invalidate), r.memory,
          CountFault(CountMiss(s.metrics)), s.clock + 1), r.frame, FaultTrace)
  {
    var r := HandleFault(c, policy, lookahead, s, page, s.clock + 1);
    TakesFaultPath(c, policy, lookahead, s, page, invalidate);
    FaultPathFields(c, s, page, r, invalidate);
  }

  /** The state the reset leaves satisfies the invariant. */
  lemma InitialInvariant(c: Config)
    requires c.Valid()
    ensures Invariant(c, Initial(c))
  {
  }

  /** `processNextAddress` repeated over a queue: each address is translated
      with the whole queue, itself included, as the OPTIMAL lookahead. */
  function RunWith(c: Config, policy: Policy, s: State, queue: seq<int>, invalidate: bool): (r: State)
    requires c.Valid() && WellFormed(c, s)
    requires forall a :: a in queue ==> c.ValidAddress(a)
    ensures WellFormed(c, r) && r.clock == s.clock + |queue|
    decreases |queue|
  {
    if queue == [] then s
    else RunWith(c, policy, StepWith(c, policy, queue, s, queue[0], invalidate).state, queue[1..], invalidate)
  }

  /** Every state reached from one satisfying the invariant satisfies it, and
      every address processed is counted once. */
  lemma {:induction false} RunKeepsInvariant(c: Config, policy: Policy, s: State, queue: seq<int>)
    requires c.Valid() && Invariant(c, s)
    requires forall a :: a in queue ==> c.ValidAddress(a)
    ensures Invariant(c, RunWith(c, policy, s, queue, true))
    ensures RunWith(c, policy, s, queue, true).metrics.totalAddresses == s.metrics.totalAddresses + |queue|
    decreases |queue|
  {
    if queue != [] {
      var va := queue[0];
      SplitAddress(c, va);
      KeepsInvariant(c, policy, queue, s, va / c.pageSize);
      CountersBalance(c, policy, queue, s, va / c.pageSize, true);
      RunKeepsInvariant(c, policy, Step(c, policy, queue, s, va).state, queue[1..]);
    }
  }
}
