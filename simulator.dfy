/** The simulator as the hook holds it. Page table, physical memory, TLB,
    counters, pending queue and timeline are state slots that each operation
    replaces with an updated copy (the hook copies an array, changes one slot
    and stores the copy), so they are `seq` fields the methods reassign; the
    clock `timeCounter` is advanced once per translation. Every method is
    proved against the state machine of module Engine. */
module Simulator {
  import opened AddressSpace
  import opened Replacement
  import opened TlbCache
  import opened Engine
  import opened Timeline

  datatype Option<T> = None | Some(value: T)

  class Simulator {
    const cfg: Config
    var pageTable: seq<int>
    var memory: seq<Frame>
    var tlb: seq<TlbEntry>
    var metrics: Metrics
    var timeCounter: nat
    var addressQueue: seq<int>
    var algorithm: Policy
    var timelineSteps: seq<Phase>
    var currentTimelineIndex: int

    /** The engine state the fields hold. */
    ghost function Snapshot(): State
      reads this
    {
      State(pageTable, tlb, memory, metrics, timeCounter)
    }

    /** The engine invariant, a pending queue of translatable addresses, and a
        timeline position that is -1 or a recorded phase. */
    ghost predicate Valid()
      reads this
    {
      && cfg.Valid()
      && Invariant(cfg, Snapshot())
      && (forall a :: a in addressQueue ==> cfg.ValidAddress(a))
      && -1 <= currentTimelineIndex < |timelineSteps|
    }

    /** The hook's initial state, with FIFO selected. */
    constructor (c: Config)
      requires c.Valid()
      ensures Valid() && cfg == c && Snapshot() == Initial(c)
      ensures addressQueue == [] && algorithm == FIFO
      ensures timelineSteps == [] && currentTimelineIndex == -1
    {
      cfg := c;
      pageTable := seq(c.numPages, _ => -1);
      memory := seq(c.numFrames, _ => EmptyFrame);
      tlb := [];
      metrics := ZeroMetrics;
      timeCounter := 0;
      addressQueue := [];
      algorithm := FIFO;
      timelineSteps := [];
      currentTimelineIndex := -1;
      new;
      InitialInvariant(c);
    }

    /** `resetSimulation(addresses)`: fresh page table and frames, empty TLB,
        zero counters and clock, empty timeline, the given queue. */
    method Reset(addresses: seq<int>)
      requires cfg.Valid()
      requires forall a :: a in addresses ==> cfg.ValidAddress(a)
      modifies this
      ensures Valid() && Snapshot() == Initial(cfg)
      ensures addressQueue == addresses && algorithm == old(algorithm)
      ensures timelineSteps == [] && currentTimelineIndex == -1
    {
      pageTable := seq(cfg.numPages, _ => -1);
      tlb := [];
      memory := seq(cfg.numFrames, _ => EmptyFrame);
      metrics := ZeroMetrics;
      timeCounter := 0;
      timelineSteps := [];
      currentTimelineIndex := -1;
      addressQueue := addresses;
      InitialInvariant(cfg);
    }

    /** The algorithm selector. */
    method SetAlgorithm(policy: Policy)
      modifies this`algorithm
      ensures algorithm == policy
    {
      algorithm := policy;
    }

    /** `memory.findIndex(frame => !frame.used)`. */
    method FindFreeFrame() returns (free: int)
      ensures free == FirstFree(memory)
    {
      var k := 0;
      while k < |memory| && memory[k].used
        invariant 0 <= k <= |memory|
        invariant forall j :: 0 <= j < k ==> memory[j].used
      {
        k := k + 1;
      }
      free := if k == |memory| then -1 else k;
    }

    /** `tlb.find(entry => entry.pageNumber === page)`, as an index. */
    method LookupTlb(page: int) returns (index: int)
      ensures index == Find(tlb, page)
    {
      var k := 0;
      while k < |tlb| && tlb[k].pageNumber != page
        invariant 0 <= k <= |tlb|
        invariant forall j :: 0 <= j < k ==> tlb[j].pageNumber != page
      {
        k := k + 1;
      }
      index := if k == |tlb| then -1 else k;
    }

    /** `updateMemoryUsage`: restamp one frame with the clock. */
    method UpdateMemoryUsage(frame: nat)
      requires frame < |memory|
      modifies this`memory
      ensures memory == Touch(old(memory), frame, timeCounter)
    {
      memory := memory[frame := memory[frame].(lastUsed := timeCounter)];
    }

    /** `updateTLB`: drop the page's entry, shift the oldest entry off when the
        rest is at capacity, push the new entry. */
    method UpdateTlb(page: int, frame: int)
      requires cfg.tlbSize > 0
      modifies this`tlb
      ensures tlb == Insert(old(tlb), TlbEntry(page, frame, timeCounter), cfg.tlbSize)
    {
      var kept := RemovePage(tlb, page);
      if |kept| >= cfg.tlbSize {
        kept := kept[1..];
      }
      tlb := kept + [TlbEntry(page, frame, timeCounter)];
    }

    /** Drop the TLB entry of an evicted page. */
    method InvalidateTlb(page: int)
      modifies this`tlb
      ensures tlb == RemovePage(old(tlb), page)
    {
      tlb := RemovePage(tlb, page);
    }

    /** `handlePageFault`: fill the lowest free frame, or evict the
        algorithm's victim and unmap its page; map the page to the frame and
        install it with the clock. Returns the frame and the evicted page (-1
        when the frame was free). */
    method HandlePageFault(page: int, lookahead: seq<int>, ghost s: State) returns (frame: nat, evicted: int)
      requires cfg.Valid() && WellFormed(cfg, s) && 0 <= page < cfg.numPages
      requires pageTable == s.pageTable && memory == s.memory && s.clock <= timeCounter
      modifies this`pageTable, this`memory
      ensures var r := HandleFault(cfg, algorithm, lookahead, s, page, timeCounter);
        pageTable == r.pageTable && memory == r.memory && frame == r.frame && evicted == r.evicted
    {
      assert forall j :: 0 <= j < |memory| && memory[j].used ==> Resident(memory[j]) by {
        assert forall j :: 0 <= j < |s.memory| ==> FrameWellFormed(cfg, s.memory[j], s.clock);
      }
      var free := FindFreeFrame();
      if free != -1 {
        frame, evicted := free, -1;
      } else {
        assert Resident(memory[0]);
        frame := Victim(algorithm, memory, lookahead, cfg.pageSize);
        evicted := memory[frame].pageNumber;
        if evicted != -1 {
          pageTable := pageTable[evicted := -1];
        }
      }
      pageTable := pageTable[page := frame];
      memory := memory[frame := Frame(true, page, timeCounter)];
      assert frame == ChooseFrame(cfg, algorithm, lookahead, s.memory);
    }

    /** `simulateAddressTranslation`, with the victim's TLB entry invalidated
        on replacement: the new state, the physical address and the trace are
        those of `Engine.Step`; the timeline shows the trace, positioned at its
        end, or at its start when a previous timeline existed (the restart of
        the timeline at the end of the translation). */
    method TranslateAddress(va: int, lookahead: seq<int>) returns (physical: int)
      requires Valid() && cfg.ValidAddress(va)
      modifies this
      ensures Valid()
      ensures var o := Step(cfg, algorithm, lookahead, old(Snapshot()), va);
        Snapshot() == o.state && physical == o.physical && timelineSteps == o.trace
      ensures currentTimelineIndex == if old(timelineSteps) != [] then 0 else |timelineSteps| - 1
      ensures addressQueue == old(addressQueue) && algorithm == old(algorithm)
    {
      ghost var s := Snapshot();
      SplitAddress(cfg, va);
      var page, offset := va / cfg.pageSize, va % cfg.pageSize;
      var hadTimeline := timelineSteps != [];
      timeCounter := timeCounter + 1;
      var frame, trace := TranslatePageHere(page, lookahead, s);
      physical := frame * cfg.frameSize + offset;
      timelineSteps := trace;
      currentTimelineIndex := if hadTimeline then 0 else |trace| - 1;
      KeepsInvariant(cfg, algorithm, lookahead, s, page);
    }

    /** The body of `simulateAddressTranslation` after the clock tick and the
        split: TLB lookup, then page-table lookup, then fault handling, with
        the phases recorded in the order the source records them. */
    method TranslatePageHere(page: nat, lookahead: seq<int>, ghost s: State) returns (frame: nat, trace: seq<Phase>)
      requires cfg.Valid() && WellFormed(cfg, s) && page < cfg.numPages
      requires Snapshot() == s.(clock := s.clock + 1)
      modifies this`pageTable, this`memory, this`tlb, this`metrics
      ensures var o := TranslatePage(cfg, algorithm, lookahead, s, page, true);
        Snapshot() == o.state && frame == o.frame && trace == o.trace
      ensures |trace| > 0
    {
      var i := LookupTlb(page);
      if i != -1 {
        frame, trace := HitCase(page, i, lookahead, s);
      } else if pageTable[page] != -1 {
        frame, trace := TableHitCase(page, lookahead, s);
      } else {
        frame, trace := FaultCase(page, lookahead, s);
      }
    }

    /** A TLB hit, with its phases. */
    method HitCase(page: nat, i: int, lookahead: seq<int>, ghost s: State) returns (frame: nat, trace: seq<Phase>)
      requires cfg.Valid() && WellFormed(cfg, s) && page < cfg.numPages && i == Find(s.tlb, page) && i != -1
      requires Snapshot() == s.(clock := s.clock + 1)
      modifies this`memory, this`metrics
      ensures var o := TranslatePage(cfg, algorithm, lookahead, s, page, true);
        Snapshot() == o.state && frame == o.frame && trace == o.trace
    {
      trace := [TlbLookup];
      trace := trace + [TlbHit];
      frame := TlbHitHere(i, s);
      trace := trace + [MemoryUpdate];
      HitPathShape(cfg, algorithm, lookahead, s, page, true);
    }

    /** A TLB miss served by the page table, with its phases. */
    method TableHitCase(page: nat, lookahead: seq<int>, ghost s: State) returns (frame: nat, trace: seq<Phase>)
      requires cfg.Valid() && WellFormed(cfg, s) && page < cfg.numPages
      requires Find(s.tlb, page) == -1 && s.pageTable[page] != -1
      requires Snapshot() == s.(clock := s.clock + 1)
      modifies this`memory, this`tlb, this`metrics
      ensures var o := TranslatePage(cfg, algorithm, lookahead, s, page, true);
        Snapshot() == o.state && frame == o.frame && trace == o.trace
    {
      trace := [TlbLookup];
      trace := trace + [TlbMiss];
      metrics := CountMiss(metrics);
      trace := trace + [PageTableHit];
      frame := TableHitHere(page, s);
      trace := trace + [MemoryUpdate];
      TableHitPathShape(cfg, algorithm, lookahead, s, page, true);
    }

    /** A TLB miss that faults, with its phases. */
    method FaultCase(page: nat, lookahead: seq<int>, ghost s: State) returns (frame: nat, trace: seq<Phase>)
      requires cfg.Valid() && WellFormed(cfg, s) && page < cfg.numPages
      requires Find(s.tlb, page) == -1 && s.pageTable[page] == -1
      requires Snapshot() == s.(clock := s.clock + 1)
      modifies this`pageTable, this`memory, this`tlb, this`metrics
      ensures var o := TranslatePage(cfg, algorithm, lookahead, s, page, true);
        Snapshot() == o.state && frame == o.frame && trace == o.trace
    {
      trace := [TlbLookup];
      trace := trace + [TlbMiss];
      metrics := CountMiss(metrics);
      trace := trace + [PageFault];
      frame := FaultHere(page, lookahead, s);
      trace := trace + [MemoryUpdate];
      FaultPathShape(cfg, algorithm, lookahead, s, page, true);
    }

    /** The TLB-hit path: count the hit, restamp the entry's frame. */
    method TlbHitHere(i: nat, ghost s: State) returns (frame: nat)
      requires cfg.Valid() && WellFormed(cfg, s) && i < |s.tlb|
      requires Snapshot() == s.(clock := s.clock + 1)
      modifies this`memory, this`metrics
      ensures frame == s.tlb[i].frameNumber && frame < |s.memory| && memory == Touch(s.memory, frame, s.clock + 1)
      ensures metrics == CountHit(s.metrics)
      ensures pageTable == s.pageTable && tlb == s.tlb && timeCounter == s.clock + 1
    {
      assert tlb[i] in tlb;
      frame := tlb[i].frameNumber;
      metrics := CountHit(metrics);
      UpdateMemoryUsage(frame);
    }

    /** The page-table-hit path, after the miss is counted: refill the TLB,
        restamp the frame. */
    method TableHitHere(page: nat, ghost s: State) returns (frame: nat)
      requires cfg.Valid() && WellFormed(cfg, s) && page < cfg.numPages && s.pageTable[page] != -1
      requires Snapshot() == s.(metrics := CountMiss(s.metrics), clock := s.clock + 1)
      modifies this`memory, this`tlb
      ensures frame == s.pageTable[page] && pageTable == s.pageTable
      ensures tlb == Insert(s.tlb, TlbEntry(page, frame, s.clock + 1), cfg.tlbSize)
      ensures memory == Touch(s.memory, frame, s.clock + 1)
      ensures metrics == CountMiss(s.metrics) && timeCounter == s.clock + 1
    {
      frame := pageTable[page];
      UpdateTlb(page, frame);
      UpdateMemoryUsage(frame);
    }

    /** The fault path, after the miss is counted: count the fault, handle it,
        drop the evicted page's TLB entry, refill the TLB. */
    method FaultHere(page: nat, lookahead: seq<int>, ghost s: State) returns (frame: nat)
      requires cfg.Valid() && WellFormed(cfg, s) && page < cfg.numPages
      requires Snapshot() == s.(metrics := CountMiss(s.metrics), clock := s.clock + 1)
      modifies this`pageTable, this`memory, this`tlb, this`metrics
      ensures var r := HandleFault(cfg, algorithm, lookahead, s, page, s.clock + 1);
        pageTable == r.pageTable && memory == r.memory && frame == r.frame &&
        tlb == FaultTlb(cfg, s, r, page, s.clock + 1, true)
      ensures metrics == CountFault(CountMiss(s.metrics)) && timeCounter == s.clock + 1
    {
      metrics := CountFault(metrics);
      var evicted;
      frame, evicted := HandlePageFault(page, lookahead, s);
      RefillTlb(page, frame, evicted);
      FaultTlbIs(cfg, s, HandleFault(cfg, algorithm, lookahead, s, page, s.clock + 1), page, s.clock + 1, true);
    }

    /** After a fault: drop the evicted page's entry (when a page was
        evicted), then insert the new mapping. */
    method RefillTlb(page: int, frame: int, evicted: int)
      requires cfg.tlbSize > 0
      modifies this`tlb
      ensures var kept := if evicted != -1 then RemovePage(old(tlb), evicted) else old(tlb);
        tlb == Insert(kept, TlbEntry(page, frame, timeCounter), cfg.tlbSize)
    {
      if evicted != -1 {
        InvalidateTlb(evicted);
      }
      UpdateTlb(page, frame);
    }

    /** `processNextAddress`: take the head of the queue and translate it, with
        the queue as it was before the removal as the OPTIMAL lookahead. An
        empty queue changes nothing. */
    method ProcessNextAddress() returns (physical: Option<int>)
      requires Valid()
      modifies this
      ensures Valid()
      ensures old(addressQueue) == [] ==>
        physical == None && Snapshot() == old(Snapshot()) && addressQueue == [] &&
        timelineSteps == old(timelineSteps) && currentTimelineIndex == old(currentTimelineIndex)
      ensures old(addressQueue) != [] ==>
        var o := Step(cfg, algorithm, old(addressQueue), old(Snapshot()), old(addressQueue)[0]);
        physical == Some(o.physical) && Snapshot() == o.state && timelineSteps == o.trace &&
        addressQueue == old(addressQueue)[1..]
      ensures old(addressQueue) != [] ==>
        currentTimelineIndex == if old(timelineSteps) != [] then 0 else |timelineSteps| - 1
      ensures algorithm == old(algorithm)
    {
      if addressQueue == [] {
        physical := None;
      } else {
        var queue := addressQueue;
        assert queue[0] in queue;
        addressQueue := queue[1..];
        var phys := TranslateAddress(queue[0], queue);
        physical := Some(phys);
      }
    }

    /** The address-filter half of `handleFileUpload`: keep the parsed lines
        that are addresses in [0, PAGE_SIZE * NUM_PAGES); when any remain,
        reset with them as the queue, otherwise change nothing. */
    method LoadAddresses(lines: seq<Parsed>) returns (loaded: nat)
      requires Valid()
      modifies this
      ensures Valid()
      ensures loaded == |FilterAddresses(lines, cfg.VirtualSpace())|
      ensures loaded > 0 ==> Snapshot() == Initial(cfg) && addressQueue == FilterAddresses(lines, cfg.VirtualSpace())
      ensures loaded > 0 ==> timelineSteps == [] && currentTimelineIndex == -1
      ensures loaded == 0 ==> Snapshot() == old(Snapshot()) && addressQueue == old(addressQueue)
      ensures loaded == 0 ==> timelineSteps == old(timelineSteps) && currentTimelineIndex == old(currentTimelineIndex)
      ensures algorithm == old(algorithm)
    {
      var addresses := FilterAddresses(lines, cfg.VirtualSpace());
      loaded := |addresses|;
      if loaded > 0 {
        Reset(addresses);
      }
    }

    /** `navigateTimeline`, with a clicked phase moving to that phase. */
    method NavigateTimeline(req: Request)
      requires Valid()
      modifies this`currentTimelineIndex
      ensures Valid()
      ensures currentTimelineIndex == Navigate(|timelineSteps|, old(currentTimelineIndex), req)
    {
      NavigateKeepsRange(|timelineSteps|, currentTimelineIndex, req);
      currentTimelineIndex := Navigate(|timelineSteps|, currentTimelineIndex, req);
    }
  }
}
