/** Simulator configuration, the split of a virtual address into page and offset,
    the physical address of a translated access, and the address filter applied
    to an uploaded address file. */
module AddressSpace {

  /** The five configuration constants of the simulator: page size, number of
      virtual pages, number of physical frames, frame size and TLB capacity. */
  datatype Config = Config(pageSize: nat, numPages: nat, numFrames: nat, frameSize: nat, tlbSize: nat)
  {
    /** Every constant is positive. */
    predicate Valid() {
      pageSize > 0 && numPages > 0 && numFrames > 0 && frameSize > 0 && tlbSize > 0
    }

    /** Size of the virtual address space, PAGE_SIZE * NUM_PAGES (see
        `ProductIsMul`). */
    function VirtualSpace(): nat {
      Product(numPages, pageSize)
    }

    /** A virtual address the engine may be asked to translate. */
    predicate ValidAddress(va: int) {
      0 <= va < VirtualSpace()
    }
  }

  /** a * b, written as repeated addition: the solver then meets a product
      only where `ProductIsMul` is called. */
  function Product(a: nat, b: nat): nat {
    if a == 0 then 0 else b + Product(a - 1, b)
  }

  lemma {:induction false} ProductIsMul(a: nat, b: nat)
    ensures Product(a, b) == a * b
  {
    if a > 0 {
      ProductIsMul(a - 1, b);
    }
  }

  /** floor(va / pageSize); Dafny's division agrees with floor for a positive divisor. */
  function PageOf(c: Config, va: int): int
    requires c.pageSize > 0
  {
    va / c.pageSize
  }

  /** va % pageSize for a non-negative address. */
  function OffsetOf(c: Config, va: int): int
    requires c.pageSize > 0
  {
    va % c.pageSize
  }

  /** frameNumber * FRAME_SIZE + offset. */
  function PhysicalAddress(c: Config, frame: nat, va: int): int
    requires c.pageSize > 0
  {
    frame * c.frameSize + OffsetOf(c, va)
  }

  /** A valid address splits into a page below numPages and an offset below
      pageSize that together give the address back. */
  lemma SplitAddress(c: Config, va: int)
    requires c.Valid() && c.ValidAddress(va)
    ensures 0 <= PageOf(c, va) < c.numPages
    ensures 0 <= OffsetOf(c, va) < c.pageSize
    ensures PageOf(c, va) * c.pageSize + OffsetOf(c, va) == va
  {
    ProductIsMul(c.numPages, c.pageSize);
    var p, o := va / c.pageSize, va % c.pageSize;
    assert p * c.pageSize + o == va;
    MulCancel(p, c.numPages, c.pageSize);
  }

  lemma MulCancel(a: int, b: int, k: nat)
    requires k > 0 && a * k < b * k
    ensures a < b
  {
    assert (b - a) * k == b * k - a * k;
  }

  lemma MulMonotone(a: nat, b: nat, k: nat)
    requires a <= b
    ensures a * k <= b * k
  {
  }

  /** When a frame is at least as large as a page, the physical address of a
      valid access lies inside its frame, and so below numFrames * frameSize. */
  lemma PhysicalAddressInFrame(c: Config, frame: nat, va: int)
    requires c.Valid() && c.ValidAddress(va) && c.pageSize <= c.frameSize
    requires frame < c.numFrames
    ensures frame * c.frameSize <= PhysicalAddress(c, frame, va) < (frame + 1) * c.frameSize
    ensures PhysicalAddress(c, frame, va) < c.numFrames * c.frameSize
  {
    SplitAddress(c, va);
    assert (frame + 1) * c.frameSize == frame * c.frameSize + c.frameSize;
    MulMonotone(frame + 1, c.numFrames, c.frameSize);
  }

  /** Under the same condition, distinct (frame, offset) pairs never share a
      physical address. */
  lemma PhysicalAddressInjective(c: Config, f1: nat, va1: int, f2: nat, va2: int)
    requires c.Valid() && c.ValidAddress(va1) && c.ValidAddress(va2) && c.pageSize <= c.frameSize
    requires f1 < c.numFrames && f2 < c.numFrames
    requires PhysicalAddress(c, f1, va1) == PhysicalAddress(c, f2, va2)
    ensures f1 == f2 && OffsetOf(c, va1) == OffsetOf(c, va2)
  {
    PhysicalAddressInFrame(c, f1, va1);
    PhysicalAddressInFrame(c, f2, va2);
    if f1 < f2 {
      MulMonotone(f1 + 1, f2, c.frameSize);
      assert false;
    } else if f2 < f1 {
      MulMonotone(f2 + 1, f1, c.frameSize);
      assert false;
    }
  }

  /** A non-blank uploaded line after `parseInt`: a number, or NaN when it does not parse. */
  datatype Parsed = NaN | Number(value: int)

  /** The upload filter: keep the numbers in [0, limit), in file order. */
  function FilterAddresses(lines: seq<Parsed>, limit: int): (r: seq<int>)
    ensures |r| <= |lines|
    ensures forall i :: 0 <= i < |r| ==> 0 <= r[i] < limit
    ensures forall a :: a in r <==> Number(a) in lines && 0 <= a < limit
  {
    if lines == [] then []
    else
      var rest := FilterAddresses(lines[1..], limit);
      assert lines == [lines[0]] + lines[1..];
      match lines[0]
      case NaN => rest
      case Number(a) => if 0 <= a < limit then [a] + rest else rest
  }

  /** The filter keeps file order: filtering a concatenation is the
      concatenation of the filtered parts. */
  lemma {:induction false} FilterAddressesAppend(a: seq<Parsed>, b: seq<Parsed>, limit: int)
    ensures FilterAddresses(a + b, limit) == FilterAddresses(a, limit) + FilterAddresses(b, limit)
  {
    if a == [] {
      assert a + b == b;
    } else {
      assert (a + b)[1..] == a[1..] + b;
      FilterAddressesAppend(a[1..], b, limit);
    }
  }
}
