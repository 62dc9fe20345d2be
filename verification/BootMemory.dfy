/**
 How core of the NOVA port divides physical memory at boot time, from the memory
 descriptors of the hypervisor information page: a RAM allocator and an I/O-memory
 allocator, filled by consecutive passes over the descriptors (64-bit arithmetic).
 */
module BootMemory {
  import opened MachineWords
  import opened Wrappers
  import opened BlockTree
  import opened AddressRanges
  import opened Ranges
  import opened RangeAllocators

  const MULTIBOOT_MODULE: int := -2
  const FRAMEBUFFER: int := -5
  const AVAILABLE_MEMORY: int := 1
  const ACPI_RECLAIM_MEMORY: int := 3
  const ACPI_NVS_MEMORY: int := 4

  predicate Overlaps(addr: nat, length: nat, p: nat) {
    addr < (p + 1) * PAGE <= TWO_64 && p * PAGE < addr + length
  }

  predicate OverlapsBothEnds(addr: nat, length: nat) {
    addr < PAGE && addr + length > TWO_64 - PAGE
  }

  datatype MemDesc = MemDesc(addr: nat, size: nat, memType: int, aux: nat) {

    predicate Typed() { addr < TWO_64 && size < TWO_64 && aux < TWO_32 }

    predicate Available() { memType == AVAILABLE_MEMORY }

    predicate Acpi() { memType == ACPI_RECLAIM_MEMORY || memType == ACPI_NVS_MEMORY }

    /** The number of lines of the screen, encoded in the size of the framebuffer descriptor. */
    function Height(): nat { size / 0x1_0000 % 0x100_0000 }

    /** The number of bytes described. */
    function Length(): nat {
      if memType == FRAMEBUFFER then aux * Height() % TWO_32 else size
    }

    predicate Contains(byte: nat) { addr <= byte < addr + Length() }

    /** The page lies wholly in the described memory. */
    predicate HoldsPage(p: nat) {
      addr <= p * PAGE && (p + 1) * PAGE <= addr + size && (p + 1) * PAGE <= TWO_64
    }

    /** The page overlaps the described memory, where a start within a page overlaps it. */
    predicate TouchesPage(p: nat) { Overlaps(addr, Length(), p) }

    /** The first and the last page of the address space are overlapped. */
    predicate TouchesBothEnds() { OverlapsBothEnds(addr, Length()) }

    /** The described memory reaches a page boundary. */
    predicate SpansBoundary() { (addr + PAGE - 1) / PAGE <= (addr + size) / PAGE }

    /** Base and size of the range that the first pass computes for available memory. */
    function AvailableBase(): nat { RoundPage(addr) }

    function AvailableSize(): nat
      requires Typed()
    {
      if addr >= TWO_64 - size then TruncPage(U64(TWO_64 - addr)) else U64(TruncPage(addr + size) - AvailableBase())
    }

    /** Base and size of the range that the second pass computes for all other memory. */
    function ReservedBase(): nat { TruncPage(addr) }

    function ReservedSize(): nat {
      if U64(addr + Length()) < addr then U64(TWO_64 - ReservedBase())
      else U64(RoundPage(U64(addr + Length())) - ReservedBase())
    }
  }

  /**
   The size of a framebuffer descriptor is composed of bits per pixel, kind, height and width of
   the screen. Its memory is the pitch times the height, in 32-bit arithmetic.
   */
  lemma FramebufferLength(d: MemDesc, bpp: nat, kind: nat, height: nat, width: nat)
    requires bpp < 0x100 && kind < 0x100 && height < 0x100_0000 && width < 0x100_0000
    requires d.size == bpp + 0x100 * kind + 0x1_0000 * height + 0x100_0000_0000 * width
    ensures d.memType == -5 ==> d.Length() == d.aux * height % 0x1_0000_0000
    ensures d.memType != -5 ==> d.Length() == d.size
  {
    var upper := height + 0x100_0000 * width;
    assert d.size == upper * 0x1_0000 + (bpp + 0x100 * kind);
    assert d.Height() == height;
  }

  predicate CommandLinePage(d: MemDesc, p: nat) {
    d.memType == MULTIBOOT_MODULE && d.aux != 0 && (p == d.aux / PAGE || p == d.aux / PAGE + 1)
  }

  /** The non-available descriptor takes the page out of the RAM allocator. */
  predicate Reserves(d: MemDesc, p: nat) {
    !d.Available() && d.TouchesPage(p) && !d.TouchesBothEnds()
  }

  predicate Provides(d: MemDesc, p: nat) {
    d.Available() && d.HoldsPage(p)
  }

  // ---- the ranges computed ------------------------------------------------------------------

  lemma PageBounds(a: nat, p: nat)
    ensures a <= p * PAGE <==> (a + PAGE - 1) / PAGE <= p
    ensures (p + 1) * PAGE <= a <==> p < a / PAGE
  {
  }

  lemma RoundPageMeaning(a: nat)
    requires a < TWO_64
    ensures a <= TWO_64 - PAGE ==> RoundPage(a) == (a + PAGE - 1) / PAGE * PAGE < TWO_64
    ensures a > TWO_64 - PAGE ==> RoundPage(a) == 0
  {
  }

  lemma AvailableRange(d: MemDesc)
    requires d.Typed() && d.size > 0 && d.SpansBoundary()
    ensures d.AvailableBase() + d.AvailableSize() <= TWO_64
    ensures forall p: nat ::
              d.AvailableBase() / PAGE <= p < (d.AvailableBase() + d.AvailableSize()) / PAGE <==> d.HoldsPage(p)
  {
    var base, size := d.AvailableBase(), d.AvailableSize();
    var end := if d.addr + d.size < TWO_64 then d.addr + d.size else TWO_64;
    AvailableEnd(d.addr, d.size, end, base, size);
    forall p: nat
      ensures base / PAGE <= p < (base + size) / PAGE <==> d.HoldsPage(p)
    {
      PageBounds(d.addr, p);
      PageBounds(end, p);
    }
  }

  lemma AvailableEnd(addr: nat, length: nat, end: nat, base: nat, size: nat)
    requires addr < TWO_64 && 0 < length < TWO_64 && (addr + PAGE - 1) / PAGE <= (addr + length) / PAGE
    requires end == if addr + length < TWO_64 then addr + length else TWO_64
    requires base == RoundPage(addr)
    requires size == if addr >= TWO_64 - length then TruncPage(U64(TWO_64 - addr))
                     else U64(TruncPage(addr + length) - base)
    ensures addr > TWO_64 - PAGE ==> end == TWO_64 && base == 0 && size == 0
    ensures addr <= TWO_64 - PAGE ==>
              base == (addr + PAGE - 1) / PAGE * PAGE && base + size == TruncPage(end)
  {
    RoundPageMeaning(addr);
  }

  /** The second pass covers the pages touched, or none if the range reaches from the first page to the last. */
  lemma ReservedIsExact(addr: nat, length: nat, base: nat, size: nat)
    requires addr < TWO_64 && length < TWO_64 && base == TruncPage(addr)
    requires size == if U64(addr + length) < addr then U64(TWO_64 - base) else U64(RoundPage(U64(addr + length)) - base)
    ensures base + size <= TWO_64
    ensures forall p: nat :: base / PAGE <= p < (base + size) / PAGE <==>
                             Overlaps(addr, length, p) && !OverlapsBothEnds(addr, length)
  {
    var end := addr + length;
    ReservedEnd(addr, end, base, size);
    forall p: nat
      ensures base / PAGE <= p < (base + size) / PAGE <==>
              Overlaps(addr, length, p) && !OverlapsBothEnds(addr, length)
    {
      PageBounds(end, p);
      PageBounds(addr, p);
    }
  }

  lemma ReservedEnd(addr: nat, end: nat, base: nat, size: nat)
    requires addr < TWO_64 && addr <= end < addr + TWO_64 && base == TruncPage(addr)
    requires size == if U64(end) < addr then U64(TWO_64 - base) else U64(RoundPage(U64(end)) - base)
    ensures addr < PAGE && end > TWO_64 - PAGE ==> size == 0
    ensures addr >= PAGE && end > TWO_64 - PAGE ==> base + size == TWO_64
    ensures end <= TWO_64 - PAGE ==> base + size == (end + PAGE - 1) / PAGE * PAGE
  {
    if end < TWO_64 {
      RoundPageMeaning(end);
    } else {
      assert U64(end) == end - TWO_64;
    }
  }

  /** The range computed for available memory is exact precisely if the memory reaches a page boundary. */
  lemma AvailableRangeIff(d: MemDesc)
    requires d.Typed() && d.size > 0
    ensures (d.AvailableBase() + d.AvailableSize() <= TWO_64
             && forall p: nat ::
                  d.AvailableBase() / PAGE <= p < (d.AvailableBase() + d.AvailableSize()) / PAGE <==> d.HoldsPage(p))
            <==> d.SpansBoundary()
  {
    if d.SpansBoundary() {
      AvailableRange(d);
    } else {
      SmallRegion(d);
      assert !d.HoldsPage(d.AvailableBase() / PAGE);
    }
  }

  /** Otherwise, the size wraps around to one page less than the address space. */
  lemma SmallRegion(d: MemDesc)
    requires d.Typed() && d.size > 0 && !d.SpansBoundary()
    ensures d.AvailableSize() == TWO_64 - PAGE && d.AvailableBase() % PAGE == 0
    ensures d.AvailableBase() == if d.addr > TWO_64 - PAGE then 0 else (d.addr + PAGE - 1) / PAGE * PAGE
  {
    RoundPageMeaning(d.addr);
  }

  /** Two small regions, one in the middle of the address space and one at its end. */
  lemma SmallRegionExamples()
    ensures var d := MemDesc(0x1100, 0x100, AVAILABLE_MEMORY, 0);
            d.AvailableBase() == 0x2000 && d.AvailableSize() == TWO_64 - PAGE
    ensures var d := MemDesc(TWO_64 - 0x800, 0x100, AVAILABLE_MEMORY, 0);
            d.AvailableBase() == 0 && d.AvailableSize() == TWO_64 - PAGE
  {
  }

  /** The range computed for available memory does not exceed the address space. */
  predicate InRange(d: MemDesc)
    requires d.Typed()
  {
    d.Available() && d.size > 0 ==> d.AvailableBase() + d.AvailableSize() <= TWO_64
  }

  // ---- the outcome ----------------------------------------------------------------------------

  /** The range that the first pass removes from I/O memory and adds to RAM. */
  function RamStep(d: MemDesc): Range
    requires d.Typed()
  {
    if d.Available() && d.size > 0 then Range(d.AvailableBase(), d.AvailableSize()) else Range(0, 0)
  }

  /** The range that the second pass removes from RAM. */
  function ReservedStep(d: MemDesc): Range
    requires d.Typed()
  {
    if d.Available() then Range(0, 0) else Range(d.ReservedBase(), d.ReservedSize())
  }

  /** The range that the second pass adds to I/O memory. */
  function AcpiStep(d: MemDesc): Range
    requires d.Typed()
  {
    if d.Acpi() then ReservedStep(d) else Range(0, 0)
  }

  function RamRange(d: MemDesc): set<nat>
    requires d.Typed()
  {
    RamStep(d).Pages()
  }

  function ReservedRange(d: MemDesc): set<nat>
    requires d.Typed()
  {
    ReservedStep(d).Pages()
  }

  function AcpiRange(d: MemDesc): set<nat>
    requires d.Typed()
  {
    AcpiStep(d).Pages()
  }

  function CommandLineRange(d: MemDesc): set<nat> {
    if d.memType == MULTIBOOT_MODULE && d.aux != 0 then {d.aux / PAGE, d.aux / PAGE + 1} else {}
  }

  predicate AllTyped(ds: seq<MemDesc>) {
    forall i :: 0 <= i < |ds| ==> ds[i].Typed()
  }

  predicate AllInRange(ds: seq<MemDesc>)
    requires AllTyped(ds)
  {
    forall i :: 0 <= i < |ds| ==> InRange(ds[i])
  }

  function RamSteps(ds: seq<MemDesc>): seq<Range>
    requires AllTyped(ds)
  {
    seq(|ds|, i requires 0 <= i < |ds| => RamStep(ds[i]))
  }

  function AcpiSteps(ds: seq<MemDesc>): seq<Range>
    requires AllTyped(ds)
  {
    seq(|ds|, i requires 0 <= i < |ds| => AcpiStep(ds[i]))
  }

  function RamRanges(ds: seq<MemDesc>): seq<set<nat>>
    requires AllTyped(ds)
  {
    PageSets(RamSteps(ds))
  }

  function ReservedRanges(ds: seq<MemDesc>): seq<set<nat>>
    requires AllTyped(ds)
  {
    seq(|ds|, i requires 0 <= i < |ds| => ReservedRange(ds[i]))
  }

  function AcpiRanges(ds: seq<MemDesc>): seq<set<nat>>
    requires AllTyped(ds)
  {
    PageSets(AcpiSteps(ds))
  }

  function CommandLineRanges(ds: seq<MemDesc>): seq<set<nat>> {
    seq(|ds|, i requires 0 <= i < |ds| => CommandLineRange(ds[i]))
  }

  /** All pages but the last one. */
  function InitialIoMem(): set<nat> {
    PagesOf(0, TWO_64 - PAGE)
  }

  /** I/O memory when the second pass begins. */
  function IoMemWithoutRam(ds: seq<MemDesc>): set<nat>
    requires AllTyped(ds)
  {
    InitialIoMem() - Union({}, RamRanges(ds))
  }

  /** The pages of the RAM allocator after all passes. */
  function Ram(ds: seq<MemDesc>): set<nat>
    requires AllTyped(ds)
  {
    Kept({}, RamRanges(ds)) - Union({}, ReservedRanges(ds)) - {0} - Union({}, CommandLineRanges(ds))
  }

  /** The pages of the I/O-memory allocator after all passes. */
  function IoMem(ds: seq<MemDesc>): set<nat>
    requires AllTyped(ds)
  {
    Kept(IoMemWithoutRam(ds), AcpiRanges(ds)) + {0}
  }

  /**
   No range that gets added wraps around: neither available regions in RAM, nor ACPI regions and
   finally page 0 in I/O memory.
   */
  ghost predicate Unwrapped(ds: seq<MemDesc>)
    requires AllTyped(ds)
  {
    && NoneWraps({}, RamRanges(ds))
    && NoneWraps(IoMemWithoutRam(ds), AcpiRanges(ds))
    && !WrapsAround(Kept(IoMemWithoutRam(ds), AcpiRanges(ds)), {0})
  }

  lemma InitialIoMemFits()
    ensures WholePages(0, TWO_64 - PAGE) && !WrapsAround({}, InitialIoMem())
  {
    assert PAGES - 1 !in {} + InitialIoMem();
  }

  lemma OneMore(ds: seq<MemDesc>, i: nat)
    requires AllTyped(ds) && i < |ds|
    ensures RamSteps(ds[..i + 1]) == RamSteps(ds[..i]) + [RamStep(ds[i])]
    ensures RamRanges(ds[..i + 1]) == RamRanges(ds[..i]) + [RamRange(ds[i])]
    ensures ReservedRanges(ds[..i + 1]) == ReservedRanges(ds[..i]) + [ReservedRange(ds[i])]
    ensures AcpiSteps(ds[..i + 1]) == AcpiSteps(ds[..i]) + [AcpiStep(ds[i])]
    ensures CommandLineRanges(ds[..i + 1]) == CommandLineRanges(ds[..i]) + [CommandLineRange(ds[i])]
  {
  }

  // ---- the passes -----------------------------------------------------------------------------

  class Platform {
    const ramAlloc: RangeAllocator
    const ioMemAlloc: RangeAllocator

    constructor ()
      ensures fresh(ramAlloc) && fresh(ioMemAlloc) && ramAlloc != ioMemAlloc
      ensures ramAlloc.tree == Leaf && ioMemAlloc.tree == Leaf
    {
      ramAlloc := new RangeAllocator();
      ioMemAlloc := new RangeAllocator();
    }

    /** The range leaves I/O memory in any case, and becomes RAM if it is not refused. */
    method AddAvailable(d: MemDesc)
      requires d.Typed() && InRange(d) && ramAlloc != ioMemAlloc
      modifies ramAlloc, ioMemAlloc
      ensures ramAlloc.tree == Added(old(ramAlloc.tree), RamStep(d).base, RamStep(d).size)
      ensures old(ioMemAlloc.Valid()) ==>
                ioMemAlloc.Valid() && ioMemAlloc.Pages() == old(ioMemAlloc.Pages()) - RamRange(d)
    {
      if !d.Available() || d.size == 0 {
        return;
      }
      var base := RoundPage(d.addr);
      var size;
      if d.addr >= TWO_64 - d.size {
        size := TruncPage(U64(TWO_64 - d.addr));
      } else {
        size := U64(TruncPage(d.addr + d.size) - base);
      }
      AvailableIsAligned(d);
      ioMemAlloc.RemoveRange(base, size);
      var _ := ramAlloc.AddRange(base, size);
    }

    method RemoveReserved(d: MemDesc)
      requires d.Typed() && ramAlloc != ioMemAlloc
      modifies ramAlloc, ioMemAlloc
      ensures ioMemAlloc.tree == Added(old(ioMemAlloc.tree), AcpiStep(d).base, AcpiStep(d).size)
      ensures old(ramAlloc.Valid()) ==>
                ramAlloc.Valid() && ramAlloc.Pages() == old(ramAlloc.Pages()) - ReservedRange(d)
    {
      if d.Available() {
        return;
      }
      var base, length := TruncPage(d.addr), d.size;
      if d.memType == FRAMEBUFFER {
        length := d.aux * d.Height() % TWO_32;
      }
      var size;
      if U64(d.addr + length) < d.addr {
        size := U64(TWO_64 - base);
      } else {
        size := U64(RoundPage(U64(d.addr + length)) - base);
      }
      ReservedIsAligned(d);
      assert base == d.ReservedBase() && size == d.ReservedSize();
      if size == 0 {
        return;
      }
      if d.Acpi() {
        var _ := ioMemAlloc.AddRange(base, size);
      }
      ramAlloc.RemoveRange(base, size);
    }

    /** The two pages from `prev` on, the last ones removed, are not in RAM. */
    ghost predicate LastRemoved(prev: int)
      reads this, ramAlloc
    {
      prev != TWO_64 - 1 ==> prev >= 0 && prev !in ramAlloc.Pages() && prev + 1 !in ramAlloc.Pages()
    }

    /** Remove the pages of one command line, unless they are the ones removed before. */
    method RemoveCommandLine(d: MemDesc, prev: int) returns (prev': int)
      requires d.Typed()
      modifies ramAlloc
      ensures old(ramAlloc.Valid() && LastRemoved(prev)) ==>
                && ramAlloc.Valid() && LastRemoved(prev')
                && ramAlloc.Pages() == old(ramAlloc.Pages()) - CommandLineRange(d)
    {
      hide PagesIn, WellFormed, Removed;
      prev' := prev;
      if d.memType != MULTIBOOT_MODULE || d.aux == 0 {
        return;
      }
      var curr := d.aux / PAGE;
      if curr == prev {
        return;
      }
      TwoPages(curr);
      ramAlloc.RemoveRange(curr * PAGE, 2 * PAGE);
      prev' := curr;
    }

    method RemoveCommandLines(ds: seq<MemDesc>)
      requires AllTyped(ds)
      modifies ramAlloc
      ensures old(ramAlloc.Valid()) ==>
                ramAlloc.Valid() && ramAlloc.Pages() == old(ramAlloc.Pages()) - Union({}, CommandLineRanges(ds))
    {
      var prev: int := TWO_64 - 1;
      for i := 0 to |ds|
        invariant old(ramAlloc.Valid()) ==>
                    && ramAlloc.Valid() && LastRemoved(prev)
                    && ramAlloc.Pages() == old(ramAlloc.Pages()) - Union({}, CommandLineRanges(ds[..i]))
      {
        OneMore(ds, i);
        AddOne({}, CommandLineRanges(ds[..i]), CommandLineRange(ds[i]));
        prev := RemoveCommandLine(ds[i], prev);
      }
      assert ds[..|ds|] == ds;
    }

    /** The pass that adds available memory. */
    method FirstPass(ds: seq<MemDesc>)
      requires ramAlloc != ioMemAlloc && AllTyped(ds) && AllInRange(ds)
      modifies ramAlloc, ioMemAlloc
      ensures ramAlloc.tree == AddedAll(old(ramAlloc.tree), RamSteps(ds))
      ensures old(ioMemAlloc.Valid()) ==>
                ioMemAlloc.Valid() && ioMemAlloc.Pages() == old(ioMemAlloc.Pages()) - Union({}, RamRanges(ds))
    {
      for i := 0 to |ds|
        invariant ramAlloc.tree == AddedAll(old(ramAlloc.tree), RamSteps(ds[..i]))
        invariant old(ioMemAlloc.Valid()) ==>
                    ioMemAlloc.Valid() && ioMemAlloc.Pages() == old(ioMemAlloc.Pages()) - Union({}, RamRanges(ds[..i]))
      {
        OneMore(ds, i);
        AddOne({}, RamRanges(ds[..i]), RamRange(ds[i]));
        AddedOne(old(ramAlloc.tree), RamSteps(ds[..i]), RamStep(ds[i]));
        AddAvailable(ds[i]);
      }
      assert ds[..|ds|] == ds;
    }

    /** The pass that removes all other memory. */
    method SecondPass(ds: seq<MemDesc>)
      requires ramAlloc != ioMemAlloc && AllTyped(ds)
      modifies ramAlloc, ioMemAlloc
      ensures ioMemAlloc.tree == AddedAll(old(ioMemAlloc.tree), AcpiSteps(ds))
      ensures old(ramAlloc.Valid()) ==>
                ramAlloc.Valid() && ramAlloc.Pages() == old(ramAlloc.Pages()) - Union({}, ReservedRanges(ds))
    {
      for i := 0 to |ds|
        invariant ioMemAlloc.tree == AddedAll(old(ioMemAlloc.tree), AcpiSteps(ds[..i]))
        invariant old(ramAlloc.Valid()) ==>
                    ramAlloc.Valid() && ramAlloc.Pages() == old(ramAlloc.Pages()) - Union({}, ReservedRanges(ds[..i]))
      {
        OneMore(ds, i);
        AddOne({}, ReservedRanges(ds[..i]), ReservedRange(ds[i]));
        AddedOne(old(ioMemAlloc.tree), AcpiSteps(ds[..i]), AcpiStep(ds[i]));
        RemoveReserved(ds[i]);
      }
      assert ds[..|ds|] == ds;
    }

    method InitMemory(ds: seq<MemDesc>)
      requires ramAlloc != ioMemAlloc && ramAlloc.tree == Leaf && ioMemAlloc.tree == Leaf
      requires AllTyped(ds) && AllInRange(ds)
      modifies ramAlloc, ioMemAlloc
      ensures Unwrapped(ds) ==> ramAlloc.Valid() && ramAlloc.Pages() == Ram(ds)
      ensures Unwrapped(ds) ==> ioMemAlloc.Valid() && ioMemAlloc.Pages() == IoMem(ds)
    {
      hide PagesIn, WellFormed, WrapsAround, AddedAll, NoneWraps, Kept, Union;
      StepsAreWholePages(ds);
      LeafIsWellFormed();
      InitialIoMemFits();
      var _ := ioMemAlloc.AddRange(0, TWO_64 - PAGE);
      assert ioMemAlloc.Pages() == InitialIoMem();
      FirstPass(ds);
      assert ioMemAlloc.Pages() == IoMemWithoutRam(ds);
      if Unwrapped(ds) {
        AddedSteps(Leaf, RamSteps(ds));
        AddedSteps(ioMemAlloc.tree, AcpiSteps(ds));
      }
      SecondPass(ds);
      TwoPages(0);
      var _ := ioMemAlloc.AddRange(0, PAGE);
      ramAlloc.RemoveRange(0, PAGE);
      RemoveCommandLines(ds);
    }
  }

  lemma WrappedIsAligned(n: int)
    requires n % PAGE == 0
    ensures U64(n) % PAGE == 0
  {
    assert n == n / TWO_64 * (TWO_64 / PAGE) * PAGE + U64(n);
  }

  lemma AvailableIsAligned(d: MemDesc)
    requires d.Typed() && d.size > 0
    ensures d.AvailableBase() % PAGE == 0 && d.AvailableSize() % PAGE == 0
  {
    DifferenceIsAligned(d.addr + d.size, U64(d.addr + PAGE - 1));
  }

  lemma TruncIsAligned(a: nat)
    ensures TruncPage(a) % PAGE == 0 && (TWO_64 - TruncPage(a)) % PAGE == 0
  {
  }

  lemma DifferenceIsAligned(a: nat, b: nat)
    ensures U64(TruncPage(a) - TruncPage(b)) % PAGE == 0
  {
    assert TruncPage(a) - TruncPage(b) == (a / PAGE - b / PAGE) * PAGE;
    WrappedIsAligned(TruncPage(a) - TruncPage(b));
  }

  lemma TwoPages(p: nat)
    ensures PagesOf(p * PAGE, 2 * PAGE) == {p, p + 1} && PagesOf(p * PAGE, PAGE) == {p}
  {
  }

  lemma ReservedIsAligned(d: MemDesc)
    requires d.Typed()
    ensures d.ReservedBase() % PAGE == 0 && d.ReservedSize() % PAGE == 0
    ensures d.ReservedBase() + d.ReservedSize() <= TWO_64
    ensures d.ReservedSize() == 0 ==> PagesOf(d.ReservedBase(), d.ReservedSize()) == {}
  {
    ReservedEnd(d.addr, d.addr + d.Length(), d.ReservedBase(), d.ReservedSize());
    TruncIsAligned(d.addr);
    WrappedIsAligned(TWO_64 - d.ReservedBase());
    DifferenceIsAligned(U64(U64(d.addr + d.Length()) + PAGE - 1), d.addr);
  }

  lemma StepsAreWholePages(ds: seq<MemDesc>)
    requires AllTyped(ds)
    ensures AllInRange(ds) ==> AllWholePages(RamSteps(ds))
    ensures AllWholePages(AcpiSteps(ds))
  {
    forall i | 0 <= i < |ds|
      ensures InRange(ds[i]) ==> WholePages(RamStep(ds[i]).base, RamStep(ds[i]).size)
      ensures WholePages(AcpiStep(ds[i]).base, AcpiStep(ds[i]).size)
    {
      ReservedIsAligned(ds[i]);
      if ds[i].size > 0 {
        AvailableIsAligned(ds[i]);
      }
    }
  }

  // ---- what the descriptors promise -----------------------------------------------------------

  ghost predicate Provided(ds: seq<MemDesc>, p: nat) {
    exists i :: 0 <= i < |ds| && Provides(ds[i], p)
  }

  ghost predicate Reserved(ds: seq<MemDesc>, p: nat) {
    exists i :: 0 <= i < |ds| && Reserves(ds[i], p)
  }

  ghost predicate ReservedByAcpi(ds: seq<MemDesc>, p: nat) {
    exists i :: 0 <= i < |ds| && ds[i].Acpi() && Reserves(ds[i], p)
  }

  ghost predicate HoldsCommandLine(ds: seq<MemDesc>, p: nat) {
    exists i :: 0 <= i < |ds| && CommandLinePage(ds[i], p)
  }

  ghost predicate UsableAsRam(ds: seq<MemDesc>, p: nat) {
    Provided(ds, p) && !Reserved(ds, p) && p != 0 && !HoldsCommandLine(ds, p)
  }

  ghost predicate UsableAsIoMem(ds: seq<MemDesc>, p: nat) {
    ((p + 2) * PAGE <= TWO_64 && !Provided(ds, p)) || ReservedByAcpi(ds, p) || p == 0
  }

  /** Each available region reaches a page boundary, so that its computed range is exact. */
  predicate AllSpanBoundaries(ds: seq<MemDesc>) {
    forall i :: 0 <= i < |ds| && ds[i].Available() && ds[i].size > 0 ==> ds[i].SpansBoundary()
  }

  lemma RangeMeaning(d: MemDesc, p: nat)
    requires d.Typed()
    ensures p in ReservedRange(d) <==> Reserves(d, p)
    ensures (d.Available() && d.size > 0 ==> d.SpansBoundary()) ==> (p in RamRange(d) <==> Provides(d, p))
  {
    ReservedIsExact(d.addr, d.Length(), d.ReservedBase(), d.ReservedSize());
    if d.Available() && d.size > 0 && d.SpansBoundary() {
      AvailableRange(d);
    }
  }

  lemma ProvidedMeaning(ds: seq<MemDesc>, p: nat)
    requires AllTyped(ds) && AllSpanBoundaries(ds)
    ensures p in Union({}, RamRanges(ds)) <==> Provided(ds, p)
  {
    UnionMeaning({}, RamRanges(ds), p);
    forall i | 0 <= i < |ds|
      ensures p in RamRanges(ds)[i] <==> Provides(ds[i], p)
    {
      RangeMeaning(ds[i], p);
    }
  }

  lemma ReservedMeaning(ds: seq<MemDesc>, p: nat)
    requires AllTyped(ds)
    ensures p in Union({}, ReservedRanges(ds)) <==> Reserved(ds, p)
  {
    UnionMeaning({}, ReservedRanges(ds), p);
    forall i | 0 <= i < |ds|
      ensures p in ReservedRanges(ds)[i] <==> Reserves(ds[i], p)
    {
      RangeMeaning(ds[i], p);
    }
  }

  lemma AcpiMeaning(start: set<nat>, ds: seq<MemDesc>, p: nat)
    requires AllTyped(ds)
    ensures p in Union(start, AcpiRanges(ds)) <==> p in start || ReservedByAcpi(ds, p)
  {
    UnionMeaning(start, AcpiRanges(ds), p);
    forall i | 0 <= i < |ds|
      ensures p in AcpiRanges(ds)[i] <==> ds[i].Acpi() && Reserves(ds[i], p)
    {
      RangeMeaning(ds[i], p);
    }
  }

  lemma CommandLinesMeaning(ds: seq<MemDesc>, p: nat)
    ensures p in Union({}, CommandLineRanges(ds)) <==> HoldsCommandLine(ds, p)
  {
    UnionMeaning({}, CommandLineRanges(ds), p);
    assert forall i :: 0 <= i < |ds| ==> (p in CommandLineRanges(ds)[i] <==> CommandLinePage(ds[i], p));
  }

  // ---- safety, unless a range wraps around ----------------------------------------------------

  /** The passes end, and lead to `Ram` and `IoMem`. */
  ghost predicate Regular(ds: seq<MemDesc>) {
    AllTyped(ds) && AllInRange(ds) && Unwrapped(ds)
  }

  /** No page of RAM is I/O memory, reserved, page 0, or part of a command line. */
  lemma RamIsSafe(ds: seq<MemDesc>, p: nat)
    requires Regular(ds) && p in Ram(ds)
    ensures p !in IoMem(ds) && !Reserved(ds, p) && p != 0 && !HoldsCommandLine(ds, p)
    ensures exists i :: 0 <= i < |ds| && p in RamRange(ds[i])
  {
    KeptIsWithinUnion({}, RamRanges(ds));
    KeptIsWithinUnion(IoMemWithoutRam(ds), AcpiRanges(ds));
    AcpiMeaning(IoMemWithoutRam(ds), ds, p);
    ReservedMeaning(ds, p);
    CommandLinesMeaning(ds, p);
    UnionMeaning({}, RamRanges(ds), p);
    var i :| 0 <= i < |ds| && p in RamRanges(ds)[i];
    assert p in RamRange(ds[i]);
    assert !ReservedByAcpi(ds, p) by {
      assert forall j :: 0 <= j < |ds| ==> !Reserves(ds[j], p);
    }
  }

  /**
   Each byte of a RAM page lies in one available descriptor, together with its whole page, and
   outside of page 0 and of every non-available descriptor but one that overlaps both ends of
   the address space.
   */
  lemma RamBytes(ds: seq<MemDesc>, byte: nat)
    requires Regular(ds) && AllSpanBoundaries(ds) && byte / PAGE in Ram(ds)
    ensures exists i :: 0 <= i < |ds| && ds[i].Available()
                        && ds[i].addr <= byte / PAGE * PAGE && byte / PAGE * PAGE + PAGE <= ds[i].addr + ds[i].size
    ensures PAGE <= byte < TWO_64
    ensures forall i :: 0 <= i < |ds| && !ds[i].Available() && !ds[i].TouchesBothEnds() ==> !ds[i].Contains(byte)
  {
    var p := byte / PAGE;
    RamIsSafe(ds, p);
    var i :| 0 <= i < |ds| && p in RamRange(ds[i]);
    RangeMeaning(ds[i], p);
    assert ds[i].HoldsPage(p);
    ReservedBytes(ds, byte);
  }

  lemma ReservedBytes(ds: seq<MemDesc>, byte: nat)
    requires byte < TWO_64 && !Reserved(ds, byte / PAGE)
    ensures forall i :: 0 <= i < |ds| && !ds[i].Available() && !ds[i].TouchesBothEnds() ==> !ds[i].Contains(byte)
  {
    forall i | 0 <= i < |ds| && !ds[i].Available() && !ds[i].TouchesBothEnds()
      ensures !ds[i].Contains(byte)
    {
      assert !Reserves(ds[i], byte / PAGE);
    }
  }

  /** The first page's worth of bytes of a module's command line is never RAM. */
  lemma CommandLineBytes(ds: seq<MemDesc>, d: MemDesc, byte: nat)
    requires Regular(ds) && d in ds && d.memType == -2 && d.aux != 0
    requires d.aux <= byte < d.aux + 0x1000
    ensures byte / 0x1000 !in Ram(ds)
  {
    if byte / PAGE in Ram(ds) {
      RamIsSafe(ds, byte / PAGE);
      assert CommandLinePage(d, byte / PAGE);
    }
  }

  /** Whatever the other descriptors, no byte of the described memory is handed out as RAM. */
  ghost predicate KeptOutOfRam(d: MemDesc) {
    forall ds, byte: nat :: Regular(ds) && d in ds && d.Contains(byte) && byte < TWO_64 ==> byte / PAGE !in Ram(ds)
  }

  /** Non-available memory never becomes RAM, exactly if it does not overlap both ends of the address space. */
  lemma ReservedIsKeptOutIff(d: MemDesc)
    requires d.Typed() && !d.Available()
    ensures KeptOutOfRam(d) <==> !d.TouchesBothEnds()
  {
    if d.TouchesBothEnds() {
      var p := d.aux / PAGE + 2;
      var ds := [MemDesc(0, (p + 1) * PAGE, AVAILABLE_MEMORY, 0), d];
      SkippedExample(d, ds, p);
      assert d == ds[1] && d in ds && d.Contains(p * PAGE) && p * PAGE / PAGE == p;
    } else {
      forall ds, byte: nat | Regular(ds) && d in ds && d.Contains(byte) && byte < TWO_64
        ensures byte / PAGE !in Ram(ds)
      {
        if byte / PAGE in Ram(ds) {
          RamIsSafe(ds, byte / PAGE);
          ReservedBytes(ds, byte);
        }
      }
    }
  }

  lemma SkippedExample(d: MemDesc, ds: seq<MemDesc>, p: nat)
    requires d.Typed() && !d.Available() && d.TouchesBothEnds() && p == d.aux / PAGE + 2
    requires ds == [MemDesc(0, (p + 1) * PAGE, AVAILABLE_MEMORY, 0), d]
    ensures Regular(ds) && p in Ram(ds)
  {
    OneRegion(ds, p);
    ReservedMeaning(ds, p);
    CommandLinesMeaning(ds, p);
  }

  lemma SkippedRange(d: MemDesc)
    requires d.Typed() && !d.Available() && d.TouchesBothEnds()
    ensures ReservedRange(d) == {} && AcpiRange(d) == {}
  {
    ReservedIsExact(d.addr, d.Length(), d.ReservedBase(), d.ReservedSize());
  }

  lemma LowRange(p: nat)
    requires p < TWO_32
    ensures var d := MemDesc(0, (p + 1) * PAGE, AVAILABLE_MEMORY, 0);
            d.Typed() && InRange(d) && RamRange(d) == Pages(0, p + 1)
  {
    assert RoundPage(0) == 0;
  }

  /** The ranges of an available region at the beginning and one that is skipped. */
  lemma OneRegion(ds: seq<MemDesc>, p: nat)
    requires |ds| == 2 && AllTyped(ds) && 0 < p < TWO_32
    requires ds[0] == MemDesc(0, (p + 1) * PAGE, AVAILABLE_MEMORY, 0) && !ds[1].Available() && ds[1].TouchesBothEnds()
    ensures Regular(ds) && Kept({}, RamRanges(ds)) == Pages(0, p + 1)
  {
    hide ReservedStep, MemDesc.AvailableBase, MemDesc.AvailableSize;
    var ram, acpi := RamRanges(ds), AcpiRanges(ds);
    LowRange(p);
    SkippedRange(ds[1]);
    assert ram[0] == RamRange(ds[0]) && ram[1] == RamRange(ds[1]) == {};
    assert acpi[0] == AcpiRange(ds[0]) == {} && acpi[1] == AcpiRange(ds[1]);
    assert PAGES - 1 !in {} + ram[0];
    TwoRanges({}, ram);
    TwoRanges(InitialIoMem() - ram[0], acpi);
    assert p !in InitialIoMem() - ram[0] + {0};
  }

  lemma TwoRanges(start: set<nat>, ranges: seq<set<nat>>)
    requires |ranges| == 2 && ranges[1] == {} && ranges[0] !! start && !WrapsAround(start, ranges[0])
    ensures Kept(start, ranges) == start + ranges[0] == Union(start, ranges) && NoneWraps(start, ranges)
  {
    AddOne(start, [], ranges[0]);
    AddOne(start, [ranges[0]], ranges[1]);
    assert [] + [ranges[0]] == [ranges[0]] == ranges[..1] && [ranges[0]] + [ranges[1]] == ranges && ranges[..0] == [];
  }

  // ---- when nothing is lost -------------------------------------------------------------------

  /** A page that is in neither allocator is withheld, or all available regions that hold it were refused. */
  lemma PagesInNeither(ds: seq<MemDesc>, p: nat)
    requires Regular(ds) && p in InitialIoMem() && p !in Ram(ds) && p !in IoMem(ds)
    ensures || Reserved(ds, p) || HoldsCommandLine(ds, p)
            || (p in Union({}, RamRanges(ds)) && p !in Kept({}, RamRanges(ds)))
  {
    KeptIsWithinUnion(IoMemWithoutRam(ds), AcpiRanges(ds));
    ReservedMeaning(ds, p);
    CommandLinesMeaning(ds, p);
  }

  lemma SpanningIsInRange(ds: seq<MemDesc>)
    requires AllTyped(ds) && AllSpanBoundaries(ds)
    ensures AllInRange(ds) && AllWholePages(RamSteps(ds))
  {
    forall i | 0 <= i < |ds|
      ensures InRange(ds[i])
    {
      if ds[i].Available() && ds[i].size > 0 {
        AvailableRange(ds[i]);
      }
    }
    StepsAreWholePages(ds);
  }

  /** After the leading `n` descriptors, RAM has exactly the pages that they provide, and each can be removed. */
  ghost predicate RamIsExactAt(ds: seq<MemDesc>, n: nat)
    requires AllTyped(ds) && n <= |ds|
  {
    var ram := AddedAll(Leaf, RamSteps(ds)[..n]);
    Removable(ram) && forall p: nat :: p in PagesIn(ram) <==> Provided(ds[..n], p)
  }

  lemma RamIsExactAtMeaning(ds: seq<MemDesc>, n: nat)
    requires AllTyped(ds) && AllSpanBoundaries(ds) && n <= |ds|
    ensures RamIsExactAt(ds, n) <==> Exact(AddedAll(Leaf, RamSteps(ds)[..n]), Union({}, RamRanges(ds)[..n]))
  {
    hide AddedAll, Removable, PagesIn;
    assert RamRanges(ds)[..n] == RamRanges(ds[..n]);
    forall p: nat
      ensures p in Union({}, RamRanges(ds)[..n]) <==> Provided(ds[..n], p)
    {
      ProvidedMeaning(ds[..n], p);
    }
  }

  /**
   The first pass puts exactly the provided pages into RAM, at whatever descriptor one stops, and
   each of them can be removed, if and only if no available region overlaps the earlier ones in
   part, and none wraps around.
   */
  lemma FirstPassIsExactIff(ds: seq<MemDesc>)
    requires AllTyped(ds) && AllSpanBoundaries(ds)
    ensures (forall n :: 0 <= n <= |ds| ==> RamIsExactAt(ds, n))
            <==> NoPartialOverlap({}, RamRanges(ds)) && NoneWraps({}, RamRanges(ds))
  {
    SpanningIsInRange(ds);
    LeafIsWellFormed();
    SeriesIsExactIff(Leaf, RamSteps(ds));
    forall n | 0 <= n <= |ds|
      ensures RamIsExactAt(ds, n) <==> Exact(AddedAll(Leaf, RamSteps(ds)[..n]), Union({}, RamRanges(ds)[..n]))
    {
      RamIsExactAtMeaning(ds, n);
    }
  }

  /**
   After the leading `n` descriptors, I/O memory has what it had at the start, and all their ACPI
   pages, and each can be removed.
   */
  ghost predicate IoMemIsExactAt(t: Tree, ds: seq<MemDesc>, n: nat)
    requires AllTyped(ds) && n <= |ds|
  {
    var ioMem := AddedAll(t, AcpiSteps(ds)[..n]);
    Removable(ioMem) && forall p: nat :: p in PagesIn(ioMem) <==> p in PagesIn(t) || ReservedByAcpi(ds[..n], p)
  }

  lemma IoMemIsExactAtMeaning(t: Tree, ds: seq<MemDesc>, n: nat)
    requires AllTyped(ds) && n <= |ds|
    ensures IoMemIsExactAt(t, ds, n) <==>
            Exact(AddedAll(t, AcpiSteps(ds)[..n]), Union(PagesIn(t), AcpiRanges(ds)[..n]))
  {
    hide AddedAll, Removable, PagesIn;
    assert AcpiRanges(ds)[..n] == AcpiRanges(ds[..n]);
    forall p: nat
      ensures p in Union(PagesIn(t), AcpiRanges(ds)[..n]) <==> p in PagesIn(t) || ReservedByAcpi(ds[..n], p)
    {
      AcpiMeaning(PagesIn(t), ds[..n], p);
    }
  }

  /** Likewise for the ACPI regions of the second pass and I/O memory, whatever it holds at the start. */
  lemma SecondPassIsExactIff(t: Tree, ds: seq<MemDesc>)
    requires WellFormed(t) && AllTyped(ds)
    ensures (forall n :: 0 <= n <= |ds| ==> IoMemIsExactAt(t, ds, n))
            <==> NoPartialOverlap(PagesIn(t), AcpiRanges(ds)) && NoneWraps(PagesIn(t), AcpiRanges(ds))
  {
    hide AddedAll, Exact, PagesIn, WellFormed, IoMemIsExactAt, NoPartialOverlap, NoneWraps;
    StepsAreWholePages(ds);
    SeriesIsExactIff(t, AcpiSteps(ds));
    forall n | 0 <= n <= |ds|
      ensures IoMemIsExactAt(t, ds, n) <==>
              Exact(AddedAll(t, AcpiSteps(ds)[..n]), Union(PagesIn(t), AcpiRanges(ds)[..n]))
    {
      IoMemIsExactAtMeaning(t, ds, n);
    }
  }

  /**
   Without partial overlaps and ranges that wrap around, both allocators end up with exactly what
   the descriptors promise.
   */
  lemma OutcomeIsExact(ds: seq<MemDesc>, p: nat)
    requires Regular(ds) && AllSpanBoundaries(ds)
    requires NoPartialOverlap({}, RamRanges(ds)) && NoPartialOverlap(IoMemWithoutRam(ds), AcpiRanges(ds))
    ensures p in Ram(ds) <==> UsableAsRam(ds, p)
    ensures p in IoMem(ds) <==> UsableAsIoMem(ds, p)
  {
    KeptWithoutPartialOverlap({}, RamRanges(ds), |ds|);
    KeptWithoutPartialOverlap(IoMemWithoutRam(ds), AcpiRanges(ds), |ds|);
    assert RamRanges(ds)[..|ds|] == RamRanges(ds) && AcpiRanges(ds)[..|ds|] == AcpiRanges(ds);
    ProvidedMeaning(ds, p);
    ReservedMeaning(ds, p);
    CommandLinesMeaning(ds, p);
    AcpiMeaning(IoMemWithoutRam(ds), ds, p);
  }

  /** Of two available regions that share a page `p`, what only the second one provides is lost. */
  lemma PartialOverlapLoses(d: MemDesc, e: MemDesc, p: nat, lost: nat)
    requires d.Typed() && e.Typed() && d.SpansBoundary() && e.SpansBoundary()
    requires Provides(d, p) && Provides(e, p) && Provides(e, lost) && !Provides(d, lost) && lost != 0
    ensures Regular([d, e]) && UsableAsRam([d, e], lost) && lost !in Ram([d, e]) && lost !in IoMem([d, e])
  {
    var ds, rs := [d, e], RamRanges([d, e]);
    assert ds[0] == d && ds[1] == e;
    RangeMeaning(d, p);
    RangeMeaning(e, p);
    RangeMeaning(d, lost);
    assert rs == [RamRange(d)] + [RamRange(e)] && [RamRange(d)] == [] + [RamRange(d)];
    AddOne({}, [], RamRange(d));
    AddOne({}, [RamRange(d)], RamRange(e));
    NotInIoMem(ds, lost);
    TwoRegionsAreRegular(d, e, p, lost);
  }

  /** A region that is refused does not wrap around. */
  lemma TwoRegionsAreRegular(d: MemDesc, e: MemDesc, p: nat, lost: nat)
    requires d.Typed() && e.Typed() && d.SpansBoundary() && e.SpansBoundary()
    requires Provides(d, p) && Provides(e, p) && Provides(e, lost) && !Provides(d, lost) && lost != 0
    ensures Regular([d, e])
  {
    var ds, ram, acpi := [d, e], RamRanges([d, e]), AcpiRanges([d, e]);
    SpanningIsInRange(ds);
    RangeMeaning(d, p);
    RangeMeaning(e, p);
    RangeMeaning(d, lost);
    RangeMeaning(e, lost);
    assert ds[0] == d && ds[1] == e;
    assert ram == [RamRange(d), RamRange(e)] && acpi == [{}, {}];
    assert lost !in {} + RamRange(d);
    assert ram[..0] == [] && ram[..1] == [RamRange(d)] == [] + [RamRange(d)] && acpi[..0] == [];
    AddOne({}, [], RamRange(d));
    UnionMeaning({}, ram, lost);
    assert lost in ram[1];
    TwoRanges(IoMemWithoutRam(ds), acpi);
    assert lost !in IoMemWithoutRam(ds) + {0};
  }

  /** What is provided as RAM and reserved by nobody is no I/O memory. */
  lemma NotInIoMem(ds: seq<MemDesc>, p: nat)
    requires AllTyped(ds) && AllSpanBoundaries(ds) && Provided(ds, p) && !ReservedByAcpi(ds, p) && p != 0
    ensures p !in IoMem(ds)
  {
    ProvidedMeaning(ds, p);
    AcpiMeaning(IoMemWithoutRam(ds), ds, p);
    KeptIsWithinUnion(IoMemWithoutRam(ds), AcpiRanges(ds));
  }

  /** For example, pages 0x102 and 0x103 of two regions that share page 0x101. */
  lemma OverlapLosesPages()
    ensures var d, e := MemDesc(0x10_0000, 0x2000, AVAILABLE_MEMORY, 0), MemDesc(0x10_1000, 0x3000, AVAILABLE_MEMORY, 0);
            Regular([d, e]) && UsableAsRam([d, e], 0x103) && 0x103 !in Ram([d, e]) && 0x103 !in IoMem([d, e])
  {
    var d, e := MemDesc(0x10_0000, 0x2000, AVAILABLE_MEMORY, 0), MemDesc(0x10_1000, 0x3000, AVAILABLE_MEMORY, 0);
    PartialOverlapLoses(d, e, 0x101, 0x103);
  }

  // ---- ranges that wrap around ----------------------------------------------------------------

  /** A region at the beginning and one at the end of the address space, and a reserved page in the latter. */
  predicate EndAndBeginning(d: MemDesc, e: MemDesc, r: MemDesc) {
    && d == MemDesc(0, 0x9_f000, AVAILABLE_MEMORY, 0)
    && e == MemDesc(TWO_64 - 0x4000, 0x4000, AVAILABLE_MEMORY, 0)
    && r == MemDesc(TWO_64 - 0x2000, 0x1000, MULTIBOOT_MODULE, 0)
  }

  lemma EndAndBeginningSteps(d: MemDesc, e: MemDesc, r: MemDesc)
    requires EndAndBeginning(d, e, r)
    ensures d.Typed() && e.Typed() && r.Typed() && d.SpansBoundary() && e.SpansBoundary()
    ensures RamStep(d) == Range(0, 0x9_f000) && RamStep(e) == Range(TWO_64 - 0x4000, 0x4000) && RamStep(r) == Range(0, 0)
    ensures ReservedStep(r) == Range(TWO_64 - 0x2000, 0x1000)
  {
  }

  /** RAM makes a single block of them, in which the removals of the reserved page and of page 0 find nothing. */
  lemma EndMeetsBeginning(d: MemDesc, e: MemDesc, r: MemDesc, ds: seq<MemDesc>, ram: Tree)
    requires EndAndBeginning(d, e, r) && ds == [d, e, r] && AllTyped(ds)
    requires ram == AddedAll(Leaf, RamSteps(ds))
    ensures AllSpanBoundaries(ds) && !Unwrapped(ds)
    ensures ram == Node(Leaf, Block(TWO_64 - 0x4000, 0xa_3000), Leaf)
    ensures Removed(ram, TWO_64 - 0x2000, 0x1000) == ram && Removed(ram, 0, PAGE) == ram
    ensures ReservedStep(r) == Range(TWO_64 - 0x2000, 0x1000)
  {
    hide Added, Removed, RamStep, ReservedStep;
    var low, high, none := Range(0, 0x9_f000), Range(TWO_64 - 0x4000, 0x4000), Range(0, 0);
    EndAndBeginningSteps(d, e, r);
    EndMergedWithBeginning();
    AddedOne(Leaf, [], low);
    AddedOne(Leaf, [low], high);
    AddedOne(Leaf, [low, high], none);
    AddedRefused(AddedAll(Leaf, [low, high]), 0, 0);
    assert [] + [low] == [low] && [low] + [high] == [low, high] && [low, high] + [none] == [low, high, none];
    assert RamSteps(ds) == [low, high, none];
    assert RamRanges(ds)[0] == low.Pages() && RamRanges(ds)[1] == high.Pages();
    EndIsNoneWraps(RamRanges(ds));
  }

  lemma EndIsNoneWraps(ranges: seq<set<nat>>)
    requires |ranges| > 1 && 0 in ranges[0] && PAGES - 1 in ranges[1] && ranges[0] !! ranges[1]
    ensures !NoneWraps({}, ranges)
  {
    AddOne({}, [], ranges[0]);
    assert ranges[..1] == [] + [ranges[0]];
    assert WrapsAround(Kept({}, ranges[..1]), ranges[1]);
  }

  lemma EndMergedWithBeginning()
    ensures var low := Node(Leaf, Block(0, 0x9_f000), Leaf);
            var ram := Node(Leaf, Block(TWO_64 - 0x4000, 0xa_3000), Leaf);
            && Added(Leaf, 0, 0x9_f000) == low && Added(low, TWO_64 - 0x4000, 0x4000) == ram
            && Removed(ram, TWO_64 - 0x2000, 0x1000) == ram && Removed(ram, 0, PAGE) == ram
  {
    var b := Block(0, 0x9_f000);
    assert Remove(Node(Leaf, b, Leaf), b) == Leaf;
  }

  /** The state of a removal after some rounds, if it has not ended before. */
  function Rounds(t: Tree, base: Word, size: Word, n: nat): Option<Tree> {
    if n == 0 then Some(t)
    else
      var r := Rounds(t, base, size, n - 1);
      if r.None? then None else Round(r.value, base, size)
  }

  /**
   If the range computed for the first available region exceeds the address space, its removal from
   I/O memory never ends.
   */
  lemma {:induction false} RemovalNeverEnds(d: MemDesc, n: nat)
    requires d.Typed() && d.size > 0 && d.AvailableBase() + d.AvailableSize() > TWO_64
    ensures Rounds(Added(Leaf, 0, TWO_64 - PAGE), d.AvailableBase(), d.AvailableSize(), n).Some?
  {
    var base, size := d.AvailableBase(), d.AvailableSize();
    if d.SpansBoundary() {
      AvailableRange(d);
      assert false;
    }
    SmallRegion(d);
    RoundsBelow(base, n);
    assert Added(Leaf, 0, TWO_64 - PAGE) == Node(Leaf, Block(0, TWO_64 - PAGE), Leaf);
  }

  lemma {:induction false} RoundsBelow(base: Word, n: nat)
    requires base > PAGE && base <= TWO_64 - PAGE
    ensures Rounds(Node(Leaf, Block(0, TWO_64 - PAGE), Leaf), base, TWO_64 - PAGE, n) ==
            Some(Node(Leaf, Block(0, if n == 0 then TWO_64 - PAGE else base), Leaf))
  {
    hide Round;
    if n > 0 {
      RoundsBelow(base, n - 1);
      RoundBelow(base, if n == 1 then TWO_64 - PAGE else base);
    }
  }

  lemma RoundBelow(base: Word, size: Word)
    requires PAGE < base <= size <= TWO_64 - PAGE
    ensures Round(Node(Leaf, Block(0, size), Leaf), base, TWO_64 - PAGE) == Some(Node(Leaf, Block(0, base), Leaf))
  {
    var b := Block(0, size);
    var t := Node(Leaf, b, Leaf);
    assert t.block in t.Blocks() && t.Find(base, base - PAGE - 1, true) == Some(b);
    assert Common(b, base, base - PAGE - 1) == (base, TWO_64 - PAGE);
    assert Remove(t, b) == Leaf;
  }
}
