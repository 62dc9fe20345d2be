/**
 The range flush of the OKL4 protection domain: an address range is handed to the
 kernel as a sequence of power-of-two flexpages, with a granularity that first grows
 and then shrinks.
 */
module FlexpageFlush {
  import opened Alignment

  datatype Block = Block(base: nat, log2: nat)

  /** What remains mapped once the bytes from `lo` up to `hi` are unmapped. */
  function Without(mapped: set<nat>, lo: nat, hi: nat): set<nat> {
    set x | x in mapped && !(lo <= x < hi)
  }

  /** The unmaps issued while the granularity shrinks, from 2^(m-1) downwards. */
  function Shrink(a: nat, n: nat, m: nat): seq<Block>
    requires n < Pow2(m)
    decreases m
  {
    if n == 0 then []
    else if Pow2(m - 1) <= n then
      [Block(a, m - 1)] + Shrink(a + Pow2(m - 1), n - Pow2(m - 1), m - 1)
    else
      Shrink(a, n, m - 1)
  }

  /** The outcome of the growing phase: its unmaps and what it leaves to the shrinking phase. */
  datatype Grown = Grown(unmaps: seq<Block>, cur: nat, remaining: nat, log2: nat)

  /** The growing phase from the moment at which the granularity is 2^k. */
  function Grow(a: nat, n: nat, k: nat): (g: Grown)
    ensures g.remaining < Pow2(g.log2)
    decreases n - k
  {
    ExceedsExponent(k);
    if n < Pow2(k) then Grown([], a, n, k)
    else if BitSet(a, k) then
      var g := Grow(a + Pow2(k), n - Pow2(k), k + 1);
      g.(unmaps := [Block(a, k)] + g.unmaps)
    else
      Grow(a, n, k + 1)
  }

  /** All unmaps issued from the moment at which the granularity is 2^k and still grows. */
  function UnmapsFrom(a: nat, n: nat, k: nat): seq<Block> {
    var g := Grow(a, n, k);
    g.unmaps + Shrink(g.cur, g.remaining, g.log2)
  }

  /** 2^k is the largest naturally aligned block that starts at `a` and fits `n` bytes. */
  predicate Largest(a: nat, n: nat, k: nat) {
    && Aligned(a, k) && Pow2(k) <= n
    && !(Aligned(a, k + 1) && Pow2(k + 1) <= n)
  }

  function LargestFrom(a: nat, n: nat, k: nat): (r: nat)
    requires Aligned(a, k) && Pow2(k) <= n
    ensures Largest(a, n, r)
    decreases n - k
  {
    ExceedsExponent(k + 1);
    if Aligned(a, k + 1) && Pow2(k + 1) <= n then LargestFrom(a, n, k + 1) else k
  }

  /** The reference decomposition: repeatedly cut off the largest block possible. */
  function Greedy(a: nat, n: nat): seq<Block>
    decreases n
  {
    if n == 0 then []
    else
      var k := LargestFrom(a, n, 0);
      [Block(a, k)] + Greedy(a + Pow2(k), n - Pow2(k))
  }

  /** The blocks follow each other without gap or overlap and end exactly at a + n. */
  predicate Tiles(bs: seq<Block>, a: nat, n: nat) {
    if bs == [] then n == 0
    else
      && bs[0].base == a && Pow2(bs[0].log2) <= n
      && Tiles(bs[1..], a + Pow2(bs[0].log2), n - Pow2(bs[0].log2))
  }

  predicate NaturallyAligned(bs: seq<Block>) {
    forall i :: 0 <= i < |bs| ==> Aligned(bs[i].base, bs[i].log2)
  }

  /** The kernel's view of a protection domain: the bytes it maps, and the unmaps it was asked for. */
  class PlatformPd {
    const pageSizeLog2: nat
    var mapped: set<nat>
    var unmaps: seq<Block>

    constructor (pageSizeLog2: nat, mapped: set<nat>)
      ensures this.pageSizeLog2 == pageSizeLog2 && this.mapped == mapped && unmaps == []
    {
      this.pageSizeLog2, this.mapped, unmaps := pageSizeLog2, mapped, [];
    }

    method UnmapLog2Range(base: nat, sizeLog2: nat)
      modifies this
      ensures mapped == Without(old(mapped), base, base + Pow2(sizeLog2))
      ensures unmaps == old(unmaps) + [Block(base, sizeLog2)]
    {
      mapped := Without(mapped, base, base + Pow2(sizeLog2));
      unmaps := unmaps + [Block(base, sizeLog2)];
    }

    method Flush(addr: nat, size: nat)
      modifies this
      ensures mapped == Without(old(mapped), addr, addr + size)
      ensures unmaps == old(unmaps) + UnmapsFrom(addr, size, pageSizeLog2)
    {
      var cur: nat, remaining: nat := addr, size;
      var sizeLog2: int := pageSizeLog2;
      ghost var g := Grow(addr, size, pageSizeLog2);
      ghost var all, first := unmaps + g.unmaps, g;

      while remaining >= Pow2(sizeLog2)
        invariant sizeLog2 >= 0 && addr <= cur && cur + remaining == addr + size
        invariant mapped == Without(old(mapped), addr, cur)
        invariant g == Grow(cur, remaining, sizeLog2) && all == unmaps + g.unmaps
        invariant g.(unmaps := []) == first.(unmaps := [])
        decreases remaining - sizeLog2
      {
        ExceedsExponent(sizeLog2);
        if BitSet(cur, sizeLog2) {
          g := Grow(cur + Pow2(sizeLog2), remaining - Pow2(sizeLog2), sizeLog2 + 1);
          UnmapNext(old(mapped), all, addr, cur, sizeLog2, g.unmaps);
          remaining := remaining - Pow2(sizeLog2);
          cur := cur + Pow2(sizeLog2);
        }
        sizeLog2 := sizeLog2 + 1;
      }

      ghost var tail := Shrink(cur, remaining, sizeLog2);
      assert unmaps == all;
      assert unmaps + tail == old(unmaps) + (first.unmaps + tail);
      all := unmaps + tail;
      while remaining > 0
        invariant sizeLog2 >= -1 && addr <= cur && cur + remaining == addr + size
        invariant remaining < Pow2(sizeLog2 + 1)
        invariant mapped == Without(old(mapped), addr, cur)
        invariant tail == Shrink(cur, remaining, sizeLog2 + 1) && all == unmaps + tail
        decreases sizeLog2
      {
        if remaining >= Pow2(sizeLog2) {
          tail := Shrink(cur + Pow2(sizeLog2), remaining - Pow2(sizeLog2), sizeLog2);
          UnmapNext(old(mapped), all, addr, cur, sizeLog2, tail);
          remaining := remaining - Pow2(sizeLog2);
          cur := cur + Pow2(sizeLog2);
        }
        sizeLog2 := sizeLog2 - 1;
      }
    }

    /** One unmap of the flush loops, with those in `rest` still to come. */
    method UnmapNext(ghost was: set<nat>, ghost all: seq<Block>, ghost addr: nat,
                     cur: nat, sizeLog2: nat, ghost rest: seq<Block>)
      requires addr <= cur && mapped == Without(was, addr, cur)
      requires all == unmaps + ([Block(cur, sizeLog2)] + rest)
      modifies this
      ensures mapped == Without(was, addr, cur + Pow2(sizeLog2)) && all == unmaps + rest
    {
      UnmapLog2Range(cur, sizeLog2);
    }
  }
  // ---- exact cover, for any address and size -------------------------------------------

  lemma {:induction false} ShrinkTiles(a: nat, n: nat, m: nat)
    requires n < Pow2(m)
    ensures Tiles(Shrink(a, n, m), a, n)
    decreases m
  {
    if n == 0 {
    } else if Pow2(m - 1) <= n {
      ShrinkTiles(a + Pow2(m - 1), n - Pow2(m - 1), m - 1);
    } else {
      ShrinkTiles(a, n, m - 1);
    }
  }

  lemma UnmapsStep(a: nat, n: nat, k: nat)
    ensures n < Pow2(k) ==> UnmapsFrom(a, n, k) == Shrink(a, n, k)
    ensures n >= Pow2(k) && BitSet(a, k) ==>
              UnmapsFrom(a, n, k) == [Block(a, k)] + UnmapsFrom(a + Pow2(k), n - Pow2(k), k + 1)
    ensures n >= Pow2(k) && !BitSet(a, k) ==> UnmapsFrom(a, n, k) == UnmapsFrom(a, n, k + 1)
  {
    if n < Pow2(k) {
      assert [] + Shrink(a, n, k) == Shrink(a, n, k);
    } else if BitSet(a, k) {
      var g := Grow(a + Pow2(k), n - Pow2(k), k + 1);
      var tail := Shrink(g.cur, g.remaining, g.log2);
      assert ([Block(a, k)] + g.unmaps) + tail == [Block(a, k)] + (g.unmaps + tail);
    }
  }

  lemma {:induction false} FlushCoversExactly(a: nat, n: nat, k: nat)
    ensures Tiles(UnmapsFrom(a, n, k), a, n)
    decreases n - k
  {
    ExceedsExponent(k);
    UnmapsStep(a, n, k);
    if n < Pow2(k) {
      ShrinkTiles(a, n, k);
    } else if BitSet(a, k) {
      FlushCoversExactly(a + Pow2(k), n - Pow2(k), k + 1);
    } else {
      FlushCoversExactly(a, n, k + 1);
    }
  }

  /** What `Tiles` says about neighbouring blocks and about both ends of the range. */
  lemma {:induction false} TilesAreConsecutive(bs: seq<Block>, a: nat, n: nat, i: nat)
    requires Tiles(bs, a, n) && i < |bs|
    ensures bs[0].base == a
    ensures bs[i].base + Pow2(bs[i].log2) == if i + 1 < |bs| then bs[i + 1].base else a + n
    ensures a <= bs[i].base
  {
    if i > 0 {
      TilesAreConsecutive(bs[1..], a + Pow2(bs[0].log2), n - Pow2(bs[0].log2), i - 1);
    } else if |bs| > 1 {
      assert bs[1..][0] == bs[1];
    }
  }

  // ---- the two-phase loop computes the greedy decomposition -----------------------------

  lemma LargestIsUnique(a: nat, n: nat, j: nat, k: nat)
    requires Largest(a, n, j) && Aligned(a, k) && Pow2(k) <= n
    ensures k <= j
    ensures Largest(a, n, k) ==> j == k
  {
    if j < k {
      Monotonic(j + 1, k);
      AlignedDown(a, j + 1, k);
    } else if k < j {
      Monotonic(k + 1, j);
      AlignedDown(a, k + 1, j);
    }
  }

  lemma GreedyStep(a: nat, n: nat, k: nat)
    requires Largest(a, n, k)
    ensures Greedy(a, n) == [Block(a, k)] + Greedy(a + Pow2(k), n - Pow2(k))
  {
    LargestIsUnique(a, n, LargestFrom(a, n, 0), k);
  }

  lemma AlignedBehindBlock(a: nat, k: nat)
    requires Aligned(a, k)
    ensures Aligned(a + Pow2(k), k)
  {
    AlignedPow2(k, k);
    AlignedAdd(a, Pow2(k), k);
  }

  function FloorLog2(n: nat): (r: nat)
    requires n > 0
    ensures Pow2(r) <= n < Pow2(r + 1)
  {
    if n == 1 then 0 else FloorLog2(n / 2) + 1
  }

  lemma FloorLog2Below(n: nat, m: nat)
    requires 0 < n < Pow2(m)
    ensures FloorLog2(n) < m
  {
    if m <= FloorLog2(n) {
      Monotonic(m, FloorLog2(n));
    }
  }

  /** The address is aligned to the largest power of two that still has to be unmapped. */
  predicate AlignedForRest(a: nat, n: nat) {
    n > 0 ==> Aligned(a, FloorLog2(n))
  }

  lemma ShrinkStep(a: nat, n: nat, k: nat)
    requires Pow2(k) <= n < Pow2(k + 1) && AlignedForRest(a, n)
    ensures Largest(a, n, k) && AlignedForRest(a + Pow2(k), n - Pow2(k))
  {
    FloorLog2Below(n, k + 1);
    if FloorLog2(n) < k {
      Monotonic(FloorLog2(n) + 1, k);
    }
    AlignedBehindBlock(a, k);
    var rest := n - Pow2(k);
    if rest > 0 {
      FloorLog2Below(rest, k);
      AlignedDown(a + Pow2(k), FloorLog2(rest), k);
    }
  }

  lemma {:induction false} ShrinkIsGreedy(a: nat, n: nat, m: nat)
    requires n < Pow2(m) && AlignedForRest(a, n)
    ensures Shrink(a, n, m) == Greedy(a, n)
    decreases m
  {
    if n > 0 {
      if Pow2(m - 1) <= n {
        ShrinkStep(a, n, m - 1);
        GreedyStep(a, n, m - 1);
        ShrinkIsGreedy(a + Pow2(m - 1), n - Pow2(m - 1), m - 1);
      } else {
        ShrinkIsGreedy(a, n, m - 1);
      }
    }
  }

  /** From a page-aligned address, the flush issues exactly the greedy decomposition. */
  lemma {:induction false} FlushIsGreedy(a: nat, n: nat, k: nat)
    requires Aligned(a, k)
    ensures UnmapsFrom(a, n, k) == Greedy(a, n)
    decreases n - k
  {
    ExceedsExponent(k);
    UnmapsStep(a, n, k);
    BitDecidesAlignment(a, k);
    if n < Pow2(k) {
      if n > 0 {
        FloorLog2Below(n, k);
        AlignedDown(a, FloorLog2(n), k);
      }
      ShrinkIsGreedy(a, n, k);
    } else if BitSet(a, k) {
      GreedyStep(a, n, k);
      FlushIsGreedy(a + Pow2(k), n - Pow2(k), k + 1);
    } else {
      FlushIsGreedy(a, n, k + 1);
    }
  }

  // ---- properties of the greedy decomposition -------------------------------------------

  /** Every block is the largest naturally aligned one that starts there and fits. */
  lemma {:induction false} GreedyBlocksAreLargest(a: nat, n: nat, i: nat)
    requires i < |Greedy(a, n)|
    ensures var b := Greedy(a, n)[i];
            a <= b.base < a + n && Largest(b.base, a + n - b.base, b.log2)
    decreases n
  {
    if i > 0 {
      var k := LargestFrom(a, n, 0);
      GreedyBlocksAreLargest(a + Pow2(k), n - Pow2(k), i - 1);
    }
  }

  lemma {:induction false} GreedyTiles(a: nat, n: nat)
    ensures Tiles(Greedy(a, n), a, n) && NaturallyAligned(Greedy(a, n))
    decreases n
  {
    if n > 0 {
      var k := LargestFrom(a, n, 0);
      GreedyTiles(a + Pow2(k), n - Pow2(k));
    }
  }

  function SizeCount(bs: seq<Block>, j: nat): nat {
    if bs == [] then 0 else (if bs[0].log2 == j then 1 else 0) + SizeCount(bs[1..], j)
  }

  lemma {:induction false} ShrinkUsesEachSizeOnce(a: nat, n: nat, m: nat, j: nat)
    requires n < Pow2(m)
    ensures SizeCount(Shrink(a, n, m), j) <= if j < m then 1 else 0
    decreases m
  {
    if n == 0 {
    } else if Pow2(m - 1) <= n {
      ShrinkUsesEachSizeOnce(a + Pow2(m - 1), n - Pow2(m - 1), m - 1, j);
    } else {
      ShrinkUsesEachSizeOnce(a, n, m - 1, j);
    }
  }

  /** No block size is used more than twice, whatever the address and the size. */
  lemma {:induction false} AtMostTwoBlocksPerSize(a: nat, n: nat, k: nat, j: nat)
    ensures SizeCount(UnmapsFrom(a, n, k), j) <= if j < k then 1 else 2
    decreases n - k
  {
    ExceedsExponent(k);
    UnmapsStep(a, n, k);
    if n < Pow2(k) {
      ShrinkUsesEachSizeOnce(a, n, k, j);
    } else if BitSet(a, k) {
      AtMostTwoBlocksPerSize(a + Pow2(k), n - Pow2(k), k + 1, j);
    } else {
      AtMostTwoBlocksPerSize(a, n, k + 1, j);
    }
  }

  /**
   A naturally aligned tiling splits at the end `e` of an aligned block of size 2^k,
   provided that none of its blocks properly contains that block.
   */
  lemma {:induction false} SplitAt(bs: seq<Block>, c: nat, m: nat, k: nat, e: nat) returns (i: nat)
    requires Tiles(bs, c, m) && NaturallyAligned(bs)
    requires c <= e <= c + m && e <= c + Pow2(k) && Aligned(e, k)
    requires e == c + Pow2(k) ==> !(Aligned(c, k + 1) && Pow2(k + 1) <= m)
    ensures i <= |bs| && Tiles(bs[i..], e, m - (e - c)) && NaturallyAligned(bs[i..])
    ensures c < e ==> i > 0
    decreases |bs|
  {
    if c == e {
      return 0;
    }
    var j := bs[0].log2;
    if k < j {
      Monotonic(k + 1, j);
      AlignedDown(c, k + 1, j);
      AlignedDown(c, k, j);
      AlignedGap(c, e, k);
      assert false;
    }
    AlignedDown(e, j, k);
    AlignedGap(c, e, j);
    assert forall x :: 0 <= x < |bs[1..]| ==> bs[1..][x] == bs[x + 1];
    i := SplitAt(bs[1..], c + Pow2(j), m - Pow2(j), k, e);
    assert bs[1..][i..] == bs[i + 1..];
    i := i + 1;
  }

  /** No decomposition into naturally aligned blocks needs fewer kernel calls. */
  lemma {:induction false} GreedyIsShortest(bs: seq<Block>, a: nat, n: nat)
    requires Tiles(bs, a, n) && NaturallyAligned(bs)
    ensures |Greedy(a, n)| <= |bs|
    decreases n
  {
    if n > 0 {
      var k := LargestFrom(a, n, 0);
      AlignedBehindBlock(a, k);
      var i := SplitAt(bs, a, n, k, a + Pow2(k));
      GreedyIsShortest(bs[i..], a + Pow2(k), n - Pow2(k));
    }
  }

  // ---- natural alignment holds exactly when the address is aligned enough ----------------

  /** The first unmap starts at the address; its size is at least min(page size, 2^FloorLog2(n)). */
  lemma {:induction false} FirstUnmap(a: nat, n: nat, k: nat)
    requires n > 0
    ensures var bs := UnmapsFrom(a, n, k);
            && bs != [] && bs[0].base == a
            && (n < Pow2(k) ==> bs[0].log2 == FloorLog2(n))
            && (n >= Pow2(k) ==> bs[0].log2 >= k)
    decreases n - k
  {
    ExceedsExponent(k);
    UnmapsStep(a, n, k);
    if n < Pow2(k) {
      FirstShrinkingUnmap(a, n, k);
    } else if !BitSet(a, k) {
      FirstUnmap(a, n, k + 1);
      if n < Pow2(k + 1) && FloorLog2(n) < k {
        Monotonic(FloorLog2(n) + 1, k);
      }
    }
  }

  lemma {:induction false} FirstShrinkingUnmap(a: nat, n: nat, m: nat)
    requires 0 < n < Pow2(m)
    ensures Shrink(a, n, m) != [] && Shrink(a, n, m)[0] == Block(a, FloorLog2(n))
    decreases m
  {
    FloorLog2Below(n, m);
    if Pow2(m - 1) <= n {
      if FloorLog2(n) < m - 1 {
        Monotonic(FloorLog2(n) + 1, m - 1);
      }
    } else {
      FirstShrinkingUnmap(a, n, m - 1);
    }
  }

  /**
   For an arbitrary address, all unmaps are naturally aligned exactly when the address is
   aligned to the page size or, for a smaller range, to the largest power of two that fits.
   */
  lemma NaturallyAlignedIff(a: nat, n: nat, k: nat)
    ensures NaturallyAligned(UnmapsFrom(a, n, k)) <==>
            (n == 0 || Aligned(a, if n < Pow2(k) then FloorLog2(n) else k))
  {
    UnmapsStep(a, n, k);
    if n > 0 {
      FirstUnmap(a, n, k);
      var bs := UnmapsFrom(a, n, k);
      if NaturallyAligned(bs) && n >= Pow2(k) {
        AlignedDown(a, k, bs[0].log2);
      }
      GreedyTiles(a, n);
      if n < Pow2(k) && Aligned(a, FloorLog2(n)) {
        ShrinkIsGreedy(a, n, k);
      } else if n >= Pow2(k) && Aligned(a, k) {
        FlushIsGreedy(a, n, k);
      }
    }
  }

  /** A page-aligned range of whole pages is unmapped without splitting a page. */
  lemma {:induction false} WholePagesStayWhole(a: nat, n: nat, k: nat, i: nat)
    requires Aligned(a, k) && Aligned(n, k) && i < |Greedy(a, n)|
    ensures Greedy(a, n)[i].log2 >= k
    decreases n
  {
    AlignedGapFromZero(n, k);
    var j := LargestFrom(a, n, 0);
    LargestIsUnique(a, n, j, k);
    if i > 0 {
      AlignedPow2(k, j);
      AlignedAdd(a, Pow2(j), k);
      AlignedAdd(Pow2(j), n - Pow2(j), k);
      WholePagesStayWhole(a + Pow2(j), n - Pow2(j), k, i - 1);
    }
  }

  lemma {:induction false} TileWithin(bs: seq<Block>, a: nat, n: nat, i: nat)
    requires Tiles(bs, a, n) && i < |bs|
    ensures a <= bs[i].base && bs[i].base + Pow2(bs[i].log2) <= a + n
  {
    if i > 0 {
      TileWithin(bs[1..], a + Pow2(bs[0].log2), n - Pow2(bs[0].log2), i - 1);
    }
  }

  /**
   In machine words: a size below 2^w needs no shift by `w` or more, which for `int` shifts
   means `w` = 31, and no unmap reaches beyond the address space that the range lies in.
   */
  lemma UnmapsAreExpressible(a: nat, n: nat, k: nat, i: nat, w: nat, limit: nat)
    requires n < Pow2(w) && a + n <= limit && i < |UnmapsFrom(a, n, k)|
    ensures var b := UnmapsFrom(a, n, k)[i]; b.log2 < w && b.base + Pow2(b.log2) <= limit
  {
    var bs := UnmapsFrom(a, n, k);
    FlushCoversExactly(a, n, k);
    TileWithin(bs, a, n, i);
    if w <= bs[i].log2 {
      Monotonic(w, bs[i].log2);
    }
  }

  lemma {:induction false} AlignedGapFromZero(n: nat, k: nat)
    requires Aligned(n, k) && n > 0
    ensures Pow2(k) <= n
  {
    if k > 0 {
      AlignedGapFromZero(n / 2, k - 1);
    }
  }
}
