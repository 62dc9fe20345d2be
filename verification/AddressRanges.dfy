/**
 How a range allocator adds and removes ranges of addresses, in 64-bit arithmetic.
 */
module AddressRanges {
  import opened MachineWords
  import opened Wrappers
  import opened BlockTree

  // ---- adding a range -------------------------------------------------------------------------

  /** The range is not empty and does not conflict with a block. */
  predicate Accepts(t: Tree, base: Word, size: Word) {
    size > 0 && t.Find(base, Minus(Plus(base, size), 1), true).None?
  }

  function Predecessor(t: Tree, base: Word): (r: Option<Block>)
    ensures r.Some? ==> r.value in t.Blocks() && base > 0 && r.value.Hit(base - 1, base - 1, false)
  {
    if base > 0 then t.Find(base - 1, base - 1, false) else None
  }

  /** Merge a range with the block in front of it. */
  function MergedBefore(t: Tree, base: Word, size: Word): (Tree, Word, Word) {
    var b := Predecessor(t, base);
    if b.Some? then (Remove(t, b.value), b.value.addr, Plus(size, b.value.size)) else (t, base, size)
  }

  /** Merge a range with the block behind it. */
  function MergedAfter(t: Tree, base: Word, size: Word): (Tree, Word) {
    var next := Plus(base, size);
    var b := t.Find(next, next, false);
    if b.Some? then (Remove(t, b.value), Plus(size, b.value.size)) else (t, size)
  }

  function Added(t: Tree, base: Word, size: Word): Tree {
    if !Accepts(t, base, size) then t
    else
      var (t1, base1, size1) := MergedBefore(t, base, size);
      var (t2, size2) := MergedAfter(t1, base1, size1);
      Insert(t2, Block(base1, size2))
  }

  // ---- removing a range -----------------------------------------------------------------------

  function Placed(t: Tree, addr: Word, size: Word): Tree {
    if size > 0 then Insert(t, Block(addr, size)) else t
  }

  /** Replace a block by what is left of it at both sides of a range. */
  function Cut(t: Tree, b: Block, addr: Word, size: Word): Tree
    requires b in t.Blocks()
  {
    var padding := if addr > b.addr then addr - b.addr else 0;
    var above := if b.size > padding then b.size - padding else 0;
    var remaining := if b.addr == 0 && b.size == 0 then Minus(Minus(b.size, size), padding)
                     else if above > size then above - size else 0;
    Placed(Placed(Remove(t, b), b.addr, padding), Plus(addr, size), remaining)
  }

  /** The part of a range that a block has in common with it, by its first address and its size. */
  function Common(b: Block, base: Word, last: Word): (Word, Word) {
    var first := if base < b.addr then b.addr else base;
    var end := if last < b.Last() then last else b.Last();
    (first, Plus(Minus(end, first), 1))
  }

  /** One round of a removal, which cuts the range from one block, unless it finds none that has memory. */
  function Round(t: Tree, base: Word, size: Word): Option<Tree> {
    var last := Minus(Plus(base, size), 1);
    var b := t.Find(base, last, true);
    if b.None? || b.value.size == 0 then None
    else
      var (addr, size) := Common(b.value, base, last);
      Some(Cut(t, b.value, addr, size))
  }

  /** A block across the end of the address space is cut as a whole. */
  lemma CommonMeaning(b: Block, base: Word, last: Word)
    requires base <= last && b.Hit(base, last, true) && b.size > 0
    ensures var (addr, size) := Common(b, base, last);
            && addr >= b.addr && size > 0
            && (b.Proper() ==> addr + size <= b.addr + b.size
                               && forall x: Word :: addr <= x < addr + size <==> b.Has(x) && base <= x <= last)
            && (!b.Proper() ==> addr == b.addr && size == b.size)
  {
  }

  /** For a range in the address space, each round leaves less memory. */
  lemma RoundShrinks(t: Tree, base: Word, size: Word)
    requires size > 0 && base + size <= TWO_64 && Round(t, base, size).Some?
    ensures Round(t, base, size).value.Total() < t.Total()
  {
    var last := base + size - 1;
    var b := t.Find(base, last, true).value;
    var (addr, size) := Common(b, base, last);
    CommonMeaning(b, base, last);
    CutTotal(t, b, addr, size);
  }

  lemma PlacedTotal(t: Tree, addr: Word, size: Word)
    ensures Placed(t, addr, size).Total() == t.Total() + size
  {
    InsertMeaning(t, Block(addr, size));
  }

  lemma PlacedTwiceTotal(t: Tree, addr: Word, size: Word, addr': Word, size': Word)
    ensures Placed(Placed(t, addr, size), addr', size').Total() == t.Total() + size + size'
  {
    PlacedTotal(t, addr, size);
    PlacedTotal(Placed(t, addr, size), addr', size');
  }

  lemma CutTotal(t: Tree, b: Block, addr: Word, size: Word)
    requires b in t.Blocks() && size > 0 && b.addr <= addr && addr - b.addr + size <= b.size
    ensures Cut(t, b, addr, size).Total() + size == t.Total()
  {
    hide Insert, Remove;
    var padding, remaining := addr - b.addr, b.size - (addr - b.addr) - size;
    assert Cut(t, b, addr, size) == Placed(Placed(Remove(t, b), b.addr, padding), Plus(addr, size), remaining);
    PlacedTwiceTotal(Remove(t, b), b.addr, padding, Plus(addr, size), remaining);
    RemoveMeaning(t, b);
  }

  function Removed(t: Tree, base: Word, size: Word): Tree
    requires base + size <= TWO_64
    decreases t.Total()
  {
    if size == 0 || Round(t, base, size).None? then t
    else
      RoundShrinks(t, base, size);
      Removed(Round(t, base, size).value, base, size)
  }

  // ---- without wrap-around --------------------------------------------------------------------

  predicate Sound(t: Tree) {
    t.Within(0, TWO_64)
  }

  lemma FreeIff(t: Tree, x: Word)
    requires Sound(t)
    ensures t.Find(x, x, true).Some? <==> t.Free(x)
    ensures t.Find(x, x, false).Some? <==> t.Free(x)
  {
    if t.Free(x) {
      var b :| b in t.Blocks() && b.Has(x);
      WithinMeaning(t, 0, TWO_64, b);
      FindIsComplete(t, 0, TWO_64, x, x, true, b);
      FindIsComplete(t, 0, TWO_64, x, x, false, b);
    }
    forall b | b in t.Blocks()
      ensures b.Proper()
    {
      WithinMeaning(t, 0, TWO_64, b);
    }
  }

  /** A range is accepted exactly if none of it is present. */
  lemma AcceptsIff(t: Tree, base: Word, size: Word)
    requires Sound(t) && base + size <= TWO_64
    ensures Accepts(t, base, size) <==> size > 0 && forall x: Word :: base <= x < base + size ==> !t.Free(x)
  {
    if size > 0 {
      var last := base + size - 1;
      var r := t.Find(base, last, true);
      if r.Some? {
        WithinMeaning(t, 0, TWO_64, r.value);
        CommonMeaning(r.value, base, last);
        var x := Common(r.value, base, last).0;
        assert r.value.Has(x);
        assert t.Free(x);
      } else {
        forall x: Word | base <= x < base + size
          ensures !t.Free(x)
        {
          if t.Free(x) {
            var b :| b in t.Blocks() && b.Has(x);
            WithinMeaning(t, 0, TWO_64, b);
            FindIsComplete(t, 0, TWO_64, base, last, true, b);
          }
        }
      }
    }
  }

  /** Every block ends below the first address, or starts at the second one or behind it. */
  predicate Beside(t: Tree, lo: int, hi: int) {
    forall b :: b in t.Blocks() ==> b.addr + b.size < lo || hi <= b.addr
  }

  lemma RemoveFree(t: Tree, b: Block, x: Word)
    requires Sound(t) && b in t.Blocks()
    ensures t.Free(x) <==> Remove(t, b).Free(x) || b.Has(x)
    ensures Sound(Remove(t, b)) && Remove(t, b).Blocks() == t.Blocks() - {b}
  {
    RemoveIsExact(t, 0, TWO_64, b);
    if t.Free(x) {
      var c :| c in t.Blocks() && c.Has(x);
      assert c == b || c in Remove(t, b).Blocks();
    }
    if Remove(t, b).Free(x) {
      var c :| c in Remove(t, b).Blocks() && c.Has(x);
      assert c in t.Blocks();
    }
  }

  /** An accepted range lies beside all blocks. */
  lemma AcceptedIsBeside(t: Tree, base: Word, size: Word, b: Block)
    requires Sound(t) && base + size <= TWO_64 && Accepts(t, base, size) && b in t.Blocks()
    ensures b.Proper() && (b.addr + b.size <= base || base + size <= b.addr)
  {
    var last := base + size - 1;
    WithinMeaning(t, 0, TWO_64, b);
    if b.Overlaps(base, last) {
      FindIsComplete(t, 0, TWO_64, base, last, true, b);
    }
  }

  /** The predecessor ends where the range begins, and all other blocks lie beside both. */
  lemma PredecessorMeaning(t: Tree, base: Word, size: Word, c: Block)
    requires Sound(t) && base + size <= TWO_64 && Accepts(t, base, size) && c in t.Blocks()
    ensures var r := Predecessor(t, base);
            if r.None? then c.addr + c.size < base || base + size <= c.addr
            else && r.value.addr + r.value.size == base && r.value.Proper()
                 && (c == r.value || c.addr + c.size < r.value.addr || base + size <= c.addr)
  {
    var r := Predecessor(t, base);
    AcceptedIsBeside(t, base, size, c);
    if r.Some? {
      AcceptedIsBeside(t, base, size, r.value);
      if c != r.value {
        BlocksAreApart(t, 0, TWO_64, c, r.value);
      }
    } else if c.addr + c.size == base {
      FindIsComplete(t, 0, TWO_64, base - 1, base - 1, false, c);
    }
  }

  /** What is left of the tree lies beside the range and its predecessor. */
  lemma BeforeMeaning(t: Tree, base: Word, size: Word)
    requires Sound(t) && base + size <= TWO_64 && Accepts(t, base, size)
    ensures var (t1, a, s) := MergedBefore(t, base, size);
            var r := Predecessor(t, base);
            && Sound(t1) && Beside(t1, a, base + size)
            && t1.Blocks() == (if r.Some? then t.Blocks() - {r.value} else t.Blocks())
            && (if r.Some? then r.value == Block(a, base - a) && a < base else a == base)
            && (if a == 0 && base + size == TWO_64 then s == 0 else s > 0 && a + s == base + size)
  {
    var r := Predecessor(t, base);
    if r.Some? {
      PredecessorMeaning(t, base, size, r.value);
      RemoveFree(t, r.value, 0);
    }
    forall c | c in MergedBefore(t, base, size).0.Blocks()
      ensures c.addr + c.size < MergedBefore(t, base, size).1 || base + size <= c.addr
    {
      PredecessorMeaning(t, base, size, c);
    }
  }

  /** The successor begins where the range ends, and all other blocks lie beside both. */
  lemma SuccessorMeaning(t: Tree, base: Word, end: Word, c: Block)
    requires Sound(t) && base < end && Beside(t, base, end) && c in t.Blocks()
    ensures var r := t.Find(end, end, false);
            if r.None? then c.addr + c.size < base || end < c.addr
            else && r.value.addr == end && r.value.Proper()
                 && (c == r.value || c.addr + c.size < base || end + r.value.size < c.addr)
  {
    var r := t.Find(end, end, false);
    WithinMeaning(t, 0, TWO_64, c);
    if r.Some? {
      WithinMeaning(t, 0, TWO_64, r.value);
      if c != r.value {
        BlocksAreApart(t, 0, TWO_64, c, r.value);
      }
    } else if c.addr == end {
      FindIsComplete(t, 0, TWO_64, end, end, false, c);
    }
  }

  /** A range that does not end with the address space merges with the block that begins where it ends. */
  lemma AfterMeaning(t: Tree, base: Word, size: Word)
    requires Sound(t) && size > 0 && base + size < TWO_64 && Beside(t, base, base + size)
    ensures var (t2, s) := MergedAfter(t, base, size);
            var r := t.Find(base + size, base + size, false);
            && Sound(t2) && t2.Blocks() == (if r.Some? then t.Blocks() - {r.value} else t.Blocks())
            && (if r.None? then s == size && Beside(t2, base, base + size + 1)
                else && r.value.addr == base + size && r.value.Proper() && s == Plus(size, r.value.size)
                     && Beside(t2, base, r.value.addr + r.value.size + 1))
  {
    var end := base + size;
    var r := t.Find(end, end, false);
    if r.Some? {
      SuccessorMeaning(t, base, end, r.value);
      RemoveFree(t, r.value, 0);
    }
    forall c | c in MergedAfter(t, base, size).0.Blocks()
      ensures c.addr + c.size < base || end + (if r.Some? then r.value.size else 0) < c.addr
    {
      SuccessorMeaning(t, base, end, c);
    }
  }

  /** A range that ends with the address space merges with the block at address zero. */
  lemma AfterWrapping(t: Tree, base: Word, size: Word)
    requires Sound(t) && size > 0 && base + size == TWO_64 && Beside(t, base, TWO_64)
    ensures var (t2, s) := MergedAfter(t, base, size);
            var r := t.Find(0, 0, false);
            && Sound(t2) && t2.Blocks() == (if r.Some? then t.Blocks() - {r.value} else t.Blocks())
            && (t.Free(0) <==> r.Some?)
            && (if r.None? then s == size
                else && r.value.addr == 0 && 0 < r.value.size < base && s == size + r.value.size
                     && Beside(t2, 0, r.value.size + 1))
  {
    FreeIff(t, 0);
    var r := t.Find(0, 0, false);
    if r.Some? {
      var b := r.value;
      WithinMeaning(t, 0, TWO_64, b);
      RemoveFree(t, b, 0);
      forall c | c in t.Blocks() && c != b
        ensures b.size < c.addr
      {
        WithinMeaning(t, 0, TWO_64, c);
        BlocksAreApart(t, 0, TWO_64, b, c);
      }
    }
  }

  /**
   The range and the memory present make up both ends of the address space with the range at the
   upper end, or the whole address space.
   */
  ghost predicate Wraps(t: Tree, base: Word, size: Word) {
    || (base + size == TWO_64 && t.Free(0))
    || forall x: Word :: t.Free(x) || base <= x < base + size
  }

  lemma InsertFree(t: Tree, b: Block, x: Word)
    ensures Insert(t, b).Free(x) <==> t.Free(x) || b.Has(x)
  {
    InsertMeaning(t, b);
    if t.Free(x) {
      var c :| c in t.Blocks() && c.Has(x);
      assert c in Insert(t, b).Blocks();
    }
    if b.Has(x) {
      assert b in Insert(t, b).Blocks();
    }
  }

  /** A merged block that does not wrap around is as good as the range on its own. */
  lemma InsertMerged(t2: Tree, merged: Block, x: Word)
    requires Sound(t2) && merged.Proper() && Beside(t2, merged.addr, merged.addr + merged.size + 1)
    ensures Sound(Insert(t2, merged))
    ensures Insert(t2, merged).Free(x) <==> t2.Free(x) || merged.Has(x)
  {
    InsertWithin(t2, merged, 0, TWO_64);
    InsertFree(t2, merged, x);
  }

  /** What a tree has is what it has without a block, and the block. */
  lemma WithoutFree(t: Tree, t1: Tree, r: Option<Block>, x: Word)
    requires r.Some? ==> r.value in t.Blocks()
    requires t1.Blocks() == if r.Some? then t.Blocks() - {r.value} else t.Blocks()
    ensures t.Free(x) <==> t1.Free(x) || (r.Some? && r.value.Has(x))
  {
    if t.Free(x) {
      var c :| c in t.Blocks() && c.Has(x);
      assert r == Some(c) || c in t1.Blocks();
    }
    if t1.Free(x) {
      var c :| c in t1.Blocks() && c.Has(x);
      assert c in t.Blocks();
    }
  }

  lemma CoveredWraps(t: Tree, base: Word, size: Word)
    requires base == 0 || Block(0, base) in t.Blocks()
    requires base + size == TWO_64
             || exists b :: b in t.Blocks() && b.Proper() && b.addr == base + size && b.addr + b.size == TWO_64
    ensures forall x: Word :: t.Free(x) || base <= x < base + size
  {
    forall x: Word
      ensures t.Free(x) || base <= x < base + size
    {
      if x < base {
        assert Block(0, base).Has(x);
      } else if base + size <= x {
        var b :| b in t.Blocks() && b.Proper() && b.addr == base + size && b.addr + b.size == TWO_64;
        assert b.Has(x);
      }
    }
  }

  lemma AddedAtEnd(t: Tree, base: Word, size: Word, x: Word)
    requires Sound(t) && base + size == TWO_64 && Accepts(t, base, size) && !Wraps(t, base, size)
    ensures Sound(Added(t, base, size)) && (Added(t, base, size).Free(x) <==> t.Free(x) || base <= x)
  {
    var (t1, a, s) := MergedBefore(t, base, size);
    BeforeMeaning(t, base, size);
    WithoutFree(t, t1, Predecessor(t, base), x);
    WithoutFree(t, t1, Predecessor(t, base), 0);
    if a == 0 {
      CoveredWraps(t, base, size);
      assert false;
    }
    AfterWrapping(t1, a, s);
    InsertMerged(t1, Block(a, s), x);
  }

  lemma AddedInside(t: Tree, base: Word, size: Word, x: Word)
    requires Sound(t) && base + size < TWO_64 && Accepts(t, base, size) && !Wraps(t, base, size)
    ensures Sound(Added(t, base, size)) && (Added(t, base, size).Free(x) <==> t.Free(x) || base <= x < base + size)
  {
    var (t1, a, s) := MergedBefore(t, base, size);
    BeforeMeaning(t, base, size);
    WithoutFree(t, t1, Predecessor(t, base), x);
    var (t2, s2) := MergedAfter(t1, a, s);
    var r := t1.Find(a + s, a + s, false);
    AfterMeaning(t1, a, s);
    WithoutFree(t1, t2, r, x);
    if a == 0 && r.Some? && r.value.addr + r.value.size == TWO_64 {
      CoveredWraps(t, base, size);
      assert false;
    }
    InsertMerged(t2, Block(a, s2), x);
  }

  /** An accepted range that does not wrap around keeps the tree sound and adds exactly its bytes. */
  lemma AddedMeaning(t: Tree, base: Word, size: Word, x: Word)
    requires Sound(t) && base + size <= TWO_64 && Accepts(t, base, size) && !Wraps(t, base, size)
    ensures Sound(Added(t, base, size)) && (Added(t, base, size).Free(x) <==> t.Free(x) || base <= x < base + size)
  {
    hide Added, Accepts, Wraps;
    if base + size == TWO_64 {
      AddedAtEnd(t, base, size, x);
    } else {
      AddedInside(t, base, size, x);
    }
  }

  lemma AddedRefused(t: Tree, base: Word, size: Word)
    requires !Accepts(t, base, size)
    ensures Added(t, base, size) == t
  {
  }

  /** The whole address space in one block, whose size is zero, is never reduced. */
  lemma WholeStays(n: Word)
    requires n > 0
    ensures var whole := Node(Leaf, Block(0, 0), Leaf);
            whole.Free(0) && Removed(whole, 0, n) == whole
  {
    var whole := Node(Leaf, Block(0, 0), Leaf);
    assert whole.block in whole.Blocks() && whole.block.Has(0);
  }

  lemma NothingBeside(t: Tree)
    requires Beside(t, 0, TWO_64)
    ensures t == Leaf
  {
    if t.Node? {
      RootIsBlock(t);
      assert false;
    }
  }

  lemma RootIsBlock(t: Tree)
    requires t.Node?
    ensures t.block in t.Blocks()
  {
  }

  lemma NotFreeBeside(t: Tree, lo: int, hi: int, x: Word)
    requires Sound(t) && Beside(t, lo, hi) && lo - 1 <= x < hi
    ensures !t.Free(x)
  {
    if t.Free(x) {
      var b :| b in t.Blocks() && b.Has(x);
      WithinMeaning(t, 0, TWO_64, b);
      assert false;
    }
  }

  /** A block that extends across the end of the address space is not found at its upper part. */
  lemma CrossingStays(t2: Tree, a: Word, k: Word, n: Word)
    requires 0 < k < a && 0 < n <= k && Sound(t2) && Beside(t2, 0, k + 1)
    ensures var t' := Insert(t2, Block(a, TWO_64 - a + k));
            t'.Free(0) && Removed(t', 0, n) == t'
  {
    var b := Block(a, TWO_64 - a + k);
    InsertFree(t2, b, 0);
    InsertMeaning(t2, b);
    forall c | c in t2.Blocks()
      ensures !c.Hit(0, n - 1, true)
    {
      WithinMeaning(t2, 0, TWO_64, c);
    }
  }

  lemma BeforeWhole(t: Tree, base: Word, size: Word)
    requires Sound(t) && base + size <= TWO_64 && Accepts(t, base, size)
    requires forall x: Word :: t.Free(x) || base <= x < base + size
    ensures MergedBefore(t, base, size).1 == 0
    ensures forall x: Word :: base + size <= x ==> MergedBefore(t, base, size).0.Free(x)
  {
    var (t1, a, s) := MergedBefore(t, base, size);
    BeforeMeaning(t, base, size);
    if a > 0 {
      WithoutFree(t, t1, Predecessor(t, base), a - 1);
      NotFreeBeside(t1, a, base + size, a - 1);
      assert false;
    }
    forall x: Word | base + size <= x
      ensures t1.Free(x)
    {
      WithoutFree(t, t1, Predecessor(t, base), x);
    }
  }

  /** The range merges to the whole address space. */
  lemma AddedWhole(t: Tree, base: Word, size: Word)
    requires Sound(t) && base + size <= TWO_64 && Accepts(t, base, size)
    requires forall x: Word :: t.Free(x) || base <= x < base + size
    ensures Added(t, base, size) == Node(Leaf, Block(0, 0), Leaf)
  {
    hide Remove;
    var t1 := MergedBefore(t, base, size).0;
    BeforeMeaning(t, base, size);
    BeforeWhole(t, base, size);
    if base + size == TWO_64 {
      NothingBeside(t1);
    } else {
      MergedToWhole(t1, base + size);
    }
  }

  lemma MergedToWhole(t: Tree, size: Word)
    requires Sound(t) && size > 0 && Beside(t, 0, size) && forall x: Word :: size <= x ==> t.Free(x)
    ensures MergedAfter(t, 0, size) == (Leaf, 0)
  {
    FreeIff(t, size);
    AfterMeaning(t, 0, size);
    var b := t.Find(size, size, false).value;
    var end := b.addr + b.size;
    var t2 := MergedAfter(t, 0, size).0;
    if end < TWO_64 {
      WithoutFree(t, t2, Some(b), end);
      NotFreeBeside(t2, 0, end + 1, end);
      assert false;
    }
    NothingBeside(t2);
  }

  /** After a range has wrapped around, the memory at address zero is present but cannot be removed. */
  lemma AddedWraps(t: Tree, base: Word, size: Word, n: Word)
    requires Sound(t) && base + size <= TWO_64 && Accepts(t, base, size) && Wraps(t, base, size)
    requires n > 0 && forall x: Word :: x < n ==> t.Free(x) || base <= x < base + size
    ensures Added(t, base, size).Free(0) && Removed(Added(t, base, size), 0, n) == Added(t, base, size)
  {
    if forall x: Word :: t.Free(x) || base <= x < base + size {
      AddedWhole(t, base, size);
      WholeStays(n);
    } else {
      AddedCrosses(t, base, size, n);
    }
  }

  lemma AddedCrosses(t: Tree, base: Word, size: Word, n: Word)
    requires Sound(t) && base + size == TWO_64 && Accepts(t, base, size) && t.Free(0)
    requires n > 0 && forall x: Word :: x < n ==> t.Free(x) || base <= x < base + size
    requires exists x: Word :: !t.Free(x) && x < base
    ensures Added(t, base, size).Free(0) && Removed(Added(t, base, size), 0, n) == Added(t, base, size)
  {
    var (t1, a, s) := MergedBefore(t, base, size);
    BeforeMeaning(t, base, size);
    if a == 0 {
      CoveredWraps(t, base, size);
      assert false;
    }
    forall x: Word | x < a
      ensures t1.Free(x) <==> t.Free(x)
    {
      WithoutFree(t, t1, Predecessor(t, base), x);
    }
    MergedAcross(t1, a, s, n);
  }

  lemma MergedAcross(t: Tree, base: Word, size: Word, n: Word)
    requires Sound(t) && base + size == TWO_64 && size > 0 && Beside(t, base, TWO_64) && t.Free(0)
    requires n > 0 && forall x: Word :: x < n && x < base ==> t.Free(x)
    ensures var (t2, s2) := MergedAfter(t, base, size);
            var t' := Insert(t2, Block(base, s2));
            t'.Free(0) && Removed(t', 0, n) == t'
  {
    AfterWrapping(t, base, size);
    var t2 := MergedAfter(t, base, size).0;
    var b := t.Find(0, 0, false).value;
    if b.size < n {
      WithoutFree(t, t2, Some(b), b.size);
      NotFreeBeside(t2, 0, b.size + 1, b.size);
      assert false;
    }
    CrossingStays(t2, base, b.size, n);
  }

  lemma PlacedMeaning(t: Tree, addr: Word, size: Word, x: Word)
    requires Sound(t) && addr + size <= TWO_64 && Beside(t, addr, addr + size + 1)
    ensures Sound(Placed(t, addr, size))
    ensures Placed(t, addr, size).Blocks() == if size > 0 then t.Blocks() + {Block(addr, size)} else t.Blocks()
    ensures Placed(t, addr, size).Free(x) <==> t.Free(x) || addr <= x < addr + size
  {
    if size > 0 {
      InsertMeaning(t, Block(addr, size));
      InsertMerged(t, Block(addr, size), x);
    }
  }

  /** What is left of a block fits into the gap that it leaves. */
  lemma PlacedTwice(t1: Tree, b: Block, addr: Word, size: Word, x: Word)
    requires Sound(t1) && b.Proper() && Beside(t1, b.addr, b.addr + b.size + 1)
    requires size > 0 && b.addr <= addr && addr + size <= b.addr + b.size
    ensures var t' := Placed(Placed(t1, b.addr, addr - b.addr), Plus(addr, size), b.addr + b.size - addr - size);
            Sound(t') && (t'.Free(x) <==> t1.Free(x) || b.addr <= x < addr || addr + size <= x < b.addr + b.size)
  {
    hide Placed, Sound, Tree.Blocks;
    var t2 := Placed(t1, b.addr, addr - b.addr);
    PlacedMeaning(t1, b.addr, addr - b.addr, x);
    forall c | c in t2.Blocks()
      ensures c.addr + c.size < addr + size || b.addr + b.size < c.addr
    {
      assert c == Block(b.addr, addr - b.addr) || c in t1.Blocks();
    }
    PlacedAbove(t2, addr + size, b.addr + b.size, x);
  }

  lemma PlacedAbove(t: Tree, lo: nat, hi: nat, x: Word)
    requires Sound(t) && 0 < lo <= hi <= TWO_64 && Beside(t, lo, hi + 1)
    ensures var t' := Placed(t, if lo < TWO_64 then lo else 0, hi - lo);
            Sound(t') && (t'.Free(x) <==> t.Free(x) || lo <= x < hi)
  {
    if lo < TWO_64 {
      PlacedMeaning(t, lo, hi - lo, x);
    }
  }

  /** Cutting a range from a proper block leaves all other memory. */
  lemma CutMeaning(t: Tree, b: Block, addr: Word, size: Word, x: Word)
    requires Sound(t) && b in t.Blocks() && b.Proper()
    requires size > 0 && b.addr <= addr && addr + size <= b.addr + b.size
    ensures Sound(Cut(t, b, addr, size))
    ensures Cut(t, b, addr, size).Free(x) <==> t.Free(x) && !(addr <= x < addr + size)
  {
    hide Insert, Remove, Placed;
    var t1 := Remove(t, b);
    RemoveFree(t, b, x);
    forall c | c in t1.Blocks()
      ensures c.addr + c.size < b.addr || b.addr + b.size < c.addr
    {
      BlocksAreApart(t, 0, TWO_64, b, c);
    }
    PlacedTwice(t1, b, addr, size, x);
    if b.Has(x) {
      NotFreeBeside(t1, b.addr, b.addr + b.size, x);
    }
  }

  lemma RoundMeaning(t: Tree, base: Word, size: Word, x: Word)
    requires Sound(t) && size > 0 && base + size <= TWO_64
    ensures var r := Round(t, base, size);
            if r.None? then base <= x < base + size ==> !t.Free(x)
            else && Sound(r.value) && (r.value.Free(x) ==> t.Free(x))
                 && (t.Free(x) && !(base <= x < base + size) ==> r.value.Free(x))
  {
    var last := base + size - 1;
    var r := t.Find(base, last, true);
    if r.None? {
      AcceptsIff(t, base, size);
    } else {
      WithinMeaning(t, 0, TWO_64, r.value);
      var (addr, common) := Common(r.value, base, last);
      CommonMeaning(r.value, base, last);
      CutMeaning(t, r.value, addr, common, x);
      assert addr <= x < addr + common ==> base <= x < base + size;
      assert Round(t, base, size) == Some(Cut(t, r.value, addr, common));
    }
  }

  /** A removal takes exactly the range out of a sound tree. */
  lemma {:induction false} RemovedMeaning(t: Tree, base: Word, size: Word, x: Word)
    requires Sound(t) && base + size <= TWO_64
    ensures Sound(Removed(t, base, size))
    ensures Removed(t, base, size).Free(x) <==> t.Free(x) && !(base <= x < base + size)
    decreases t.Total()
  {
    if size > 0 {
      RoundMeaning(t, base, size, x);
      if Round(t, base, size).Some? {
        RoundShrinks(t, base, size);
        RemovedMeaning(Round(t, base, size).value, base, size, x);
      }
    }
  }
}
