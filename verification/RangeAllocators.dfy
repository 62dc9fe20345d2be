/**
 The range allocator by the pages it has, for ranges of whole pages.
 */
module RangeAllocators {
  import opened MachineWords
  import opened BlockTree
  import opened AddressRanges
  import opened Ranges

  /** A whole number of pages. */
  predicate Whole(n: int) {
    n % PAGE == 0
  }

  lemma SumIsWhole(a: int, b: int)
    requires Whole(a) && Whole(b)
    ensures Whole(a + b) && Whole(a - b)
  {
    var i, j := a / PAGE, b / PAGE;
    assert a == i * PAGE && b == j * PAGE;
    assert a + b == (i + j) * PAGE && a - b == (i - j) * PAGE;
  }

  predicate Aligned(t: Tree) {
    forall b :: b in t.Blocks() ==> Whole(b.addr) && Whole(b.size)
  }

  /** The pages whose first byte is in a block. */
  ghost function PagesIn(t: Tree): set<nat> {
    set p: nat | p < PAGES && t.Free(p * PAGE)
  }

  lemma AlignedFree(t: Tree, x: Word)
    requires Sound(t) && Aligned(t)
    ensures t.Free(x) <==> x / PAGE in PagesIn(t)
  {
    var first: Word := x / PAGE * PAGE;
    if t.Free(x) {
      var b :| b in t.Blocks() && b.Has(x);
      WithinMeaning(t, 0, TWO_64, b);
      assert b.Has(first);
    }
    if t.Free(first) {
      var b :| b in t.Blocks() && b.Has(first);
      WithinMeaning(t, 0, TWO_64, b);
      assert b.Has(x);
    }
  }

  lemma InRangeIff(base: nat, size: nat, x: nat)
    requires Whole(base) && Whole(size)
    ensures base <= x < base + size <==> x / PAGE in PagesOf(base, size)
  {
  }

  lemma PlusAligned(a: Word, b: Word)
    requires Whole(a) && Whole(b)
    ensures Whole(Plus(a, b)) && Whole(Minus(a, b))
  {
    EndIsWhole();
    hide Whole;
    SumIsWhole(a, b);
    SumIsWhole(a + b, TWO_64);
    SumIsWhole(a - b, TWO_64);
  }

  lemma EndIsWhole()
    ensures Whole(TWO_64) && Whole(0)
  {
  }

  lemma MergedBeforeAligned(t: Tree, base: Word, size: Word)
    requires Aligned(t) && Whole(base) && Whole(size)
    ensures var (t1, a, s) := MergedBefore(t, base, size); Aligned(t1) && Whole(a) && Whole(s)
  {
    hide Remove, Whole;
    if Predecessor(t, base).Some? {
      RemoveMeaning(t, Predecessor(t, base).value);
      PlusAligned(size, Predecessor(t, base).value.size);
    }
  }

  lemma MergedAfterAligned(t: Tree, base: Word, size: Word)
    requires Aligned(t) && Whole(base) && Whole(size)
    ensures var (t2, s) := MergedAfter(t, base, size); Aligned(t2) && Whole(s)
  {
    hide Remove, Whole;
    var r := t.Find(Plus(base, size), Plus(base, size), false);
    if r.Some? {
      RemoveMeaning(t, r.value);
      PlusAligned(size, r.value.size);
    }
  }

  lemma AddedAligned(t: Tree, base: Word, size: Word)
    requires Aligned(t) && Whole(base) && Whole(size)
    ensures Aligned(Added(t, base, size))
  {
    hide Insert, Remove, Whole;
    MergedBeforeAligned(t, base, size);
    var (t1, a, s) := MergedBefore(t, base, size);
    MergedAfterAligned(t1, a, s);
    var (t2, s2) := MergedAfter(t1, a, s);
    InsertMeaning(t2, Block(a, s2));
  }

  lemma PlacedAligned(t: Tree, addr: Word, size: Word)
    requires Aligned(t) && Whole(addr) && Whole(size)
    ensures Aligned(Placed(t, addr, size))
  {
    hide Insert, Remove, Whole;
    InsertMeaning(t, Block(addr, size));
  }

  lemma CutAligned(t: Tree, b: Block, addr: Word, size: Word)
    requires Aligned(t) && Whole(addr) && Whole(size)
    requires b in t.Blocks() && b.Proper() && b.addr <= addr && addr + size <= b.addr + b.size
    ensures Aligned(Cut(t, b, addr, size))
  {
    hide Placed, Insert, Remove, Whole;
    var padding, remaining := addr - b.addr, b.addr + b.size - addr - size;
    RemoveMeaning(t, b);
    PlusAligned(addr, size);
    SumIsWhole(addr, b.addr);
    SumIsWhole(b.size, padding);
    SumIsWhole(b.size - padding, size);
    PlacedAligned(Remove(t, b), b.addr, padding);
    PlacedAligned(Placed(Remove(t, b), b.addr, padding), Plus(addr, size), remaining);
    assert Cut(t, b, addr, size) == Placed(Placed(Remove(t, b), b.addr, padding), Plus(addr, size), remaining);
  }

  lemma CommonAligned(b: Block, base: Word, size: Word)
    requires Whole(b.addr) && Whole(b.size) && Whole(base) && Whole(size)
    requires size > 0 && base + size <= TWO_64 && b.Proper() && b.Overlaps(base, base + size - 1)
    ensures var (addr, common) := Common(b, base, base + size - 1);
            Whole(addr) && Whole(common)
  {
    hide Whole;
    var addr := if base < b.addr then b.addr else base;
    SumIsWhole(base, size);
    SumIsWhole(b.addr, b.size);
    SumIsWhole(base + size, addr);
    SumIsWhole(b.addr + b.size, addr);
  }

  lemma RoundAligned(t: Tree, base: Word, size: Word)
    requires Sound(t) && Aligned(t) && Whole(base) && Whole(size) && size > 0 && base + size <= TWO_64
    requires Round(t, base, size).Some?
    ensures Aligned(Round(t, base, size).value)
  {
    hide Cut, Whole;
    var b := t.Find(base, base + size - 1, true).value;
    WithinMeaning(t, 0, TWO_64, b);
    var (addr, common) := Common(b, base, base + size - 1);
    CommonMeaning(b, base, base + size - 1);
    CommonAligned(b, base, size);
    CutAligned(t, b, addr, common);
    assert Round(t, base, size).value == Cut(t, b, addr, common);
  }

  lemma {:induction false} RemovedAligned(t: Tree, base: Word, size: Word)
    requires Sound(t) && Aligned(t) && Whole(base) && Whole(size) && base + size <= TWO_64
    ensures Aligned(Removed(t, base, size))
    decreases t.Total()
  {
    if size > 0 && Round(t, base, size).Some? {
      RoundShrinks(t, base, size);
      RoundMeaning(t, base, size, 0);
      RoundAligned(t, base, size);
      RemovedAligned(Round(t, base, size).value, base, size);
    }
  }

  // ---- ranges of pages ------------------------------------------------------------------------

  ghost predicate WellFormed(t: Tree) {
    Sound(t) && Aligned(t)
  }

  lemma LeafIsWellFormed()
    ensures WellFormed(Leaf) && PagesIn(Leaf) == {}
  {
  }

  predicate WholePages(base: nat, size: nat) {
    Whole(base) && Whole(size) && base + size <= TWO_64
  }

  lemma AcceptsPagesIff(t: Tree, base: Word, size: Word)
    requires WellFormed(t) && WholePages(base, size)
    ensures Accepts(t, base, size) <==> size > 0 && PagesOf(base, size) !! PagesIn(t)
  {
    AcceptsIff(t, base, size);
    forall x: Word | base <= x < base + size
      ensures t.Free(x) <==> x / PAGE in PagesOf(base, size) && x / PAGE in PagesIn(t)
    {
      AlignedFree(t, x);
      InRangeIff(base, size, x);
    }
    forall p: nat | p in PagesOf(base, size)
      ensures p * PAGE < TWO_64 && base <= p * PAGE < base + size && (t.Free(p * PAGE) <==> p in PagesIn(t))
    {
    }
  }

  lemma ByteIff(t: Tree, base: Word, size: Word, x: Word)
    requires WellFormed(t) && WholePages(base, size)
    ensures t.Free(x) || base <= x < base + size <==> x / PAGE in PagesIn(t) + PagesOf(base, size)
  {
    AlignedFree(t, x);
    InRangeIff(base, size, x);
  }

  lemma EveryByteIff(t: Tree, base: Word, size: Word)
    requires WellFormed(t) && WholePages(base, size)
    ensures (forall x: Word :: t.Free(x) || base <= x < base + size)
            <==> forall p: nat :: p < PAGES ==> p in PagesIn(t) + PagesOf(base, size)
  {
    hide WellFormed, PagesIn, PagesOf, Tree.Free;
    if forall x: Word :: t.Free(x) || base <= x < base + size {
      forall p: nat | p < PAGES
        ensures p in PagesIn(t) + PagesOf(base, size)
      {
        ByteIff(t, base, size, p * PAGE);
      }
    }
    if forall p: nat :: p < PAGES ==> p in PagesIn(t) + PagesOf(base, size) {
      forall x: Word
        ensures t.Free(x) || base <= x < base + size
      {
        ByteIff(t, base, size, x);
      }
    }
  }

  lemma WrapsIff(t: Tree, base: Word, size: Word)
    requires WellFormed(t) && WholePages(base, size) && Accepts(t, base, size)
    ensures Wraps(t, base, size) <==> WrapsAround(PagesIn(t), PagesOf(base, size))
  {
    hide Accepts;
    AcceptsPagesIff(t, base, size);
    EveryByteIff(t, base, size);
    AlignedFree(t, 0);
    InRangeIff(base, size, base);
    InRangeIff(base, size, TWO_64 - 1);
  }

  /** An accepted range that does not wrap around adds its pages. */
  lemma AddedPages(t: Tree, base: Word, size: Word)
    requires WellFormed(t) && WholePages(base, size) && !WrapsAround(PagesIn(t), PagesOf(base, size))
    ensures WellFormed(Added(t, base, size))
    ensures PagesIn(Added(t, base, size)) ==
            if Accepts(t, base, size) then PagesIn(t) + PagesOf(base, size) else PagesIn(t)
  {
    hide Added, Accepts;
    if Accepts(t, base, size) {
      WrapsIff(t, base, size);
      AddedAligned(t, base, size);
      AddedMeaning(t, base, size, 0);
      forall p: nat | p < PAGES
        ensures Added(t, base, size).Free(p * PAGE) <==> t.Free(p * PAGE) || p in PagesOf(base, size)
      {
        AddedMeaning(t, base, size, p * PAGE);
        InRangeIff(base, size, p * PAGE);
      }
    } else {
      AddedRefused(t, base, size);
    }
  }

  /** One that wraps around leaves page 0 present but out of reach for removals. */
  lemma AddedWrapsPages(t: Tree, base: Word, size: Word)
    requires WellFormed(t) && WholePages(base, size) && Accepts(t, base, size)
    requires WrapsAround(PagesIn(t), PagesOf(base, size))
    ensures var t' := Added(t, base, size); 0 in PagesIn(t') && Removed(t', 0, PAGE) == t'
  {
    hide Added, Accepts;
    WrapsIff(t, base, size);
    forall x: Word | x < PAGE
      ensures t.Free(x) || base <= x < base + size
    {
      AlignedFree(t, x);
      InRangeIff(base, size, x);
      assert x / PAGE == 0;
    }
    AddedWraps(t, base, size, PAGE);
  }

  lemma RemovedPages(t: Tree, base: Word, size: Word)
    requires WellFormed(t) && WholePages(base, size)
    ensures WellFormed(Removed(t, base, size))
    ensures PagesIn(Removed(t, base, size)) == PagesIn(t) - PagesOf(base, size)
  {
    hide Removed;
    RemovedAligned(t, base, size);
    RemovedMeaning(t, base, size, 0);
    forall p: nat | p < PAGES
      ensures Removed(t, base, size).Free(p * PAGE) <==> t.Free(p * PAGE) && p !in PagesOf(base, size)
    {
      RemovedMeaning(t, base, size, p * PAGE);
      InRangeIff(base, size, p * PAGE);
    }
  }

  // ---- series of ranges -----------------------------------------------------------------------

  datatype Range = Range(base: Word, size: Word) {
    function Pages(): set<nat> { PagesOf(base, size) }
  }

  function PageSets(rs: seq<Range>): seq<set<nat>> {
    seq(|rs|, i requires 0 <= i < |rs| => rs[i].Pages())
  }

  function AddedAll(t: Tree, rs: seq<Range>): Tree {
    if rs == [] then t
    else Added(AddedAll(t, rs[..|rs| - 1]), rs[|rs| - 1].base, rs[|rs| - 1].size)
  }

  lemma AddedOne(t: Tree, rs: seq<Range>, r: Range)
    ensures AddedAll(t, rs + [r]) == Added(AddedAll(t, rs), r.base, r.size)
  {
    assert (rs + [r])[..|rs|] == rs;
  }

  /** Each page can be removed from the tree, and nothing else with it. */
  ghost predicate Removable(t: Tree) {
    forall p: nat :: p < PAGES ==> PagesIn(Removed(t, p * PAGE, PAGE)) == PagesIn(t) - {p}
  }

  ghost predicate Exact(t: Tree, pages: set<nat>) {
    PagesIn(t) == pages && Removable(t)
  }

  lemma WellFormedIsRemovable(t: Tree)
    requires WellFormed(t)
    ensures Removable(t)
  {
    forall p: nat | p < PAGES
      ensures PagesIn(Removed(t, p * PAGE, PAGE)) == PagesIn(t) - {p}
    {
      RemovedPages(t, p * PAGE, PAGE);
      assert PagesOf(p * PAGE, PAGE) == {p};
    }
  }

  /** After a range that wraps around, page 0 cannot be removed. */
  lemma WrappedIsNotRemovable(t: Tree, r: Range)
    requires WellFormed(t) && WholePages(r.base, r.size) && WrapsAround(PagesIn(t), r.Pages())
    ensures !Removable(Added(t, r.base, r.size))
  {
    hide Added, Removed;
    AcceptsPagesIff(t, r.base, r.size);
    AddedWrapsPages(t, r.base, r.size);
    var t' := Added(t, r.base, r.size);
    assert PagesIn(Removed(t', 0 * PAGE, PAGE)) != PagesIn(t') - {0};
  }

  predicate AllWholePages(rs: seq<Range>) {
    forall r :: r in rs ==> WholePages(r.base, r.size)
  }

  lemma LastStep(t: Tree, start: set<nat>, rs: seq<Range>, n: nat)
    requires 0 < n <= |rs|
    ensures AddedAll(t, rs[..n]) == Added(AddedAll(t, rs[..n - 1]), rs[n - 1].base, rs[n - 1].size)
    ensures var before := Kept(start, PageSets(rs)[..n - 1]);
            Kept(start, PageSets(rs)[..n]) ==
            if rs[n - 1].Pages() !! before then before + rs[n - 1].Pages() else before
  {
    assert rs[..n][..n - 1] == rs[..n - 1];
    assert PageSets(rs)[..n][..n - 1] == PageSets(rs)[..n - 1];
  }

  /** Unless a range wraps around, the tree has what is kept of the ranges. */
  lemma {:induction false} AddedAllMeaning(t: Tree, rs: seq<Range>, n: nat)
    requires WellFormed(t) && n <= |rs| && AllWholePages(rs)
    requires forall i :: 0 <= i < n ==> !WrapsAround(Kept(PagesIn(t), PageSets(rs)[..i]), PageSets(rs)[i])
    ensures WellFormed(AddedAll(t, rs[..n])) && PagesIn(AddedAll(t, rs[..n])) == Kept(PagesIn(t), PageSets(rs)[..n])
  {
    if n > 0 {
      AddedAllMeaning(t, rs, n - 1);
      LastStep(t, PagesIn(t), rs, n);
      var before, r := AddedAll(t, rs[..n - 1]), rs[n - 1];
      AddedPages(before, r.base, r.size);
      AcceptsPagesIff(before, r.base, r.size);
    }
  }

  lemma {:induction false} RemovableMeansNoneWraps(t: Tree, rs: seq<Range>, n: nat)
    requires WellFormed(t) && n <= |rs| && AllWholePages(rs)
    requires forall i :: 0 <= i <= n ==> Removable(AddedAll(t, rs[..i]))
    ensures forall i :: 0 <= i < n ==> !WrapsAround(Kept(PagesIn(t), PageSets(rs)[..i]), PageSets(rs)[i])
  {
    hide Removable, WrapsAround, WellFormed, PagesIn, Added, AddedAll, Kept;
    if n > 0 {
      RemovableMeansNoneWraps(t, rs, n - 1);
      AddedAllMeaning(t, rs, n - 1);
      LastStep(t, PagesIn(t), rs, n);
      var before, r := AddedAll(t, rs[..n - 1]), rs[n - 1];
      assert PagesIn(before) == Kept(PagesIn(t), PageSets(rs)[..n - 1]) && r.Pages() == PageSets(rs)[n - 1];
      if WrapsAround(PagesIn(before), r.Pages()) {
        WrappedIsNotRemovable(before, r);
        assert false;
      }
      forall i | 0 <= i < n
        ensures !WrapsAround(Kept(PagesIn(t), PageSets(rs)[..i]), PageSets(rs)[i])
      {
        assert i == n - 1 || i < n - 1;
      }
    }
  }

  /** The tree has what is kept after all ranges. */
  lemma AddedSteps(t: Tree, rs: seq<Range>)
    requires WellFormed(t) && AllWholePages(rs) && NoneWraps(PagesIn(t), PageSets(rs))
    ensures WellFormed(AddedAll(t, rs)) && PagesIn(AddedAll(t, rs)) == Kept(PagesIn(t), PageSets(rs))
  {
    AddedAllMeaning(t, rs, |rs|);
    assert rs[..|rs|] == rs && PageSets(rs)[..|rs|] == PageSets(rs);
  }

  /**
   However many of the ranges have been added, each page can be removed again, if and only if no
   range wraps around.
   */
  lemma SeriesIsRemovableIff(t: Tree, rs: seq<Range>)
    requires WellFormed(t) && AllWholePages(rs)
    ensures (forall n :: 0 <= n <= |rs| ==> Removable(AddedAll(t, rs[..n]))) <==> NoneWraps(PagesIn(t), PageSets(rs))
  {
    hide Removable, WrapsAround, WellFormed, PagesIn, AddedAll;
    if NoneWraps(PagesIn(t), PageSets(rs)) {
      forall n | 0 <= n <= |rs|
        ensures Removable(AddedAll(t, rs[..n]))
      {
        AddedAllMeaning(t, rs, n);
        WellFormedIsRemovable(AddedAll(t, rs[..n]));
      }
    }
    if forall n :: 0 <= n <= |rs| ==> Removable(AddedAll(t, rs[..n])) {
      RemovableMeansNoneWraps(t, rs, |rs|);
    }
  }

  /**
   However many of the ranges have been added, the tree has exactly their pages and each can be
   removed again, if and only if no range overlaps the earlier ones in part or wraps around.
   */
  lemma SeriesIsExactIff(t: Tree, rs: seq<Range>)
    requires WellFormed(t) && AllWholePages(rs)
    ensures (forall n :: 0 <= n <= |rs| ==> Exact(AddedAll(t, rs[..n]), Union(PagesIn(t), PageSets(rs)[..n])))
            <==> NoPartialOverlap(PagesIn(t), PageSets(rs)) && NoneWraps(PagesIn(t), PageSets(rs))
  {
    hide Removable, WrapsAround, WellFormed, PagesIn, AddedAll, NoPartialOverlap;
    SeriesIsRemovableIff(t, rs);
    NothingLostIff(PagesIn(t), PageSets(rs));
    if NoneWraps(PagesIn(t), PageSets(rs)) {
      forall n | 0 <= n <= |rs|
        ensures PagesIn(AddedAll(t, rs[..n])) == Kept(PagesIn(t), PageSets(rs)[..n])
      {
        AddedAllMeaning(t, rs, n);
      }
    }
  }

  // ---- the allocator --------------------------------------------------------------------------

  class RangeAllocator {
    var tree: Tree

    ghost predicate Valid()
      reads this
    {
      WellFormed(tree)
    }

    ghost function Pages(): set<nat>
      reads this
    {
      PagesIn(tree)
    }

    constructor ()
      ensures tree == Leaf && Valid() && Pages() == {}
    {
      tree := Leaf;
    }

    /** Add a range, unless it is empty or conflicts with pages that are present. */
    method AddRange(base: Word, size: Word) returns (ok: bool)
      modifies this
      ensures ok == Accepts(old(tree), base, size) && tree == Added(old(tree), base, size)
      ensures old(Valid()) && WholePages(base, size) ==>
                && (ok <==> size > 0 && PagesOf(base, size) !! old(Pages()))
                && (!WrapsAround(old(Pages()), PagesOf(base, size)) ==>
                      Valid() && Pages() == if ok then old(Pages()) + PagesOf(base, size) else old(Pages()))
    {
      ghost var t := tree;
      if Valid() && WholePages(base, size) {
        AcceptsPagesIff(tree, base, size);
        if !WrapsAround(Pages(), PagesOf(base, size)) {
          AddedPages(tree, base, size);
        }
      }
      hide PagesIn, Aligned, Insert, Remove;
      if size == 0 || tree.Find(base, Minus(Plus(base, size), 1), true).Some? {
        return false;
      }
      var addr, merged := base, size;
      var before := Predecessor(tree, base);
      if before.Some? {
        tree := Remove(tree, before.value);
        addr := before.value.addr;
        merged := Plus(merged, before.value.size);
      }
      var next := Plus(addr, merged);
      var behind := tree.Find(next, next, false);
      if behind.Some? {
        tree := Remove(tree, behind.value);
        merged := Plus(merged, behind.value.size);
      }
      tree := Insert(tree, Block(addr, merged));
      return true;
    }

    /** Remove whatever the allocator has of a range, block by block. */
    method RemoveRange(base: Word, size: Word)
      requires base + size <= TWO_64
      modifies this
      ensures tree == Removed(old(tree), base, size)
      ensures old(Valid()) && WholePages(base, size) ==>
                Valid() && Pages() == old(Pages()) - PagesOf(base, size)
    {
      if Valid() && WholePages(base, size) {
        RemovedPages(tree, base, size);
      }
      hide PagesIn, Aligned, Cut;
      if size == 0 {
        return;
      }
      var last := Minus(Plus(base, size), 1);
      var done := false;
      while !done
        invariant Removed(tree, base, size) == Removed(old(tree), base, size)
        invariant done ==> Round(tree, base, size).None?
        decreases tree.Total() + if done then 0 else 1
      {
        var b := tree.Find(base, last, true);
        if b.None? || b.value.size == 0 {
          done := true;
        } else {
          RoundShrinks(tree, base, size);
          var (addr, common) := Common(b.value, base, last);
          tree := Cut(tree, b.value, addr, common);
        }
      }
    }
  }
}
