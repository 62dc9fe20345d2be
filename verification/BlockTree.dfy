/**
 The self-balancing tree in which a range allocator keeps its blocks, ordered by their
 addresses, with the allocator's lookup in it.
 */
module BlockTree {
  import opened MachineWords
  import opened Wrappers

  type Word = x: nat | x < TWO_64

  /** Addition and subtraction of 64-bit words. */
  function Plus(a: Word, b: Word): Word {
    if a + b < TWO_64 then a + b else a + b - TWO_64
  }

  function Minus(a: Word, b: Word): Word {
    if b <= a then a - b else a - b + TWO_64
  }

  /** A block of memory, whose size may take it across the end of the address space. */
  datatype Block = Block(addr: Word, size: Word) {

    function Last(): Word { Minus(Plus(addr, size), 1) }

    predicate Overlaps(first: Word, last: Word) { last >= addr && Last() >= first }

    /** The two tests of the lookup for the bytes from `first` to `last`. */
    predicate Hit(first: Word, last: Word, overlap: bool) {
      (overlap && Overlaps(first, last)) || (first >= addr && last <= Last())
    }

    /** The block is not empty and does not cross the end of the address space. */
    predicate Proper() { 0 < size && addr + size <= TWO_64 }

    predicate Has(x: Word) {
      if Proper() then addr <= x < addr + size else addr <= x || x + TWO_64 < addr + size
    }
  }

  /** There is a gap between the blocks. */
  predicate Apart(b: Block, c: Block) {
    b.addr + b.size < c.addr || c.addr + c.size < b.addr
  }

  datatype Tree = Leaf | Node(left: Tree, block: Block, right: Tree) {

    function Depth(): nat {
      if Leaf? then 0 else 1 + if left.Depth() < right.Depth() then right.Depth() else left.Depth()
    }

    function Blocks(): set<Block> {
      if Leaf? then {} else left.Blocks() + {block} + right.Blocks()
    }

    /** The number of bytes in all blocks. */
    function Total(): nat {
      if Leaf? then 0 else left.Total() + block.size + right.Total()
    }

    /** Proper blocks between the bounds, with gaps in between, that are ordered as in a search tree. */
    predicate Within(lo: int, hi: int) {
      Node? ==>
        && block.Proper() && lo <= block.addr && block.addr + block.size <= hi
        && left.Within(lo, block.addr - 1) && right.Within(block.addr + block.size + 1, hi)
    }

    /** The lookup of a block on the way from the root to a leaf. */
    function Find(first: Word, last: Word, overlap: bool): (r: Option<Block>)
      ensures r.Some? ==> r.value in Blocks() && r.value.Hit(first, last, overlap)
    {
      if Leaf? then None
      else if block.Hit(first, last, overlap) then Some(block)
      else if first >= block.addr then right.Find(first, last, overlap)
      else left.Find(first, last, overlap)
    }

    ghost predicate Free(x: Word) {
      exists b :: b in Blocks() && b.Has(x)
    }
  }

  // ---- balancing ----------------------------------------------------------------------------

  function RotateLeft(t: Tree): Tree
    requires t.Node? && t.right.Node?
  {
    var r := t.right;
    if r.right.Depth() > r.left.Depth() then Node(Node(t.left, t.block, r.left), r.block, r.right)
    else if r.left.Leaf? then t
    else Node(Node(t.left, t.block, r.left.left), r.left.block, Node(r.left.right, r.block, r.right))
  }

  function RotateRight(t: Tree): Tree
    requires t.Node? && t.left.Node?
  {
    var l := t.left;
    if l.right.Depth() <= l.left.Depth() then Node(l.left, l.block, Node(l.right, t.block, t.right))
    else Node(Node(l.left, l.block, l.right.left), l.right.block, Node(l.right.right, t.block, t.right))
  }

  function Rebalanced(t: Tree): Tree
    requires t.Node?
  {
    if t.left.Depth() + 1 < t.right.Depth() then RotateLeft(t)
    else if t.right.Depth() + 1 < t.left.Depth() then RotateRight(t)
    else t
  }

  function Join(left: Tree, block: Block, right: Tree): Tree {
    Rebalanced(Node(left, block, right))
  }

  function Insert(t: Tree, b: Block): Tree {
    if t.Leaf? then Node(Leaf, b, Leaf)
    else if b.addr >= t.block.addr then Join(t.left, t.block, Insert(t.right, b))
    else Join(Insert(t.left, b), t.block, t.right)
  }

  /** Take the block with the highest address out of a tree. */
  function TakeLast(t: Tree): (Tree, Block)
    requires t.Node?
  {
    if t.right.Leaf? then (t.left, t.block)
    else
      var (rest, last) := TakeLast(t.right);
      (Join(t.left, t.block, rest), last)
  }

  /** Rebalance after a removal, which happens only if the block that fills the gap came from further below. */
  function Settled(left: Tree, block: Block, right: Tree, deep: bool): (Tree, bool) {
    (if deep then Join(left, block, right) else Node(left, block, right), deep)
  }

  function Extract(t: Tree, b: Block): (Tree, bool)
    requires b in t.Blocks()
  {
    if t.block == b && t.left.Leaf? then (t.right, false)
    else if t.block == b then
      var (rest, last) := TakeLast(t.left);
      Settled(rest, last, t.right, t.left.right.Node?)
    else if b in t.left.Blocks() then
      var (left, deep) := Extract(t.left, b);
      Settled(left, t.block, t.right, deep)
    else
      var (right, deep) := Extract(t.right, b);
      Settled(t.left, t.block, right, deep)
  }

  function Remove(t: Tree, b: Block): Tree
    requires b in t.Blocks()
  {
    Extract(t, b).0
  }

  /** Turning an edge of the tree changes neither its blocks nor their order. */
  lemma TurnKeeps(a: Tree, x: Block, b: Tree, y: Block, c: Tree, lo: int, hi: int)
    ensures var s, t := Node(Node(a, x, b), y, c), Node(a, x, Node(b, y, c));
            s.Blocks() == t.Blocks() && s.Total() == t.Total() && (s.Within(lo, hi) <==> t.Within(lo, hi))
  {
    var s, t := Node(Node(a, x, b), y, c), Node(a, x, Node(b, y, c));
    assert s.left == Node(a, x, b) && t.right == Node(b, y, c);
    assert s.Blocks() == a.Blocks() + {x} + b.Blocks() + {y} + c.Blocks();
    assert t.Blocks() == a.Blocks() + {x} + b.Blocks() + {y} + c.Blocks();
  }

  lemma RebalancedKeeps(t: Tree, lo: int, hi: int)
    requires t.Node?
    ensures Rebalanced(t).Blocks() == t.Blocks() && Rebalanced(t).Total() == t.Total()
    ensures t.Within(lo, hi) ==> Rebalanced(t).Within(lo, hi)
  {
    if t.left.Depth() + 1 < t.right.Depth() {
      RotateLeftKeeps(t, lo, hi);
    } else if t.right.Depth() + 1 < t.left.Depth() {
      RotateRightKeeps(t, lo, hi);
    }
  }

  lemma RotateLeftKeeps(t: Tree, lo: int, hi: int)
    requires t.Node? && t.right.Node?
    ensures RotateLeft(t).Blocks() == t.Blocks() && RotateLeft(t).Total() == t.Total()
    ensures t.Within(lo, hi) ==> RotateLeft(t).Within(lo, hi)
  {
    var r := t.right;
    if r.right.Depth() > r.left.Depth() {
      TurnKeeps(t.left, t.block, r.left, r.block, r.right, lo, hi);
    } else if r.left.Node? {
      var m := r.left;
      TurnKeeps(m.left, m.block, m.right, r.block, r.right, t.block.addr + t.block.size + 1, hi);
      TurnKeeps(t.left, t.block, m.left, m.block, Node(m.right, r.block, r.right), lo, hi);
    }
  }

  lemma RotateRightKeeps(t: Tree, lo: int, hi: int)
    requires t.Node? && t.left.Node?
    ensures RotateRight(t).Blocks() == t.Blocks() && RotateRight(t).Total() == t.Total()
    ensures t.Within(lo, hi) ==> RotateRight(t).Within(lo, hi)
  {
    var l := t.left;
    if l.right.Depth() <= l.left.Depth() {
      TurnKeeps(l.left, l.block, l.right, t.block, t.right, lo, hi);
    } else {
      var m := l.right;
      TurnKeeps(l.left, l.block, m.left, m.block, m.right, lo, t.block.addr - 1);
      TurnKeeps(Node(l.left, l.block, m.left), m.block, m.right, t.block, t.right, lo, hi);
    }
  }

  lemma JoinKeeps(left: Tree, block: Block, right: Tree)
    ensures Join(left, block, right).Blocks() == left.Blocks() + {block} + right.Blocks()
    ensures Join(left, block, right).Total() == left.Total() + block.size + right.Total()
  {
    RebalancedKeeps(Node(left, block, right), 0, 0);
  }

  lemma JoinWithin(left: Tree, block: Block, right: Tree, lo: int, hi: int)
    requires block.Proper() && lo <= block.addr && block.addr + block.size <= hi
    requires left.Within(lo, block.addr - 1) && right.Within(block.addr + block.size + 1, hi)
    ensures Join(left, block, right).Within(lo, hi)
    ensures forall deep :: Settled(left, block, right, deep).0.Within(lo, hi)
  {
    RebalancedKeeps(Node(left, block, right), lo, hi);
  }

  lemma {:induction false} InsertMeaning(t: Tree, b: Block)
    ensures Insert(t, b).Blocks() == t.Blocks() + {b} && Insert(t, b).Total() == t.Total() + b.size
  {
    if t.Node? {
      if b.addr >= t.block.addr {
        InsertMeaning(t.right, b);
        JoinKeeps(t.left, t.block, Insert(t.right, b));
      } else {
        InsertMeaning(t.left, b);
        JoinKeeps(Insert(t.left, b), t.block, t.right);
      }
    }
  }

  lemma {:induction false} InsertWithin(t: Tree, b: Block, lo: int, hi: int)
    requires t.Within(lo, hi) && b.Proper() && lo <= b.addr && b.addr + b.size <= hi
    requires forall c :: c in t.Blocks() ==> Apart(b, c)
    ensures Insert(t, b).Within(lo, hi)
  {
    if t.Node? {
      assert Apart(b, t.block);
      if b.addr >= t.block.addr {
        InsertWithin(t.right, b, t.block.addr + t.block.size + 1, hi);
        JoinWithin(t.left, t.block, Insert(t.right, b), lo, hi);
      } else {
        InsertWithin(t.left, b, lo, t.block.addr - 1);
        JoinWithin(Insert(t.left, b), t.block, t.right, lo, hi);
      }
    }
  }

  lemma {:induction false} WithinMeaning(t: Tree, lo: int, hi: int, b: Block)
    requires t.Within(lo, hi) && b in t.Blocks()
    ensures b.Proper() && lo <= b.addr && b.addr + b.size <= hi
  {
    if b in t.left.Blocks() {
      WithinMeaning(t.left, lo, t.block.addr - 1, b);
    } else if b in t.right.Blocks() {
      WithinMeaning(t.right, t.block.addr + t.block.size + 1, hi, b);
    }
  }

  lemma {:induction false} BlocksAreApart(t: Tree, lo: int, hi: int, b: Block, c: Block)
    requires t.Within(lo, hi) && b in t.Blocks() && c in t.Blocks() && b != c
    ensures Apart(b, c)
  {
    Sides(t, lo, hi, b);
    Sides(t, lo, hi, c);
    if b in t.left.Blocks() && c in t.left.Blocks() {
      BlocksAreApart(t.left, lo, t.block.addr - 1, b, c);
    } else if b in t.right.Blocks() && c in t.right.Blocks() {
      BlocksAreApart(t.right, t.block.addr + t.block.size + 1, hi, b, c);
    }
  }

  /** Where a block is, compared to the one at the root. */
  lemma Sides(t: Tree, lo: int, hi: int, b: Block)
    requires t.Within(lo, hi) && b in t.Blocks()
    ensures b in t.left.Blocks() ==> b.addr + b.size < t.block.addr
    ensures b in t.right.Blocks() ==> t.block.addr + t.block.size < b.addr
  {
    if b in t.left.Blocks() {
      WithinMeaning(t.left, lo, t.block.addr - 1, b);
    }
    if b in t.right.Blocks() {
      WithinMeaning(t.right, t.block.addr + t.block.size + 1, hi, b);
    }
  }

  lemma {:induction false} TakeLastMeaning(t: Tree)
    requires t.Node?
    ensures var (rest, last) := TakeLast(t);
            rest.Blocks() + {last} == t.Blocks() && rest.Total() + last.size == t.Total()
  {
    if t.right.Node? {
      TakeLastMeaning(t.right);
      JoinKeeps(t.left, t.block, TakeLast(t.right).0);
    }
  }

  lemma {:induction false} TakeLastWithin(t: Tree, lo: int, hi: int)
    requires t.Node? && t.Within(lo, hi)
    ensures var (rest, last) := TakeLast(t);
            rest.Within(lo, last.addr - 1) && last.Proper() && lo <= last.addr && last.addr + last.size <= hi
  {
    if t.right.Node? {
      var (rest, last) := TakeLast(t.right);
      TakeLastWithin(t.right, t.block.addr + t.block.size + 1, hi);
      JoinWithin(t.left, t.block, rest, lo, last.addr - 1);
    }
  }

  lemma {:induction false} RemoveMeaning(t: Tree, b: Block)
    requires b in t.Blocks()
    ensures Remove(t, b).Blocks() + {b} == t.Blocks() && Remove(t, b).Total() + b.size == t.Total()
  {
    if t.block == b {
      if t.left.Node? {
        TakeLastMeaning(t.left);
        JoinKeeps(TakeLast(t.left).0, TakeLast(t.left).1, t.right);
      }
    } else if b in t.left.Blocks() {
      RemoveMeaning(t.left, b);
      JoinKeeps(Remove(t.left, b), t.block, t.right);
    } else {
      RemoveMeaning(t.right, b);
      JoinKeeps(t.left, t.block, Remove(t.right, b));
    }
  }

  lemma RemoveRootWithin(t: Tree, lo: int, hi: int)
    requires t.Node? && t.Within(lo, hi)
    ensures Remove(t, t.block).Within(lo, hi)
  {
    if t.left.Node? {
      TakeLastWithin(t.left, lo, t.block.addr - 1);
      var (rest, last) := TakeLast(t.left);
      Wider(t.right, t.block.addr + t.block.size + 1, hi, last.addr + last.size + 1, hi);
      JoinWithin(rest, last, t.right, lo, hi);
    } else {
      Wider(t.right, t.block.addr + t.block.size + 1, hi, lo, hi);
    }
  }

  lemma {:induction false} RemoveWithin(t: Tree, lo: int, hi: int, b: Block)
    requires t.Within(lo, hi) && b in t.Blocks()
    ensures Remove(t, b).Within(lo, hi)
  {
    if t.block == b {
      RemoveRootWithin(t, lo, hi);
    } else if b in t.left.Blocks() {
      var (left, deep) := Extract(t.left, b);
      RemoveWithin(t.left, lo, t.block.addr - 1, b);
      JoinWithin(left, t.block, t.right, lo, hi);
      assert Extract(t, b) == Settled(left, t.block, t.right, deep);
    } else {
      var (right, deep) := Extract(t.right, b);
      RemoveWithin(t.right, t.block.addr + t.block.size + 1, hi, b);
      JoinWithin(t.left, t.block, right, lo, hi);
      assert Extract(t, b) == Settled(t.left, t.block, right, deep);
    }
  }

  lemma {:induction false} Wider(t: Tree, lo: int, hi: int, lo': int, hi': int)
    requires t.Within(lo, hi) && lo' <= lo && hi <= hi'
    ensures t.Within(lo', hi')
  {
    if t.Node? {
      Wider(t.left, lo, t.block.addr - 1, lo', t.block.addr - 1);
      Wider(t.right, t.block.addr + t.block.size + 1, hi, t.block.addr + t.block.size + 1, hi');
    }
  }

  /** A block occurs once in a tree, and removing it leaves all others. */
  lemma {:induction false} RemoveIsExact(t: Tree, lo: int, hi: int, b: Block)
    requires t.Within(lo, hi) && b in t.Blocks()
    ensures Remove(t, b).Within(lo, hi) && Remove(t, b).Blocks() == t.Blocks() - {b}
  {
    RemoveWithin(t, lo, hi, b);
    RemoveMeaning(t, b);
    RemovedIsGone(t, lo, hi, b);
  }

  lemma {:induction false} RemovedIsGone(t: Tree, lo: int, hi: int, b: Block)
    requires t.Within(lo, hi) && b in t.Blocks()
    ensures b !in Remove(t, b).Blocks()
  {
    Sides(t, lo, hi, b);
    WithinMeaning(t, lo, hi, b);
    if t.block == b {
      if t.left.Node? {
        TakeLastMeaning(t.left);
        JoinKeeps(TakeLast(t.left).0, TakeLast(t.left).1, t.right);
      }
    } else if b in t.left.Blocks() {
      RemovedIsGone(t.left, lo, t.block.addr - 1, b);
      JoinKeeps(Remove(t.left, b), t.block, t.right);
    } else {
      RemovedIsGone(t.right, t.block.addr + t.block.size + 1, hi, b);
      JoinKeeps(t.left, t.block, Remove(t.right, b));
    }
  }

  // ---- lookups --------------------------------------------------------------------------------

  /** In an ordered tree of proper blocks, the lookup misses no block that overlaps. */
  lemma {:induction false} FindIsComplete(t: Tree, lo: int, hi: int, first: Word, last: Word, overlap: bool, b: Block)
    requires t.Within(lo, hi) && first <= last && (overlap || first == last)
    requires b in t.Blocks() && b.Overlaps(first, last)
    ensures t.Find(first, last, overlap).Some?
  {
    Sides(t, lo, hi, b);
    WithinMeaning(t, lo, hi, b);
    if b in t.left.Blocks() {
      FindIsComplete(t.left, lo, t.block.addr - 1, first, last, overlap, b);
    } else if b in t.right.Blocks() {
      FindIsComplete(t.right, t.block.addr + t.block.size + 1, hi, first, last, overlap, b);
    }
  }
}
