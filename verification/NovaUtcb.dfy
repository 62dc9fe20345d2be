/**
 Messages in the user-level thread-control block (UTCB) of NOVA on 64-bit platforms:
 message words grow upwards behind the header, typed items grow downwards from the end.
 */
module NovaUtcb {
  import opened MachineWords
  import opened Wrappers

  type mword = bv64

  // ---- capability-range descriptors ------------------------------------------------------

  /** Replace the bitfield of `mask` at `shift` by the low bits of `bits`. */
  function Assign(value: mword, mask: mword, shift: bv6, bits: mword): mword {
    (value & !(mask << shift)) | ((bits & mask) << shift)
  }

  function Query(value: mword, mask: mword, shift: bv6): mword {
    (value >> shift) & mask
  }

  const TYPE_MASK: mword := 0x3
  const RIGHTS_MASK: mword := 0x1f
  const ORDER_MASK: mword := 0x1f
  const BASE_MASK: mword := 0xf_ffff_ffff_ffff
  const TYPE_SHIFT: bv6 := 0
  const RIGHTS_SHIFT: bv6 := 2
  const ORDER_SHIFT: bv6 := 7
  const BASE_SHIFT: bv6 := 12

  const NULL_CRD_TYPE: mword := 0
  const MEM_CRD_TYPE: mword := 1
  const IO_CRD_TYPE: mword := 2
  const OBJ_CRD_TYPE: mword := 3
  const RIGHTS_ALL: mword := 0x1f
  const PAGE_MASK: mword := 0xffff_ffff_ffff_f000

  datatype Crd = Crd(value: mword) {
    function Base(): mword { Query(value, BASE_MASK, BASE_SHIFT) }
    function Order(): mword { Query(value, ORDER_MASK, ORDER_SHIFT) }
    function Rights(): mword { Query(value, RIGHTS_MASK, RIGHTS_SHIFT) }
    function Type(): mword { Query(value, TYPE_MASK, TYPE_SHIFT) }
    predicate IsNull() { value & TYPE_MASK == NULL_CRD_TYPE }

    function Hotspot(selHotspot: mword): mword {
      if value & TYPE_MASK == MEM_CRD_TYPE then selHotspot & PAGE_MASK else selHotspot << 12
    }
  }

  function BaseAndOrder(base: mword, order: mword): mword {
    Assign(Assign(0, BASE_MASK, BASE_SHIFT, base), ORDER_MASK, ORDER_SHIFT, order)
  }

  function Bit(b: bool): mword { if b then 1 else 0 }

  function MemCrd(base: mword, order: mword, readable: bool, writeable: bool, executable: bool): Crd {
    var x := Assign(BaseAndOrder(base, order), 1, 4, Bit(executable));
    var w := Assign(x, 1, 3, Bit(writeable));
    var r := Assign(w, 1, 2, Bit(readable));
    Crd(Assign(r, TYPE_MASK, TYPE_SHIFT, MEM_CRD_TYPE))
  }

  function IoCrd(base: mword, order: mword): Crd {
    Crd(Assign(Assign(BaseAndOrder(base, order), TYPE_MASK, TYPE_SHIFT, IO_CRD_TYPE),
               RIGHTS_MASK, RIGHTS_SHIFT, RIGHTS_ALL))
  }

  function ObjCrd(base: mword, order: mword, rights: mword): Crd {
    Crd(Assign(Assign(BaseAndOrder(base, order), TYPE_MASK, TYPE_SHIFT, OBJ_CRD_TYPE),
               RIGHTS_MASK, RIGHTS_SHIFT, rights))
  }

  /** From the lowest bit: two bits of type, five of rights, five of order, and the base. */
  lemma DescriptorLayout(c: Crd, selHotspot: mword)
    ensures c.Type() == c.value & 3 && c.Rights() == (c.value >> 2) & 0x1f
    ensures c.Order() == (c.value >> 7) & 0x1f && c.Base() == c.value >> 12
    ensures c.IsNull() <==> c.Type() == 0
    ensures c.Type() == 1 ==> c.Hotspot(selHotspot) == (selHotspot >> 12) << 12
    ensures c.Type() != 1 ==> c.Hotspot(selHotspot) == selHotspot << 12
  {
  }

  /** Every field is read back as it was packed, up to the width of the field. */
  lemma ObjCrdFields(base: mword, order: mword, rights: mword)
    ensures var c := ObjCrd(base, order, rights);
            && c.Base() == base & BASE_MASK && c.Order() == order & ORDER_MASK
            && c.Rights() == rights & RIGHTS_MASK && c.Type() == OBJ_CRD_TYPE && !c.IsNull()
  {
  }

  lemma IoCrdFields(base: mword, order: mword)
    ensures var c := IoCrd(base, order);
            && c.Base() == base & BASE_MASK && c.Order() == order & ORDER_MASK
            && c.Rights() == RIGHTS_ALL && c.Type() == IO_CRD_TYPE && !c.IsNull()
  {
  }

  lemma MemCrdFields(base: mword, order: mword, r: bool, w: bool, x: bool)
    ensures var c := MemCrd(base, order, r, w, x);
            && c.Base() == base & BASE_MASK && c.Order() == order & ORDER_MASK
            && c.Rights() == Bit(r) | (Bit(w) << 1) | (Bit(x) << 2)
            && c.Type() == MEM_CRD_TYPE && !c.IsNull()
  {
  }

  // ---- typed items -------------------------------------------------------------------------

  datatype Item = Item(crd: mword, hotspot: mword) {
    predicate IsDel() { hotspot & 1 == 1 }
  }

  /** The optional arguments of `append_item`. */
  datatype Flags = Flags(kernPd: bool, updateGuestPt: bool, translateMap: bool, dmaMem: bool, writeCombined: bool)

  /** One bit for each option, and two for the kind of delegation. */
  function FlagBits(f: Flags): mword {
    var h: mword := if f.kernPd then 1 << 11 else 0;
    var wc: mword := if f.writeCombined then 1 << 10 else 0;
    var g: mword := if f.updateGuestPt then 1 << 9 else 0;
    var d: mword := if f.dmaMem then 1 << 8 else 0;
    var m: mword := if f.translateMap then 2 else 1;
    g | h | wc | d | m
  }

  function MakeItem(crd: Crd, selHotspot: mword, f: Flags): Item {
    Item(crd.value, crd.Hotspot(selHotspot) | FlagBits(f))
  }

  lemma FlagsAreSeparate(f: Flags)
    ensures var b := FlagBits(f);
            && b >> 12 == 0 && (b & 1 == 1) == !f.translateMap && (b & 2 == 2) == f.translateMap
            && (b & 0x800 != 0) == f.kernPd && (b & 0x400 != 0) == f.writeCombined
            && (b & 0x200 != 0) == f.updateGuestPt && (b & 0x100 != 0) == f.dmaMem
  {
  }

  lemma PageMaskBits(s: mword)
    ensures s & PAGE_MASK & 0xfff == 0 && (s & PAGE_MASK) >> 12 == s >> 12
  {
  }

  lemma ShiftedBits(s: mword)
    ensures (s << 12) & 0xfff == 0 && (s << 12) >> 12 == s & BASE_MASK
  {
  }

  lemma SeparateBits(s: mword, b: mword)
    requires s & 0xfff == 0 && b >> 12 == 0
    ensures (s | b) >> 12 == s >> 12 && (s | b) & 0xfff == b
    ensures (s | b) & 1 == b & 1 && (s | b) & 0x800 == b & 0x800 && (s | b) & 0x400 == b & 0x400
    ensures (s | b) & 0x200 == b & 0x200 && (s | b) & 0x100 == b & 0x100
  {
  }

  /** A memory item reveals descriptor, page of the hotspot and flags; it delegates unless it translates. */
  lemma MemItemFields(crd: Crd, selHotspot: mword, f: Flags)
    requires crd.value & TYPE_MASK == MEM_CRD_TYPE
    ensures var i := MakeItem(crd, selHotspot, f);
            && i.crd == crd.value && i.hotspot >> 12 == selHotspot >> 12
            && i.hotspot & 0xfff == FlagBits(f) && i.IsDel() == !f.translateMap
  {
    FlagsAreSeparate(f);
    PageMaskBits(selHotspot);
    SeparateBits(selHotspot & PAGE_MASK, FlagBits(f));
  }

  /** Any other item does so, too, with the low 52 bits of the selector hotspot. */
  lemma SelectorItemFields(crd: Crd, selHotspot: mword, f: Flags)
    requires crd.value & TYPE_MASK != MEM_CRD_TYPE
    ensures var i := MakeItem(crd, selHotspot, f);
            && i.crd == crd.value && i.hotspot >> 12 == selHotspot & BASE_MASK
            && i.hotspot & 0xfff == FlagBits(f) && i.IsDel() == !f.translateMap
  {
    FlagsAreSeparate(f);
    ShiftedBits(selHotspot);
    SeparateBits(selHotspot << 12, FlagBits(f));
  }

  // ---- the message buffer --------------------------------------------------------------------

  /** Positions within the UTCB, in machine words. */
  const UTCB_WORDS: nat := 512
  const HEADER_WORDS: nat := 4

  /** Typed items the UTCB can hold at all. */
  const ITEM_SLOTS: nat := 256

  /** The content of a message: the number of untyped words and the typed items. */
  datatype Message = Message(words: nat, items: seq<Item>)

  /** `count` items end above `words` message words; one word always stays unused. */
  predicate Fits(words: nat, count: nat) {
    HEADER_WORDS + words < UTCB_WORDS - 2 * count
  }

  function Append(m: Message, item: Item): Message {
    if Fits(m.words, |m.items| + 1) then m.(items := m.items + [item]) else m
  }

  function AppendAll(m: Message, items: seq<Item>): Message
    decreases |items|
  {
    if items == [] then m else AppendAll(Append(m, items[0]), items[1..])
  }

  function Capacity(words: nat): nat {
    if words <= 506 then (507 - words) / 2 else 0
  }

  lemma CapacityMeaning(words: nat, count: nat)
    requires count > 0
    ensures Fits(words, count) <==> count <= Capacity(words)
  {
  }

  /** Any run of appends stores the leading items that fit, in order, and ignores the rest. */
  lemma {:induction false} RunOfAppends(m: Message, items: seq<Item>)
    requires |m.items| <= Capacity(m.words)
    ensures var room := Capacity(m.words) - |m.items|;
            AppendAll(m, items) == m.(items := m.items + items[..if |items| < room then |items| else room])
    decreases |items|
  {
    if items != [] {
      var m' := Append(m, items[0]);
      CapacityMeaning(m.words, |m.items| + 1);
      RunOfAppends(m', items[1..]);
      var room := Capacity(m'.words) - |m'.items|;
      var n := if |items[1..]| < room then |items[1..]| else room;
      if m' != m {
        assert m'.items + items[1..][..n] == m.items + items[..n + 1];
      } else {
        assert m.items + items[1..][..0] == m.items + items[..0];
      }
    } else {
      assert m.items + [] == m.items;
    }
  }

  /** Both counters in `items` while one more item is counted, and while that is taken back. */
  lemma CountOneMore(items: nat, n: nat, w: nat)
    requires w < TWO_16 && n < ITEM_SLOTS && items == n * TWO_16 + w
    ensures var more := (items + TWO_16) % TWO_64;
            && more == (n + 1) * TWO_16 + w && (more - TWO_16) % TWO_64 == items
            && more % TWO_16 == w && more / TWO_16 % TWO_32 == n + 1
  {
  }

  class Utcb {
    var items: nat
    var crdRcv: Crd
    const mem: array<mword>

    /** The content of the message, as far as it was put together by the methods below. */
    ghost var content: Message

    ghost predicate Valid()
      reads this, mem
    {
      && mem.Length == UTCB_WORDS
      && content.words < TWO_16 && items == |content.items| * TWO_16 + content.words
      && (content.items != [] ==> Fits(content.words, |content.items|))
      && forall j :: 0 <= j < |content.items| ==> content.items[j] == ItemAt(j)
    }

    /** The item slot at position `j`, counted from the end of the UTCB. */
    function ItemAt(j: nat): Item
      requires mem.Length == UTCB_WORDS && j < ITEM_SLOTS
      reads mem
    {
      Item(mem[2 * (ITEM_SLOTS - j - 1)], mem[2 * (ITEM_SLOTS - j - 1) + 1])
    }

    constructor ()
      ensures Valid() && content == Message(0, []) && fresh(mem) && crdRcv == Crd(0)
    {
      items, crdRcv, content := 0, Crd(0), Message(0, []);
      mem := new mword[UTCB_WORDS](_ => 0);
    }

    function MsgWords(): nat
      reads this
    {
      items % TWO_16
    }

    function MsgItems(): nat
      reads this
    {
      items / TWO_16 % TWO_32
    }

    /** The counters report the content. */
    lemma CountersMeaning()
      requires Valid()
      ensures MsgWords() == content.words && MsgItems() == |content.items|
    {
    }

    /** Set the number of untyped words, and drop all items. The count is meant to fit 16 bits. */
    method SetMsgWord(num: nat)
      requires num < TWO_32 && mem.Length == UTCB_WORDS
      modifies this
      ensures items == num && crdRcv == old(crdRcv)
      ensures num < TWO_16 ==> Valid() && content == Message(num, [])
      ensures MsgItems() == 0 <==> num < TWO_16
    {
      items := num;
      content := Message(num, []);
    }

    method WriteMsgWord(i: nat, value: mword)
      requires Valid() && i < content.words && HEADER_WORDS + i < UTCB_WORDS
      modifies mem
      ensures Valid() && mem[..] == old(mem[..])[HEADER_WORDS + i := value]
    {
      mem[HEADER_WORDS + i] := value;
      assert forall j :: 0 <= j < |content.items| ==> ItemAt(j) == old(ItemAt(j));
    }

    /** The part of `append_item` that is independent of how the item is packed. */
    method StoreItem(entry: Item) returns (ok: bool)
      requires Valid()
      modifies this, mem
      ensures Valid() && crdRcv == old(crdRcv)
      ensures content == Append(old(content), entry)
      ensures ok <==> Fits(content.words, |old(content).items| + 1)
      ensures !ok ==> items == old(items) && mem[..] == old(mem[..])
      ensures ok ==> HEADER_WORDS + content.words < UTCB_WORDS
      ensures ok ==> mem[..HEADER_WORDS + content.words] == old(mem[..HEADER_WORDS + content.words])
    {
      ghost var n, w := |content.items|, content.words;
      CountOneMore(items, n, w);
      items := (items + TWO_16) % TWO_64;
      var item: int := 2 * (ITEM_SLOTS - MsgItems());

      if HEADER_WORDS + MsgWords() >= item {
        items := (items - TWO_16) % TWO_64;
        return false;
      }
      PutItem(n, item, entry);
      content := content.(items := content.items + [entry]);
      return true;
    }

    method PutItem(ghost n: nat, item: nat, entry: Item)
      requires mem.Length == UTCB_WORDS && n < ITEM_SLOTS && item == 2 * (ITEM_SLOTS - n - 1)
      modifies mem
      ensures ItemAt(n) == entry && forall j :: 0 <= j < ITEM_SLOTS && j != n ==> ItemAt(j) == old(ItemAt(j))
      ensures mem[..item] == old(mem[..item])
    {
      mem[item + 1] := entry.hotspot;
      mem[item] := entry.crd;
    }

    /** Append an item; what precedes it in the UTCB, the header and the words, stays as it is. */
    method AppendItem(crd: Crd, selHotspot: mword, f: Flags) returns (ok: bool)
      requires Valid()
      modifies this, mem
      ensures Valid() && crdRcv == old(crdRcv)
      ensures content == Append(old(content), MakeItem(crd, selHotspot, f))
      ensures content.words == old(content.words)
      ensures ok <==> 4 + content.words < 512 - 2 * (|old(content).items| + 1)
      ensures !ok ==> items == old(items) && mem[..] == old(mem[..])
      ensures ok ==> mem[..4 + content.words] == old(mem[..4 + content.words])
      ensures ok ==> var last := 512 - 2 * (|old(content).items| + 1);
                     && items == old(items) + 0x1_0000 && mem[last] == crd.value
                     && mem[last + 1] == crd.Hotspot(selHotspot) | FlagBits(f)
    {
      ghost var n := |content.items|;
      ok := StoreItem(MakeItem(crd, selHotspot, f));
      if ok {
        assert content.items[n] == ItemAt(n);
      }
    }

    /** The typed item at position `i`, if that position lies behind the header. */
    function GetItem(i: nat): (r: Option<Item>)
      requires mem.Length == UTCB_WORDS
      reads this, mem
    {
      if i > ITEM_SLOTS then None
      else
        var item := 2 * (ITEM_SLOTS - i - 1);
        if item < HEADER_WORDS then None else Some(Item(mem[item], mem[item + 1]))
    }

    /** `GetItem` returns the items in the order in which they were appended. */
    lemma GetItemIsAppended(i: nat)
      requires Valid() && i < |content.items|
      ensures GetItem(i) == Some(content.items[i])
    {
      assert content.items[i] == ItemAt(i);
    }

    /** It returns nothing exactly for positions that would reach into the header. */
    lemma GetItemRange(i: nat)
      requires mem.Length == UTCB_WORDS
      ensures GetItem(i).Some? <==> i <= 253
    {
    }
  }
}
