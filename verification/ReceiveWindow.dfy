/**
 The bookkeeping of received capability selectors on NOVA: after an IPC, each slot of the
 receive window is classified, and the leading items of the message are recorded in order.
 */
module ReceiveWindow {
  import opened Alignment
  import opened Arithmetic
  import opened MachineWords
  import opened NovaUtcb
  import opened Wrappers

  const MAX_CAP_ARGS: nat := 4
  const INVALID_INDEX: nat := TWO_64 - 1

  /** No selector, selector without capability, capability not read yet, capability read. */
  datatype SlotState = FREE_INVALID | FREE_SEL | UNUSED_CAP | USED_CAP

  datatype Sel = Sel(sel: nat, del: bool)

  // ---- what the classification depends on ------------------------------------------------------

  function BaseOf(item: Item): nat {
    Crd(item.crd).Base() as nat
  }

  predicate IsNull(item: Item) {
    Crd(item.crd).IsNull()
  }

  predicate Delegated(item: Item) {
    !IsNull(item) && item.IsDel()
  }

  /** 1U << order, converted to 16 bits. */
  function WindowSize(order: mword): nat {
    if order < 16 then Pow2(order as nat) else 0
  }

  /** The windows for one, two and four capabilities; any other order below 16 exceeds the maximum. */
  lemma WindowSizeMeaning(order: mword)
    ensures order == 0 ==> WindowSize(order) == 1
    ensures order == 1 ==> WindowSize(order) == 2
    ensures order == 2 ==> WindowSize(order) == 4
    ensures 3 <= order < 16 ==> MAX_CAP_ARGS < WindowSize(order) <= 0x8000
    ensures order >= 16 ==> WindowSize(order) == 0
  {
    assert Pow2(1) == 2 && Pow2(2) == 4 && Pow2(3) == 8;
    if 3 <= order < 16 {
      Monotonic(3, order as nat);
      Monotonic(order as nat, 15);
      assert Pow2(15) == 0x8000;
    }
  }

  predicate InWindow(item: Item, base: nat, max: nat) {
    base <= BaseOf(item) < (base + max) % TWO_64
  }

  function SelOf(item: Item): Sel {
    if IsNull(item) then Sel(INVALID_INDEX, false) else Sel(BaseOf(item), item.IsDel())
  }

  /** A null item records no selector, a delegated one its own selector as mapped, and a translated one as not. */
  lemma SelMeaning(item: Item)
    ensures item.crd & 3 == 0 ==> SelOf(item) == Sel(INVALID_INDEX, false)
    ensures item.crd & 3 != 0 ==> SelOf(item) == Sel((item.crd >> 12) as nat, item.hotspot & 1 == 1)
    ensures Delegated(item) <==> item.crd & 3 != 0 && item.hotspot & 1 == 1
    ensures BaseOf(item) == (item.crd >> 12) as nat
  {
    BaseIsUpperPart(item.crd);
  }

  lemma BaseIsUpperPart(crd: mword)
    ensures Crd(crd).Base() == crd >> 12 && (Crd(crd).IsNull() <==> crd & 3 == 0)
  {
  }

  /** Some item delegates a capability to selector `sel`. */
  predicate DelegatedTo(items: seq<Item>, sel: nat) {
    exists i :: 0 <= i < |items| && Delegated(items[i]) && BaseOf(items[i]) == sel
  }

  predicate AllInWindow(items: seq<Item>, base: nat, max: nat) {
    forall i :: 0 <= i < |items| && Delegated(items[i]) ==> InWindow(items[i], base, max)
  }

  function Classify(items: seq<Item>, base: nat, max: nat, slot: nat): SlotState {
    if slot >= max then FREE_INVALID
    else if DelegatedTo(items, base + slot) then UNUSED_CAP
    else FREE_SEL
  }

  predicate Classified(slots: seq<SlotState>, items: seq<Item>, base: nat, max: nat) {
    forall s :: 0 <= s < |slots| ==> slots[s] == Classify(items, base, max, s)
  }

  /** The items looked at: as many as the message has, as far as they lie behind the header. */
  function ReceivedItems(utcb: Utcb): (items: seq<Item>)
    requires utcb.mem.Length == UTCB_WORDS
    reads utcb, utcb.mem
    ensures |items| <= 254
    ensures forall i :: 0 <= i < |items| ==> utcb.GetItem(i) == Some(items[i])
  {
    var n := Min(utcb.items / TWO_16 % TWO_16, 254);
    seq(n, i requires 0 <= i < ITEM_SLOTS && utcb.mem.Length == UTCB_WORDS reads utcb.mem => utcb.ItemAt(i))
  }

  /** The items received: their number is in the upper half of a 32-bit word, and they lie at the end of the UTCB. */
  lemma ReceivedItemsMeaning(utcb: Utcb, count: nat, words: nat)
    requires utcb.mem.Length == 512 && count < 0x1_0000 && words < 0x1_0000
    requires utcb.items == count * 0x1_0000 + words
    ensures var items := ReceivedItems(utcb);
            && |items| == (if count < 254 then count else 254)
            && forall i :: 0 <= i < |items| ==> items[i] == Item(utcb.mem[510 - 2 * i], utcb.mem[511 - 2 * i])
  {
    var items := ReceivedItems(utcb);
    forall i | 0 <= i < |items|
      ensures items[i] == Item(utcb.mem[510 - 2 * i], utcb.mem[511 - 2 * i])
    {
      assert items[i] == utcb.ItemAt(i);
    }
  }

  class ReceiveWindow {
    var rcvPtBase: nat
    const rcvPtSel: array<Sel>
    const rcvPtCapFree: array<SlotState>
    var rcvPtSelCnt: nat
    var rcvPtSelMax: nat

    predicate Valid()
      reads this
    {
      rcvPtSel.Length == MAX_CAP_ARGS && rcvPtCapFree.Length == MAX_CAP_ARGS && rcvPtSel as object != rcvPtCapFree
    }

    constructor ()
      ensures Valid() && fresh(rcvPtSel) && fresh(rcvPtCapFree) && rcvPtBase == INVALID_INDEX
    {
      rcvPtBase, rcvPtSelCnt, rcvPtSelMax := INVALID_INDEX, 0, 0;
      rcvPtSel := new Sel[MAX_CAP_ARGS](_ => Sel(0, false));
      rcvPtCapFree := new SlotState[MAX_CAP_ARGS](_ => FREE_INVALID);
    }

    /** The slots are classified as `items` demand, all of which lie in the window. */
    ghost predicate Tracked(items: seq<Item>, max: nat)
      requires Valid()
      reads this, rcvPtCapFree
    {
      AllInWindow(items, rcvPtBase, max) && Classified(rcvPtCapFree[..], items, rcvPtBase, max)
    }

    /** The leading `items` are recorded in order, and `was` is left behind them. */
    ghost predicate Recorded(items: seq<Item>, max: nat, was: seq<Sel>)
      requires Valid() && |was| == MAX_CAP_ARGS && max <= MAX_CAP_ARGS
      reads this, rcvPtSel
    {
      && rcvPtSelCnt == 0 && rcvPtSelMax == Min(|items|, max)
      && (forall i :: 0 <= i < rcvPtSelMax ==> rcvPtSel[i] == SelOf(items[i]))
      && forall i :: rcvPtSelMax <= i < MAX_CAP_ARGS ==> rcvPtSel[i] == was[i]
    }

    /** A delegated capability marks its slot, or is fatal if it has none. */
    method TrackMapped(item: Item, max: nat, ghost before: seq<Item>) returns (alive: bool)
      requires Valid() && max <= MAX_CAP_ARGS && rcvPtBase < TWO_64 && Tracked(before, max)
      modifies rcvPtCapFree
      ensures alive <==> AllInWindow(before + [item], rcvPtBase, max)
      ensures alive ==> Tracked(before + [item], max)
    {
      WindowNext(before, item, rcvPtBase, max);
      if Delegated(item) {
        var base := BaseOf(item);
        if base < rcvPtBase || base >= (rcvPtBase + max) % TWO_64 {
          return false;
        }
        ClassifyDelegated(rcvPtCapFree[..], before, item, rcvPtBase, max, base - rcvPtBase);
        rcvPtCapFree[base - rcvPtBase] := UNUSED_CAP;
      } else {
        ClassifyTranslated(rcvPtCapFree[..], before, item, rcvPtBase, max);
      }
      return true;
    }

    /** The selector of an item joins the list while there is room in it. */
    method RecordOrder(item: Item, max: nat, ghost before: seq<Item>, ghost was: seq<Sel>)
      requires Valid() && max <= MAX_CAP_ARGS && |was| == MAX_CAP_ARGS && Recorded(before, max, was)
      modifies this`rcvPtSelMax, rcvPtSel
      ensures Recorded(before + [item], max, was)
    {
      if rcvPtSelMax >= max {
        return;
      }
      if IsNull(item) {
        rcvPtSel[rcvPtSelMax] := Sel(INVALID_INDEX, false);
      } else {
        rcvPtSel[rcvPtSelMax] := Sel(BaseOf(item), item.IsDel());
      }
      rcvPtSelMax := rcvPtSelMax + 1;
    }

    method ResetSlots(max: nat)
      requires Valid() && max <= MAX_CAP_ARGS
      modifies rcvPtCapFree
      ensures Tracked([], max)
      ensures forall s :: 0 <= s < MAX_CAP_ARGS ==> rcvPtCapFree[s] == if s < max then FREE_SEL else FREE_INVALID
    {
      for i := 0 to MAX_CAP_ARGS
        invariant forall s :: 0 <= s < i ==> rcvPtCapFree[s] == Classify([], rcvPtBase, max, s)
        invariant forall s :: 0 <= s < i ==> rcvPtCapFree[s] == if s < max then FREE_SEL else FREE_INVALID
      {
        rcvPtCapFree[i] := if i >= max then FREE_INVALID else FREE_SEL;
      }
    }

    /** Walk over the typed items, until one of them is missing or lies outside of the window. */
    method ProcessItems(utcb: Utcb, rcvItems: nat, max: nat, ghost was: seq<Sel>) returns (alive: bool)
      requires Valid() && utcb.mem.Length == UTCB_WORDS && rcvPtBase < TWO_64 && max <= MAX_CAP_ARGS
      requires rcvItems == utcb.items / TWO_16 % TWO_16
      requires |was| == MAX_CAP_ARGS && Tracked([], max) && Recorded([], max, was)
      modifies this`rcvPtSelMax, rcvPtSel, rcvPtCapFree
      ensures var items := ReceivedItems(utcb);
              && (alive <==> AllInWindow(items, rcvPtBase, max))
              && (alive ==> Tracked(items, max) && Recorded(items, max, was))
    {
      ghost var items := ReceivedItems(utcb);
      for i := 0 to rcvItems
        invariant i <= |items| && Tracked(items[..i], max) && Recorded(items[..i], max, was)
      {
        var found := utcb.GetItem(i);
        if found == None {
          break;
        }
        assert items[..i + 1] == items[..i] + [found.value];
        alive := TrackMapped(found.value, max, items[..i]);
        if !alive {
          assert !AllInWindow(items[..i + 1], rcvPtBase, max);
          return;
        }
        RecordOrder(found.value, max, items[..i], was);
      }
      assert items[..|items|] == items;
      return true;
    }

    /**
     Classify the slots of the window and list the selectors. The component dies (`alive` is
     false) if the window is too large or if a delegated capability lies outside of it.
     */
    method PostIpc(utcb: Utcb, rcvWindow: nat) returns (alive: bool)
      requires Valid() && utcb.mem.Length == UTCB_WORDS && rcvPtBase < TWO_64
      modifies this, rcvPtSel, rcvPtCapFree, utcb`crdRcv
      ensures Valid()
      ensures var items, max := old(ReceivedItems(utcb)), old(WindowSize(utcb.crdRcv.Order()));
              && (alive <==> max <= MAX_CAP_ARGS && AllInWindow(items, old(rcvPtBase), max))
              && (alive ==>
                    && Classified(rcvPtCapFree[..], items, old(rcvPtBase), max)
                    && Recorded(items, max, old(rcvPtSel[..]))
                    && rcvPtBase == (if rcvWindow != INVALID_INDEX then INVALID_INDEX else old(rcvPtBase))
                    && utcb.crdRcv == Crd(0))
    {
      var rcvItems := utcb.items / TWO_16 % TWO_16;
      rcvPtSelMax, rcvPtSelCnt := 0, 0;
      var max := WindowSize(utcb.crdRcv.Order());
      if max > MAX_CAP_ARGS {
        return false;
      }
      ResetSlots(max);
      alive := ProcessItems(utcb, rcvItems, max, rcvPtSel[..]);
      if !alive {
        return;
      }
      if rcvWindow != INVALID_INDEX {
        rcvPtBase := INVALID_INDEX;
      }
      utcb.crdRcv := Crd(0);
    }
  }

  lemma DelegatedMeaning(items: seq<Item>, sel: nat)
    ensures DelegatedTo(items, sel) <==>
              exists i :: 0 <= i < |items| && items[i].crd & 3 != 0 && items[i].hotspot & 1 == 1
                          && (items[i].crd >> 12) as nat == sel
  {
    forall i | 0 <= i < |items|
      ensures Delegated(items[i]) && BaseOf(items[i]) == sel <==>
                items[i].crd & 3 != 0 && items[i].hotspot & 1 == 1 && (items[i].crd >> 12) as nat == sel
    {
      SelMeaning(items[i]);
    }
  }

  /** Slots outside of the window are invalid, and those within it are used by delegated items only. */
  lemma ClassifyMeaning(items: seq<Item>, base: nat, max: nat, slot: nat)
    ensures var state := Classify(items, base, max, slot);
            && (state == FREE_INVALID <==> slot >= max)
            && (state == UNUSED_CAP <==>
                  slot < max && exists i :: 0 <= i < |items| && items[i].crd & 3 != 0 && items[i].hotspot & 1 == 1
                                            && (items[i].crd >> 12) as nat == base + slot)
            && state != USED_CAP
  {
    DelegatedMeaning(items, base + slot);
  }

  lemma DelegatedNext(items: seq<Item>, item: Item, sel: nat)
    ensures DelegatedTo(items + [item], sel) <==> DelegatedTo(items, sel) || (Delegated(item) && BaseOf(item) == sel)
  {
    var all := items + [item];
    assert all[|items|] == item;
    assert forall i :: 0 <= i < |items| ==> all[i] == items[i];
    if DelegatedTo(items, sel) {
      var i :| 0 <= i < |items| && Delegated(items[i]) && BaseOf(items[i]) == sel;
      assert Delegated(all[i]);
    }
  }

  lemma WindowNext(items: seq<Item>, item: Item, base: nat, max: nat)
    ensures AllInWindow(items + [item], base, max) <==>
              AllInWindow(items, base, max) && (Delegated(item) ==> InWindow(item, base, max))
  {
    var all := items + [item];
    assert all[|items|] == item;
    assert forall i :: 0 <= i < |items| ==> all[i] == items[i];
    if AllInWindow(all, base, max) {
      forall i | 0 <= i < |items| && Delegated(items[i])
        ensures InWindow(items[i], base, max)
      {
        assert Delegated(all[i]);
      }
    }
  }

  lemma ClassifySlotNext(items: seq<Item>, item: Item, base: nat, max: nat, s: nat)
    ensures Classify(items + [item], base, max, s) ==
            if s < max && Delegated(item) && BaseOf(item) == base + s then UNUSED_CAP
            else Classify(items, base, max, s)
  {
    DelegatedNext(items, item, base + s);
  }

  /** An item that is not delegated changes no slot. */
  lemma ClassifyTranslated(slots: seq<SlotState>, items: seq<Item>, item: Item, base: nat, max: nat)
    requires Classified(slots, items, base, max) && !Delegated(item)
    ensures Classified(slots, items + [item], base, max)
  {
    forall s | 0 <= s < |slots|
      ensures slots[s] == Classify(items + [item], base, max, s)
    {
      ClassifySlotNext(items, item, base, max, s);
    }
  }

  /** A delegated item changes the state of its own slot only. */
  lemma ClassifyDelegated(slots: seq<SlotState>, items: seq<Item>, item: Item, base: nat, max: nat, slot: nat)
    requires Classified(slots, items, base, max) && Delegated(item)
    requires BaseOf(item) == base + slot && slot < max <= |slots|
    ensures Classified(slots[slot := UNUSED_CAP], items + [item], base, max)
  {
    forall s | 0 <= s < |slots|
      ensures slots[slot := UNUSED_CAP][s] == Classify(items + [item], base, max, s)
    {
      ClassifySlotNext(items, item, base, max, s);
    }
  }

  /**
   As long as the message has no more items than the window has slots, the slots that hold
   an unread capability are exactly those of the recorded delegated selectors.
   */
  lemma UnusedCapsAreRecorded(items: seq<Item>, base: nat, max: nat, slot: nat)
    requires |items| <= max && slot < max
    ensures Classify(items, base, max, slot) == UNUSED_CAP <==>
            exists i :: 0 <= i < Min(|items|, max) && SelOf(items[i]) == Sel(base + slot, true)
  {
    if DelegatedTo(items, base + slot) {
      var i :| 0 <= i < |items| && Delegated(items[i]) && BaseOf(items[i]) == base + slot;
      assert SelOf(items[i]) == Sel(base + slot, true);
    }
    if i :| 0 <= i < |items| && SelOf(items[i]) == Sel(base + slot, true) {
      assert Delegated(items[i]);
    }
  }
}
