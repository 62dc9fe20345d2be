/**
 Ranges of pages, and what becomes of a series of them added to an allocator one by one, where
 each range is refused as a whole if it overlaps what is already there.
 */
module Ranges {
  import opened MachineWords

  function Pages(lo: nat, hi: nat): (pages: set<nat>)
    ensures forall p :: p in pages <==> lo <= p < hi
    decreases hi - lo
  {
    if lo < hi then {lo} + Pages(lo + 1, hi) else {}
  }

  /** The pages of a page-aligned range. */
  function PagesOf(base: nat, size: nat): set<nat> {
    Pages(base / PAGE, (base + size) / PAGE)
  }

  const PAGES: nat := TWO_64 / PAGE

  /** An accepted range completes both ends of the address space at the upper end, or the whole address space. */
  ghost predicate WrapsAround(present: set<nat>, added: set<nat>) {
    && added != {} && added !! present
    && ((0 in present && PAGES - 1 in added) || forall p: nat :: p < PAGES ==> p in present + added)
  }

  /** The pages present after adding ranges one by one, where overlapping ones are refused. */
  function Kept(start: set<nat>, ranges: seq<set<nat>>): set<nat> {
    if ranges == [] then start
    else
      var before, last := Kept(start, ranges[..|ranges| - 1]), ranges[|ranges| - 1];
      if last !! before then before + last else before
  }

  /** All pages of the ranges. */
  function Union(start: set<nat>, ranges: seq<set<nat>>): set<nat> {
    if ranges == [] then start else Union(start, ranges[..|ranges| - 1]) + ranges[|ranges| - 1]
  }

  lemma AddOne(start: set<nat>, ranges: seq<set<nat>>, r: set<nat>)
    ensures Union(start, ranges + [r]) == Union(start, ranges) + r
    ensures Kept(start, ranges + [r]) ==
            if r !! Kept(start, ranges) then Kept(start, ranges) + r else Kept(start, ranges)
  {
    assert (ranges + [r])[..|ranges|] == ranges;
  }

  lemma {:induction false} UnionMeaning(start: set<nat>, ranges: seq<set<nat>>, p: nat)
    ensures p in Union(start, ranges) <==> p in start || exists i :: 0 <= i < |ranges| && p in ranges[i]
  {
    if ranges != [] {
      var before := ranges[..|ranges| - 1];
      UnionMeaning(start, before, p);
      if i :| 0 <= i < |ranges| && p in ranges[i] {
        assert i < |before| ==> p in before[i];
      }
      if i :| 0 <= i < |before| && p in before[i] {
        assert p in ranges[i];
      }
    }
  }

  lemma {:induction false} KeptIsWithinUnion(start: set<nat>, ranges: seq<set<nat>>)
    ensures start <= Kept(start, ranges) <= Union(start, ranges)
  {
    if ranges != [] {
      KeptIsWithinUnion(start, ranges[..|ranges| - 1]);
    }
  }

  /** Each range lies apart from the earlier ones and the start, or adds nothing to them. */
  predicate NoPartialOverlap(start: set<nat>, ranges: seq<set<nat>>) {
    forall i :: 0 <= i < |ranges| ==>
      ranges[i] !! Union(start, ranges[..i]) || ranges[i] <= Union(start, ranges[..i])
  }

  /** Nothing is lost, at whatever range one stops. */
  predicate NothingLost(start: set<nat>, ranges: seq<set<nat>>) {
    forall n :: 0 <= n <= |ranges| ==> Kept(start, ranges[..n]) == Union(start, ranges[..n])
  }

  /** No range wraps around when it is added. */
  ghost predicate NoneWraps(start: set<nat>, ranges: seq<set<nat>>) {
    forall i :: 0 <= i < |ranges| ==> !WrapsAround(Kept(start, ranges[..i]), ranges[i])
  }

  lemma {:induction false} KeptWithoutPartialOverlap(start: set<nat>, ranges: seq<set<nat>>, n: nat)
    requires NoPartialOverlap(start, ranges) && n <= |ranges|
    ensures Kept(start, ranges[..n]) == Union(start, ranges[..n])
  {
    if n > 0 {
      KeptWithoutPartialOverlap(start, ranges, n - 1);
      AddOne(start, ranges[..n - 1], ranges[n - 1]);
      assert ranges[..n] == ranges[..n - 1] + [ranges[n - 1]];
    }
  }

  /** Adding ranges one by one loses no page exactly if no range overlaps the earlier ones in part. */
  lemma NothingLostIff(start: set<nat>, ranges: seq<set<nat>>)
    ensures NothingLost(start, ranges) <==> NoPartialOverlap(start, ranges)
  {
    if NoPartialOverlap(start, ranges) {
      forall n | 0 <= n <= |ranges|
        ensures Kept(start, ranges[..n]) == Union(start, ranges[..n])
      {
        KeptWithoutPartialOverlap(start, ranges, n);
      }
    }
    if NothingLost(start, ranges) {
      forall i | 0 <= i < |ranges|
        ensures ranges[i] !! Union(start, ranges[..i]) || ranges[i] <= Union(start, ranges[..i])
      {
        AddOne(start, ranges[..i], ranges[i]);
        assert ranges[..i + 1] == ranges[..i] + [ranges[i]];
        assert Kept(start, ranges[..i]) == Union(start, ranges[..i]);
        assert Kept(start, ranges[..i + 1]) == Union(start, ranges[..i + 1]);
      }
    }
  }
}
