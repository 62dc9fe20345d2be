/**
 The affinity space of core on NOVA, and the mapping from its locations to kernel CPU ids.
 */
module AffinitySpace {
  import opened Arithmetic
  import opened Affinity
  import opened CpuEnumeration
  import opened MachineWords

  function ThreadIds(descs: seq<CpuDesc>, n: nat): set<nat>
    requires n <= |descs|
  {
    set i | 0 <= i < n && descs[i].Enabled() :: descs[i].thread
  }

  lemma CountNext(descs: seq<CpuDesc>, i: nat)
    requires i < |descs|
    ensures |EnabledBelow(descs, i + 1)| == |EnabledBelow(descs, i)| + if descs[i].Enabled() then 1 else 0
  {
    assert EnabledBelow(descs, i + 1) == EnabledBelow(descs, i) + if descs[i].Enabled() then {i} else {};
  }

  lemma ThreadIdsNext(descs: seq<CpuDesc>, i: nat)
    requires i < |descs|
    ensures ThreadIds(descs, i + 1) == ThreadIds(descs, i) + if descs[i].Enabled() then {descs[i].thread} else {}
  {
  }

  /** The loop of `setup_affinity_space`: count enabled CPUs and distinct thread numbers. */
  method CountCpus(descs: seq<CpuDesc>) returns (cpus: nat, idsThread: nat)
    requires Typed(descs)
    ensures cpus == |EnabledIds(descs)| && idsThread == |ThreadIds(descs, |descs|)|
  {
    cpus, idsThread := 0, 0;
    var threads: set<nat> := {};
    for i := 0 to |descs|
      invariant cpus == |EnabledBelow(descs, i)|
      invariant idsThread == |threads| && threads == ThreadIds(descs, i)
    {
      CountNext(descs, i);
      ThreadIdsNext(descs, i);
      if descs[i].Enabled() {
        cpus := cpus + 1;
        if descs[i].thread !in threads {
          threads := threads + {descs[i].thread};
          idsThread := idsThread + 1;
        }
      }
    }
    assert EnabledBelow(descs, |descs|) == EnabledIds(descs);
  }

  /** Dimension the grid: threads per core vertically if all cores have the same number of threads. */
  method SetupAffinitySpace(descs: seq<CpuDesc>) returns (space: Space)
    requires Typed(descs)
    ensures space.width * space.height == |EnabledIds(descs)|
    ensures var ids := |set i | 0 <= i < |descs| && descs[i].Enabled() :: descs[i].thread|;
            space.height == if ids != 0 && |EnabledIds(descs)| % ids == 0 then ids else 1
  {
    var cpus, idsThread := CountCpus(descs);
    if idsThread != 0 && cpus % idsThread == 0 {
      return Space(cpus / idsThread, idsThread);
    }
    return Space(cpus, 1);
  }

  function PagerIndex(space: Space, location: Location): nat
    requires space.Total() > 0
  {
    U32(location.xpos * space.height + location.ypos) % space.Total()
  }

  /** The kernel id of the CPU at a location; all ones if the location has no table entry. */
  function KernelCpuId(space: Space, mapCpuIds: seq<nat>, location: Location): nat
    requires space.Total() > 0
  {
    var cpuId := PagerIndex(space, location);
    if cpuId >= |mapCpuIds| then TWO_32 - 1 else mapCpuIds[cpuId]
  }

  predicate InGrid(space: Space, x: int, y: int) {
    0 <= x < space.width && 0 <= y < space.height
  }

  /** `PagerIndex` numbers the grid column by column. */
  lemma PagerIndexInGrid(space: Space, x: nat, y: nat)
    requires space.Sane() && InGrid(space, x, y)
    ensures space.Total() == space.width * space.height
    ensures PagerIndex(space, Location(x, y, 1, 1)) == x * space.height + y < space.width * space.height
  {
    CellNumber(x, y, space.height, space.width);
    var n, total := x * space.height + y, space.width * space.height;
    assert U32(n) == n && U32(total) == total;
    SmallRemainder(n, total);
  }

  /** Each location has its own table entry, unless the table is too short. */
  lemma KernelCpuIdInGrid(space: Space, mapCpuIds: seq<nat>, x: nat, y: nat)
    requires space.Sane() && InGrid(space, x, y) && space.Total() > 0
    ensures var n := x * space.height + y;
            KernelCpuId(space, mapCpuIds, Location(x, y, 1, 1)) == if n < |mapCpuIds| then mapCpuIds[n] else 0xffff_ffff
  {
    PagerIndexInGrid(space, x, y);
  }

  lemma CellOfPagerIndex(space: Space, n: nat) returns (x: nat, y: nat)
    requires space.Sane() && n < space.width * space.height
    ensures InGrid(space, x, y) && PagerIndex(space, Location(x, y, 1, 1)) == n
    ensures space.Total() > 0
  {
    NumberedCell(n, space.height, space.width);
    x, y := n / space.height, n % space.height;
    PagerIndexInGrid(space, x, y);
  }

  lemma PagerIndexIsInjective(space: Space, x: nat, y: nat, x': nat, y': nat)
    requires space.Sane() && space.Total() > 0 && InGrid(space, x, y) && InGrid(space, x', y')
    requires PagerIndex(space, Location(x, y, 1, 1)) == PagerIndex(space, Location(x', y', 1, 1))
    ensures x == x' && y == y'
  {
    PagerIndexInGrid(space, x, y);
    PagerIndexInGrid(space, x', y');
    CellNumber(x, y, space.height, space.width);
    CellNumber(x', y', space.height, space.width);
  }

  /** The CPU table, the renumbering of its entries and the space dimensioned from it. */
  ghost predicate Configured(descs: seq<CpuDesc>, boot: nat, mapCpuIds: seq<nat>, space: Space) {
    && IsEnabled(descs, boot) && |descs| < TWO_31
    && |mapCpuIds| >= |EnabledIds(descs)| && IsRemap(descs, boot, mapCpuIds[..|EnabledIds(descs)|])
    && space.width * space.height == |EnabledIds(descs)|
  }

  function CpuAt(space: Space, mapCpuIds: seq<nat>, x: int, y: int): nat
    requires space.Total() > 0
  {
    KernelCpuId(space, mapCpuIds, Location(x, y, 1, 1))
  }

  lemma ConfiguredSpace(descs: seq<CpuDesc>, boot: nat, mapCpuIds: seq<nat>, space: Space)
    requires Configured(descs, boot, mapCpuIds, space)
    ensures space.Sane() && space.Total() > 0
  {
    EnabledCountBounds(descs, boot);
    GridIsSane(space);
    SaneSpaceIsNotEmpty(space);
  }

  lemma CpuAtCell(descs: seq<CpuDesc>, boot: nat, mapCpuIds: seq<nat>, space: Space, x: nat, y: nat)
    requires Configured(descs, boot, mapCpuIds, space) && space.Sane() && space.Total() > 0 && InGrid(space, x, y)
    ensures var n := PagerIndex(space, Location(x, y, 1, 1));
            n < |EnabledIds(descs)| && CpuAt(space, mapCpuIds, x, y) == mapCpuIds[n]
  {
    PagerIndexInGrid(space, x, y);
  }

  lemma LocationHasCpu(descs: seq<CpuDesc>, boot: nat, mapCpuIds: seq<nat>, space: Space, x: nat, y: nat)
    requires Configured(descs, boot, mapCpuIds, space) && space.Sane() && space.Total() > 0 && InGrid(space, x, y)
    ensures IsEnabled(descs, CpuAt(space, mapCpuIds, x, y))
  {
    CpuAtCell(descs, boot, mapCpuIds, space, x, y);
    RemapEntry(descs, boot, mapCpuIds[..|EnabledIds(descs)|], PagerIndex(space, Location(x, y, 1, 1)));
  }

  lemma CpuHasLocation(descs: seq<CpuDesc>, boot: nat, mapCpuIds: seq<nat>, space: Space, k: nat)
    returns (x: nat, y: nat)
    requires Configured(descs, boot, mapCpuIds, space) && space.Sane() && space.Total() > 0 && IsEnabled(descs, k)
    ensures InGrid(space, x, y) && CpuAt(space, mapCpuIds, x, y) == k
  {
    var n := RemapPosition(descs, boot, mapCpuIds[..|EnabledIds(descs)|], k);
    x, y := CellOfPagerIndex(space, n);
  }

  lemma LocationIsUnique(descs: seq<CpuDesc>, boot: nat, mapCpuIds: seq<nat>, space: Space,
                         x: nat, y: nat, x': nat, y': nat)
    requires Configured(descs, boot, mapCpuIds, space) && space.Sane() && space.Total() > 0
    requires InGrid(space, x, y) && InGrid(space, x', y')
    requires CpuAt(space, mapCpuIds, x, y) == CpuAt(space, mapCpuIds, x', y')
    ensures x == x' && y == y'
  {
    CpuAtCell(descs, boot, mapCpuIds, space, x, y);
    CpuAtCell(descs, boot, mapCpuIds, space, x', y');
    RemapInjective(descs, boot, mapCpuIds[..|EnabledIds(descs)|],
                   PagerIndex(space, Location(x, y, 1, 1)), PagerIndex(space, Location(x', y', 1, 1)));
    PagerIndexIsInjective(space, x, y, x', y');
  }

  /**
   After the renumbering, and for the space dimensioned from the same table, every location
   of the grid has an enabled CPU, every enabled CPU has exactly one location, and the boot
   CPU has the first one.
   */
  lemma LocationsAreTheEnabledCpus(descs: seq<CpuDesc>, boot: nat, mapCpuIds: seq<nat>, space: Space)
    requires Configured(descs, boot, mapCpuIds, space)
    ensures space.Total() > 0
    ensures forall x, y :: InGrid(space, x, y) ==> IsEnabled(descs, CpuAt(space, mapCpuIds, x, y))
    ensures forall k :: IsEnabled(descs, k) ==>
              exists x, y :: InGrid(space, x, y) && CpuAt(space, mapCpuIds, x, y) == k
    ensures forall x, y, x', y' ::
              InGrid(space, x, y) && InGrid(space, x', y')
              && CpuAt(space, mapCpuIds, x, y) == CpuAt(space, mapCpuIds, x', y')
              ==> x == x' && y == y'
    ensures CpuAt(space, mapCpuIds, 0, 0) == boot
  {
    ConfiguredSpace(descs, boot, mapCpuIds, space);
    forall x, y | InGrid(space, x, y)
      ensures IsEnabled(descs, CpuAt(space, mapCpuIds, x, y))
    {
      LocationHasCpu(descs, boot, mapCpuIds, space, x, y);
    }
    forall k | IsEnabled(descs, k)
      ensures exists x, y :: InGrid(space, x, y) && CpuAt(space, mapCpuIds, x, y) == k
    {
      var x, y := CpuHasLocation(descs, boot, mapCpuIds, space, k);
    }
    forall x, y, x', y' | InGrid(space, x, y) && InGrid(space, x', y')
      && CpuAt(space, mapCpuIds, x, y) == CpuAt(space, mapCpuIds, x', y')
      ensures x == x' && y == y'
    {
      LocationIsUnique(descs, boot, mapCpuIds, space, x, y, x', y');
    }
    PagerIndexInGrid(space, 0, 0);
    CpuAtCell(descs, boot, mapCpuIds, space, 0, 0);
  }

  lemma GridIsSane(space: Space)
    requires 0 < space.width * space.height < TWO_31
    ensures space.Sane()
  {
    Factors(space.width, space.height, TWO_31);
  }

  lemma Factors(a: nat, b: nat, n: nat)
    requires 0 < a * b < n
    ensures 0 < a < n && 0 < b < n
  {
    assert a > 0 && b > 0;
    MulMonotonic(1, b, a);
    MulMonotonic(1, a, b);
  }

  lemma RemapEntry(descs: seq<CpuDesc>, boot: nat, ids: seq<nat>, n: nat)
    requires IsEnabled(descs, boot) && IsRemap(descs, boot, ids) && n < |ids|
    ensures IsEnabled(descs, ids[n])
  {
    if n > 0 {
      assert ids[1..][n - 1] in ids[1..];
    }
  }

  lemma RemapPosition(descs: seq<CpuDesc>, boot: nat, ids: seq<nat>, k: nat) returns (n: nat)
    requires IsRemap(descs, boot, ids) && IsEnabled(descs, k)
    ensures n < |ids| && ids[n] == k
  {
    if k == boot {
      n := 0;
    } else {
      assert k in ids[1..];
      n :| 0 <= n < |ids[1..]| && ids[1..][n] == k;
      n := n + 1;
    }
  }

  lemma RemapDistinct(descs: seq<CpuDesc>, boot: nat, ids: seq<nat>, m: nat, n: nat)
    requires IsRemap(descs, boot, ids) && m < n < |ids|
    ensures ids[m] != ids[n]
  {
    var rest := ids[1..];
    assert ids[n] == rest[n - 1];
    if m == 0 {
      assert rest[n - 1] in rest;
    } else {
      assert Precedes(descs, rest[m - 1], rest[n - 1]);
    }
  }

  lemma RemapInjective(descs: seq<CpuDesc>, boot: nat, ids: seq<nat>, m: nat, n: nat)
    requires IsRemap(descs, boot, ids) && m < |ids| && n < |ids| && ids[m] == ids[n]
    ensures m == n
  {
    if m < n {
      RemapDistinct(descs, boot, ids, m, n);
    } else if n < m {
      RemapDistinct(descs, boot, ids, n, m);
    }
  }

  /** The steps of the platform constructor that set up the space and the kernel CPU ids. */
  method InitCpus(descs: seq<CpuDesc>, mapCpuIds: array<nat>, bootCpu: nat) returns (space: Space, ok: bool)
    requires Typed(descs) && |descs| <= 256 && |descs| <= mapCpuIds.Length
    modifies mapCpuIds
    ensures ok <==> IsEnabled(descs, bootCpu) && !descs[bootCpu].ECore()
    ensures ok ==> Configured(descs, bootCpu, mapCpuIds[..], space)
  {
    space := SetupAffinitySpace(descs);
    ok := RemapCpuIds(descs, mapCpuIds, bootCpu);
    assert ok ==> mapCpuIds[..][..|EnabledIds(descs)|] == mapCpuIds[..|EnabledIds(descs)|];
  }
}
