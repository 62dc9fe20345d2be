/**
 The CPU table of the NOVA hypervisor information page, and its renumbering: the boot CPU
 first, then all other cores but E-cores, then the E-cores, each group ordered by package,
 core, thread and table index.
 */
module CpuEnumeration {

  datatype CpuDesc = CpuDesc(flags: nat, thread: nat, core: nat, pkg: nat) {
    predicate Enabled() { flags % 2 == 1 }

    predicate ECore() { flags / 4 % 2 == 1 }

    /** All fields are bytes. */
    predicate Typed() { flags < 256 && thread < 256 && core < 256 && pkg < 256 }

    function Rank(): nat { (pkg * 256 + core) * 256 + thread }
  }

  predicate Typed(descs: seq<CpuDesc>) {
    forall i :: 0 <= i < |descs| ==> descs[i].Typed()
  }

  predicate IsEnabled(descs: seq<CpuDesc>, i: nat) {
    i < |descs| && descs[i].Enabled()
  }

  function EnabledIds(descs: seq<CpuDesc>): set<nat> {
    set i | 0 <= i < |descs| && descs[i].Enabled()
  }

  /** The order in which CPUs other than the boot CPU are numbered. */
  predicate Precedes(descs: seq<CpuDesc>, i: nat, j: nat)
    requires i < |descs| && j < |descs|
  {
    var a, b := descs[i], descs[j];
    if a.ECore() != b.ECore() then b.ECore()
    else a.Rank() < b.Rank() || (a.Rank() == b.Rank() && i < j)
  }

  /** The lowest flag bits tell enabled CPUs, P-cores and E-cores. */
  lemma FlagsMeaning(d: CpuDesc, enabled: nat, pCore: nat, eCore: nat, others: nat)
    requires enabled < 2 && pCore < 2 && eCore < 2
    requires d.flags == enabled + 2 * pCore + 4 * eCore + 8 * others
    ensures d.Enabled() <==> enabled == 1
    ensures d.ECore() <==> eCore == 1
  {
    var upper := eCore + 2 * others;
    assert d.flags == upper * 4 + (enabled + 2 * pCore) && d.flags / 4 == upper;
  }

  /** All others come before E-cores; among equals, package, core, thread and table index decide. */
  lemma PrecedesMeaning(descs: seq<CpuDesc>, i: nat, j: nat)
    requires Typed(descs) && i < |descs| && j < |descs|
    ensures var a, b := descs[i], descs[j];
            && (a.ECore() != b.ECore() ==> (Precedes(descs, i, j) <==> b.ECore()))
            && (a.ECore() == b.ECore() && a.pkg != b.pkg ==> (Precedes(descs, i, j) <==> a.pkg < b.pkg))
            && (a.ECore() == b.ECore() && a.pkg == b.pkg && a.core != b.core ==>
                  (Precedes(descs, i, j) <==> a.core < b.core))
            && (a.ECore() == b.ECore() && a.pkg == b.pkg && a.core == b.core && a.thread != b.thread ==>
                  (Precedes(descs, i, j) <==> a.thread < b.thread))
            && (a.ECore() == b.ECore() && a.pkg == b.pkg && a.core == b.core && a.thread == b.thread ==>
                  (Precedes(descs, i, j) <==> i < j))
  {
  }

  predicate Sorted(descs: seq<CpuDesc>, ids: seq<nat>) {
    && (forall p :: 0 <= p < |ids| ==> ids[p] < |descs|)
    && forall p, q :: 0 <= p < q < |ids| ==> Precedes(descs, ids[p], ids[q])
  }

  /** `ids` starts with the boot CPU and goes on with all other enabled CPUs in order. */
  ghost predicate IsRemap(descs: seq<CpuDesc>, boot: nat, ids: seq<nat>) {
    && ids != [] && ids[0] == boot
    && Sorted(descs, ids[1..])
    && forall j :: j in ids[1..] <==> IsEnabled(descs, j) && j != boot
  }

  // ---- counting ----------------------------------------------------------------------------

  function EnabledBelow(descs: seq<CpuDesc>, n: nat): (s: set<nat>)
    requires n <= |descs|
  {
    set i | 0 <= i < n && descs[i].Enabled()
  }

  /** The number of enabled CPUs. */
  method Cpus(descs: seq<CpuDesc>) returns (cpuNum: nat)
    ensures cpuNum == |EnabledIds(descs)|
  {
    cpuNum := 0;
    for i := 0 to |descs|
      invariant cpuNum == |EnabledBelow(descs, i)|
    {
      assert EnabledBelow(descs, i + 1) == EnabledBelow(descs, i) + if descs[i].Enabled() then {i} else {};
      if descs[i].Enabled() {
        cpuNum := cpuNum + 1;
      }
    }
    assert EnabledBelow(descs, |descs|) == EnabledIds(descs);
  }

  function Elements(s: seq<nat>): set<nat> {
    set x | x in s
  }

  lemma {:induction false} DistinctCount(s: seq<nat>)
    requires forall p, q :: 0 <= p < q < |s| ==> s[p] != s[q]
    ensures |Elements(s)| == |s|
  {
    if s == [] {
      assert Elements(s) == {};
    } else {
      DistinctCount(s[1..]);
      assert Elements(s) == {s[0]} + Elements(s[1..]);
    }
  }

  lemma {:induction false} SubsetOfSameSize(a: set<nat>, b: set<nat>)
    requires a <= b && |a| >= |b|
    ensures a == b
  {
    if x :| x in b && x !in a {
      assert a <= b - {x};
      SubsetSize(a, b - {x});
    }
  }

  lemma {:induction false} SubsetSize(a: set<nat>, b: set<nat>)
    requires a <= b
    ensures |a| <= |b|
  {
    if x :| x in a {
      SubsetSize(a - {x}, b - {x});
    }
  }

  // ---- state of the enumeration ---------------------------------------------------------------

  /** CPU `j` was visited once the enumeration stands at `rank` and index `i`. */
  predicate Visited(descs: seq<CpuDesc>, rank: nat, i: nat, j: nat)
    requires j < |descs|
  {
    descs[j].Rank() < rank || (descs[j].Rank() == rank && j < i)
  }

  /** CPU `j` has got its number, during the pass over E-cores or the one over all other cores. */
  predicate Taken(descs: seq<CpuDesc>, boot: nat, eCores: bool, rank: nat, i: nat, j: nat) {
    && IsEnabled(descs, j) && j != boot
    && (descs[j].ECore() ==> eCores)
    && (descs[j].ECore() == eCores ==> Visited(descs, rank, i, j))
  }

  ghost predicate Assigned(descs: seq<CpuDesc>, boot: nat, ids: seq<nat>, eCores: bool, rank: nat, i: nat) {
    && ids != [] && ids[0] == boot
    && Sorted(descs, ids[1..])
    && forall j :: j in ids[1..] <==> Taken(descs, boot, eCores, rank, i, j)
  }

  lemma AssignNext(descs: seq<CpuDesc>, boot: nat, ids: seq<nat>, eCores: bool, rank: nat, i: nat)
    requires Assigned(descs, boot, ids, eCores, rank, i)
    requires IsEnabled(descs, i) && i != boot && descs[i].ECore() == eCores && descs[i].Rank() == rank
    ensures Assigned(descs, boot, ids + [i], eCores, rank, i + 1)
  {
    assert (ids + [i])[1..] == ids[1..] + [i];
    forall p | 0 <= p < |ids[1..]|
      ensures Precedes(descs, ids[1..][p], i)
    {
      assert ids[1..][p] in ids[1..];
    }
    forall j
      ensures j in ids[1..] + [i] <==> Taken(descs, boot, eCores, rank, i + 1, j)
    {
      assert j in ids[1..] + [i] <==> j in ids[1..] || j == i;
    }
  }

  lemma SkipNext(descs: seq<CpuDesc>, boot: nat, ids: seq<nat>, eCores: bool, rank: nat, i: nat)
    requires Assigned(descs, boot, ids, eCores, rank, i)
    requires !(IsEnabled(descs, i) && i != boot && descs[i].ECore() == eCores && descs[i].Rank() == rank)
    ensures Assigned(descs, boot, ids, eCores, rank, i + 1)
  {
    forall j
      ensures j in ids[1..] <==> Taken(descs, boot, eCores, rank, i + 1, j)
    {
      assert j in ids[1..] <==> Taken(descs, boot, eCores, rank, i, j);
    }
  }

  lemma NextRank(descs: seq<CpuDesc>, boot: nat, ids: seq<nat>, eCores: bool, rank: nat)
    requires Assigned(descs, boot, ids, eCores, rank, |descs|)
    ensures Assigned(descs, boot, ids, eCores, rank + 1, 0)
  {
    forall j
      ensures j in ids[1..] <==> Taken(descs, boot, eCores, rank + 1, 0, j)
    {
      assert j in ids[1..] <==> Taken(descs, boot, eCores, rank, |descs|, j);
    }
  }

  const RANKS: nat := 0x100_0000

  lemma RankBound(d: CpuDesc)
    requires d.Typed()
    ensures d.Rank() < RANKS
  {
  }

  /** After the pass over all other cores, the pass over E-cores can start. */
  lemma StartECores(descs: seq<CpuDesc>, boot: nat, ids: seq<nat>)
    requires Typed(descs) && Assigned(descs, boot, ids, false, RANKS, 0)
    ensures Assigned(descs, boot, ids, true, 0, 0)
  {
    forall j: nat
      ensures j in ids[1..] <==> Taken(descs, boot, true, 0, 0, j)
    {
      if j < |descs| {
        RankBound(descs[j]);
      }
      assert j in ids[1..] <==> Taken(descs, boot, false, RANKS, 0, j);
    }
  }

  /** What has been assigned is a set of distinct enabled CPUs. */
  lemma AssignedCount(descs: seq<CpuDesc>, boot: nat, ids: seq<nat>, eCores: bool, rank: nat, i: nat)
    requires IsEnabled(descs, boot) && Assigned(descs, boot, ids, eCores, rank, i)
    ensures Elements(ids) <= EnabledIds(descs) && |Elements(ids)| == |ids|
  {
    forall p | 0 <= p < |ids|
      ensures IsEnabled(descs, ids[p]) && (p > 0 ==> ids[p] != boot)
    {
      if p > 0 {
        assert ids[p] == ids[1..][p - 1];
        assert ids[p] in ids[1..];
      }
    }
    forall p, q | 0 <= p < q < |ids|
      ensures ids[p] != ids[q]
    {
      if p > 0 {
        assert Precedes(descs, ids[1..][p - 1], ids[1..][q - 1]);
      }
    }
    DistinctCount(ids);
  }

  /** Once as many CPUs are assigned as are enabled, none is missing, and the order is final. */
  lemma AllAssigned(descs: seq<CpuDesc>, boot: nat, ids: seq<nat>, eCores: bool, rank: nat, i: nat)
    requires IsEnabled(descs, boot) && Assigned(descs, boot, ids, eCores, rank, i)
    requires |ids| >= |EnabledIds(descs)|
    ensures IsRemap(descs, boot, ids) && |ids| == |EnabledIds(descs)|
  {
    AssignedCount(descs, boot, ids, eCores, rank, i);
    SubsetOfSameSize(Elements(ids), EnabledIds(descs));
    forall j
      ensures j in ids[1..] <==> IsEnabled(descs, j) && j != boot
    {
      if IsEnabled(descs, j) && j != boot {
        assert j in EnabledIds(descs);
        assert j in ids;
      }
    }
  }

  /** A completed pass over the E-cores leaves no CPU unassigned. */
  lemma ECoresComplete(descs: seq<CpuDesc>, boot: nat, ids: seq<nat>)
    requires Typed(descs) && IsEnabled(descs, boot) && Assigned(descs, boot, ids, true, RANKS, 0)
    ensures |ids| == |EnabledIds(descs)|
  {
    AssignedCount(descs, boot, ids, true, RANKS, 0);
    forall j | j in EnabledIds(descs)
      ensures j in Elements(ids)
    {
      RankBound(descs[j]);
      if j == boot {
        assert ids[0] in ids;
      } else {
        assert Taken(descs, boot, true, RANKS, 0, j);
        assert j in ids[1..];
      }
    }
    assert Elements(ids) == EnabledIds(descs);
  }

  // ---- the renumbering -------------------------------------------------------------------------

  /** The innermost loop of `for_all_cpus`: all table entries of one package, core and thread. */
  method AssignThread(descs: seq<CpuDesc>, boot: nat, mapCpus: array<nat>, eCores: bool, numCpus: nat, start: nat,
                      pkg: nat, core: nat, thread: nat)
    returns (done: bool, cpuI: nat)
    requires Typed(descs) && |descs| <= 256 && IsEnabled(descs, boot)
    requires numCpus == |EnabledIds(descs)| && start < numCpus <= mapCpus.Length
    requires core < 256 && thread < 256
    requires Assigned(descs, boot, mapCpus[..start], eCores, (pkg * 256 + core) * 256 + thread, 0)
    modifies mapCpus
    ensures cpuI <= mapCpus.Length && mapCpus[numCpus..] == old(mapCpus[numCpus..])
    ensures done ==> cpuI == numCpus && IsRemap(descs, boot, mapCpus[..numCpus])
    ensures !done ==> cpuI < numCpus
    ensures !done ==> Assigned(descs, boot, mapCpus[..cpuI], eCores, (pkg * 256 + core) * 256 + thread + 1, 0)
  {
    ghost var rank := (pkg * 256 + core) * 256 + thread;
    cpuI := start;
    for i := 0 to |descs|
      invariant cpuI < numCpus && mapCpus[numCpus..] == old(mapCpus[numCpus..])
      invariant Assigned(descs, boot, mapCpus[..cpuI], eCores, rank, i)
    {
      ghost var ids := mapCpus[..cpuI];
      if Selected(descs, boot, eCores, pkg, core, thread, i) {
        AssignNext(descs, boot, ids, eCores, rank, i);
        mapCpus[cpuI] := if eCores then i % 0x1_0000 else i % 0x100;
        cpuI := cpuI + 1;
        assert mapCpus[..cpuI] == ids + [i];
        if cpuI >= numCpus {
          AllAssigned(descs, boot, ids + [i], eCores, rank, i + 1);
          return true, cpuI;
        }
      } else {
        SkipNext(descs, boot, ids, eCores, rank, i);
      }
    }
    NextRank(descs, boot, mapCpus[..cpuI], eCores, rank);
    done := false;
  }

  /** The tests of the loop and of the callback that let CPU `i` be numbered. */
  predicate Selected(descs: seq<CpuDesc>, boot: nat, eCores: bool, pkg: nat, core: nat, thread: nat, i: nat)
    requires i < |descs| && descs[i].Typed() && core < 256 && thread < 256
    ensures Selected(descs, boot, eCores, pkg, core, thread, i) <==>
              IsEnabled(descs, i) && i != boot && descs[i].ECore() == eCores
              && descs[i].Rank() == (pkg * 256 + core) * 256 + thread
  {
    var cpu := descs[i];
    cpu.Enabled() && cpu.pkg == pkg && cpu.core == core && cpu.thread == thread && i != boot && cpu.ECore() == eCores
  }

  /**
   One pass of `for_all_cpus` with the callback of `remap_cpu_ids` that takes solely E-cores
   or solely other cores. Identifiers of the latter are stored through an 8-bit conversion.
   */
  method AssignCpus(descs: seq<CpuDesc>, boot: nat, mapCpus: array<nat>, eCores: bool, numCpus: nat, start: nat)
    returns (done: bool, cpuI: nat)
    requires Typed(descs) && |descs| <= 256 && IsEnabled(descs, boot)
    requires numCpus == |EnabledIds(descs)| && start < numCpus <= mapCpus.Length
    requires Assigned(descs, boot, mapCpus[..start], eCores, 0, 0)
    modifies mapCpus
    ensures cpuI <= mapCpus.Length && mapCpus[numCpus..] == old(mapCpus[numCpus..])
    ensures done ==> cpuI == numCpus && IsRemap(descs, boot, mapCpus[..numCpus])
    ensures !done ==> cpuI < numCpus && Assigned(descs, boot, mapCpus[..cpuI], eCores, RANKS, 0)
  {
    cpuI := start;
    for pkg := 0 to 256
      invariant cpuI < numCpus && mapCpus[numCpus..] == old(mapCpus[numCpus..])
      invariant Assigned(descs, boot, mapCpus[..cpuI], eCores, (pkg * 256 + 0) * 256 + 0, 0)
    {
      for core := 0 to 256
        invariant cpuI < numCpus && mapCpus[numCpus..] == old(mapCpus[numCpus..])
        invariant Assigned(descs, boot, mapCpus[..cpuI], eCores, (pkg * 256 + core) * 256 + 0, 0)
      {
        for thread := 0 to 256
          invariant cpuI < numCpus && mapCpus[numCpus..] == old(mapCpus[numCpus..])
          invariant Assigned(descs, boot, mapCpus[..cpuI], eCores, (pkg * 256 + core) * 256 + thread, 0)
        {
          done, cpuI := AssignThread(descs, boot, mapCpus, eCores, numCpus, cpuI, pkg, core, thread);
          if done {
            return;
          }
        }
      }
    }
    done := false;
  }

  /** Number the enabled CPUs, starting with the boot CPU and ending with the E-cores. */
  method RemapCpuIds(descs: seq<CpuDesc>, mapCpus: array<nat>, bootCpu: nat) returns (ok: bool)
    requires Typed(descs) && |descs| <= 256 && |descs| <= mapCpus.Length
    modifies mapCpus
    ensures ok <==> IsEnabled(descs, bootCpu) && !descs[bootCpu].ECore()
    ensures !ok ==> mapCpus[..] == old(mapCpus[..])
    ensures ok ==> |EnabledIds(descs)| <= mapCpus.Length
    ensures ok ==> IsRemap(descs, bootCpu, mapCpus[..|EnabledIds(descs)|])
    ensures ok ==> mapCpus[|EnabledIds(descs)|..] == old(mapCpus[|EnabledIds(descs)|..])
  {
    var numCpus := Cpus(descs);
    var cpuI := 0;

    if bootCpu >= |descs| || !descs[bootCpu].Enabled() || descs[bootCpu].ECore() {
      return false;
    }
    EnabledCountBounds(descs, bootCpu);
    mapCpus[cpuI] := bootCpu % 0x100;
    cpuI := cpuI + 1;
    assert mapCpus[..cpuI] == [bootCpu];
    assert Assigned(descs, bootCpu, mapCpus[..cpuI], false, 0, 0);
    if cpuI >= numCpus {
      AllAssigned(descs, bootCpu, mapCpus[..cpuI], false, 0, 0);
      return true;
    }

    var done: bool;
    done, cpuI := AssignCpus(descs, bootCpu, mapCpus, false, numCpus, cpuI);

    if !done {
      StartECores(descs, bootCpu, mapCpus[..cpuI]);
      done, cpuI := AssignCpus(descs, bootCpu, mapCpus, true, numCpus, cpuI);
      if !done {
        ECoresComplete(descs, bootCpu, mapCpus[..cpuI]);
      }
    }
    return done;
  }

  lemma EnabledCountBounds(descs: seq<CpuDesc>, boot: nat)
    requires IsEnabled(descs, boot)
    ensures 1 <= |EnabledIds(descs)| <= |descs|
  {
    IdsBelowCount(|descs|);
    SubsetSize(EnabledIds(descs), IdsBelow(|descs|));
    SubsetSize({boot}, EnabledIds(descs));
  }

  function IdsBelow(n: nat): set<nat> {
    if n == 0 then {} else IdsBelow(n - 1) + {n - 1}
  }

  lemma {:induction false} IdsBelowCount(n: nat)
    ensures |IdsBelow(n)| == n && forall i: nat :: i in IdsBelow(n) <==> i < n
  {
    if n > 0 {
      IdsBelowCount(n - 1);
    }
  }

  /** The contract of the renumbering leaves no choice. */
  lemma RemapIsUnique(descs: seq<CpuDesc>, boot: nat, s: seq<nat>, t: seq<nat>)
    requires IsRemap(descs, boot, s) && IsRemap(descs, boot, t)
    ensures s == t
  {
    forall j
      ensures j in s[1..] <==> j in t[1..]
    {
      assert j in s[1..] <==> IsEnabled(descs, j) && j != boot;
    }
    SortedIsUnique(descs, s[1..], t[1..]);
    assert s == [s[0]] + s[1..] && t == [t[0]] + t[1..];
  }

  lemma {:induction false} SortedIsUnique(descs: seq<CpuDesc>, s: seq<nat>, t: seq<nat>)
    requires Sorted(descs, s) && Sorted(descs, t)
    requires forall j :: j in s <==> j in t
    ensures s == t
  {
    assert s != [] ==> s[0] in s;
    assert t != [] ==> t[0] in t;
    if s != [] && t != [] {
      var p :| 0 <= p < |t| && t[p] == s[0];
      var q :| 0 <= q < |s| && s[q] == t[0];
      assert s == [s[0]] + s[1..] && t == [t[0]] + t[1..];
      forall j
        ensures j in s[1..] <==> j in t[1..]
      {
        assert j in s <==> j == s[0] || j in s[1..];
        assert j in t <==> j == t[0] || j in t[1..];
        assert s[0] !in s[1..] && t[0] !in t[1..];
      }
      SortedIsUnique(descs, s[1..], t[1..]);
    }
  }
}
