/**
 Quota guards with transactional reservations, and the RAM allocator that charges RAM and
 capability quota for each dataspace it obtains from a backend.
 */
module QuotaAccounting {
  import opened MachineWords

  // ---- specification ------------------------------------------------------------------------

  datatype Guard = Guard(limit: nat, used: nat) {

    predicate Sound() { used <= limit < TWO_64 }

    function Avail(): nat { U64(limit - used) }

    function Upgrade(amount: nat): Guard {
      var newLimit := U64(limit + amount);
      Guard(if newLimit < limit then TWO_64 - 1 else newLimit, used)
    }

    function Downgrade(amount: nat): Guard {
      if Avail() < amount then this else Guard(U64(limit - amount), used)
    }

    /** The outcome of a withdrawal that is granted exactly if the amount is available. */
    function Withdraw(amount: nat): Guard {
      if amount > Avail() then this else Guard(limit, U64(used + amount))
    }

    function Replenish(amount: nat): Guard {
      Guard(limit, if amount > used then 0 else used - amount)
    }
  }

  datatype Error = OutOfRam | OutOfCaps | Denied

  /** `Granted` tells the new dataspace and the size that the backend reports for it. */
  datatype Answer = Granted(ds: nat, size: nat) | Refused(error: Error)

  datatype Result = Allocated(ds: nat) | Failed(error: Error)

  /** The requested size in whole pages; it wraps around to zero at the end of the range. */
  function PageAligned(size: nat): nat {
    RoundPage(size)
  }

  datatype State = State(ram: Guard, caps: Guard, live: map<nat, nat>)

  datatype Op =
    | Alloc(size: nat, answer: Answer)
    | Free(ds: nat)
    | UpgradeRam(amount: nat) | DowngradeRam(amount: nat)
    | UpgradeCaps(amount: nat) | DowngradeCaps(amount: nat)

  predicate Typed(op: Op) {
    match op
    case Alloc(size, _) => size < TWO_64
    case Free(_) => true
    case UpgradeRam(amount) => amount < TWO_64
    case DowngradeRam(amount) => amount < TWO_64
    case UpgradeCaps(amount) => amount < TWO_64
    case DowngradeCaps(amount) => amount < TWO_64
  }

  /** The backend grants fresh dataspaces of the size asked for, and callers free only what they hold. */
  predicate Enabled(s: State, op: Op) {
    match op
    case Alloc(size, Granted(ds, actual)) => ds !in s.live && actual == PageAligned(size)
    case Free(ds) => ds in s.live
    case _ => true
  }

  function AllocResult(s: State, size: nat, answer: Answer): Result {
    if PageAligned(size) > s.ram.Avail() then Failed(OutOfRam)
    else if 1 > s.caps.Avail() then Failed(OutOfCaps)
    else match answer
      case Granted(ds, _) => Allocated(ds)
      case Refused(error) => Failed(error)
  }

  function Step(s: State, op: Op): State {
    match op
    case Alloc(size, answer) =>
      if AllocResult(s, size, answer).Failed? then s
      else State(s.ram.Withdraw(PageAligned(size)), s.caps.Withdraw(1), s.live[answer.ds := answer.size])
    case Free(ds) =>
      if ds !in s.live then s
      else State(s.ram.Replenish(s.live[ds]), s.caps.Replenish(1), s.live - {ds})
    case UpgradeRam(amount) => s.(ram := s.ram.Upgrade(amount))
    case DowngradeRam(amount) => s.(ram := s.ram.Downgrade(amount))
    case UpgradeCaps(amount) => s.(caps := s.caps.Upgrade(amount))
    case DowngradeCaps(amount) => s.(caps := s.caps.Downgrade(amount))
  }

  function Run(s: State, ops: seq<Op>): State
    decreases |ops|
  {
    if ops == [] then s else Run(Step(s, ops[0]), ops[1..])
  }

  predicate EnabledRun(s: State, ops: seq<Op>)
    decreases |ops|
  {
    ops == [] || (Typed(ops[0]) && Enabled(s, ops[0]) && EnabledRun(Step(s, ops[0]), ops[1..]))
  }

  // ---- accounting ---------------------------------------------------------------------------

  ghost function Sum(live: map<nat, nat>): nat {
    if live == map[] then 0
    else
      var ds :| ds in live;
      live[ds] + Sum(live - {ds})
  }

  lemma {:induction false} SumWithout(live: map<nat, nat>, ds: nat)
    requires ds in live
    ensures Sum(live) == live[ds] + Sum(live - {ds})
    decreases |live|
  {
    var first :| first in live && Sum(live) == live[first] + Sum(live - {first});
    if first != ds {
      SumWithout(live - {first}, ds);
      SumWithout(live - {ds}, first);
      assert live - {first} - {ds} == live - {ds} - {first};
    }
  }

  ghost predicate Accounted(s: State) {
    && s.ram.Sound() && s.caps.Sound()
    && s.ram.used == Sum(s.live) && s.caps.used == |s.live|
  }

  /** The guard's operations in terms of unbounded numbers. */
  lemma GuardMeaning(g: Guard, amount: nat)
    requires g.Sound() && amount < TWO_64
    ensures g.Avail() == g.limit - g.used
    ensures g.Withdraw(amount) == if g.used + amount <= g.limit then Guard(g.limit, g.used + amount) else g
    ensures g.Downgrade(amount) == if g.used + amount <= g.limit then Guard(g.limit - amount, g.used) else g
    ensures g.Upgrade(amount) ==
            Guard(if g.limit + amount < TWO_64 then g.limit + amount else TWO_64 - 1, g.used)
  {
    assert g.limit + amount >= TWO_64 ==> U64(g.limit + amount) == g.limit + amount - TWO_64;
  }

  lemma AllocKeepsAccounts(s: State, n: nat, ds: nat)
    requires Accounted(s) && n < TWO_64 && ds !in s.live && n <= s.ram.Avail() && 1 <= s.caps.Avail()
    ensures Accounted(State(s.ram.Withdraw(n), s.caps.Withdraw(1), s.live[ds := n]))
  {
    GuardMeaning(s.ram, n);
    GuardMeaning(s.caps, 1);
    SumWithout(s.live[ds := n], ds);
    assert s.live[ds := n] - {ds} == s.live;
  }

  lemma StepKeepsAccounts(s: State, op: Op)
    requires Accounted(s) && Typed(op) && Enabled(s, op)
    ensures Accounted(Step(s, op))
  {
    match op
    case Alloc(size, answer) =>
      if AllocResult(s, size, answer).Allocated? {
        AllocKeepsAccounts(s, answer.size, answer.ds);
      }
    case Free(ds) =>
      SumWithout(s.live, ds);
    case UpgradeRam(amount) =>
      GuardMeaning(s.ram, amount);
    case DowngradeRam(amount) =>
      GuardMeaning(s.ram, amount);
    case UpgradeCaps(amount) =>
      GuardMeaning(s.caps, amount);
    case DowngradeCaps(amount) =>
      GuardMeaning(s.caps, amount);
  }

  /**
   Over every run, the RAM used is the sum of the sizes of the living dataspaces, the
   capabilities used are their number, and neither exceeds its limit.
   */
  lemma {:induction false} RunKeepsAccounts(s: State, ops: seq<Op>)
    requires Accounted(s) && EnabledRun(s, ops)
    ensures Accounted(Run(s, ops))
    decreases |ops|
  {
    if ops != [] {
      StepKeepsAccounts(s, ops[0]);
      RunKeepsAccounts(Step(s, ops[0]), ops[1..]);
    }
  }

  lemma {:induction false} LimitsStay(s: State, ops: seq<Op>)
    requires forall i :: 0 <= i < |ops| ==> ops[i].Alloc? || ops[i].Free?
    ensures Run(s, ops).ram.limit == s.ram.limit && Run(s, ops).caps.limit == s.caps.limit
    decreases |ops|
  {
    if ops != [] {
      LimitsStay(Step(s, ops[0]), ops[1..]);
    }
  }

  /** When all dataspaces are freed, the whole quota is available again. */
  lemma QuotaIsReturned(s: State, ops: seq<Op>)
    requires Accounted(s) && s.live == map[] && EnabledRun(s, ops)
    requires forall i :: 0 <= i < |ops| ==> ops[i].Alloc? || ops[i].Free?
    requires Run(s, ops).live == map[]
    ensures Run(s, ops) == s
  {
    RunKeepsAccounts(s, ops);
    LimitsStay(s, ops);
  }

  /** A failed allocation changes nothing, and one fails exactly if quota lacks or the backend refuses. */
  lemma FailedAllocChangesNothing(s: State, size: nat, answer: Answer)
    requires Accounted(s)
    ensures var r := AllocResult(s, size, answer);
            && (r.Failed? ==> Step(s, Alloc(size, answer)) == s)
            && (r.Failed? <==> s.ram.used + PageAligned(size) > s.ram.limit
                               || s.caps.used == s.caps.limit || answer.Refused?)
  {
  }

  /**
   The size that is charged and requested from the backend covers the size asked for exactly if the
   latter does not reach into the last page of the range. Then, nothing is charged at all.
   */
  lemma AllocationCoversIff(s: State, size: nat, ds: nat)
    requires Accounted(s) && size < TWO_64 && ds !in s.live
    requires AllocResult(s, size, Granted(ds, PageAligned(size))).Allocated?
    ensures var s' := Step(s, Alloc(size, Granted(ds, PageAligned(size))));
            && (s'.live[ds] >= size <==> size <= TWO_64 - PAGE)
            && (size <= TWO_64 - PAGE ==> s'.live[ds] < size + PAGE && s'.ram.used == s.ram.used + s'.live[ds])
            && (size > TWO_64 - PAGE ==> s'.live[ds] == 0 && s'.ram == s.ram)
  {
    PageAlignedMeaning(size);
    GuardMeaning(s.ram, PageAligned(size));
  }

  lemma PageAlignedMeaning(size: nat)
    requires size < TWO_64
    ensures size <= TWO_64 - PAGE ==> size <= PageAligned(size) < size + PAGE
    ensures size > TWO_64 - PAGE ==> PageAligned(size) == 0
  {
  }

  /**
   With a backend that reports some other size, allocating and freeing a dataspace restores the
   RAM quota exactly if the sizes agree, or if nothing else was used and it is reported as larger.
   */
  lemma AllocThenFreeRestoresIff(s: State, size: nat, ds: nat, actual: nat)
    requires Accounted(s) && size < TWO_64 && ds !in s.live
    requires AllocResult(s, size, Granted(ds, actual)).Allocated?
    ensures var s' := Step(Step(s, Alloc(size, Granted(ds, actual))), Free(ds));
            && s'.live == s.live && s'.caps == s.caps
            && (s'.ram == s.ram <==> actual == PageAligned(size) || (s.ram.used == 0 && actual > PageAligned(size)))
  {
    var n := PageAligned(size);
    GuardMeaning(s.ram, n);
    GuardMeaning(s.caps, 1);
    assert s.live[ds := actual] - {ds} == s.live;
    assert Step(s, Alloc(size, Granted(ds, actual))) == State(s.ram.Withdraw(n), s.caps.Withdraw(1), s.live[ds := actual]);
  }

  // ---- the guards ---------------------------------------------------------------------------

  class QuotaGuard {
    var limit: nat
    var used: nat

    ghost function Value(): Guard
      reads this
    {
      Guard(limit, used)
    }

    constructor ()
      ensures Value() == Guard(0, 0)
    {
      limit, used := 0, 0;
    }

    method Avail() returns (avail: nat)
      ensures avail == Value().Avail()
    {
      avail := U64(limit - used);
    }

    method Upgrade(amount: nat)
      modifies this
      ensures Value() == old(Value()).Upgrade(amount)
      ensures old(limit) < TWO_64 && amount < TWO_64 ==>
                used == old(used) && limit == if old(limit) + amount < TWO_64 then old(limit) + amount else TWO_64 - 1
    {
      var newLimit := U64(limit + amount);
      var overflow := newLimit < limit;
      limit := if overflow then TWO_64 - 1 else newLimit;
    }

    method TryDowngrade(amount: nat) returns (ok: bool)
      modifies this
      ensures ok <==> amount <= old(Value()).Avail()
      ensures Value() == old(Value()).Downgrade(amount)
      ensures old(Value()).Sound() ==>
                && (ok <==> old(used) + amount <= old(limit))
                && used == old(used) && limit == if ok then old(limit) - amount else old(limit)
    {
      var avail := Avail();
      if avail < amount {
        return false;
      }
      limit := U64(limit - amount);
      return true;
    }

    method TryWithdraw(amount: nat) returns (ok: bool)
      modifies this
      ensures ok <==> amount <= old(Value()).Avail()
      ensures Value() == old(Value()).Withdraw(amount)
      ensures old(Value()).Sound() ==>
                && (ok <==> old(used) + amount <= old(limit))
                && limit == old(limit) && used == if ok then old(used) + amount else old(used)
    {
      var avail := Avail();
      if amount > avail {
        return false;
      }
      used := U64(used + amount);
      return true;
    }

    method Replenish(amount: nat)
      modifies this
      ensures Value() == old(Value()).Replenish(amount)
      ensures limit == old(limit) && used == if amount <= old(used) then old(used) - amount else 0
    {
      var underflow := amount > used;
      used := if underflow then 0 else used - amount;
    }
  }

  /** A withdrawal that is rolled back at the end of the reservation's scope if it was canceled. */
  class ReservationGuard {
    const guard: QuotaGuard
    const amount: nat
    var canceled: bool

    constructor (guard: QuotaGuard, amount: nat)
      ensures this.guard == guard && this.amount == amount && !canceled
    {
      this.guard, this.amount, canceled := guard, amount, false;
    }

    method Cancel()
      modifies this
      ensures canceled
    {
      canceled := true;
    }

    method Destruct()
      modifies guard
      ensures guard.Value() == if canceled then old(guard.Value()).Replenish(amount) else old(guard.Value())
      ensures !canceled ==> guard.used == old(guard.used)
      ensures canceled ==> guard.used == if amount <= old(guard.used) then old(guard.used) - amount else 0
    {
      if canceled {
        guard.Replenish(amount);
      }
    }
  }

  class RamBackend {
    var live: map<nat, nat>

    constructor ()
      ensures live == map[]
    {
      live := map[];
    }

    /** `answer` is the decision of the backend. */
    method TryAlloc(answer: Answer)
      requires answer.Granted? ==> answer.ds !in live
      modifies this
      ensures live == if answer.Granted? then old(live)[answer.ds := answer.size] else old(live)
    {
      if answer.Granted? {
        live := live[answer.ds := answer.size];
      }
    }

    method Free(ds: nat)
      modifies this
      ensures live == old(live) - {ds}
    {
      live := live - {ds};
    }
  }

  lemma WithdrawThenReplenish(g: Guard, amount: nat)
    requires g.Sound() && amount <= g.Avail()
    ensures g.Withdraw(amount).Sound() && g.Withdraw(amount).Replenish(amount) == g
  {
  }

  class ConstrainedRamAllocator {
    const backend: RamBackend
    const ramGuard: QuotaGuard
    const capGuard: QuotaGuard

    ghost function Value(): State
      reads this, backend, ramGuard, capGuard
    {
      State(ramGuard.Value(), capGuard.Value(), backend.live)
    }

    ghost predicate Valid()
      reads this, backend, ramGuard, capGuard
    {
      ramGuard != capGuard && Accounted(Value())
    }

    constructor (backend: RamBackend, ramGuard: QuotaGuard, capGuard: QuotaGuard)
      ensures this.backend == backend && this.ramGuard == ramGuard && this.capGuard == capGuard
    {
      this.backend, this.ramGuard, this.capGuard := backend, ramGuard, capGuard;
    }

    method TryAlloc(size: nat, answer: Answer) returns (r: Result)
      requires Valid() && size < TWO_64 && Enabled(Value(), Alloc(size, answer))
      modifies backend, ramGuard, capGuard
      ensures Valid()
      ensures r == AllocResult(old(Value()), size, answer)
      ensures Value() == Step(old(Value()), Alloc(size, answer))
      ensures var lackRam := old(ramGuard.used) + PageAligned(size) > ramGuard.limit;
              var lackCaps := old(capGuard.used) == capGuard.limit;
              && (r.Failed? <==> lackRam || lackCaps || answer.Refused?)
              && (r.Failed? ==> r.error == if lackRam then OutOfRam else if lackCaps then OutOfCaps else answer.error)
      ensures r.Allocated? ==>
                && answer.Granted? && r.ds == answer.ds && r.ds !in old(backend.live)
                && backend.live == old(backend.live)[r.ds := answer.size]
                && ramGuard.used == old(ramGuard.used) + PageAligned(size) && capGuard.used == old(capGuard.used) + 1
      ensures r.Failed? ==>
                && backend.live == old(backend.live)
                && ramGuard.used == old(ramGuard.used) && capGuard.used == old(capGuard.used)
      ensures ramGuard.limit == old(ramGuard.limit) && capGuard.limit == old(capGuard.limit)
    {
      StepKeepsAccounts(Value(), Alloc(size, answer));
      FailedAllocChangesNothing(Value(), size, answer);
      GuardMeaning(ramGuard.Value(), PageAligned(size));
      GuardMeaning(capGuard.Value(), 1);
      var pageAlignedSize := PageAligned(size);
      WithdrawThenReplenish(ramGuard.Value(), if pageAlignedSize <= ramGuard.Value().Avail() then pageAlignedSize else 0);
      WithdrawThenReplenish(capGuard.Value(), if 1 <= capGuard.Value().Avail() then 1 else 0);
      var ok := ramGuard.TryWithdraw(pageAlignedSize);
      if !ok {
        return Failed(OutOfRam);
      }
      var ramReservation := new ReservationGuard(ramGuard, pageAlignedSize);
      ok := capGuard.TryWithdraw(1);
      if !ok {
        ramReservation.Cancel();
        ramReservation.Destruct();
        return Failed(OutOfCaps);
      }
      var capReservation := new ReservationGuard(capGuard, 1);
      backend.TryAlloc(answer);
      match answer {
        case Granted(ds, _) =>
          r := Allocated(ds);
        case Refused(error) =>
          capReservation.Cancel();
          ramReservation.Cancel();
          r := Failed(error);
      }
      capReservation.Destruct();
      ramReservation.Destruct();
    }

    method Free(ds: nat)
      requires Valid() && ds in backend.live
      modifies backend, ramGuard, capGuard
      ensures Valid()
      ensures Value() == Step(old(Value()), Op.Free(ds))
      ensures backend.live == old(backend.live) - {ds}
      ensures ramGuard.used == old(ramGuard.used) - old(backend.live[ds]) && ramGuard.limit == old(ramGuard.limit)
      ensures capGuard.used == old(capGuard.used) - 1 && capGuard.limit == old(capGuard.limit)
    {
      StepKeepsAccounts(Value(), Op.Free(ds));
      SumWithout(backend.live, ds);
      var size := backend.live[ds];
      backend.Free(ds);
      ramGuard.Replenish(size);
      capGuard.Replenish(1);
    }
  }
}
