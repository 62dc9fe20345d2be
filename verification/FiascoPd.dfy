/**
 Protection domains of the Fiasco port: the table of versioned task ids shared by all
 protection domains, and the table of thread slots of each of them.
 */
module FiascoPd {
  import opened Sequences
  import opened Wrappers

  const PD_FIRST: nat := 0x10
  const PD_MAX: nat := 0x7ff
  const PD_VERSION_MAX: nat := 0x3ff
  const PD_INVALID: int := -1
  const THREAD_MAX: nat := 0x80
  const THREAD_INVALID: int := -1

  datatype PdAlloc = PdAlloc(reserved: bool, free: bool, version: nat)

  datatype L4Id = Invalid | L4Id(task: nat, version: nat, lthread: nat)

  /** The kernel's name for a protection domain: 11 bits for the task, 10 bits for the version. */
  function TaskId(pdId: nat, version: nat): L4Id {
    L4Id(pdId % 0x800, version % 0x400, 0)
  }

  // ---- specification of the protection-domain table ------------------------------------------

  function InitialPds(): (pds: seq<PdAlloc>)
    ensures |pds| == PD_MAX && forall i :: 0 <= i < PD_MAX ==> pds[i] == PdAlloc(i < PD_FIRST, true, 0)
  {
    seq(PD_MAX, i => PdAlloc(i < PD_FIRST, true, 0))
  }

  /** The first free entry from `i` on, or the length of the table. */
  function FirstFree(pds: seq<PdAlloc>, i: nat): (r: nat)
    requires i <= |pds|
    ensures i <= r <= |pds| && (r < |pds| ==> pds[r].free)
    ensures forall j :: i <= j < r ==> !pds[j].free
    decreases |pds| - i
  {
    if i == |pds| || pds[i].free then i else FirstFree(pds, i + 1)
  }

  predicate ValidPdArg(pdId: int) {
    pdId == PD_INVALID || 0 <= pdId < PD_MAX
  }

  /** The entry to hand out, or a negative number. */
  function Chosen(pds: seq<PdAlloc>, pdId: int): (r: int)
    requires |pds| == PD_MAX && ValidPdArg(pdId)
    ensures r < PD_MAX && (r >= 0 ==> pds[r].free)
    ensures pdId == PD_INVALID ==>
              && (r >= 0 ==> PD_FIRST <= r && forall j :: PD_FIRST <= j < r ==> !pds[j].free)
              && (r < 0 ==> forall j :: PD_FIRST <= j < PD_MAX ==> !pds[j].free)
    ensures pdId != PD_INVALID ==> (r >= 0 <==> pds[pdId].reserved && pds[pdId].free) && (r >= 0 ==> r == pdId)
  {
    if pdId == PD_INVALID then
      var i := FirstFree(pds, PD_FIRST);
      if i == PD_MAX then -1 else i
    else if pds[pdId].reserved && pds[pdId].free then pdId
    else -1
  }

  function AfterAlloc(pds: seq<PdAlloc>, pdId: int): (r: seq<PdAlloc>)
    requires |pds| == PD_MAX && ValidPdArg(pdId)
    ensures |r| == PD_MAX
  {
    var id := Chosen(pds, pdId);
    if id < 0 then pds else pds[id := pds[id].(free := false)]
  }

  function AfterFree(pds: seq<PdAlloc>, t: nat): (r: seq<PdAlloc>)
    requires t < |pds|
    ensures |r| == |pds|
  {
    if pds[t].free || pds[t].version == PD_VERSION_MAX then pds
    else pds[t := PdAlloc(pds[t].reserved, true, pds[t].version + 1)]
  }

  // ---- runs of creation and destruction ------------------------------------------------------

  /** `Create(PD_INVALID)` is an ordinary creation; core names its own entry. */
  datatype Op = Create(pdId: int) | Destroy(t: nat)

  /** The table, the versions of the living domains by id, and all task ids handed out so far. */
  datatype State = State(pds: seq<PdAlloc>, live: map<nat, nat>, issued: seq<L4Id>)

  predicate ValidOp(op: Op) {
    match op
    case Create(pdId) => ValidPdArg(pdId)
    case Destroy(t) => t < PD_MAX
  }

  /** A creation that finds no entry panics, which changes nothing; each object is destroyed once. */
  function Step(s: State, op: Op): (s': State)
    requires |s.pds| == PD_MAX && ValidOp(op)
    ensures |s'.pds| == PD_MAX
  {
    match op
    case Create(pdId) =>
      var id := Chosen(s.pds, pdId);
      if id < 0 then s
      else
        var v := s.pds[id].version;
        State(AfterAlloc(s.pds, pdId), s.live[id as nat := v], s.issued + [TaskId(id, v)])
    case Destroy(t) =>
      if t !in s.live then s else s.(pds := AfterFree(s.pds, t), live := s.live - {t})
  }

  function Run(s: State, ops: seq<Op>): (s': State)
    requires |s.pds| == PD_MAX && forall i :: 0 <= i < |ops| ==> ValidOp(ops[i])
    ensures |s'.pds| == PD_MAX
    decreases |ops|
  {
    if ops == [] then s else Run(Step(s, ops[0]), ops[1..])
  }

  /** The task id has been handed out already. */
  predicate Passed(pds: seq<PdAlloc>, id: L4Id)
    requires |pds| == PD_MAX
  {
    && id.L4Id? && id.task < PD_MAX && id.version <= PD_VERSION_MAX && id.lthread == 0
    && id.version < pds[id.task].version + (if pds[id.task].free then 0 else 1)
  }

  /** Used up after the last version was handed out and returned. */
  predicate Retired(s: State, i: nat)
    requires i < |s.pds|
  {
    !s.pds[i].free && i !in s.live && s.pds[i].version == PD_VERSION_MAX
  }

  predicate Live(s: State, i: nat)
    requires i < |s.pds|
  {
    i in s.live && !s.pds[i].free && s.live[i] == s.pds[i].version
  }

  ghost predicate Consistent(s: State) {
    && |s.pds| == PD_MAX
    && (forall i :: 0 <= i < PD_MAX ==>
          && (s.pds[i].reserved <==> i < PD_FIRST) && s.pds[i].version <= PD_VERSION_MAX
          && (!s.pds[i].free <==> Live(s, i) || Retired(s, i)))
    && (forall i :: i in s.live ==> i < PD_MAX && Live(s, i))
    && (forall i :: 0 <= i < |s.issued| ==> Passed(s.pds, s.issued[i]))
    && Distinct(s.issued)
  }

  function Start(): State {
    State(InitialPds(), map[], [])
  }

  lemma StepKeepsConsistent(s: State, op: Op)
    requires Consistent(s) && ValidOp(op)
    ensures Consistent(Step(s, op)) && s.issued <= Step(s, op).issued
  {
    var s' := Step(s, op);
    match op
    case Create(pdId) =>
      var id := Chosen(s.pds, pdId);
      if id >= 0 {
        assert !Passed(s.pds, TaskId(id, s.pds[id].version));
        forall i | 0 <= i < PD_MAX
          ensures !s'.pds[i].free <==> Live(s', i) || Retired(s', i)
        {
          assert i != id ==> (Live(s, i) <==> Live(s', i)) && (Retired(s, i) <==> Retired(s', i));
        }
      }
    case Destroy(t) =>
      if t in s.live {
        forall i | 0 <= i < PD_MAX
          ensures !s'.pds[i].free <==> Live(s', i) || Retired(s', i)
        {
          assert i != t ==> (Live(s, i) <==> Live(s', i)) && (Retired(s, i) <==> Retired(s', i));
        }
      }
  }

  lemma {:induction false} RunKeepsConsistent(s: State, ops: seq<Op>)
    requires Consistent(s) && forall i :: 0 <= i < |ops| ==> ValidOp(ops[i])
    ensures Consistent(Run(s, ops)) && s.issued <= Run(s, ops).issued
    decreases |ops|
  {
    if ops != [] {
      StepKeepsConsistent(s, ops[0]);
      RunKeepsConsistent(Step(s, ops[0]), ops[1..]);
    }
  }

  /** Each entry is exactly one of free, live and retired. */
  ghost predicate EntriesPartitioned(s: State) {
    && |s.pds| == PD_MAX
    && forall i :: 0 <= i < PD_MAX ==>
         if s.pds[i].free then !Live(s, i) && !Retired(s, i) else Live(s, i) != Retired(s, i)
  }

  ghost predicate LiveIdsDistinct(s: State) {
    forall i, j :: i in s.live && j in s.live && i != j ==> TaskId(i, s.live[i]) != TaskId(j, s.live[j])
  }

  lemma ConsistentMeaning(s: State)
    requires Consistent(s)
    ensures LiveIdsDistinct(s) && EntriesPartitioned(s)
  {
    forall i, j | i in s.live && j in s.live && i != j
      ensures TaskId(i, s.live[i]) != TaskId(j, s.live[j])
    {
      assert Live(s, i) && Live(s, j);
    }
  }

  /**
   Over every run, no task id is handed out twice, the living domains hold pairwise distinct
   ones, and the entries are partitioned.
   */
  lemma TaskIdsAreUnique(ops: seq<Op>)
    requires forall i :: 0 <= i < |ops| ==> ValidOp(ops[i])
    ensures var s := Run(Start(), ops);
            Distinct(s.issued) && LiveIdsDistinct(s) && EntriesPartitioned(s)
  {
    RunKeepsConsistent(Start(), ops);
    ConsistentMeaning(Run(Start(), ops));
  }

  /** A creation fails exactly if all entries behind the reserved ones are live or retired. */
  lemma CreationFailsIff(s: State)
    requires Consistent(s)
    ensures Chosen(s.pds, PD_INVALID) < 0 <==>
            forall i :: PD_FIRST <= i < PD_MAX ==> Live(s, i) || Retired(s, i)
  {
    var r := FirstFree(s.pds, PD_FIRST);
    if r < PD_MAX {
      assert !Live(s, r) && !Retired(s, r);
    }
  }

  /** An entry becomes live through an ordinary creation, if it is not reserved, or through one that names it. */
  lemma {:induction false} LiveWasCreated(s: State, ops: seq<Op>, i: nat)
    requires Consistent(s) && i !in s.live && forall k :: 0 <= k < |ops| ==> ValidOp(ops[k])
    requires i in Run(s, ops).live
    ensures exists k :: 0 <= k < |ops| && (ops[k] == Create(i) || (ops[k] == Create(PD_INVALID) && i >= PD_FIRST))
    decreases |ops|
  {
    if ops != [] {
      var op := ops[0];
      StepKeepsConsistent(s, op);
      if i in Step(s, op).live {
        assert op.Create? && Chosen(s.pds, op.pdId) == i;
        assert ops[0] == Create(i) || (ops[0] == Create(PD_INVALID) && i >= PD_FIRST);
      } else {
        LiveWasCreated(Step(s, op), ops[1..], i);
        var k :| 0 <= k < |ops[1..]|
                 && (ops[1..][k] == Create(i) || (ops[1..][k] == Create(PD_INVALID) && i >= PD_FIRST));
        assert ops[k + 1] == ops[1..][k];
      }
    }
  }

  /** Over every run, a reserved entry is live only if some creation named it. */
  lemma ReservedIsNamed(ops: seq<Op>, i: nat)
    requires forall k :: 0 <= k < |ops| ==> ValidOp(ops[k])
    requires i < PD_FIRST && i in Run(Start(), ops).live
    ensures exists k :: 0 <= k < |ops| && ops[k] == Create(i)
  {
    LiveWasCreated(Start(), ops, i);
  }

  /** A retired entry stays out of use forever. */
  lemma {:induction false} RetiredStaysRetired(s: State, ops: seq<Op>, i: nat)
    requires Consistent(s) && i < PD_MAX && Retired(s, i)
    requires forall k :: 0 <= k < |ops| ==> ValidOp(ops[k])
    ensures Retired(Run(s, ops), i)
    decreases |ops|
  {
    if ops != [] {
      StepKeepsConsistent(s, ops[0]);
      assert Retired(Step(s, ops[0]), i);
      RetiredStaysRetired(Step(s, ops[0]), ops[1..], i);
    }
  }

  // ---- runs over the objects that represent the domains ----------------------------------------

  /** The table state, and the entry of each living object. */
  datatype Domains<D(==)> = Domains(s: State, entry: map<D, nat>)

  datatype DomainOp<D(==)> = Construct(d: D, pdId: int) | Destruct(d: D)

  /** An object is constructed once, and destructed while it lives. */
  predicate Proper<D(==)>(ds: Domains<D>, op: DomainOp<D>) {
    match op
    case Construct(d, pdId) => d !in ds.entry && ValidPdArg(pdId)
    case Destruct(d) => d in ds.entry && ds.entry[d] < PD_MAX
  }

  function After<D(==)>(ds: Domains<D>, op: DomainOp<D>): (r: Domains<D>)
    requires |ds.s.pds| == PD_MAX && Proper(ds, op)
    ensures |r.s.pds| == PD_MAX
  {
    match op
    case Construct(d, pdId) =>
      var id := Chosen(ds.s.pds, pdId);
      Domains(Step(ds.s, Create(pdId)), if id < 0 then ds.entry else ds.entry[d := id as nat])
    case Destruct(d) =>
      Domains(Step(ds.s, Destroy(ds.entry[d])), ds.entry - {d})
  }

  predicate ProperRun<D(==)>(ds: Domains<D>, ops: seq<DomainOp<D>>)
    requires |ds.s.pds| == PD_MAX
    decreases |ops|
  {
    ops == [] || (Proper(ds, ops[0]) && ProperRun(After(ds, ops[0]), ops[1..]))
  }

  function AfterAll<D(==)>(ds: Domains<D>, ops: seq<DomainOp<D>>): (r: Domains<D>)
    requires |ds.s.pds| == PD_MAX && ProperRun(ds, ops)
    ensures |r.s.pds| == PD_MAX
    decreases |ops|
  {
    if ops == [] then ds else AfterAll(After(ds, ops[0]), ops[1..])
  }

  /** Each living object has a living entry to itself. */
  ghost predicate Separate<D>(ds: Domains<D>) {
    && Consistent(ds.s)
    && (forall d :: d in ds.entry ==> ds.entry[d] in ds.s.live)
    && (forall d, e :: d in ds.entry && e in ds.entry && d != e ==> ds.entry[d] != ds.entry[e])
  }

  lemma {:induction false} RunKeepsSeparate<D>(ds: Domains<D>, ops: seq<DomainOp<D>>)
    requires Separate(ds) && ProperRun(ds, ops)
    ensures Separate(AfterAll(ds, ops))
    decreases |ops|
  {
    if ops != [] {
      OpKeepsSeparate(ds, ops[0]);
      RunKeepsSeparate(After(ds, ops[0]), ops[1..]);
    }
  }

  lemma OpKeepsSeparate<D>(ds: Domains<D>, op: DomainOp<D>)
    requires Separate(ds) && Proper(ds, op)
    ensures Separate(After(ds, op))
  {
    match op
    case Construct(d, pdId) =>
      StepKeepsConsistent(ds.s, Create(pdId));
      if Chosen(ds.s.pds, pdId) >= 0 {
        NewDomainHasOwnEntry(ds.s, pdId);
      }
    case Destruct(d) =>
      StepKeepsConsistent(ds.s, Destroy(ds.entry[d]));
  }

  /** A new domain gets an entry that no living one has. */
  lemma NewDomainHasOwnEntry(s: State, pdIdArg: int)
    requires Consistent(s) && ValidPdArg(pdIdArg) && Chosen(s.pds, pdIdArg) >= 0
    ensures Chosen(s.pds, pdIdArg) !in s.live
  {
    assert forall i :: i in s.live ==> Live(s, i) && !s.pds[i].free;
  }

  /** The static table that all protection domains share. */
  class PdTable {
    const pds: array<PdAlloc>

    constructor ()
      ensures fresh(pds) && pds[..] == InitialPds()
    {
      pds := new PdAlloc[PD_MAX](i => PdAlloc(false, false, 0));
      new;
      for i := 0 to PD_FIRST
        invariant forall j :: 0 <= j < i ==> pds[j] == PdAlloc(true, true, 0)
      {
        pds[i] := PdAlloc(true, true, 0);
      }
      for i := PD_FIRST to PD_MAX
        invariant forall j :: 0 <= j < i ==> pds[j] == PdAlloc(j < PD_FIRST, true, 0)
      {
        pds[i] := PdAlloc(false, true, 0);
      }
    }

    method AllocPd(pdIdArg: int) returns (pdId: int, version: nat)
      requires pds.Length == PD_MAX && ValidPdArg(pdIdArg)
      modifies pds
      ensures pds[..] == AfterAlloc(old(pds[..]), pdIdArg)
      ensures pdId == Chosen(old(pds[..]), pdIdArg)
      ensures pdIdArg == PD_INVALID ==>
                && (pdId >= 0 ==> PD_FIRST <= pdId < PD_MAX && old(pds[pdId].free)
                                  && forall j :: PD_FIRST <= j < pdId ==> !old(pds[j].free))
                && (pdId < 0 ==> forall j :: PD_FIRST <= j < PD_MAX ==> !old(pds[j].free))
      ensures pdIdArg != PD_INVALID ==>
                && (pdId >= 0 <==> old(pds[pdIdArg].reserved) && old(pds[pdIdArg].free))
                && (pdId >= 0 ==> pdId == pdIdArg)
      ensures pdId >= 0 ==> version == old(pds[pdId].version)
      ensures pds[..] == if pdId < 0 then old(pds[..]) else old(pds[..])[pdId := old(pds[pdId]).(free := false)]
    {
      pdId, version := pdIdArg, 0;
      if pdIdArg == PD_INVALID {
        var i := PD_FIRST;
        while i < PD_MAX && !pds[i].free
          invariant PD_FIRST <= i <= PD_MAX
          invariant FirstFree(pds[..], PD_FIRST) == FirstFree(pds[..], i)
        {
          i := i + 1;
        }
        if i == PD_MAX {
          return -1, 0;
        }
        pdId := i;
      } else if !pds[pdId].reserved || !pds[pdId].free {
        return -1, 0;
      }
      version := pds[pdId].version;
      pds[pdId] := pds[pdId].(free := false);
    }

    method FreePd(t: nat)
      requires pds.Length == PD_MAX && t < PD_MAX
      modifies pds
      ensures pds[..] == AfterFree(old(pds[..]), t)
      ensures forall i :: 0 <= i < PD_MAX && i != t ==> pds[i] == old(pds[i])
      ensures old(pds[t].free) || old(pds[t].version) == PD_VERSION_MAX ==> pds[t] == old(pds[t])
      ensures !old(pds[t].free) && old(pds[t].version) != PD_VERSION_MAX ==>
                pds[t].free && pds[t].version == old(pds[t].version) + 1 && pds[t].reserved == old(pds[t].reserved)
    {
      if pds[t].free {
        return;
      }
      if pds[t].version == PD_VERSION_MAX {
        return;
      }
      pds[t] := PdAlloc(pds[t].reserved, true, pds[t].version + 1);
    }
  }

  // ---- thread slots --------------------------------------------------------------------------

  class PlatformThread {
    var threadId: int
    var l4ThreadId: L4Id
    var platformPd: PlatformPd?

    constructor (threadId: int)
      ensures this.threadId == threadId && platformPd == null && l4ThreadId == Invalid
    {
      this.threadId, l4ThreadId, platformPd := threadId, Invalid, null;
    }

    method Bind(threadId: int, l4ThreadId: L4Id, pd: PlatformPd)
      modifies this
      ensures this.threadId == threadId && this.l4ThreadId == l4ThreadId && platformPd == pd
    {
      this.threadId, this.l4ThreadId, platformPd := threadId, l4ThreadId, pd;
    }

    method Unbind()
      modifies this
      ensures threadId == THREAD_INVALID && l4ThreadId == Invalid && platformPd == null
    {
      threadId, l4ThreadId, platformPd := THREAD_INVALID, Invalid, null;
    }
  }

  /** The first slot from `i` on that is occupied (or empty), or the length of the table. */
  function FirstSlot(table: seq<PlatformThread?>, occupied: bool, i: nat): (r: nat)
    requires i <= |table|
    ensures i <= r <= |table| && (r < |table| ==> (table[r] != null <==> occupied))
    ensures forall j :: i <= j < r ==> (table[j] == null <==> occupied)
    decreases |table| - i
  {
    if i == |table| || (table[i] != null <==> occupied) then i else FirstSlot(table, occupied, i + 1)
  }

  /** The slot for a thread, -1 if all slots are occupied, or -2 if its own one is. */
  function SlotFor(table: seq<PlatformThread?>, threadId: int): (r: int)
    requires |table| == THREAD_MAX && THREAD_INVALID <= threadId < THREAD_MAX
    ensures r < THREAD_MAX && (r >= 0 ==> table[r] == null)
    ensures r == -1 <==> threadId == THREAD_INVALID && forall i :: 0 <= i < THREAD_MAX ==> table[i] != null
    ensures r == -2 <==> threadId != THREAD_INVALID && table[threadId] != null
    ensures r >= 0 ==> r == threadId || (threadId == THREAD_INVALID && forall i :: 0 <= i < r ==> table[i] != null)
  {
    if threadId == THREAD_INVALID then
      var i := FirstSlot(table, false, 0);
      if i == THREAD_MAX then -1 else i
    else if table[threadId] != null then -2
    else threadId
  }

  class PlatformPd {
    var pdId: nat
    var version: nat
    var l4TaskId: L4Id
    const threads: array<PlatformThread?>

    ghost function Bound(): set<PlatformThread>
      reads threads
    {
      set t: PlatformThread | t in threads[..]
    }

    /** Each thread in the table carries the index of its slot, in both of its ids. */
    ghost predicate Valid()
      reads this, threads, Bound()
    {
      && threads.Length == THREAD_MAX && l4TaskId.L4Id? && l4TaskId.lthread == 0
      && forall i :: 0 <= i < THREAD_MAX && threads[i] != null ==>
           threads[i].threadId == i && threads[i].platformPd == this && threads[i].l4ThreadId == l4TaskId.(lthread := i)
    }

    constructor ()
      ensures threads.Length == THREAD_MAX && fresh(threads)
      ensures forall i :: 0 <= i < THREAD_MAX ==> threads[i] == null
      ensures l4TaskId == Invalid
    {
      pdId, version, l4TaskId := 0, 0, Invalid;
      threads := new PlatformThread?[THREAD_MAX](i => null);
    }

    /** Create a protection domain; there is none (the original panics) if no entry can be handed out. */
    static method Create(table: PdTable, pdIdArg: int) returns (pd: PlatformPd?)
      requires table.pds.Length == PD_MAX && ValidPdArg(pdIdArg)
      modifies table.pds
      ensures table.pds[..] == AfterAlloc(old(table.pds[..]), pdIdArg)
      ensures var id := Chosen(old(table.pds[..]), pdIdArg);
              if id < 0 then pd == null
              else pd != null && fresh(pd) && fresh(pd.threads) && pd.Valid() && pd.Bound() == {}
                   && pd.pdId == id && pd.version == old(table.pds[..])[id].version
                   && pd.l4TaskId == TaskId(id, pd.version)
    {
      var id, v := table.AllocPd(pdIdArg);
      if id < 0 {
        return null;
      }
      pd := new PlatformPd();
      pd.pdId, pd.version := id, v;
      pd.l4TaskId := TaskId(id, v);
    }

    method NextThread() returns (t: PlatformThread?)
      requires threads.Length == THREAD_MAX
      ensures var i := FirstSlot(threads[..], true, 0); t == if i < THREAD_MAX then threads[i] else null
      ensures t != null ==> t in Bound()
      ensures t == null <==> Bound() == {}
    {
      for i := 0 to THREAD_MAX
        invariant forall j :: 0 <= j < i ==> threads[j] == null
        invariant FirstSlot(threads[..], true, 0) == FirstSlot(threads[..], true, i)
      {
        if threads[i] != null {
          assert threads[i] in threads[..];
          return threads[i];
        }
      }
      return null;
    }

    method AllocThread(threadId: int, thread: PlatformThread) returns (slot: int)
      requires threads.Length == THREAD_MAX && THREAD_INVALID <= threadId < THREAD_MAX
      modifies threads
      ensures slot == SlotFor(old(threads[..]), threadId)
      ensures threads[..] == if slot < 0 then old(threads[..]) else old(threads[..])[slot := thread]
    {
      slot := threadId;
      if threadId == THREAD_INVALID {
        slot := 0;
        while slot < THREAD_MAX && threads[slot] != null
          invariant 0 <= slot <= THREAD_MAX
          invariant FirstSlot(threads[..], false, 0) == FirstSlot(threads[..], false, slot)
        {
          slot := slot + 1;
        }
        if slot == THREAD_MAX {
          return -1;
        }
      } else if threads[slot] != null {
        return -2;
      }
      threads[slot] := thread;
    }

    /** Bind a thread. Nothing hinders one that is bound to another domain, see `BoundToOneDomain`. */
    method BindThread(thread: PlatformThread) returns (ok: bool)
      requires Valid() && THREAD_INVALID <= thread.threadId < THREAD_MAX
      requires thread.platformPd == this ==> thread in Bound()
      modifies threads, thread
      ensures Valid()
      ensures ok <==> SlotFor(old(threads[..]), old(thread.threadId)) >= 0
      ensures ok ==> thread.threadId == SlotFor(old(threads[..]), old(thread.threadId))
                     && threads[..] == old(threads[..])[thread.threadId := thread]
      ensures !ok ==> threads[..] == old(threads[..]) && unchanged(thread)
    {
      var slot := AllocThread(thread.threadId, thread);
      if slot < 0 {
        return false;
      }
      assert thread !in old(Bound());
      assert forall i :: 0 <= i < THREAD_MAX && i != slot && threads[i] != null ==> threads[i] in old(threads[..]);
      thread.Bind(slot, l4TaskId.(lthread := slot % 0x80), this);
      return true;
    }

    method UnbindThread(thread: PlatformThread)
      requires Valid() && thread in Bound()
      modifies threads, thread
      ensures Valid()
      ensures thread.threadId == THREAD_INVALID && thread.l4ThreadId == Invalid && thread.platformPd == null
      ensures threads[..] == old(threads[..])[old(thread.threadId) := null]
      ensures Bound() == old(Bound()) - {thread}
    {
      var threadId := thread.threadId;
      assert threads[threadId] == thread;
      thread.Unbind();
      threads[threadId] := null;
      BoundAfterUnbind(old(threads[..]), threads[..], threadId);
    }

    /** The destructor: unbind all threads, then give the id back. */
    method Destroy(table: PdTable)
      requires Valid() && table.pds.Length == PD_MAX && pdId < PD_MAX
      modifies this, threads, Bound(), table.pds
      ensures Bound() == {} && l4TaskId == Invalid
      ensures forall t :: t in old(Bound()) ==>
                t.threadId == THREAD_INVALID && t.l4ThreadId == Invalid && t.platformPd == null
      ensures table.pds[..] == AfterFree(old(table.pds[..]), old(pdId))
    {
      ghost var bound := Bound();
      var t := NextThread();
      while t != null
        invariant Valid() && Bound() <= bound
        invariant t != null ==> t in Bound()
        invariant t == null <==> Bound() == {}
        invariant forall u :: u in bound - Bound() ==>
                    u.threadId == THREAD_INVALID && u.l4ThreadId == Invalid && u.platformPd == null
        invariant pdId == old(pdId) && table.pds[..] == old(table.pds[..])
        decreases Bound()
      {
        UnbindThread(t);
        t := NextThread();
      }
      l4TaskId := Invalid;
      table.FreePd(pdId);
    }
  }

  lemma BoundAfterUnbind(was: seq<PlatformThread?>, table: seq<PlatformThread?>, i: nat)
    requires i < |was| && was[i] != null && table == was[i := null]
    requires forall j :: 0 <= j < |was| && j != i ==> was[j] != was[i]
    ensures forall t: PlatformThread :: t in table <==> t in was && t != was[i]
  {
    forall t: PlatformThread | t in was && t != was[i]
      ensures t in table
    {
      var j :| 0 <= j < |was| && was[j] == t;
      assert table[j] == t;
    }
  }

  /** Binding an unbound thread and unbinding it again leaves the table as it was. */
  method BindThenUnbind(pd: PlatformPd, thread: PlatformThread)
    requires pd.Valid() && thread.platformPd == null && THREAD_INVALID <= thread.threadId < THREAD_MAX
    modifies pd.threads, thread
    ensures pd.Valid() && pd.threads[..] == old(pd.threads[..])
  {
    var ok := pd.BindThread(thread);
    if ok {
      assert pd.threads[thread.threadId] in pd.threads[..];
      pd.UnbindThread(thread);
    }
  }

  /** Two domains cannot both be valid with the same thread: binding it again breaks the former one. */
  lemma BoundToOneDomain(pd: PlatformPd, pd': PlatformPd, thread: PlatformThread)
    requires pd.Valid() && pd'.Valid() && thread in pd.Bound() && thread in pd'.Bound()
    ensures pd == pd'
  {
    var i :| 0 <= i < THREAD_MAX && pd.threads[i] == thread;
    var j :| 0 <= j < THREAD_MAX && pd'.threads[j] == thread;
    assert pd.threads[i].platformPd == pd && pd'.threads[j].platformPd == pd';
  }

  /** The domain lives, with the entry and the task id handed out for it. */
  predicate Lives(ds: Domains<PlatformPd>, pd: PlatformPd)
    reads pd
  {
    && pd in ds.entry && pd.pdId == ds.entry[pd] && pd.pdId in ds.s.live
    && pd.version == ds.s.live[pd.pdId] && pd.l4TaskId == TaskId(pd.pdId, pd.version)
  }

  /** After any run, distinct threads bound to living protection domains have distinct kernel ids. */
  lemma ThreadIdsAreUnique(ops: seq<DomainOp<PlatformPd>>, pd: PlatformPd, pd': PlatformPd,
                           t: PlatformThread, t': PlatformThread)
    requires ProperRun(Domains(Start(), map[]), ops)
    requires var ds := AfterAll(Domains(Start(), map[]), ops); Lives(ds, pd) && Lives(ds, pd')
    requires pd.Valid() && pd'.Valid() && t in pd.Bound() && t' in pd'.Bound() && t != t'
    ensures t.l4ThreadId != t'.l4ThreadId
  {
    RunKeepsSeparate(Domains(Start(), map[]), ops);
    ConsistentMeaning(AfterAll(Domains(Start(), map[]), ops).s);
    assert pd != pd' ==> pd.l4TaskId != pd'.l4TaskId;
    var i :| 0 <= i < THREAD_MAX && pd.threads[i] == t;
    var j :| 0 <= j < THREAD_MAX && pd'.threads[j] == t';
    assert t.l4ThreadId == pd.l4TaskId.(lthread := i) && t'.l4ThreadId == pd'.l4TaskId.(lthread := j);
    assert pd.l4TaskId == t.l4ThreadId.(lthread := 0) && pd'.l4TaskId == t'.l4ThreadId.(lthread := 0);
  }

  // ---- threads that were bound twice -----------------------------------------------------------

  /** A table of threads by their names, with the slot number that each thread carries. */
  datatype Slots<T(==)> = Slots(table: seq<Option<T>>, number: map<T, int>)

  /** The first occupied slot from `i` on, or the length of the table. */
  function Occupied<T(==)>(table: seq<Option<T>>, i: nat): (r: nat)
    requires i <= |table|
    ensures i <= r <= |table| && (r < |table| ==> table[r].Some?) && forall j :: i <= j < r ==> table[j].None?
    decreases |table| - i
  {
    if i == |table| || table[i].Some? then i else Occupied(table, i + 1)
  }

  /** Each thread in the table carries its slot, or lost it when another domain unbound it. */
  predicate Numbered<T(==)>(s: Slots<T>) {
    forall i :: 0 <= i < |s.table| && s.table[i].Some? ==>
      s.table[i].value in s.number && (s.number[s.table[i].value] == i || s.number[s.table[i].value] == THREAD_INVALID)
  }

  /** One round of the destructor, which unbinds the next thread and clears the slot whose number it carries. */
  function UnbindNext<T(==)>(s: Slots<T>): Slots<T>
    requires Numbered(s) && Occupied(s.table, 0) < |s.table|
  {
    var t := s.table[Occupied(s.table, 0)].value;
    var i := s.number[t];
    Slots(if i >= 0 then s.table[i := None] else s.table, s.number[t := THREAD_INVALID])
  }

  /** All threads are unbound after some number of rounds. */
  predicate Ends<T(==)>(s: Slots<T>, rounds: nat)
    requires Numbered(s)
    decreases rounds
  {
    Occupied(s.table, 0) == |s.table| || (rounds > 0 && Numbered(UnbindNext(s)) && Ends(UnbindNext(s), rounds - 1))
  }

  predicate AllCarryTheirSlots<T(==)>(s: Slots<T>)
    requires Numbered(s)
  {
    forall i :: 0 <= i < |s.table| && s.table[i].Some? ==> s.number[s.table[i].value] == i
  }

  lemma {:induction false} UnbindsAll<T>(s: Slots<T>, from: nat)
    requires Numbered(s) && AllCarryTheirSlots(s) && from <= |s.table| && forall i :: 0 <= i < from ==> s.table[i].None?
    ensures Ends(s, |s.table| - from)
    decreases |s.table| - from
  {
    var i := Occupied(s.table, 0);
    if i < |s.table| {
      var s' := UnbindNext(s);
      assert forall j :: 0 <= j < |s'.table| && s'.table[j].Some? ==> j != i && s'.table[j] == s.table[j];
      UnbindsAll(s', i + 1);
      EndsLater(s', |s.table| - i - 1, |s.table| - from - 1);
    }
  }

  lemma {:induction false} EndsLater<T>(s: Slots<T>, n: nat, m: nat)
    requires Numbered(s) && Ends(s, n) && n <= m
    ensures Ends(s, m)
    decreases n
  {
    if Occupied(s.table, 0) < |s.table| {
      EndsLater(UnbindNext(s), n - 1, m - 1);
    }
  }

  lemma {:induction false} EndsMeansSlots<T>(s: Slots<T>, n: nat)
    requires Numbered(s) && Ends(s, n)
    ensures AllCarryTheirSlots(s)
    decreases n
  {
    var i := Occupied(s.table, 0);
    if i < |s.table| {
      var s' := UnbindNext(s);
      EndsMeansSlots(s', n - 1);
      assert s.number[s.table[i].value] == THREAD_INVALID ==> s'.table == s.table;
      forall j | 0 <= j < |s.table| && s.table[j].Some?
        ensures s.number[s.table[j].value] == j
      {
        if j != i {
          assert s'.table[j] == s.table[j] && s'.number[s.table[j].value] == j;
        }
      }
    }
  }

  /**
   The loop of the destructor ends exactly if no thread in the table was unbound by another domain,
   which it can be once it is bound to two of them.
   */
  lemma DestructorEndsIff<T>(s: Slots<T>)
    requires Numbered(s)
    ensures (exists n :: Ends(s, n)) <==> AllCarryTheirSlots(s)
  {
    if AllCarryTheirSlots(s) {
      UnbindsAll(s, 0);
      assert Ends(s, |s.table| - 0);
      assert exists n :: Ends(s, n);
    }
    forall n: nat | Ends(s, n)
      ensures AllCarryTheirSlots(s)
    {
      EndsMeansSlots(s, n);
    }
  }

  /** Binding a thread to a second domain, and unbinding it there, leaves it in the first table without a number. */
  method BindTwice(pd: PlatformPd, pd': PlatformPd, thread: PlatformThread)
    requires pd.Valid() && pd'.Valid() && pd != pd' && pd.threads != pd'.threads
    requires thread.platformPd == null && 0 <= thread.threadId < THREAD_MAX
    requires pd.threads[thread.threadId] == null && pd'.threads[thread.threadId] == null
    modifies pd.threads, pd'.threads, thread
    ensures pd.threads[old(thread.threadId)] == thread && thread.threadId == THREAD_INVALID
  {
    var i := thread.threadId;
    assert thread !in pd.Bound() && thread !in pd'.Bound();
    var ok := pd.BindThread(thread);
    assert ok && thread.threadId == i;
    assert pd.threads[..][i] == thread && thread in pd.Bound();
    assert thread.platformPd == pd && thread !in pd'.Bound();
    var ok' := pd'.BindThread(thread);
    assert ok' && thread.threadId == i && pd'.threads[i] in pd'.threads[..];
    pd'.UnbindThread(thread);
  }
}
