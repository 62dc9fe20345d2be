/**
 The counting semaphore: a counter and a FIFO of blocked threads, both protected by a lock
 that is dropped before a thread blocks and before another one is woken up. The step system
 interleaves any number of threads at each access to shared state.
 */
module Semaphore {
  import opened Fifo
  import opened Sequences
  import opened Wrappers

  // ---- step system --------------------------------------------------------------------------

  /** Where a thread is: outside, within `up`, or within `down`. */
  datatype Pc =
    | Idle
    | UpEntry | UpLocked | UpDequeue | UpUnlock(element: Option<nat>) | UpWake(sleeper: nat)
    | DownEntry | DownLocked | DownEnqueue | DownUnlock | DownBlock | Blocked

  /**
   The semaphore, the program counters, and the wake-ups that reached a blockade but did not
   take effect yet. `waker` maps each thread taken from the queue to the one that is going to
   wake it up.
   */
  datatype System = System(
    cnt: int, lock: Option<nat>, queue: seq<nat>, pcs: map<nat, Pc>, tokens: set<nat>, waker: map<nat, nat>)
  {
    function PcOf(t: nat): Pc {
      if t in pcs then pcs[t] else Idle
    }

    function At(t: nat, pc: Pc): System {
      this.(pcs := pcs[t := pc])
    }

    function HolderPc(): Pc {
      if lock.Some? then PcOf(lock.value) else Idle
    }
  }

  datatype Action = Up(t: nat) | Down(t: nat) | Advance(t: nat)

  predicate Enabled(s: System, a: Action) {
    match a
    case Up(t) => s.PcOf(t) == Idle
    case Down(t) => s.PcOf(t) == Idle
    case Advance(t) =>
      match s.PcOf(t)
      case Idle => false
      case UpEntry => s.lock == None
      case DownEntry => s.lock == None
      case Blocked => t in s.tokens
      case _ => true
  }

  function Step(s: System, a: Action): System
    requires Enabled(s, a)
  {
    match a
    case Up(t) => s.At(t, UpEntry)
    case Down(t) => s.At(t, DownEntry)
    case Advance(t) =>
      match s.PcOf(t)
      case UpEntry => s.At(t, UpLocked).(lock := Some(t))
      case UpLocked => s.At(t, if s.cnt + 1 > 0 then UpUnlock(None) else UpDequeue).(cnt := s.cnt + 1)
      case UpDequeue => Dequeue(s, t)
      case UpUnlock(element) => s.At(t, if element.Some? then UpWake(element.value) else Idle).(lock := None)
      case UpWake(sleeper) => s.At(t, Idle).(tokens := s.tokens + {sleeper}, waker := s.waker - {sleeper})
      case DownEntry => s.At(t, DownLocked).(lock := Some(t))
      case DownLocked => s.At(t, if s.cnt - 1 < 0 then DownEnqueue else DownUnlock).(cnt := s.cnt - 1)
      case DownEnqueue => s.At(t, DownBlock).(queue := s.queue + [t])
      case DownBlock => s.At(t, Blocked).(lock := None)
      case DownUnlock => s.At(t, Idle).(lock := None)
      case Blocked => s.At(t, Idle).(tokens := s.tokens - {t})
  }

  function Dequeue(s: System, t: nat): System {
    if s.queue == [] then s.At(t, UpUnlock(None))
    else s.At(t, UpUnlock(Some(s.queue[0]))).(queue := s.queue[1..], waker := s.waker[s.queue[0] := t])
  }

  /**
   What happened so far: increments, decrements, calls of `down` that returned without
   blocking, queue operations in order, and the threads woken up and resumed.
   */
  datatype Log = Log(
    ups: nat, decrements: nat, unblocked: nat, arrivals: seq<nat>, served: seq<nat>,
    woken: multiset<nat>, resumed: multiset<nat>)
  {
    /** The number of calls of `down` that returned. */
    function Downs(): nat {
      unblocked + |resumed|
    }
  }

  function Record(l: Log, s: System, a: Action): Log {
    if !a.Advance? then l
    else match s.PcOf(a.t)
      case UpLocked => l.(ups := l.ups + 1)
      case UpDequeue => if s.queue == [] then l else l.(served := l.served + [s.queue[0]])
      case UpWake(sleeper) => l.(woken := l.woken + multiset{sleeper})
      case DownLocked => l.(decrements := l.decrements + 1)
      case DownEnqueue => l.(arrivals := l.arrivals + [a.t])
      case DownUnlock => l.(unblocked := l.unblocked + 1)
      case Blocked => l.(resumed := l.resumed + multiset{a.t})
      case _ => l
  }

  datatype State = State(sys: System, log: Log)

  function Initial(n: int): State {
    State(System(n, None, [], map[], {}, map[]), Log(0, 0, 0, [], [], multiset{}, multiset{}))
  }

  function Next(s: State, a: Action): State
    requires Enabled(s.sys, a)
  {
    State(Step(s.sys, a), Record(s.log, s.sys, a))
  }

  predicate EnabledRun(s: State, run: seq<Action>)
    decreases |run|
  {
    run == [] || (Enabled(s.sys, run[0]) && EnabledRun(Next(s, run[0]), run[1..]))
  }

  function Run(s: State, run: seq<Action>): State
    requires EnabledRun(s, run)
    decreases |run|
  {
    if run == [] then s else Run(Next(s, run[0]), run[1..])
  }

  // ---- invariants of the system ---------------------------------------------------------------

  predicate Holding(pc: Pc) {
    match pc
    case UpLocked => true
    case UpDequeue => true
    case UpUnlock(_) => true
    case DownLocked => true
    case DownEnqueue => true
    case DownUnlock => true
    case DownBlock => true
    case _ => false
  }

  predicate WakesUp(pc: Pc, sleeper: nat) {
    pc == UpUnlock(Some(sleeper)) || pc == UpWake(sleeper)
  }

  /**
   A thread is within a critical section exactly if it holds the lock; it is in the queue only
   if it blocks or is about to; and a blocked thread is in the queue, or has exactly one wake-up
   on its way or pending.
   */
  predicate Sound(s: System, t: nat) {
    && (Holding(s.PcOf(t)) <==> s.lock == Some(t))
    && (match s.PcOf(t)
        case Blocked =>
          || (t in s.queue && t !in s.waker && t !in s.tokens)
          || (t !in s.queue && t in s.waker && t !in s.tokens)
          || (t !in s.queue && t !in s.waker && t in s.tokens)
        case DownBlock => t in s.queue && t !in s.waker && t !in s.tokens
        case _ => t !in s.queue && t !in s.waker && t !in s.tokens)
    && (t in s.waker ==> WakesUp(s.PcOf(s.waker[t]), t))
    && (s.PcOf(t).UpUnlock? && s.PcOf(t).element.Some? ==> Assigned(s, s.PcOf(t).element.value, t))
    && (s.PcOf(t).UpWake? ==> Assigned(s, s.PcOf(t).sleeper, t))
  }

  predicate Assigned(s: System, sleeper: nat, t: nat) {
    sleeper in s.waker && s.waker[sleeper] == t
  }

  ghost predicate Consistent(s: System) {
    Distinct(s.queue) && forall t: nat :: Sound(s, t)
  }

  lemma ActorStaysSound(s: System, a: Action)
    requires Consistent(s) && Enabled(s, a)
    ensures Sound(Step(s, a), a.t)
  {
    assert Sound(s, a.t);
    if s.queue != [] {
      assert Sound(s, s.queue[0]);
    }
  }

  /** What the other threads need of a step that changes queue, wake-ups and tokens. */
  ghost predicate Leaves(s: System, s': System, t: nat, u: nat) {
    && s'.PcOf(u) == s.PcOf(u)
    && (u in s'.queue <==> u in s.queue) && (u in s'.tokens <==> u in s.tokens)
    && (u in s'.waker <==> u in s.waker) && (u in s.waker ==> s'.waker[u] == s.waker[u])
    && (s.lock == s'.lock || (s.lock != Some(u) && s'.lock != Some(u)))
    && (u in s.waker && s.waker[u] == t ==> WakesUp(s'.PcOf(t), u))
    && forall e: nat :: Assigned(s, e, u) ==> Assigned(s', e, u)
  }

  lemma LeavesSound(s: System, s': System, t: nat, u: nat)
    requires Sound(s, u) && Leaves(s, s', t, u) && s'.pcs == s.pcs[t := s'.PcOf(t)]
    ensures Sound(s', u)
  {
  }

  lemma OthersDequeue(s: System, t: nat, u: nat)
    requires Consistent(s) && s.PcOf(t) == UpDequeue && s.queue != [] && u != t
    ensures Sound(Dequeue(s, t), u)
  {
    var h := s.queue[0];
    assert Sound(s, u) && Sound(s, t) && Sound(s, h);
    assert u in s.queue ==> u == h || u in s.queue[1..];
    if u != h {
      assert u in s.waker ==> Sound(s, s.waker[u]);
      LeavesSound(s, Dequeue(s, t), t, u);
    }
  }

  lemma OthersStaySound(s: System, a: Action, u: nat)
    requires Consistent(s) && Enabled(s, a) && u != a.t
    ensures Sound(Step(s, a), u)
  {
    assert Sound(s, u) && Sound(s, a.t);
    assert u in s.waker ==> Sound(s, s.waker[u]);
    var pc := if a.Advance? then s.PcOf(a.t) else Idle;
    if pc == UpDequeue && s.queue != [] {
      OthersDequeue(s, a.t, u);
    } else if pc == UpWake(u) {
    } else {
      LeavesSound(s, Step(s, a), a.t, u);
    }
  }

  lemma StepKeepsConsistent(s: System, a: Action)
    requires Consistent(s) && Enabled(s, a)
    ensures Consistent(Step(s, a))
  {
    assert Sound(s, a.t);
    forall u: nat
      ensures Sound(Step(s, a), u)
    {
      if u == a.t {
        ActorStaysSound(s, a);
      } else {
        OthersStaySound(s, a, u);
      }
    }
  }

  // ---- invariants of the history --------------------------------------------------------------

  function Max0(x: int): nat {
    if x > 0 then x else 0
  }

  function Is(pc: Pc, pc': Pc): nat {
    if pc == pc' then 1 else 0
  }

  ghost predicate Counted(s: State, n: int) {
    var pc := s.sys.HolderPc();
    && s.sys.cnt == n + s.log.ups - s.log.decrements
    && |s.sys.queue| == Max0(-s.sys.cnt) + Is(pc, UpDequeue) - Is(pc, DownEnqueue)
    && s.log.decrements == s.log.unblocked + Is(pc, DownUnlock) + |s.log.arrivals| + Is(pc, DownEnqueue)
  }

  /** Threads leave the queue in the order in which they came. */
  ghost predicate InOrder(s: State) {
    s.log.arrivals == s.log.served + s.sys.queue
  }

  /** Each time a thread leaves the queue, it is woken up once, and for each wake-up it resumes once. */
  ghost predicate Balanced(l: Log, wakers: set<nat>, tokens: set<nat>) {
    multiset(l.served) == l.woken + multiset(wakers) && l.woken == l.resumed + multiset(tokens)
  }

  ghost predicate WokenOnce(s: State) {
    Balanced(s.log, s.sys.waker.Keys, s.sys.tokens)
  }

  lemma StepKeepsCounted(s: State, a: Action, n: int)
    requires Consistent(s.sys) && Counted(s, n) && Enabled(s.sys, a)
    ensures Counted(Next(s, a), n)
  {
    assert Sound(s.sys, a.t);
    if s.sys.lock.Some? {
      assert Sound(s.sys, s.sys.lock.value);
    }
  }

  lemma BalancedAfter(l: Log, wakers: set<nat>, tokens: set<nat>, t: nat)
    requires Balanced(l, wakers, tokens)
    ensures t !in wakers ==> Balanced(l.(served := l.served + [t]), wakers + {t}, tokens)
    ensures t in wakers && t !in tokens ==>
              Balanced(l.(woken := l.woken + multiset{t}), wakers - {t}, tokens + {t})
    ensures t in tokens ==> Balanced(l.(resumed := l.resumed + multiset{t}), wakers, tokens - {t})
  {
    assert t in wakers ==> multiset(wakers) == multiset(wakers - {t}) + multiset{t};
    assert t in tokens ==> multiset(tokens) == multiset(tokens - {t}) + multiset{t};
  }

  lemma StepKeepsOrder(s: State, a: Action)
    requires InOrder(s) && Enabled(s.sys, a)
    ensures InOrder(Next(s, a))
  {
  }

  lemma StepWakesOnce(s: State, a: Action)
    requires Consistent(s.sys) && WokenOnce(s) && Enabled(s.sys, a)
    ensures WokenOnce(Next(s, a))
  {
    assert Sound(s.sys, a.t);
    var waker := s.sys.waker;
    var pc := if a.Advance? then s.sys.PcOf(a.t) else Idle;
    match pc
    case UpDequeue =>
      if s.sys.queue != [] {
        var h := s.sys.queue[0];
        assert Sound(s.sys, h);
        BalancedAfter(s.log, waker.Keys, s.sys.tokens, h);
        assert waker[h := a.t].Keys == waker.Keys + {h};
      }
    case UpWake(sleeper) =>
      assert Sound(s.sys, sleeper);
      BalancedAfter(s.log, waker.Keys, s.sys.tokens, sleeper);
      assert (waker - {sleeper}).Keys == waker.Keys - {sleeper};
    case Blocked =>
      BalancedAfter(s.log, waker.Keys, s.sys.tokens, a.t);
    case _ =>
  }

  // ---- main results ---------------------------------------------------------------------------

  ghost predicate Invariant(s: State, n: int) {
    Consistent(s.sys) && Counted(s, n) && InOrder(s) && WokenOnce(s)
  }

  lemma {:induction false} RunKeepsInvariant(s: State, run: seq<Action>, n: int)
    requires Invariant(s, n) && EnabledRun(s, run)
    ensures Invariant(Run(s, run), n)
    decreases |run|
  {
    if run != [] {
      var a := run[0];
      StepKeepsConsistent(s.sys, a);
      StepKeepsCounted(s, a, n);
      StepKeepsOrder(s, a);
      StepWakesOnce(s, a);
      RunKeepsInvariant(Next(s, a), run[1..], n);
    }
  }

  /** Completed calls of `down` never exceed the initial count plus the increments. */
  ghost predicate Safe(s: State, n: int) {
    s.log.Downs() <= n + s.log.ups
  }

  lemma InvariantMeansSafe(s: State, n: int)
    requires Invariant(s, n)
    ensures Safe(s, n) && (s.sys.lock == None ==> |s.sys.queue| == Max0(-s.sys.cnt))
  {
    assert |multiset(s.log.served)| == |s.log.woken| + |s.sys.waker.Keys|;
    assert |s.log.woken| == |s.log.resumed| + |s.sys.tokens|;
  }

  /**
   In every interleaving from a non-negative count: the number of waiting threads matches the
   counter while the lock is free, and `down` returns no more often than permitted.
   */
  lemma RunsAreSafe(n: nat, run: seq<Action>)
    requires EnabledRun(Initial(n), run)
    ensures var s := Run(Initial(n), run);
            Invariant(s, n) && Safe(s, n) && (s.sys.lock == None ==> |s.sys.queue| == Max0(-s.sys.cnt))
  {
    RunKeepsInvariant(Initial(n), run, n);
    InvariantMeansSafe(Run(Initial(n), run), n);
  }

  /**
   A blocked thread that left the queue has one wake-up on its way or pending, and a thread
   about to deliver a wake-up refers to an element whose thread is still blocked.
   */
  lemma NoWakeUpIsLost(n: nat, run: seq<Action>, t: nat)
    requires EnabledRun(Initial(n), run)
    ensures var s := Run(Initial(n), run).sys;
            && (s.PcOf(t) == Blocked && t !in s.queue ==>
                  (t in s.tokens) != (t in s.waker && WakesUp(s.PcOf(s.waker[t]), t)))
            && (forall sleeper: nat :: WakesUp(s.PcOf(t), sleeper) ==> s.PcOf(sleeper) == Blocked && Assigned(s, sleeper, t))
  {
    RunsAreSafe(n, run);
    var s := Run(Initial(n), run).sys;
    assert Sound(s, t);
    forall sleeper: nat | WakesUp(s.PcOf(t), sleeper)
      ensures s.PcOf(sleeper) == Blocked && Assigned(s, sleeper, t)
    {
      assert Assigned(s, sleeper, t) && Sound(s, sleeper);
    }
  }

  ghost predicate Stuck(s: System) {
    forall t: nat :: !Enabled(s, Advance(t))
  }

  /**
   If no thread can take a step, then the threads that are within an operation are those in the
   queue, and as long as there are some, all that was permitted has been consumed.
   */
  lemma StuckMeansConsumed(n: nat, run: seq<Action>)
    requires EnabledRun(Initial(n), run) && Stuck(Run(Initial(n), run).sys)
    ensures var s := Run(Initial(n), run);
            && (forall t: nat :: s.sys.PcOf(t) != Idle <==> t in s.sys.queue)
            && (s.sys.queue != [] ==> s.log.Downs() == n + s.log.ups)
  {
    RunsAreSafe(n, run);
    var s := Run(Initial(n), run);
    forall t: nat
      ensures s.sys.lock != Some(t)
    {
      assert Sound(s.sys, t) && !Enabled(s.sys, Advance(t));
    }
    assert s.sys.lock == None;
    forall t: nat
      ensures t !in s.sys.tokens && t !in s.sys.waker && (s.sys.PcOf(t) != Idle <==> t in s.sys.queue)
    {
      assert Sound(s.sys, t) && !Enabled(s.sys, Advance(t));
      assert t in s.sys.waker ==> !Enabled(s.sys, Advance(s.sys.waker[t]));
    }
    assert s.sys.tokens == {} && s.sys.waker.Keys == {};
    assert |multiset(s.log.served)| == |s.log.resumed|;
  }

  ghost predicate AlwaysSafe(n: int) {
    forall run :: EnabledRun(Initial(n), run) ==> Safe(Run(Initial(n), run), n)
  }

  lemma {:induction false} AppendStep(s: State, run: seq<Action>, a: Action)
    requires EnabledRun(s, run) && Enabled(Run(s, run).sys, a)
    ensures EnabledRun(s, run + [a]) && Run(s, run + [a]) == Next(Run(s, run), a)
    decreases |run|
  {
    if run == [] {
      assert EnabledRun(Next(s, a), []) && [a][1..] == [];
    } else {
      AppendStep(Next(s, run[0]), run[1..], a);
      assert (run + [a])[1..] == run[1..] + [a];
    }
  }

  /** One thread waits, and nothing else happened. */
  predicate OneWaits(s: State, cnt: int, t: nat) {
    && s.sys.cnt == cnt && s.sys.lock == None && s.sys.queue == [t] && s.sys.PcOf(t) == Blocked
    && s.log.ups == 0 && s.log.unblocked == 0 && s.log.resumed == multiset{}
  }

  lemma DownBlocks(n: int, t: nat) returns (run: seq<Action>)
    requires n < 0
    ensures EnabledRun(Initial(n), run) && OneWaits(Run(Initial(n), run), n - 1, t)
    ensures forall u: nat :: u != t ==> Run(Initial(n), run).sys.PcOf(u) == Idle
  {
    var s, a := Initial(n), Advance(t);
    run := [];
    AppendStep(s, run, Down(t));
    run := run + [Down(t)];
    AppendStep(s, run, a);
    run := run + [a];
    AppendStep(s, run, a);
    run := run + [a];
    AppendStep(s, run, a);
    run := run + [a];
    AppendStep(s, run, a);
    run := run + [a];
  }

  lemma UpResumes(s: State, run0: seq<Action>, n: int, t: nat, u: nat) returns (run: seq<Action>)
    requires n < 0 && u != t && EnabledRun(s, run0)
    requires OneWaits(Run(s, run0), n - 1, t) && Run(s, run0).sys.PcOf(u) == Idle
    ensures EnabledRun(s, run) && Run(s, run).log.Downs() == 1 && Run(s, run).log.ups == 1
  {
    var a := Advance(u);
    run := run0;
    AppendStep(s, run, Up(u));
    run := run + [Up(u)];
    AppendStep(s, run, a);
    run := run + [a];
    AppendStep(s, run, a);
    run := run + [a];
    AppendStep(s, run, a);
    run := run + [a];
    AppendStep(s, run, a);
    run := run + [a];
    AppendStep(s, run, a);
    run := run + [a];
    AppendStep(s, run, Advance(t));
    run := run + [Advance(t)];
  }

  /** From a negative count, one `down` returns after one `up`. */
  lemma NegativeCountIsUnsafe(n: int) returns (run: seq<Action>)
    requires n < 0
    ensures EnabledRun(Initial(n), run) && !Safe(Run(Initial(n), run), n)
  {
    run := DownBlocks(n, 0);
    run := UpResumes(Initial(n), run, n, 0, 1);
  }

  /** The semaphore is safe exactly if it is constructed with a non-negative count. */
  lemma AlwaysSafeIff(n: int)
    ensures AlwaysSafe(n) <==> n >= 0
  {
    if n >= 0 {
      forall run | EnabledRun(Initial(n), run)
        ensures Safe(Run(Initial(n), run), n)
      {
        RunsAreSafe(n, run);
      }
    } else {
      var run := NegativeCountIsUnsafe(n);
    }
  }

  // ---- the semaphore --------------------------------------------------------------------------

  /** The effect of the critical section of `up`: counter, queue, and the thread to wake up. */
  function AfterUp(cnt: int, queue: seq<nat>): (int, seq<nat>, Option<nat>) {
    if cnt + 1 > 0 || queue == [] then (cnt + 1, queue, None) else (cnt + 1, queue[1..], Some(queue[0]))
  }

  /** The effect of the critical section of `down`: counter, queue, and whether to block. */
  function AfterDown(cnt: int, queue: seq<nat>, t: nat): (int, seq<nat>, bool) {
    if cnt - 1 < 0 then (cnt - 1, queue + [t], true) else (cnt - 1, queue, false)
  }

  /** Whatever another thread does while a thread holds the lock, counter, queue and lock stay. */
  lemma LockExcludes(s: System, t: nat, a: Action)
    requires Consistent(s) && s.lock == Some(t) && Enabled(s, a) && a.t != t
    ensures Step(s, a).cnt == s.cnt && Step(s, a).queue == s.queue && Step(s, a).lock == s.lock
    ensures Step(s, a).PcOf(t) == s.PcOf(t)
  {
    assert Sound(s, t) && Sound(s, a.t);
  }

  /** The steps of a critical section, between which nobody interferes, have the effect of one. */
  lemma UpSectionIsAtomic(s: State, t: nat)
    requires Consistent(s.sys) && s.sys.PcOf(t) == UpLocked
    ensures var (cnt, queue, woken) := AfterUp(s.sys.cnt, s.sys.queue);
            var s1 := Next(s, Advance(t));
            var s2 := if s1.sys.PcOf(t) == UpDequeue then Next(s1, Advance(t)) else s1;
            && Enabled(s2.sys, Advance(t))
            && var s3 := Next(s2, Advance(t)).sys;
            && s3.cnt == cnt && s3.queue == queue && s3.lock == None
            && s3.PcOf(t) == if woken.Some? then UpWake(woken.value) else Idle
  {
  }

  lemma DownSectionIsAtomic(s: State, t: nat)
    requires Consistent(s.sys) && s.sys.PcOf(t) == DownLocked
    ensures var (cnt, queue, block) := AfterDown(s.sys.cnt, s.sys.queue, t);
            var s1 := Next(s, Advance(t));
            var s2 := if s1.sys.PcOf(t) == DownEnqueue then Next(s1, Advance(t)) else s1;
            && Enabled(s2.sys, Advance(t))
            && var s3 := Next(s2, Advance(t)).sys;
            && s3.cnt == cnt && s3.queue == queue && s3.lock == None
            && s3.PcOf(t) == if block then Blocked else Idle
  {
  }

  class Blockade {
    const thread: nat
    var woken: bool

    constructor (thread: nat)
      ensures this.thread == thread && !woken
    {
      this.thread, woken := thread, false;
    }

    method Wakeup()
      modifies this
      ensures woken
    {
      woken := true;
    }
  }

  class Semaphore {
    var cnt: int
    const queue: Queue<Blockade>

    ghost predicate Valid()
      reads this, queue, queue.contents
    {
      queue.Valid()
    }

    /** The threads in the queue, in order. */
    ghost function Threads(): (r: seq<nat>)
      requires Valid()
      reads this, queue, queue.contents
    {
      seq(|queue.contents|, i requires 0 <= i < |queue.contents| reads queue, queue.contents => queue.contents[i].item.thread)
    }

    constructor (n: int)
      ensures Valid() && fresh(queue) && cnt == n && Threads() == []
    {
      cnt := n;
      queue := new Queue<Blockade>();
    }

    /** Increment the counter, and wake up the thread that waits longest if the counter was negative. */
    method Up() returns (ghost woken: Option<nat>)
      requires Valid()
      modifies this, queue, queue.contents, set e: Element<Blockade> | e in queue.contents :: e.item
      ensures Valid()
      ensures (cnt, Threads(), woken) == AfterUp(old(cnt), old(Threads()))
      ensures cnt == old(cnt) + 1 && (woken.Some? <==> old(cnt) < 0 && old(queue.contents) != [])
      ensures woken.Some? ==> woken.value == old(queue.contents[0].item).thread
      ensures queue.contents == if woken.Some? then old(queue.contents)[1..] else old(queue.contents)
      ensures woken.Some? ==> old(queue.contents[0].item).woken
      ensures forall e :: e in old(queue.contents) && (woken == None || old(e.item) != old(queue.contents[0].item)) ==>
                old(e.item).woken == old(e.item.woken)
    {
      cnt := cnt + 1;
      if cnt > 0 {
        assert Threads() == old(Threads());
        return None;
      }
      var element := queue.Dequeue();
      assert Threads() == if element == null then old(Threads()) else old(Threads())[1..];
      woken := None;
      if element != null {
        element.item.Wakeup();
        woken := Some(element.item.thread);
      }
    }

    /** Decrement the counter, and enqueue the element of the calling thread if it has to block. */
    method Down(element: Element<Blockade>) returns (block: bool)
      requires Valid() && element !in queue.contents
      modifies this, queue, queue.contents, element
      ensures Valid()
      ensures (cnt, Threads(), block) == AfterDown(old(cnt), old(Threads()), element.item.thread)
      ensures cnt == old(cnt) - 1 && (block <==> old(cnt) <= 0)
      ensures queue.contents == if block then old(queue.contents) + [element] else old(queue.contents)
    {
      cnt := cnt - 1;
      if cnt < 0 {
        queue.Enqueue(element);
        assert Threads() == old(Threads()) + [element.item.thread];
        return true;
      }
      assert Threads() == old(Threads());
      return false;
    }
  }
}
