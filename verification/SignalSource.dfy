/**
 The signal source of core on Fiasco.OC and seL4: submitted signals are counted per context,
 contexts with pending signals wait in a FIFO, and the receiver fetches one context at a
 time, with all signals of it that are pending.
 */
module SignalSource {
  import opened Fifo
  import opened MachineWords
  import opened Sequences

  // ---- specification ------------------------------------------------------------------------

  /**
   The pending counts and the queue, together with what happened so far: the signals submitted
   by context, the signals delivered in order, the wake-up triggers, the dequeue operations,
   the fetches, and the releases of enqueued contexts. A context counts as released from
   leaving the queue by a release until it is submitted to again.
   */
  datatype State<C(==)> = State(
    cnt: map<C, nat>, queue: seq<C>,
    submitted: map<C, nat>, delivered: seq<(C, nat)>, released: set<C>,
    triggers: nat, dequeues: nat, fetches: nat, cancels: nat)

  datatype Op<C(==)> = Create(c: C) | Submit(c: C, n: nat) | Fetch | Release(c: C)

  function Increment<C(==)>(s: State<C>, c: C, n: nat): State<C>
    requires c in s.cnt && c in s.submitted
  {
    s.(cnt := s.cnt[c := s.cnt[c] + n], submitted := s.submitted[c := s.submitted[c] + n])
  }

  /** The context joins the queue, and the receiver is triggered. */
  function Attach<C(==)>(s: State<C>, c: C): State<C> {
    s.(queue := s.queue + [c], triggers := s.triggers + 1, released := s.released - {c})
  }

  /** The first context leaves the queue, and its pending signals are delivered. */
  function Deliver<C(==)>(s: State<C>): State<C>
    requires s.queue != [] && s.queue[0] in s.cnt
  {
    var c := s.queue[0];
    s.(queue := s.queue[1..], cnt := s.cnt[c := 0], delivered := s.delivered + [(c, s.cnt[c])], dequeues := s.dequeues + 1)
  }

  function Step<C(==)>(s: State<C>, op: Op<C>): State<C>
    requires Enabled(s, op)
  {
    match op
    case Create(c) =>
      s.(cnt := s.cnt[c := 0], submitted := s.submitted[c := 0])
    case Submit(c, n) =>
      var s' := Increment(s, c, n);
      if c in s.queue then s' else Attach(s', c)
    case Fetch =>
      var s' := if s.queue == [] then s else Deliver(s);
      s'.(fetches := s.fetches + 1)
    case Release(c) =>
      if c !in s.queue then s
      else s.(queue := Without(s.queue, c), released := s.released + {c}, cancels := s.cancels + 1)
  }

  predicate WellTyped<C(==)>(s: State<C>) {
    && s.submitted.Keys == s.cnt.Keys
    && forall i :: 0 <= i < |s.queue| ==> s.queue[i] in s.cnt
  }

  predicate Enabled<C(==)>(s: State<C>, op: Op<C>) {
    && WellTyped(s)
    && match op
       case Create(c) => c !in s.cnt
       case Submit(c, _) => c in s.cnt
       case Fetch => true
       case Release(c) => c in s.cnt
  }

  predicate EnabledRun<C(==)>(s: State<C>, ops: seq<Op<C>>)
    decreases |ops|
  {
    ops == [] || (Enabled(s, ops[0]) && EnabledRun(Step(s, ops[0]), ops[1..]))
  }

  function Run<C(==)>(s: State<C>, ops: seq<Op<C>>): State<C>
    requires EnabledRun(s, ops)
    decreases |ops|
  {
    if ops == [] then s else Run(Step(s, ops[0]), ops[1..])
  }

  /** A release takes a context out of the queue, from wherever it is, and delivers nothing. */
  lemma ReleaseMeaning<C>(s: State<C>, c: C)
    requires Enabled(s, Release(c)) && Distinct(s.queue)
    ensures var s' := Step(s, Release(c));
            && s'.queue == Without(s.queue, c) && c !in s'.queue
            && s'.cnt == s.cnt && s'.delivered == s.delivered
            && (c in s.queue ==> c in s'.released)
  {
    WithoutMeaning(s.queue, c);
    if c !in s.queue {
      WithoutAbsent(s.queue, c);
    }
  }

  /** The number of signals delivered for one context. */
  function Total<C(==)>(delivered: seq<(C, nat)>, c: C): nat {
    if delivered == [] then 0
    else
      var last := delivered[|delivered| - 1];
      Total(delivered[..|delivered| - 1], c) + (if last.0 == c then last.1 else 0)
  }

  lemma TotalOfNext<C>(delivered: seq<(C, nat)>, d: C, n: nat)
    ensures forall c :: Total(delivered + [(d, n)], c) == Total(delivered, c) + (if d == c then n else 0)
  {
    assert (delivered + [(d, n)])[..|delivered|] == delivered;
  }

  /** Which contexts wait in the queue, and how often the receiver was triggered for them. */
  ghost predicate Queued<C>(s: State<C>) {
    && WellTyped(s) && Distinct(s.queue)
    && (forall c :: c in s.cnt && s.cnt[c] > 0 && c !in s.released ==> c in s.queue)
    && (forall c :: c in s.released ==> c !in s.queue)
    && s.triggers == s.dequeues + |s.queue| + s.cancels
    && s.dequeues <= s.fetches
  }

  /** What was submitted to a context is what was delivered for it plus what is pending. */
  ghost predicate Balanced<C>(s: State<C>) {
    && WellTyped(s)
    && (forall c :: c in s.cnt ==> s.submitted[c] == Total(s.delivered, c) + s.cnt[c])
    && forall i :: 0 <= i < |s.delivered| ==> s.delivered[i].0 in s.cnt
  }

  ghost predicate Conserved<C>(s: State<C>) {
    Queued(s) && Balanced(s)
  }

  lemma {:induction false} TotalOfUnknown<C>(delivered: seq<(C, nat)>, c: C)
    requires forall i :: 0 <= i < |delivered| ==> delivered[i].0 != c
    ensures Total(delivered, c) == 0
    decreases |delivered|
  {
    if delivered != [] {
      TotalOfUnknown(delivered[..|delivered| - 1], c);
    }
  }

  lemma StepKeepsQueued<C>(s: State<C>, op: Op<C>)
    requires Queued(s) && Enabled(s, op)
    ensures Queued(Step(s, op))
  {
    match op
    case Create(c) =>
    case Submit(c, n) =>
    case Fetch =>
      if s.queue != [] {
        assert forall c :: c in s.queue && c != s.queue[0] ==> c in s.queue[1..];
      }
    case Release(c) =>
      WithoutMembers(s.queue, c);
  }

  lemma StepKeepsBalance<C>(s: State<C>, op: Op<C>)
    requires Balanced(s) && Distinct(s.queue) && Enabled(s, op)
    ensures Balanced(Step(s, op))
  {
    match op
    case Create(c) =>
      TotalOfUnknown(s.delivered, c);
    case Submit(c, n) =>
    case Fetch =>
      if s.queue != [] {
        TotalOfNext(s.delivered, s.queue[0], s.cnt[s.queue[0]]);
      }
    case Release(c) =>
      WithoutMembers(s.queue, c);
  }

  lemma StepConserves<C>(s: State<C>, op: Op<C>)
    requires Conserved(s) && Enabled(s, op)
    ensures Conserved(Step(s, op))
  {
    StepKeepsQueued(s, op);
    StepKeepsBalance(s, op);
  }

  /**
   For every run: what was submitted to a context is what was delivered for it plus what is
   pending; a context with pending signals that is not released is in the queue, once; and each
   trigger is accounted for by a dequeue operation, a waiting context, or a release.
   */
  lemma {:induction false} RunConserves<C>(s: State<C>, ops: seq<Op<C>>)
    requires Conserved(s) && EnabledRun(s, ops)
    ensures Conserved(Run(s, ops))
    decreases |ops|
  {
    if ops != [] {
      StepConserves(s, ops[0]);
      RunConserves(Step(s, ops[0]), ops[1..]);
    }
  }

  function Initial<C(==)>(): State<C> {
    State(map[], [], map[], [], {}, 0, 0, 0, 0)
  }

  /** A receiver that fetches once per trigger finds the queue empty only after a release of an enqueued context. */
  lemma WakeUpFindsSignal<C>(ops: seq<Op<C>>)
    requires EnabledRun(Initial(), ops)
    ensures var s := Run(Initial(), ops);
            s.fetches < s.triggers && s.queue == [] ==> s.cancels > 0
  {
    RunConserves(Initial(), ops);
  }

  function Fetches<C(==)>(n: nat): seq<Op<C>> {
    if n == 0 then [] else [Fetch] + Fetches(n - 1)
  }

  function Pending<C(==)>(s: State<C>): (r: seq<(C, nat)>)
    requires WellTyped(s)
    ensures |r| == |s.queue|
  {
    seq(|s.queue|, i requires 0 <= i < |s.queue| => (s.queue[i], s.cnt[s.queue[i]]))
  }

  /** As many fetches as there are waiting contexts deliver what is pending for them, in the order of the queue. */
  lemma {:induction false} FetchesDeliverQueue<C>(s: State<C>)
    requires WellTyped(s) && Distinct(s.queue)
    ensures EnabledRun(s, Fetches(|s.queue|))
    ensures var s' := Run(s, Fetches(|s.queue|));
            && s'.queue == [] && s'.delivered == s.delivered + Pending(s)
            && s'.cnt.Keys == s.cnt.Keys && s'.released == s.released
    decreases |s.queue|
  {
    if s.queue == [] {
      assert s.delivered + Pending(s) == s.delivered;
    } else {
      var s1 := Step(s, Fetch);
      FetchesDeliverQueue(s1);
      assert Fetches<C>(|s.queue|)[1..] == Fetches(|s1.queue|);
      assert Pending(s) == [(s.queue[0], s.cnt[s.queue[0]])] + Pending(s1);
      assert s.delivered + Pending(s) == s1.delivered + Pending(s1);
    }
  }

  /** Unless contexts were released with signals pending, everything submitted is delivered then. */
  lemma FetchesDeliverAll<C>(s: State<C>)
    requires Conserved(s) && s.released == {}
    ensures EnabledRun(s, Fetches(|s.queue|))
    ensures var s' := Run(s, Fetches(|s.queue|));
            && s'.submitted.Keys == s.cnt.Keys
            && forall c :: c in s.cnt ==> Total(s'.delivered, c) == s'.submitted[c]
  {
    FetchesDeliverQueue(s);
    RunConserves(s, Fetches(|s.queue|));
  }

  // ---- the component ------------------------------------------------------------------------

  datatype Context = Context(imprint: int, cnt: int)

  datatype Signal = Signal(imprint: int, cnt: int)

  type ContextComponent = Element<Context>

  class SignalSourceComponent {
    const queue: Queue<Context>

    /** How often the kernel object that the receiver blocks on was triggered. */
    var triggers: nat
    ghost var state: State<ContextComponent>

    ghost predicate Valid()
      reads this, queue, queue.contents, state.cnt.Keys
    {
      && WellTyped(state) && queue.Valid()
      && queue.contents == state.queue && triggers == state.triggers
      && forall c :: c in state.cnt ==> c.item.cnt == state.cnt[c] && (c.enqueued <==> c in state.queue)
    }

    constructor ()
      ensures Valid() && state == Initial() && fresh(queue)
    {
      queue := new Queue<Context>();
      triggers, state := 0, Initial();
    }

    /** A context with count zero that is not enqueued anywhere joins the source. */
    method NewContext(imprint: int) returns (c: ContextComponent)
      requires Valid()
      modifies this
      ensures Valid() && fresh(c) && c.item == Context(imprint, 0)
      ensures Enabled(old(state), Create(c)) && state == Step(old(state), Create(c))
    {
      c := new Element(Context(imprint, 0));
      state := Step(state, Create(c));
    }

    method IncrementSignalCnt(context: ContextComponent, increment: nat)
      requires Valid() && context in state.cnt && context.item.cnt + increment < TWO_31
      modifies this`state, state.cnt.Keys
      ensures Valid() && state == Increment(old(state), context, increment)
      ensures context.item.cnt == old(context.item.cnt) + increment
    {
      context.item := context.item.(cnt := context.item.cnt + increment);
      state := Increment(state, context, increment);
    }

    method EnqueueAndTrigger(context: ContextComponent)
      requires Valid() && context in state.cnt && context !in state.queue
      modifies this, queue, state.cnt.Keys
      ensures Valid() && state == Attach(old(state), context)
    {
      queue.Enqueue(context);
      triggers := triggers + 1;
      state := Attach(state, context);
    }

    /** The variant for Fiasco.OC. */
    method Submit(context: ContextComponent, cnt: nat)
      requires Valid() && context in state.cnt && context.item.cnt + cnt < TWO_31
      modifies this, queue, state.cnt.Keys
      ensures Valid() && state == Step(old(state), Op.Submit(context, cnt))
      ensures context.item.cnt == old(context.item.cnt) + cnt
      ensures triggers == old(triggers) + if context in old(queue.contents) then 0 else 1
    {
      IncrementSignalCnt(context, cnt);
      if !context.enqueued {
        EnqueueAndTrigger(context);
      }
    }

    /** The variant for seL4. */
    method SubmitSel4(context: ContextComponent, cnt: nat)
      requires Valid() && context in state.cnt && context.item.cnt + cnt < TWO_31
      modifies this, queue, state.cnt.Keys
      ensures Valid() && state == Step(old(state), Op.Submit(context, cnt))
      ensures context.item.cnt == old(context.item.cnt) + cnt
      ensures triggers == old(triggers) + if context in old(queue.contents) then 0 else 1
    {
      IncrementSignalCnt(context, cnt);
      if context.enqueued {
        return;
      }
      EnqueueAndTrigger(context);
    }

    /** Dequeue a context, if there is one, and return its pending signals. */
    method DequeueSignal() returns (result: Signal)
      requires Valid()
      modifies this`state, queue, state.cnt.Keys
      ensures Valid() && state == if old(state).queue == [] then old(state) else Deliver(old(state))
      ensures old(state.queue) == [] ==> result == Signal(0, 0)
      ensures old(state.queue) != [] ==>
                && result.imprint == old(state.queue[0].item.imprint) && result.cnt == old(state.queue[0].item.cnt)
                && result.cnt >= 0 && state.delivered == old(state.delivered) + [(old(state.queue[0]), result.cnt)]
                && old(state.queue[0]).item.cnt == 0
    {
      result := Signal(0, 0);
      var context := queue.Dequeue();
      if context != null {
        result := Signal(context.item.imprint, context.item.cnt);
        context.item := context.item.(cnt := 0);
        state := Deliver(state);
      }
    }

    /** The variant for Fiasco.OC. */
    method WaitForSignal() returns (result: Signal)
      requires Valid()
      modifies this, queue, state.cnt.Keys
      ensures Valid() && state == Step(old(state), Fetch)
      ensures old(state.queue) == [] ==> result == Signal(0, 0) && state.delivered == old(state.delivered)
      ensures old(state.queue) != [] ==>
                && result.imprint == old(state.queue[0].item.imprint) && result.cnt == old(state.queue[0].item.cnt)
                && result.cnt >= 0 && state.delivered == old(state.delivered) + [(old(state.queue[0]), result.cnt)]
                && old(state.queue[0]).item.cnt == 0
    {
      var empty := queue.Empty();
      if empty {
        result := Signal(0, 0);
      } else {
        result := DequeueSignal();
      }
      state := state.(fetches := state.fetches + 1);
    }

    /** The variant for seL4. */
    method WaitForSignalSel4() returns (result: Signal)
      requires Valid()
      modifies this, queue, state.cnt.Keys
      ensures Valid() && state == Step(old(state), Fetch)
      ensures old(state.queue) == [] ==> result == Signal(0, 0) && state.delivered == old(state.delivered)
      ensures old(state.queue) != [] ==>
                && result.imprint == old(state.queue[0].item.imprint) && result.cnt == old(state.queue[0].item.cnt)
                && result.cnt >= 0 && state.delivered == old(state.delivered) + [(old(state.queue[0]), result.cnt)]
                && old(state.queue[0]).item.cnt == 0
    {
      result := DequeueSignal();
      state := state.(fetches := state.fetches + 1);
    }

    method Release(context: ContextComponent)
      requires Valid() && context in state.cnt
      modifies this, queue, state.cnt.Keys
      ensures Valid() && state == Step(old(state), Op.Release(context))
    {
      ghost var next := Step(state, Op.Release(context));
      WithoutMeaning(queue.contents, context);
      WithoutMembers(queue.contents, context);
      if context.enqueued {
        queue.Remove(context);
      }
      state := next;
    }
  }
}
