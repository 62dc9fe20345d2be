/**
 The receiver of signals on seL4, whose notification object merges any number of triggers into
 one: the receiver always asks for a signal before it blocks, in every interleaving with
 submissions and releases.
 */
module Sel4SignalClient {
  import opened SignalSource

  /** Within `wait_for_signal` or outside, after a fruitless request, or blocked on the notification. */
  datatype Client = Outside | Asking | AboutToBlock | Blocked

  datatype System<C(==)> = System(source: State<C>, notified: bool, client: Client)

  datatype Event<C(==)> = Core(op: Op<C>) | CallWait | Ask | Block

  predicate Possible<C(==)>(s: System<C>, e: Event<C>) {
    match e
    case Core(op) => !op.Fetch? && Enabled(s.source, op)
    case CallWait => s.client.Outside?
    case Ask => s.client.Asking? && WellTyped(s.source)
    case Block => s.client.AboutToBlock?
  }

  /** A trigger resumes a blocked receiver, and is remembered otherwise, once. */
  function Trigger<C(==)>(s: System<C>): System<C> {
    if s.client.Blocked? then s.(client := Asking) else s.(notified := true)
  }

  function After<C(==)>(s: System<C>, e: Event<C>): System<C>
    requires Possible(s, e)
  {
    match e
    case Core(op) =>
      var s' := s.(source := Step(s.source, op));
      if s'.source.triggers > s.source.triggers then Trigger(s') else s'
    case CallWait => s.(client := Asking)
    case Ask =>
      s.(source := Step(s.source, Fetch), client := if s.source.queue == [] then AboutToBlock else Outside)
    case Block =>
      if s.notified then s.(notified := false, client := Asking) else s.(client := Blocked)
  }

  predicate PossibleRun<C(==)>(s: System<C>, es: seq<Event<C>>)
    decreases |es|
  {
    es == [] || (Possible(s, es[0]) && PossibleRun(After(s, es[0]), es[1..]))
  }

  function AfterAll<C(==)>(s: System<C>, es: seq<Event<C>>): System<C>
    requires PossibleRun(s, es)
    decreases |es|
  {
    if es == [] then s else AfterAll(After(s, es[0]), es[1..])
  }

  function Start<C(==)>(): System<C> {
    System(Initial(), false, Outside)
  }

  /** Signals that arrive after a fruitless request leave a notification. */
  ghost predicate Attentive<C>(s: System<C>) {
    && Conserved(s.source)
    && (s.client.AboutToBlock? && s.source.queue != [] ==> s.notified)
    && (s.client.Blocked? ==> s.source.queue == [] && !s.notified)
  }

  lemma EventKeepsAttentive<C>(s: System<C>, e: Event<C>)
    requires Attentive(s) && Possible(s, e)
    ensures Attentive(After(s, e))
  {
    match e
    case Core(op) => StepConserves(s.source, op);
    case CallWait =>
    case Ask => StepConserves(s.source, Fetch);
    case Block =>
  }

  lemma {:induction false} RunKeepsAttentive<C>(s: System<C>, es: seq<Event<C>>)
    requires Attentive(s) && PossibleRun(s, es)
    ensures Attentive(AfterAll(s, es))
    decreases |es|
  {
    if es != [] {
      EventKeepsAttentive(s, es[0]);
      RunKeepsAttentive(After(s, es[0]), es[1..]);
    }
  }

  /**
   In every run: when the receiver is blocked, no context waits in the queue and no notification is
   pending, so that everything submitted to a context that was not released has been delivered.
   */
  lemma BlockedMeansDelivered<C>(es: seq<Event<C>>)
    requires PossibleRun(Start(), es)
    ensures var s := AfterAll(Start(), es);
            s.client.Blocked? ==>
              && s.source.queue == [] && !s.notified && WellTyped(s.source)
              && forall c :: c in s.source.cnt && c !in s.source.released ==>
                   Total(s.source.delivered, c) == s.source.submitted[c]
  {
    RunKeepsAttentive(Start(), es);
    var s := AfterAll(Start(), es);
    if s.client.Blocked? {
      forall c | c in s.source.cnt && c !in s.source.released
        ensures s.source.cnt[c] == 0
      {
        assert s.source.cnt[c] > 0 ==> c in s.source.queue;
      }
    }
  }

  /** Without further submissions, a receiver that is within the call takes a waiting signal after at most two steps. */
  lemma WaitingSignalIsTaken<C>(es: seq<Event<C>>)
    requires PossibleRun(Start(), es)
    ensures var s := AfterAll(Start(), es);
            s.source.queue != [] && !s.client.Outside? ==>
              var own := if s.client.Asking? then [Ask] else [Block, Ask];
              && PossibleRun(s, own)
              && AfterAll(s, own).client.Outside? && AfterAll(s, own).source.delivered ==
                   s.source.delivered + [(s.source.queue[0], s.source.cnt[s.source.queue[0]])]
  {
    RunKeepsAttentive(Start(), es);
    var s := AfterAll(Start(), es);
    if s.client.AboutToBlock? && s.source.queue != [] {
      var woken := After(s, Block);
      assert [Event<C>.Block, Ask][1..] == [Ask];
      assert AfterAll(s, [Block, Ask]) == AfterAll(woken, [Ask]);
    }
  }
}
