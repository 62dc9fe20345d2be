/**
 The pause handshake of the pager object on NOVA. The pager thread answers page faults,
 recalls and exceptions of its client, possibly with a reply that makes the client block on a
 kernel semaphore; other threads wake the client up or recall it to pause it. Two flags,
 protected by a lock, say whether the client is blocked, and whether on that semaphore. The
 step system interleaves the client, the pager thread and any number of other threads at each
 access to the flags, the lock and the semaphore; system calls succeed.
 */
module PagerHandshake {

  // ---- step system --------------------------------------------------------------------------

  /** How the pager answers: plainly, or naming a semaphore to block on. */
  datatype Reply = Plain | Pause | Oom

  /** The outcome of a page fault: a mapping, no kernel memory left, or anything else. */
  datatype Outcome = Resolved | OutOfMemory | Unresolved

  datatype ClientPc = Starting | Running | Faulting | Recalled | Excepting | InPause | InOom

  /** Where the pager thread is; in the states named `Locked`, `Lookup`, `Checked` and `Unlock`, it holds the lock. */
  datatype PagerPc =
    | Waiting
    | StartupEntry
    | FaultEntry | FaultLocked | FaultLookup
    | RecallEntry | RecallLocked | RecallChecked
    | ExceptionEntry | ExceptionLocked
    | Unlock(reply: Reply) | Answer(reply: Reply)

  datatype Request = WakeUp | ClientRecall(block: bool) | Migrate

  /** Where the caller of `wake_up`, `client_recall` or `migrate` that holds the lock is. */
  datatype CallerPc =
    | WakeLocked | WakeUnblocked | WakeUpped | WakeDone
    | RecallLocked(block: bool) | RecallIssued(block: bool) | RecallDone
    | MigrateLocked | MigrateRecalled

  datatype Lock = Free | ByPager | ByCaller(t: nat, pc: CallerPc)

  /** `entering` holds the calls of other threads that wait for the lock. */
  datatype State = State(
    blocked: bool, pauseSm: bool, sm: nat, recall: bool, migrate: bool, dead: bool,
    client: ClientPc, pager: PagerPc, lock: Lock, entering: map<nat, Request>)

  /** The pager thread finds an outcome for page faults, a handler for exceptions, and whether a migration succeeds. */
  datatype Action =
    | Fault | Exception | TakeRecall | Resume | ResumeOom
    | Pager(outcome: Outcome, handled: bool, moved: bool)
    | Call(t: nat, request: Request) | Acquire(t: nat) | Advance

  function Initial(): State {
    State(false, false, 0, false, false, false, Starting, StartupEntry, Free, map[])
  }

  predicate NeedsLock(pc: PagerPc) {
    pc.FaultEntry? || pc.RecallEntry? || pc.ExceptionEntry?
  }

  predicate Enabled(s: State, a: Action) {
    match a
    case Fault => s.client.Running? && !s.dead
    case Exception => s.client.Running? && !s.dead
    case TakeRecall => s.client.Running? && !s.dead && s.recall
    case Resume => s.client.InPause? && s.sm > 0
    case ResumeOom => s.client.InOom?
    case Pager(_, _, _) => !s.pager.Waiting? && (NeedsLock(s.pager) ==> s.lock.Free?)
    case Call(t, _) => t !in s.entering && (s.lock.ByCaller? ==> s.lock.t != t)
    case Acquire(t) => t in s.entering && s.lock.Free?
    case Advance => s.lock.ByCaller?
  }

  function Step(s: State, a: Action): State
    requires Enabled(s, a)
  {
    match a
    case Fault => s.(client := Faulting, pager := FaultEntry)
    case Exception => s.(client := Excepting, pager := ExceptionEntry)
    case TakeRecall => s.(client := Recalled, pager := RecallEntry, recall := false)
    case Resume => s.(client := Running, sm := s.sm - 1)
    case ResumeOom => s.(client := Running)
    case Pager(outcome, handled, moved) => PagerStep(s, outcome, handled, moved)
    case Call(t, request) => s.(entering := s.entering[t := request])
    case Acquire(t) =>
      s.(lock := ByCaller(t, Locked(s.entering[t])), entering := s.entering - {t})
    case Advance => CallerStep(s)
  }

  function Locked(request: Request): CallerPc {
    match request
    case WakeUp => WakeLocked
    case ClientRecall(block) => CallerPc.RecallLocked(block)
    case Migrate => MigrateLocked
  }

  /** Until it answers, the pager thread leaves client and semaphore alone. */
  function PagerStep(s: State, outcome: Outcome, handled: bool, moved: bool): (s': State)
    ensures s'.sm == s.sm && (!s.pager.Answer? ==> s'.client == s.client)
    ensures s.pager.Answer? ==> s' == AnswerStep(s)
  {
    match s.pager
    case Waiting => s
    case StartupEntry => s.(blocked := false, pager := Answer(Plain))
    case FaultEntry => AcquiredBy(s, FaultLocked)
    case FaultLocked => s.(blocked := true, pauseSm := true, pager := FaultLookup)
    case FaultLookup => FaultStep(s, outcome)
    case RecallEntry => AcquiredBy(s, PagerPc.RecallLocked)
    case RecallLocked => MigrateStep(s, moved)
    case RecallChecked => RecallStep(s)
    case ExceptionEntry => AcquiredBy(s, ExceptionLocked)
    case ExceptionLocked => ExceptionStep(s, handled)
    case Unlock(_) => UnlockStep(s)
    case Answer(_) => AnswerStep(s)
  }

  function AcquiredBy(s: State, pc: PagerPc): State {
    s.(lock := ByPager, pager := pc)
  }

  function FaultStep(s: State, outcome: Outcome): State {
    match outcome
    case Resolved => s.(blocked := false, pauseSm := false, pager := Unlock(Plain))
    case OutOfMemory => s.(blocked := false, pauseSm := false, pager := Unlock(Oom))
    case Unresolved => s.(pager := Unlock(Pause))
  }

  function MigrateStep(s: State, moved: bool): State {
    s.(migrate := false, pager := if s.migrate && moved then Unlock(Plain) else RecallChecked)
  }

  function RecallStep(s: State): State {
    if s.blocked then s.(pauseSm := true, pager := Unlock(Pause)) else s.(pager := Unlock(Plain))
  }

  function ExceptionStep(s: State, handled: bool): State {
    if handled then s.(recall := true, blocked := true, pager := Unlock(Plain))
    else s.(dead := true, pager := Unlock(Plain))
  }

  function UnlockStep(s: State): State
    requires s.pager.Unlock?
  {
    s.(lock := Free, pager := Answer(s.pager.reply))
  }

  function AnswerStep(s: State): State
    requires s.pager.Answer?
  {
    s.(pager := Waiting, client := ClientAfter(s.pager.reply))
  }

  function ClientAfter(reply: Reply): ClientPc {
    match reply
    case Plain => Running
    case Pause => InPause
    case Oom => InOom
  }

  function CallerStep(s: State): State
    requires s.lock.ByCaller?
  {
    var t := s.lock.t;
    match s.lock.pc
    case WakeLocked =>
      if s.blocked then s.(blocked := false, lock := ByCaller(t, WakeUnblocked))
      else s.(lock := ByCaller(t, WakeDone))
    case WakeUnblocked =>
      if s.pauseSm then s.(sm := s.sm + 1, lock := ByCaller(t, WakeUpped))
      else s.(lock := ByCaller(t, WakeDone))
    case WakeUpped => s.(pauseSm := false, lock := ByCaller(t, WakeDone))
    case WakeDone => s.(lock := Free)
    case RecallLocked(block) => s.(recall := true, lock := ByCaller(t, RecallIssued(block)))
    case RecallIssued(block) => s.(blocked := s.blocked || block, lock := ByCaller(t, RecallDone))
    case RecallDone => s.(lock := Free)
    case MigrateLocked =>
      if s.blocked then s.(lock := ByCaller(t, RecallDone)) else s.(recall := true, lock := ByCaller(t, MigrateRecalled))
    case MigrateRecalled => s.(migrate := true, lock := ByCaller(t, RecallDone))
  }

  predicate EnabledRun(s: State, run: seq<Action>)
    decreases |run|
  {
    run == [] || (Enabled(s, run[0]) && EnabledRun(Step(s, run[0]), run[1..]))
  }

  function Run(s: State, run: seq<Action>): State
    requires EnabledRun(s, run)
    decreases |run|
  {
    if run == [] then s else Run(Step(s, run[0]), run[1..])
  }

  // ---- invariant ------------------------------------------------------------------------------

  predicate PagerHolds(pc: PagerPc) {
    pc.FaultLocked? || pc.FaultLookup? || pc.RecallLocked? || pc.RecallChecked? || pc.ExceptionLocked? || pc.Unlock?
  }

  /** The client waits for the answer to its request, and for nothing else. */
  predicate Serving(s: State) {
    match s.pager
    case Waiting => s.client.Running? || s.client.InPause? || s.client.InOom?
    case StartupEntry => s.client.Starting?
    case FaultEntry => s.client.Faulting?
    case FaultLocked => s.client.Faulting?
    case FaultLookup => s.client.Faulting?
    case RecallEntry => s.client.Recalled?
    case RecallLocked => s.client.Recalled?
    case RecallChecked => s.client.Recalled?
    case ExceptionEntry => s.client.Excepting?
    case ExceptionLocked => s.client.Excepting?
    case Unlock(_) => s.client.Faulting? || s.client.Recalled? || s.client.Excepting?
    case Answer(reply) =>
      s.client.Faulting? || s.client.Recalled? || s.client.Excepting? || (s.client.Starting? && reply.Plain?)
  }

  predicate Pauses(pc: PagerPc) {
    (pc.Unlock? || pc.Answer?) && pc.reply.Pause?
  }

  /** The client is going to decrement the semaphore, unless its page fault gets resolved. */
  predicate Owes(s: State) {
    s.pager.FaultLookup? || Pauses(s.pager) || s.client.InPause?
  }

  function Bit(b: bool): int {
    if b then 1 else 0
  }

  /** While the lock is free, the semaphore has a token exactly if the client owes one and is not marked to wait for it. */
  predicate FlagsSound(s: State) {
    var upped := s.lock.ByCaller? && s.lock.pc.WakeUpped?;
    var unblocked := s.lock.ByCaller? && s.lock.pc.WakeUnblocked?;
    && s.sm == Bit(Owes(s)) - Bit(s.pauseSm) + Bit(upped)
    && (s.pauseSm ==> s.blocked || unblocked || upped)
    && (s.pager.FaultLookup? || (s.pager.Unlock? && s.pager.reply.Pause?) ==> s.blocked && s.pauseSm)
    && (s.client.Starting? ==> !s.pauseSm)
    && (unblocked ==> !s.blocked)
    && (upped ==> s.pauseSm && !s.blocked)
    && (s.lock.ByCaller? && s.lock.pc.WakeDone? ==> !s.pauseSm)
  }

  /** A client without exception portals runs on, and raises nothing any more. */
  predicate DeadIsSilent(s: State) {
    s.dead ==> s.client.Running? || (s.client.Excepting? && (s.pager.Unlock? || s.pager.Answer?) && s.pager.reply.Plain?)
  }

  predicate Invariant(s: State) {
    (s.lock.ByPager? <==> PagerHolds(s.pager)) && Serving(s) && FlagsSound(s) && DeadIsSilent(s)
  }

  lemma CallerKeepsFlags(s: State)
    requires Invariant(s) && s.lock.ByCaller?
    ensures FlagsSound(CallerStep(s))
  {
    match s.lock.pc
    case WakeLocked =>
    case WakeUnblocked =>
    case WakeUpped =>
    case WakeDone =>
    case RecallLocked(_) =>
    case RecallIssued(_) =>
    case RecallDone =>
    case MigrateLocked =>
    case MigrateRecalled =>
  }

  lemma CallerKeepsInvariant(s: State)
    requires Invariant(s) && s.lock.ByCaller?
    ensures Invariant(CallerStep(s))
  {
    CallerKeepsFlags(s);
    var s' := CallerStep(s);
    assert s'.pager == s.pager && s'.client == s.client && s'.dead == s.dead && !s'.lock.ByPager?;
  }

  lemma EntryKeepsInvariant(s: State)
    requires Invariant(s)
    ensures s.pager.StartupEntry? ==> Invariant(s.(blocked := false, pager := Answer(Plain)))
    ensures s.lock.Free? && s.pager.FaultEntry? ==> Invariant(AcquiredBy(s, FaultLocked))
    ensures s.lock.Free? && s.pager.RecallEntry? ==> Invariant(AcquiredBy(s, PagerPc.RecallLocked))
    ensures s.lock.Free? && s.pager.ExceptionEntry? ==> Invariant(AcquiredBy(s, ExceptionLocked))
  {
  }

  lemma FaultKeepsInvariant(s: State, outcome: Outcome)
    requires Invariant(s)
    ensures s.pager.FaultLocked? ==> Invariant(s.(blocked := true, pauseSm := true, pager := FaultLookup))
    ensures s.pager.FaultLookup? ==> Invariant(FaultStep(s, outcome))
  {
  }

  lemma RecallKeepsInvariant(s: State, handled: bool, moved: bool)
    requires Invariant(s)
    ensures s.pager.RecallLocked? ==> Invariant(MigrateStep(s, moved))
    ensures s.pager.RecallChecked? ==> Invariant(RecallStep(s))
    ensures s.pager.ExceptionLocked? ==> Invariant(ExceptionStep(s, handled))
  {
  }

  lemma AnswerKeepsInvariant(s: State)
    requires Invariant(s)
    ensures s.pager.Unlock? ==> Invariant(UnlockStep(s))
    ensures s.pager.Answer? ==> Invariant(AnswerStep(s))
  {
  }

  lemma PagerKeepsInvariant(s: State, outcome: Outcome, handled: bool, moved: bool)
    requires Invariant(s) && Enabled(s, Pager(outcome, handled, moved))
    ensures Invariant(PagerStep(s, outcome, handled, moved))
  {
    EntryKeepsInvariant(s);
    FaultKeepsInvariant(s, outcome);
    RecallKeepsInvariant(s, handled, moved);
    AnswerKeepsInvariant(s);
  }

  lemma ClientKeepsInvariant(s: State, a: Action)
    requires Invariant(s) && Enabled(s, a) && !a.Pager? && !a.Advance?
    ensures Invariant(Step(s, a))
  {
    match a
    case Fault =>
    case Exception =>
    case TakeRecall =>
    case Resume =>
    case ResumeOom =>
    case Call(_, _) =>
    case Acquire(_) =>
  }

  lemma StepKeepsInvariant(s: State, a: Action)
    requires Invariant(s) && Enabled(s, a)
    ensures Invariant(Step(s, a))
  {
    if a.Advance? {
      CallerKeepsInvariant(s);
    } else if a.Pager? {
      PagerKeepsInvariant(s, a.outcome, a.handled, a.moved);
    } else {
      ClientKeepsInvariant(s, a);
    }
  }

  lemma {:induction false} RunKeepsInvariant(s: State, run: seq<Action>)
    requires Invariant(s) && EnabledRun(s, run)
    ensures Invariant(Run(s, run))
    decreases |run|
  {
    if run != [] {
      StepKeepsInvariant(s, run[0]);
      RunKeepsInvariant(Step(s, run[0]), run[1..]);
    }
  }

  // ---- replies and wake-ups -------------------------------------------------------------------

  /** The replies that named the pause semaphore, and the operations on that semaphore. */
  datatype Log = Log(replies: nat, ups: nat, downs: nat)

  function Record(l: Log, s: State, a: Action): Log {
    match a
    case Pager(_, _, _) => if s.pager.Answer? && s.pager.reply.Pause? then l.(replies := l.replies + 1) else l
    case Advance =>
      if s.lock.ByCaller? && s.lock.pc.WakeUnblocked? && s.pauseSm then l.(ups := l.ups + 1) else l
    case Resume => l.(downs := l.downs + 1)
    case _ => l
  }

  function LogOf(l: Log, s: State, run: seq<Action>): Log
    requires EnabledRun(s, run)
    decreases |run|
  {
    if run == [] then l else LogOf(Record(l, s, run[0]), Step(s, run[0]), run[1..])
  }

  predicate Matched(l: Log, s: State) {
    l.ups == l.downs + s.sm && l.replies == l.downs + Bit(s.client.InPause?)
  }

  lemma StepKeepsMatched(l: Log, s: State, a: Action)
    requires Invariant(s) && Matched(l, s) && Enabled(s, a)
    ensures Matched(Record(l, s, a), Step(s, a))
  {
    match a
    case Pager(outcome, handled, moved) => PagerKeepsMatched(l, s, PagerStep(s, outcome, handled, moved));
    case Advance =>
      match s.lock.pc {
        case WakeUnblocked =>
        case _ =>
      }
    case _ =>
  }

  lemma PagerKeepsMatched(l: Log, s: State, s': State)
    requires Serving(s) && Matched(l, s) && s'.sm == s.sm
    requires if s.pager.Answer? then s' == AnswerStep(s) else s'.client == s.client
    ensures var pause := s.pager.Answer? && s.pager.reply.Pause?;
            Matched(if pause then l.(replies := l.replies + 1) else l, s')
  {
  }

  lemma {:induction false} RunKeepsMatched(l: Log, s: State, run: seq<Action>)
    requires Invariant(s) && Matched(l, s) && EnabledRun(s, run)
    ensures Matched(LogOf(l, s, run), Run(s, run)) && Invariant(Run(s, run))
    decreases |run|
  {
    if run != [] {
      StepKeepsInvariant(s, run[0]);
      StepKeepsMatched(l, s, run[0]);
      RunKeepsMatched(Record(l, s, run[0]), Step(s, run[0]), run[1..]);
    }
  }

  /**
   A client marked to wait for the semaphore is blocked, at most one token is in the semaphore,
   and up to the one that the client is marked to wait for, each reply naming the semaphore,
   given or decided, is matched by one up.
   */
  predicate PausesMatched(l: Log, s: State) {
    && (s.pauseSm ==> s.blocked) && s.sm <= 1
    && l.ups + Bit(s.pauseSm) == l.replies + Bit(Pauses(s.pager))
  }

  lemma MatchedMeaning(l: Log, s: State)
    requires Invariant(s) && Matched(l, s) && s.lock.Free?
    ensures PausesMatched(l, s)
  {
    assert s.client.InPause? ==> !Pauses(s.pager);
  }

  lemma EachPauseIsMatched(run: seq<Action>)
    requires EnabledRun(Initial(), run) && Run(Initial(), run).lock.Free?
    ensures PausesMatched(LogOf(Log(0, 0, 0), Initial(), run), Run(Initial(), run))
  {
    RunKeepsMatched(Log(0, 0, 0), Initial(), run);
    MatchedMeaning(LogOf(Log(0, 0, 0), Initial(), run), Run(Initial(), run));
  }

  /** In every interleaving, a `wake_up` leaves the lock with the token supplied if the client owes one. */
  lemma WakeUpIsNotLost(run: seq<Action>)
    requires EnabledRun(Initial(), run)
    ensures var s := Run(Initial(), run);
            s.lock.ByCaller? && s.lock.pc.WakeDone? ==> !s.pauseSm && (s.sm == 1 <==> Owes(s))
  {
    RunKeepsInvariant(Initial(), run);
  }

  // ---- uninterrupted operations ---------------------------------------------------------------

  datatype Flags = Flags(blocked: bool, pauseSm: bool)

  function FlagsOf(s: State): Flags {
    Flags(s.blocked, s.pauseSm)
  }

  function WithFlags(s: State, f: Flags): State {
    s.(blocked := f.blocked, pauseSm := f.pauseSm)
  }

  function AfterFault(f: Flags, outcome: Outcome): (Flags, Reply) {
    match outcome
    case Resolved => (Flags(false, false), Plain)
    case OutOfMemory => (Flags(false, false), Oom)
    case Unresolved => (Flags(true, true), Pause)
  }

  function AfterRecall(f: Flags, migrated: bool): (Flags, Reply) {
    if migrated then (f, Plain)
    else if f.blocked then (Flags(true, true), Pause) else (f, Plain)
  }

  function AfterException(f: Flags, handled: bool): Flags {
    f.(blocked := f.blocked || handled)
  }

  /** The flags, and the number of up operations. */
  function AfterWakeUp(f: Flags): (Flags, nat) {
    if f.blocked then (Flags(false, false), if f.pauseSm then 1 else 0) else (f, 0)
  }

  function AfterClientRecall(f: Flags, block: bool): Flags {
    f.(blocked := f.blocked || block)
  }

  lemma {:induction false} Append(s: State, run: seq<Action>, run': seq<Action>)
    requires EnabledRun(s, run) && EnabledRun(Run(s, run), run')
    ensures EnabledRun(s, run + run') && Run(s, run + run') == Run(Run(s, run), run')
    decreases |run|
  {
    if run == [] {
      assert run + run' == run';
    } else {
      Append(Step(s, run[0]), run[1..], run');
      assert (run + run')[1..] == run[1..] + run';
    }
  }

  lemma AppendStep(s: State, run: seq<Action>, a: Action)
    requires EnabledRun(s, run) && Enabled(Run(s, run), a)
    ensures EnabledRun(s, run + [a]) && Run(s, run + [a]) == Step(Run(s, run), a)
  {
    assert EnabledRun(Step(Run(s, run), a), []) && [a][1..] == [];
    Append(s, run, [a]);
  }

  /** The handler drops the lock and answers. */
  lemma AppendAnswer(s: State, run0: seq<Action>, a: Action) returns (run: seq<Action>)
    requires EnabledRun(s, run0) && Run(s, run0).pager.Unlock? && a.Pager?
    ensures run == run0 + [a] + [a] && EnabledRun(s, run)
    ensures var s0 := Run(s, run0);
            Run(s, run) == s0.(lock := Free, pager := Waiting, client := ClientAfter(s0.pager.reply))
  {
    run := run0;
    AppendStep(s, run, a);
    run := run + [a];
    AppendStep(s, run, a);
    run := run + [a];
  }

  /** The fault handler, from waiting for the lock until its answer takes effect. */
  lemma FaultHandlerEffect(s: State, outcome: Outcome) returns (run: seq<Action>)
    requires s.pager.FaultEntry? && s.lock.Free?
    ensures EnabledRun(s, run) && forall i :: 0 <= i < |run| ==> run[i].Pager?
    ensures var (f, reply) := AfterFault(FlagsOf(s), outcome);
            Run(s, run) == WithFlags(s, f).(pager := Waiting, client := ClientAfter(reply))
    ensures var s' := Run(s, run);
            && (s'.client == Running <==> outcome == Resolved) && (s'.client == InOom <==> outcome == OutOfMemory)
            && (s'.client == InPause <==> outcome == Unresolved)
            && s'.blocked == (outcome == Unresolved) && s'.pauseSm == (outcome == Unresolved)
  {
    var a := Pager(outcome, false, false);
    run := [];
    AppendStep(s, run, a);
    run := run + [a];
    AppendStep(s, run, a);
    run := run + [a];
    assert Run(s, run) == s.(blocked := true, pauseSm := true, lock := ByPager, pager := FaultLookup);
    AppendStep(s, run, a);
    run := run + [a];
    run := AppendAnswer(s, run, a);
  }

  /** The startup handler lets the client run unblocked. */
  lemma StartupEffect(s: State) returns (run: seq<Action>)
    requires s.pager.StartupEntry?
    ensures EnabledRun(s, run) && forall i :: 0 <= i < |run| ==> run[i].Pager?
    ensures Run(s, run) == s.(blocked := false, pager := Waiting, client := Running)
  {
    var a := Pager(Resolved, false, false);
    run := [];
    AppendStep(s, run, a);
    run := run + [a];
    AppendStep(s, run, a);
    run := run + [a];
  }

  lemma RecallHandlerEffect(s: State, moved: bool) returns (run: seq<Action>)
    requires s.pager.RecallEntry? && s.lock.Free?
    ensures EnabledRun(s, run) && forall i :: 0 <= i < |run| ==> run[i].Pager?
    ensures var (f, reply) := AfterRecall(FlagsOf(s), s.migrate && moved);
            Run(s, run) == WithFlags(s, f).(migrate := false, pager := Waiting, client := ClientAfter(reply))
    ensures var s', pause := Run(s, run), s.blocked && !(s.migrate && moved);
            && s'.client == (if pause then InPause else Running)
            && s'.blocked == s.blocked && s'.pauseSm == (s.pauseSm || pause)
  {
    var a := Pager(Resolved, false, moved);
    run := [];
    AppendStep(s, run, a);
    run := run + [a];
    AppendStep(s, run, a);
    run := run + [a];
    if !(s.migrate && moved) {
      AppendStep(s, run, a);
      run := run + [a];
    }
    run := AppendAnswer(s, run, a);
  }

  lemma ExceptionHandlerEffect(s: State, handled: bool) returns (run: seq<Action>)
    requires s.pager.ExceptionEntry? && s.lock.Free?
    ensures EnabledRun(s, run) && forall i :: 0 <= i < |run| ==> run[i].Pager?
    ensures Run(s, run) == WithFlags(s, AfterException(FlagsOf(s), handled)).(
              recall := s.recall || handled, dead := s.dead || !handled, pager := Waiting, client := Running)
    ensures Run(s, run).blocked == (s.blocked || handled) && Run(s, run).pauseSm == s.pauseSm
  {
    var a := Pager(Resolved, handled, false);
    run := [];
    AppendStep(s, run, a);
    run := run + [a];
    AppendStep(s, run, a);
    run := run + [a];
    run := AppendAnswer(s, run, a);
  }

  lemma WakeUpEffect(s: State, t: nat) returns (run: seq<Action>)
    requires s.lock.Free? && t !in s.entering
    ensures EnabledRun(s, run)
    ensures var (f, ups) := AfterWakeUp(FlagsOf(s));
            Run(s, run) == WithFlags(s, f).(sm := s.sm + ups)
    ensures var s' := Run(s, run);
            && !s'.blocked && s'.pauseSm == (s.pauseSm && !s.blocked)
            && s'.sm == s.sm + if s.blocked && s.pauseSm then 1 else 0
  {
    run := [];
    AppendStep(s, run, Call(t, WakeUp));
    run := run + [Call(t, WakeUp)];
    AppendStep(s, run, Acquire(t));
    run := run + [Acquire(t)];
    AppendStep(s, run, Advance);
    run := run + [Advance];
    AppendStep(s, run, Advance);
    run := run + [Advance];
    if s.blocked {
      AppendStep(s, run, Advance);
      run := run + [Advance];
      if s.pauseSm {
        AppendStep(s, run, Advance);
        run := run + [Advance];
      }
    }
    assert s.entering[t := WakeUp] - {t} == s.entering;
  }

  lemma ClientRecallEffect(s: State, t: nat, block: bool) returns (run: seq<Action>)
    requires s.lock.Free? && t !in s.entering
    ensures EnabledRun(s, run) && run == [Call(t, ClientRecall(block)), Acquire(t), Advance, Advance, Advance]
    ensures Run(s, run) == WithFlags(s, AfterClientRecall(FlagsOf(s), block)).(recall := true)
    ensures Run(s, run) == s.(recall := true, blocked := s.blocked || block)
  {
    run := [];
    AppendStep(s, run, Call(t, ClientRecall(block)));
    run := run + [Call(t, ClientRecall(block))];
    AppendStep(s, run, Acquire(t));
    run := run + [Acquire(t)];
    AppendStep(s, run, Advance);
    run := run + [Advance];
    AppendStep(s, run, Advance);
    run := run + [Advance];
    AppendStep(s, run, Advance);
    run := run + [Advance];
    assert s.entering[t := ClientRecall(block)] - {t} == s.entering;
  }

  /** Whenever the lock is free, a `wake_up` lets a client proceed that blocks on the semaphore, or is about to. */
  lemma WakeUpSupplies(past: seq<Action>, t: nat) returns (run: seq<Action>)
    requires EnabledRun(Initial(), past)
    requires var s := Run(Initial(), past); s.lock.Free? && t !in s.entering && Owes(s)
    ensures EnabledRun(Run(Initial(), past), run)
    ensures var s, s' := Run(Initial(), past), Run(Run(Initial(), past), run);
            && s'.client == s.client && s'.pager == s.pager
            && s'.sm == 1 && !s'.blocked && !s'.pauseSm
  {
    RunKeepsInvariant(Initial(), past);
    run := WakeUpEffect(Run(Initial(), past), t);
  }

  /** No effect on a blocked client; otherwise, the client is recalled to be moved. */
  lemma MigrateEffect(s: State, t: nat) returns (run: seq<Action>)
    requires s.lock.Free? && t !in s.entering
    ensures EnabledRun(s, run) && Run(s, run) == if s.blocked then s else s.(recall := true, migrate := true)
  {
    run := [];
    AppendStep(s, run, Call(t, Migrate));
    run := run + [Call(t, Migrate)];
    AppendStep(s, run, Acquire(t));
    run := run + [Acquire(t)];
    AppendStep(s, run, Advance);
    run := run + [Advance];
    AppendStep(s, run, Advance);
    run := run + [Advance];
    if !s.blocked {
      AppendStep(s, run, Advance);
      run := run + [Advance];
    }
    assert s.entering[t := Migrate] - {t} == s.entering;
  }

  // ---- when a requested pause takes effect ----------------------------------------------------

  /** Only the client and the pager thread act. */
  predicate Quiet(run: seq<Action>) {
    forall i :: 0 <= i < |run| ==> !run[i].Call? && !run[i].Acquire? && !run[i].Advance?
  }

  /** The recall is decided: the handler is about to drop the lock and to answer it. */
  predicate RecallAnswered(s: State) {
    s.client.Recalled? && s.pager.Unlock?
  }

  /** Whatever client and pager do, a recall that the client takes is answered by naming the semaphore. */
  ghost predicate PauseGuaranteed(s: State) {
    forall run :: Quiet(run) && EnabledRun(s, run) && RecallAnswered(Run(s, run)) ==> Run(s, run).pager.reply.Pause?
  }

  /** The client waits for the semaphore, or is about to, and only a `wake_up` lets it go on. */
  predicate Waits(s: State) {
    s.pauseSm && (s.client.InPause? || Pauses(s.pager))
  }

  /** The client entered its recall already and is not to be moved, or it never gets to a recall. */
  predicate Secured(s: State) {
    (s.pager.RecallEntry? && !s.migrate) || Waits(s) || s.dead
  }

  /** From here on, a recall is answered by a pause. */
  predicate WillPause(s: State) {
    && Invariant(s) && !s.lock.ByCaller?
    && (s.dead || Waits(s)
        || ((s.pager.RecallEntry? || s.pager.RecallLocked? || s.pager.RecallChecked?) && !s.migrate && s.blocked))
  }

  lemma QuietStepWillPause(s: State, a: Action)
    requires WillPause(s) && Quiet([a]) && Enabled(s, a)
    ensures WillPause(Step(s, a))
  {
    StepKeepsInvariant(s, a);
    assert [a][0] == a;
    match a
    case Pager(_, _, _) =>
    case Resume =>
    case _ =>
  }

  lemma {:induction false} QuietRunWillPause(s: State, run: seq<Action>)
    requires WillPause(s) && Quiet(run) && EnabledRun(s, run)
    ensures WillPause(Run(s, run))
    decreases |run|
  {
    if run != [] {
      assert Quiet([run[0]]);
      QuietStepWillPause(s, run[0]);
      QuietRunWillPause(Step(s, run[0]), run[1..]);
    }
  }

  /** Neither client nor pager thread is engaged, and a recall is pending. */
  predicate ReadyForRecall(s: State) {
    s.client.Running? && s.pager.Waiting? && s.lock.Free? && s.recall && !s.dead
  }

  /** A running client can raise a page fault first. Resolving it makes the recall be answered plainly. */
  lemma LoseByFault(s: State) returns (run: seq<Action>)
    requires ReadyForRecall(s)
    ensures Quiet(run) && EnabledRun(s, run) && RecallAnswered(Run(s, run)) && Run(s, run).pager.reply.Plain?
  {
    var s1 := Step(s, Fault);
    AppendStep(s, [], Fault);
    assert [] + [Fault] == [Fault];
    var handled := FaultHandlerEffect(s1, Resolved);
    Append(s, [Fault], handled);
    run := [Fault] + handled;
    assert Run(s, run) == WithFlags(s1, Flags(false, false)).(pager := Waiting, client := Running);
    run := TakeRecallPlainly(s, run);
  }

  /** A client that is not blocked any more has its recall answered plainly. */
  lemma TakeRecallPlainly(s: State, run0: seq<Action>) returns (run: seq<Action>)
    requires Quiet(run0) && EnabledRun(s, run0)
    requires var s0 := Run(s, run0); ReadyForRecall(s0) && !s0.blocked
    ensures Quiet(run) && EnabledRun(s, run) && RecallAnswered(Run(s, run)) && Run(s, run).pager.reply.Plain?
  {
    var a := Pager(Resolved, false, false);
    run := run0;
    AppendStep(s, run, TakeRecall);
    run := run + [TakeRecall];
    AppendStep(s, run, a);
    run := run + [a];
    AppendStep(s, run, a);
    run := run + [a];
    AppendStep(s, run, a);
    run := run + [a];
  }

  /** The handler checks for a migration before it looks at the flags. */
  lemma LoseByMigration(s: State) returns (run: seq<Action>)
    requires s.pager.RecallEntry? && s.client.Recalled? && s.lock.Free? && s.migrate
    ensures Quiet(run) && EnabledRun(s, run) && RecallAnswered(Run(s, run)) && Run(s, run).pager.reply.Plain?
  {
    var a := Pager(Resolved, false, true);
    run := [];
    AppendStep(s, run, a);
    run := run + [a];
    AppendStep(s, run, a);
    run := run + [a];
  }

  /** Unless it is taking the recall or waits, a client with portals gets to run. */
  lemma GetsToRun(s: State) returns (run: seq<Action>)
    requires Invariant(s) && s.lock.Free? && s.recall && !s.dead
    requires !s.pager.RecallEntry? && !Waits(s)
    ensures Quiet(run) && EnabledRun(s, run) && ReadyForRecall(Run(s, run))
  {
    var a := Pager(Resolved, true, false);
    run := [];
    match s.pager
    case Waiting => run := LeavesSemaphore(s, run);
    case StartupEntry =>
      AppendStep(s, run, a);
      AppendStep(s, run + [a], a);
      run := run + [a] + [a];
    case FaultEntry => run := FaultHandlerEffect(s, Resolved);
    case ExceptionEntry => run := HandledException(s);
    case Answer(_) =>
      AppendStep(s, run, a);
      run := LeavesSemaphore(s, run + [a]);
  }

  lemma HandledException(s: State) returns (run: seq<Action>)
    requires s.pager.ExceptionEntry? && s.lock.Free?
    ensures Quiet(run) && EnabledRun(s, run)
    ensures Run(s, run) == s.(blocked := true, recall := true, pager := Waiting, client := Running)
  {
    run := ExceptionHandlerEffect(s, true);
  }

  lemma LeavesSemaphore(s: State, run0: seq<Action>) returns (run: seq<Action>)
    requires Quiet(run0) && EnabledRun(s, run0)
    requires var s0 := Run(s, run0);
             Invariant(s0) && s0.pager.Waiting? && s0.lock.Free? && s0.recall && !s0.dead && !Waits(s0)
    ensures Quiet(run) && EnabledRun(s, run) && ReadyForRecall(Run(s, run))
  {
    run := run0;
    var s0 := Run(s, run0);
    if s0.client.InPause? {
      AppendStep(s, run, Resume);
      run := run + [Resume];
    } else if s0.client.InOom? {
      AppendStep(s, run, ResumeOom);
      run := run + [ResumeOom];
    }
  }

  /**
   A pause was requested, and nobody calls the pager object any more: the recall is certain to
   be answered by naming the semaphore if and only if the client has entered it already without
   a migration being requested, or cannot get to a recall at all.
   */
  lemma PauseIsGuaranteedIff(past: seq<Action>)
    requires EnabledRun(Initial(), past)
    requires var s := Run(Initial(), past);
             s.lock.Free? && s.blocked && (s.recall || s.pager.RecallEntry?)
    ensures PauseGuaranteed(Run(Initial(), past)) <==> Secured(Run(Initial(), past))
  {
    var s := Run(Initial(), past);
    RunKeepsInvariant(Initial(), past);
    if Secured(s) {
      forall run | Quiet(run) && EnabledRun(s, run) && RecallAnswered(Run(s, run))
        ensures Run(s, run).pager.reply.Pause?
      {
        QuietRunWillPause(s, run);
      }
    } else {
      var run := LosePause(s);
    }
  }

  lemma LosePause(s: State) returns (run: seq<Action>)
    requires Invariant(s) && s.lock.Free? && (s.recall || s.pager.RecallEntry?) && !Secured(s)
    ensures Quiet(run) && EnabledRun(s, run) && RecallAnswered(Run(s, run)) && Run(s, run).pager.reply.Plain?
  {
    if s.pager.RecallEntry? {
      run := LoseByMigration(s);
    } else {
      var first := GetsToRun(s);
      var rest := LoseByFault(Run(s, first));
      Append(s, first, rest);
      run := first + rest;
    }
  }

  /**
   A pause requested while a page fault is on its way to the handler is lost when the fault gets
   resolved: the client goes on although nobody wakes it up.
   */
  lemma PauseIsLost(s: State, t: nat) returns (run: seq<Action>)
    requires s.pager.FaultEntry? && s.lock.Free? && t !in s.entering && !s.dead
    ensures EnabledRun(s, run) && Call(t, ClientRecall(true)) in run
    ensures forall i :: 0 <= i < |run| ==> run[i] != Call(t, WakeUp)
    ensures Run(s, run).client == Running && !Run(s, run).blocked && !Run(s, run).recall
  {
    var paused := ClientRecallEffect(s, t, true);
    var s1 := Run(s, paused);
    var resolved := FaultHandlerEffect(s1, Resolved);
    var s2 := Run(s1, resolved);
    var taken := RecallHandlerEffect(Step(s2, TakeRecall), false);
    Append(s, paused, resolved);
    run := paused + resolved;
    AppendStep(s, run, TakeRecall);
    run := run + [TakeRecall];
    Append(s, run, taken);
    run := run + taken;
    assert run[0] == Call(t, ClientRecall(true));
  }

  // ---- the pager object -----------------------------------------------------------------------

  const BLOCKED: bv8 := 0x01
  const DEAD: bv8 := 0x02
  const SUBMIT_SIGNAL: bv8 := 0x20
  const BLOCKED_PAUSE_SM: bv8 := 0x40
  const MIGRATE: bv8 := 0x80

  datatype Result = Ok | PdOom | OtherError

  /** What a page fault comes to, from the region manager's answer and up to two system calls. */
  function OutcomeOf(stop: bool, mapping: Result, transfer: Result): Outcome {
    if stop then Unresolved
    else if mapping == Ok || (mapping == PdOom && transfer == Ok) then Resolved
    else if mapping == PdOom && transfer == PdOom then OutOfMemory
    else Unresolved
  }

  function Has(status: bv8, bit: bv8): bool {
    status & bit != 0
  }

  /** The bits of the status that are no flags of the handshake. */
  function Others(status: bv8): bv8 {
    status & 0xbe
  }

  /** The critical sections of the pager object, whose effects the step system interleaves. */
  class PagerObject {
    var status: bv8
    /** Whether a handler for exception signals is installed. */
    var exceptionSigh: bool
    /** Whether the client still exists. */
    var badge: bool
    /** How often the pause semaphore was upped, the client recalled, and an exception signal submitted. */
    var ups: nat
    var recalls: nat
    var signals: nat

    function State(): Flags
      reads this`status
    {
      Flags(Has(status, BLOCKED), Has(status, BLOCKED_PAUSE_SM))
    }

    constructor ()
      ensures State() == Flags(false, false) && status == 0 && ups == 0 && recalls == 0 && signals == 0
    {
      status, exceptionSigh, badge, ups, recalls, signals := 0, false, true, 0, 0, 0;
    }

    method Set(bit: bv8)
      requires bit == BLOCKED || bit == BLOCKED_PAUSE_SM
      modifies this`status
      ensures Others(status) == Others(old(status))
      ensures State() == if bit == BLOCKED then old(State()).(blocked := true) else old(State()).(pauseSm := true)
    {
      status := status | bit;
    }

    method Reset(bit: bv8)
      requires bit == BLOCKED || bit == BLOCKED_PAUSE_SM
      modifies this`status
      ensures Others(status) == Others(old(status))
      ensures State() == if bit == BLOCKED then old(State()).(blocked := false) else old(State()).(pauseSm := false)
    {
      status := status & !bit;
    }

    method PageFaultHandler(stop: bool, mapping: Result, transfer: Result) returns (reply: Reply)
      modifies this`status
      ensures (State(), reply) == AfterFault(old(State()), OutcomeOf(stop, mapping, transfer))
      ensures Others(status) == Others(old(status))
      ensures reply == Plain <==> !stop && (mapping == Ok || (mapping == PdOom && transfer == Ok))
      ensures reply == Oom <==> !stop && mapping == PdOom && transfer == PdOom
      ensures State() == if reply == Pause then Flags(true, true) else Flags(false, false)
    {
      Set(BLOCKED);
      Set(BLOCKED_PAUSE_SM);
      var error := stop;
      if !error && mapping != Ok {
        error := true;
        if mapping == PdOom {
          if transfer == PdOom {
            Reset(BLOCKED_PAUSE_SM);
            Reset(BLOCKED);
            return Oom;
          } else if transfer == Ok {
            error := false;
          }
        }
      }
      if !error {
        Reset(BLOCKED_PAUSE_SM);
        Reset(BLOCKED);
        return Plain;
      }
      return Pause;
    }

    /** Recall the client if somebody handles its exceptions, and mark it dead otherwise. */
    method Exception()
      modifies this`status, this`recalls
      ensures State() == AfterException(old(State()), exceptionSigh)
      ensures State().blocked == (old(State()).blocked || exceptionSigh) && State().pauseSm == old(State()).pauseSm
      ensures recalls == old(recalls) + (if exceptionSigh then 1 else 0)
      ensures Others(status) == Others(old(status)) | (if exceptionSigh then SUBMIT_SIGNAL else DEAD)
    {
      if exceptionSigh {
        status := status | SUBMIT_SIGNAL;
        UnsynchronizedClientRecall(true);
      } else {
        status := status | DEAD;
      }
    }

    /** Move the client if that was requested; `moved` tells whether it succeeds. */
    method MigrateThread(moved: bool) returns (migrated: bool)
      modifies this`status
      ensures migrated <==> Has(old(status), MIGRATE) && badge && moved
      ensures State() == old(State())
      ensures Others(status) == if Has(old(status), MIGRATE) && badge then Others(old(status)) & !MIGRATE
                                else Others(old(status))
    {
      if !(Has(status, MIGRATE) && badge) {
        return false;
      }
      status := status & !MIGRATE;
      return moved;
    }

    /**
     Move the client if requested. Otherwise, deliver a requested signal, and block the client
     until the next `wake_up` if it is to be paused.
     */
    method RecallHandler(moved: bool) returns (reply: Reply)
      modifies this`status, this`signals
      ensures var migrated := Has(old(status), MIGRATE) && badge && moved;
              var submit := !migrated && Has(old(status), SUBMIT_SIGNAL) && exceptionSigh;
              && (State(), reply) == AfterRecall(old(State()), migrated)
              && signals == old(signals) + (if submit then 1 else 0)
              && Others(status) == Others(old(status)) & (if submit then !SUBMIT_SIGNAL else 0xff)
                                   & (if Has(old(status), MIGRATE) && badge then !MIGRATE else 0xff)
      ensures var migrated := Has(old(status), MIGRATE) && badge && moved;
              && (reply == Pause <==> !migrated && old(State()).blocked) && reply != Oom
              && State().blocked == old(State()).blocked
              && State().pauseSm == (old(State()).pauseSm || reply == Pause)
    {
      var migrated := MigrateThread(moved);
      if migrated {
        return Plain;
      }
      if Has(status, SUBMIT_SIGNAL) && exceptionSigh {
        status := status & !SUBMIT_SIGNAL;
        signals := signals + 1;
      }
      reply := Plain;
      if Has(status, BLOCKED) {
        reply := Pause;
        Set(BLOCKED_PAUSE_SM);
      }
    }

    /** Recall a client that is not blocked, so that the recall handler moves it to another location. */
    method Migrate(elsewhere: bool)
      modifies this`status, this`recalls
      ensures State() == old(State())
      ensures var accepted := !old(State()).blocked && elsewhere;
              && recalls == old(recalls) + (if accepted then 1 else 0)
              && Others(status) == if accepted then Others(old(status)) | MIGRATE else Others(old(status))
    {
      if Has(status, BLOCKED) || !elsewhere {
        return;
      }
      UnsynchronizedClientRecall(false);
      status := status | MIGRATE;
    }

    method WakeUp()
      modifies this`status, this`ups
      ensures (State(), ups - old(ups)) == AfterWakeUp(old(State()))
      ensures Others(status) == Others(old(status))
      ensures !State().blocked && State().pauseSm == (old(State()).pauseSm && !old(State()).blocked)
      ensures ups == old(ups) + if old(State()) == Flags(true, true) then 1 else 0
    {
      if !Has(status, BLOCKED) {
        return;
      }
      Reset(BLOCKED);
      if Has(status, BLOCKED_PAUSE_SM) {
        ups := ups + 1;
        Reset(BLOCKED_PAUSE_SM);
      }
    }

    method UnsynchronizedClientRecall(getStateAndBlock: bool)
      modifies this`status, this`recalls
      ensures State() == AfterClientRecall(old(State()), getStateAndBlock)
      ensures State().blocked == (old(State()).blocked || getStateAndBlock) && State().pauseSm == old(State()).pauseSm
      ensures recalls == old(recalls) + 1 && Others(status) == Others(old(status))
    {
      recalls := recalls + 1;
      if getStateAndBlock {
        Set(BLOCKED);
      }
    }
  }
}
