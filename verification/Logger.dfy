/** The logger thread, the threads which log, and those which add and remove callbacks: every step
    between two operations on a mutex may be interleaved with those of all others. */
module Logger {
  type Message = nat
  type Callback = nat

  datatype Owner = Free | ByLogger | ByThread(t: nat)

  /** What a callback is doing itself. */
  datatype Nested =
    | Nothing
    | WantsEnqueue(m: Message)
    | Enqueues(m: Message)
    | Notifies
    | Registers(cb: Callback)
    | Unregisters(cb: Callback)

  /** Where the logger thread is. */
  datatype Phase =
    | Locking
    | Checking
    | Waiting
    | WantsCallbacks
    | Draining
    | Delivering(msg: Message, next: nat)
    | Calling(msg: Message, next: nat, nested: Nested)
    | Relocking
    | Releasing

  /** Where another thread is. */
  datatype Worker =
    | Idle
    | WantsPending(m: Message)
    | HoldsPending(m: Message)
    | Notifying
    | WantsAdd(cb: Callback)
    | HoldsAdd(cb: Callback)
    | WantsRemove(cb: Callback)
    | HoldsRemove(cb: Callback)

  datatype State = State(pending: seq<Message>, callbacks: seq<Callback>,
                         pendingLock: Owner, callbackLock: Owner,
                         logger: Phase, workers: seq<Worker>, notified: bool)

  /** One step of the logger or another thread, a thread starting an operation, a callback starting to
      log or to change which are registered, or the logger waking up for no reason. */
  datatype Event = LoggerStep | WorkerStep(t: nat) | Start(t: nat, op: Worker) | Nest(nested: Nested) | SpuriousWake

  function Removed(s: seq<Callback>, cb: Callback): seq<Callback> {
    if s == [] then [] else Removed(s[..|s| - 1], cb) + if s[|s| - 1] == cb then [] else [s[|s| - 1]]
  }

  function LoggerNext(s: State): State {
    match s.logger
    case Locking => if s.pendingLock.Free? then s.(logger := Checking, pendingLock := ByLogger) else s
    case Checking =>
      if s.pending == [] then s.(logger := Waiting, pendingLock := Free, notified := false)
      else s.(logger := WantsCallbacks)
    case Waiting => if s.notified then s.(logger := Locking, notified := false) else s
    case WantsCallbacks => if s.callbackLock.Free? then s.(logger := Draining, callbackLock := ByLogger) else s
    case Draining =>
      if s.pending == [] then s.(logger := Releasing, callbackLock := Free)
      else s.(logger := Delivering(s.pending[0], 0), pending := s.pending[1..], pendingLock := Free)
    case Delivering(msg, next) =>
      if next < |s.callbacks| then s.(logger := Calling(msg, next, Nothing)) else s.(logger := Relocking)
    case Calling(msg, next, nested) =>
      (match nested
       case Nothing => s.(logger := Delivering(msg, next + 1))
       case WantsEnqueue(m) =>
         if s.pendingLock.Free? then s.(logger := Calling(msg, next, Enqueues(m)), pendingLock := ByLogger) else s
       case Enqueues(m) =>
         s.(logger := Calling(msg, next, Notifies), pendingLock := Free, pending := s.pending + [m])
       case Notifies => s.(logger := Calling(msg, next, Nothing))
       case Registers(cb) =>
         if s.callbackLock.Free? then s.(logger := Calling(msg, next, Nothing), callbacks := s.callbacks + [cb]) else s
       case Unregisters(cb) =>
         if s.callbackLock.Free? then s.(logger := Calling(msg, next, Nothing), callbacks := Removed(s.callbacks, cb))
         else s)
    case Relocking => if s.pendingLock.Free? then s.(logger := Draining, pendingLock := ByLogger) else s
    case Releasing => s.(logger := Locking, pendingLock := Free)
  }

  function WorkerNext(s: State, t: nat): State
    requires t < |s.workers|
  {
    match s.workers[t]
    case Idle => s
    case WantsPending(m) =>
      if s.pendingLock.Free? then s.(workers := s.workers[t := HoldsPending(m)], pendingLock := ByThread(t)) else s
    case HoldsPending(m) =>
      s.(workers := s.workers[t := Notifying], pendingLock := Free, pending := s.pending + [m])
    case Notifying => s.(workers := s.workers[t := Idle], notified := s.notified || s.logger.Waiting?)
    case WantsAdd(cb) =>
      if s.callbackLock.Free? then s.(workers := s.workers[t := HoldsAdd(cb)], callbackLock := ByThread(t)) else s
    case HoldsAdd(cb) =>
      s.(workers := s.workers[t := Idle], callbackLock := Free, callbacks := s.callbacks + [cb])
    case WantsRemove(cb) =>
      if s.callbackLock.Free? then s.(workers := s.workers[t := HoldsRemove(cb)], callbackLock := ByThread(t)) else s
    case HoldsRemove(cb) =>
      s.(workers := s.workers[t := Idle], callbackLock := Free, callbacks := Removed(s.callbacks, cb))
  }

  function Step(s: State, e: Event): State {
    match e
    case LoggerStep => LoggerNext(s)
    case WorkerStep(t) => if t < |s.workers| then WorkerNext(s, t) else s
    case Start(t, op) =>
      if t < |s.workers| && s.workers[t].Idle? && (op.WantsPending? || op.WantsAdd? || op.WantsRemove?)
      then s.(workers := s.workers[t := op]) else s
    case Nest(nested) =>
      if s.logger.Calling? && s.logger.nested.Nothing? &&
        (nested.WantsEnqueue? || nested.Registers? || nested.Unregisters?)
      then s.(logger := s.logger.(nested := nested)) else s
    case SpuriousWake => if s.logger.Waiting? then s.(logger := Locking, notified := false) else s
  }

  function Run(s: State, events: seq<Event>): State {
    if events == [] then s else Step(Run(s, events[..|events| - 1]), events[|events| - 1])
  }

  predicate Initial(s: State) {
    && s.pending == [] && s.pendingLock.Free? && s.callbackLock.Free? && s.logger.Locking? && !s.notified
    && forall t | 0 <= t < |s.workers| :: s.workers[t].Idle?
  }

  // ---- what a run did, told from outside ----------------------------------------------------

  /** An operation which was ended, and who did. */
  datatype Done = Done(who: Owner, op: Worker)

  datatype Call = Call(msg: Message, cb: Callback)

  /** A message which was delivered, and who was registered then. */
  datatype Delivery = Delivery(msg: Message, cbs: seq<Callback>)

  /** The operation someone holds a lock for. */
  function Ending(s: State, o: Owner): seq<Worker> {
    match o
    case Free => []
    case ByLogger => if s.logger.Calling? && s.logger.nested.Enqueues? then [WantsPending(s.logger.nested.m)] else []
    case ByThread(t) =>
      if t >= |s.workers| then []
      else match s.workers[t]
        case HoldsPending(m) => [WantsPending(m)]
        case HoldsAdd(cb) => [WantsAdd(cb)]
        case HoldsRemove(cb) => [WantsRemove(cb)]
        case _ => []
  }

  /** An operation is done when who holds a lock for it gives the lock up. */
  function DoneIn(s: State, e: Event): seq<Done> {
    if Step(s, e).pendingLock != s.pendingLock && Ending(s, s.pendingLock) != [] then
      [Done(s.pendingLock, Ending(s, s.pendingLock)[0])]
    else if Step(s, e).callbackLock != s.callbackLock && s.callbackLock.ByThread? &&
      Ending(s, s.callbackLock) != [] then
      [Done(s.callbackLock, Ending(s, s.callbackLock)[0])]
    else []
  }

  function DoneBy(s: State, events: seq<Event>): seq<Done> {
    if events == [] then []
    else
      var init := events[..|events| - 1];
      DoneBy(s, init) + DoneIn(Run(s, init), events[|events| - 1])
  }

  /** A callback is called when the logger gets there. */
  function CallsIn(s: State, e: Event): seq<Call> {
    var now := Step(s, e);
    if !s.logger.Calling? && now.logger.Calling? && now.logger.next < |now.callbacks| then
      [Call(now.logger.msg, now.callbacks[now.logger.next])]
    else []
  }

  function CallsBy(s: State, events: seq<Event>): seq<Call> {
    if events == [] then []
    else
      var init := events[..|events| - 1];
      CallsBy(s, init) + CallsIn(Run(s, init), events[|events| - 1])
  }

  function InFlight(p: Phase): seq<Message> {
    if p.Delivering? || p.Calling? then [p.msg] else []
  }

  /** A message is delivered when the logger is done with it. */
  function DeliveredIn(s: State, e: Event): seq<Delivery> {
    if InFlight(s.logger) != [] && InFlight(Step(s, e).logger) == [] then
      [Delivery(InFlight(s.logger)[0], s.callbacks)]
    else []
  }

  function DeliveredBy(s: State, events: seq<Event>): seq<Delivery> {
    if events == [] then []
    else
      var init := events[..|events| - 1];
      DeliveredBy(s, init) + DeliveredIn(Run(s, init), events[|events| - 1])
  }

  /** The operations a thread, or a callback, sets out to do. */
  function StartsIn(s: State, e: Event, o: Owner): seq<Worker> {
    match e
    case Start(t, op) =>
      if o == ByThread(t) && t < |s.workers| && s.workers[t].Idle? &&
        (op.WantsPending? || op.WantsAdd? || op.WantsRemove?)
      then [op] else []
    case Nest(nested) =>
      if o.ByLogger? && s.logger.Calling? && s.logger.nested.Nothing? && nested.WantsEnqueue?
      then [WantsPending(nested.m)] else []
    case _ => []
  }

  function StartedBy(s: State, events: seq<Event>, o: Owner): seq<Worker> {
    if events == [] then []
    else
      var init := events[..|events| - 1];
      StartedBy(s, init, o) + StartsIn(Run(s, init), events[|events| - 1], o)
  }

  /** What a thread, or a callback, set out to do and did not do yet. */
  function InHand(s: State, o: Owner): seq<Worker> {
    match o
    case Free => []
    case ByLogger =>
      if s.logger.Calling? && (s.logger.nested.WantsEnqueue? || s.logger.nested.Enqueues?) then
        [WantsPending(s.logger.nested.m)]
      else []
    case ByThread(t) =>
      if t >= |s.workers| then []
      else match s.workers[t]
        case WantsPending(m) => [WantsPending(m)]
        case HoldsPending(m) => [WantsPending(m)]
        case WantsAdd(cb) => [WantsAdd(cb)]
        case HoldsAdd(cb) => [WantsAdd(cb)]
        case WantsRemove(cb) => [WantsRemove(cb)]
        case HoldsRemove(cb) => [WantsRemove(cb)]
        case _ => []
  }

  /** The operations one thread, or the callbacks, did. */
  function By(done: seq<Done>, o: Owner): seq<Worker> {
    if done == [] then []
    else By(done[..|done| - 1], o) + if done[|done| - 1].who == o then [done[|done| - 1].op] else []
  }

  /** The messages which were logged. */
  function Logged(done: seq<Done>): seq<Message> {
    if done == [] then []
    else Logged(done[..|done| - 1]) + if done[|done| - 1].op.WantsPending? then [done[|done| - 1].op.m] else []
  }

  /** The callbacks which are registered after one operation. */
  function RegisteredAfter(cbs: seq<Callback>, op: Worker): seq<Callback> {
    match op
    case WantsAdd(cb) => cbs + [cb]
    case WantsRemove(cb) => Removed(cbs, cb)
    case _ => cbs
  }

  /** ... and after several. */
  function Registered(before: seq<Callback>, done: seq<Done>): seq<Callback> {
    if done == [] then before
    else
      RegisteredAfter(Registered(before, done[..|done| - 1]), done[|done| - 1].op)
  }

  function Messages(deliveries: seq<Delivery>): (ms: seq<Message>)
    ensures |ms| == |deliveries|
  {
    seq(|deliveries|, i requires 0 <= i < |deliveries| => deliveries[i].msg)
  }

  /** One message going to some callbacks, one after the other. */
  function CallsTo(msg: Message, cbs: seq<Callback>): (calls: seq<Call>)
    ensures |calls| == |cbs|
  {
    seq(|cbs|, i requires 0 <= i < |cbs| => Call(msg, cbs[i]))
  }

  /** Each message going to all callbacks registered for it. */
  function AllCalls(deliveries: seq<Delivery>): seq<Call> {
    if deliveries == [] then []
    else
      var last := deliveries[|deliveries| - 1];
      AllCalls(deliveries[..|deliveries| - 1]) + CallsTo(last.msg, last.cbs)
  }

  // ---- the invariant ------------------------------------------------------------------------

  predicate LoggerHoldsPending(p: Phase) {
    p.Checking? || p.WantsCallbacks? || p.Draining? || p.Releasing? || (p.Calling? && p.nested.Enqueues?)
  }

  predicate LoggerHoldsCallbacks(p: Phase) {
    p.Draining? || p.Delivering? || p.Calling? || p.Relocking?
  }

  /** Whoever is where a lock is held holds it, and nobody else. */
  ghost predicate LocksOk(s: State) {
    && (s.pendingLock.ByLogger? <==> LoggerHoldsPending(s.logger))
    && (s.callbackLock.ByLogger? <==> LoggerHoldsCallbacks(s.logger))
    && (forall t | 0 <= t < |s.workers| ::
          && (s.workers[t].HoldsPending? <==> s.pendingLock == ByThread(t))
          && (s.workers[t].HoldsAdd? || s.workers[t].HoldsRemove? <==> s.callbackLock == ByThread(t)))
    && (s.pendingLock.ByThread? ==> s.pendingLock.t < |s.workers|)
    && (s.callbackLock.ByThread? ==> s.callbackLock.t < |s.workers|)
  }

  /** The logger is somewhere in the list of callbacks. */
  ghost predicate NextOk(s: State) {
    && (s.logger.Delivering? ==> s.logger.next <= |s.callbacks|)
    && (s.logger.Calling? ==> s.logger.next < |s.callbacks|)
  }

  /** A waiting logger is about to be woken when there is something to log. */
  ghost predicate WakeOk(s: State) {
    s.logger.Waiting? && s.pending != [] ==>
      s.notified || exists t | 0 <= t < |s.workers| :: s.workers[t].Notifying?
  }

  ghost predicate Invariant(s: State) {
    LocksOk(s) && NextOk(s) && WakeOk(s)
  }

  /** The logger takes locks which are free, and gives up its own. */
  lemma LoggerLocks(s: State)
    requires s.pendingLock.ByLogger? <==> LoggerHoldsPending(s.logger)
    requires s.callbackLock.ByLogger? <==> LoggerHoldsCallbacks(s.logger)
    ensures var after := LoggerNext(s);
      && (after.pendingLock.ByLogger? <==> LoggerHoldsPending(after.logger))
      && (after.callbackLock.ByLogger? <==> LoggerHoldsCallbacks(after.logger))
      && (after.pendingLock.ByThread? || s.pendingLock.ByThread? ==> after.pendingLock == s.pendingLock)
      && (after.callbackLock.ByThread? || s.callbackLock.ByThread? ==> after.callbackLock == s.callbackLock)
      && after.workers == s.workers
  {
    hide Removed;
  }

  lemma LoggerKeepsLocks(s: State)
    requires LocksOk(s)
    ensures LocksOk(LoggerNext(s))
  {
    LoggerLocks(s);
    hide LoggerNext, LoggerHoldsPending, LoggerHoldsCallbacks;
  }

  lemma WorkerKeepsLocks(s: State, t: nat)
    requires LocksOk(s) && t < |s.workers|
    ensures LocksOk(WorkerNext(s, t))
  {
    hide LoggerHoldsPending, LoggerHoldsCallbacks, Removed;
  }

  lemma StepKeepsLocks(s: State, e: Event)
    requires LocksOk(s)
    ensures LocksOk(Step(s, e))
  {
    hide LoggerNext, WorkerNext;
    match e
    case LoggerStep => LoggerKeepsLocks(s);
    case WorkerStep(t) => if t < |s.workers| { WorkerKeepsLocks(s, t); }
    case _ =>
  }

  lemma LoggerKeepsNext(s: State)
    requires LocksOk(s) && NextOk(s)
    ensures NextOk(LoggerNext(s))
  {
    assert s.logger.Calling? ==> s.callbackLock.ByLogger?;
    hide LocksOk, Removed;
  }

  /** Only who holds the callback lock changes the callbacks, so they stay the same during a drain. */
  lemma WorkerKeepsNext(s: State, t: nat)
    requires LocksOk(s) && NextOk(s) && t < |s.workers|
    ensures NextOk(WorkerNext(s, t))
    ensures LoggerHoldsCallbacks(s.logger) ==> WorkerNext(s, t).callbacks == s.callbacks
  {
    hide Removed;
  }

  lemma StepKeepsNext(s: State, e: Event)
    requires LocksOk(s) && NextOk(s)
    ensures NextOk(Step(s, e))
  {
    hide LoggerNext, WorkerNext, LocksOk;
    match e
    case LoggerStep => LoggerKeepsNext(s);
    case WorkerStep(t) => if t < |s.workers| { WorkerKeepsNext(s, t); WorkerKeepsLogger(s, t); }
    case _ =>
  }

  lemma WorkerKeepsLogger(s: State, t: nat)
    requires t < |s.workers|
    ensures WorkerNext(s, t).logger == s.logger && |WorkerNext(s, t).workers| == |s.workers|
  {
    hide Removed;
  }

  lemma LoggerKeepsWake(s: State)
    requires WakeOk(s)
    ensures WakeOk(LoggerNext(s))
  {
    hide Removed;
  }

  /** A notification cannot get lost: whoever adds a message notifies after that. */
  lemma WorkerKeepsWake(s: State, t: nat)
    requires WakeOk(s) && t < |s.workers|
    ensures WakeOk(WorkerNext(s, t))
  {
    hide Removed;
    var after := WorkerNext(s, t);
    if s.workers[t].HoldsPending? {
      assert after.workers[t].Notifying?;
    } else if u :| 0 <= u < |s.workers| && s.workers[u].Notifying? && u != t {
      assert after.workers[u].Notifying?;
    }
  }

  lemma StepKeepsWake(s: State, e: Event)
    requires WakeOk(s)
    ensures WakeOk(Step(s, e))
  {
    hide LoggerNext, WorkerNext;
    match e
    case LoggerStep => LoggerKeepsWake(s);
    case WorkerStep(t) => if t < |s.workers| { WorkerKeepsWake(s, t); }
    case Start(t, op) =>
      if u :| 0 <= u < |s.workers| && s.workers[u].Notifying? {
        assert Step(s, e).workers[u].Notifying?;
      }
    case _ =>
  }

  lemma StepKeepsInvariant(s: State, e: Event)
    requires Invariant(s)
    ensures Invariant(Step(s, e))
  {
    hide LocksOk, NextOk, WakeOk, Step;
    StepKeepsLocks(s, e);
    StepKeepsNext(s, e);
    StepKeepsWake(s, e);
  }

  lemma {:induction false} RunKeepsInvariant(s: State, events: seq<Event>)
    requires Invariant(s)
    ensures Invariant(Run(s, events))
    decreases |events|
  {
    if events != [] {
      RunKeepsInvariant(s, events[..|events| - 1]);
      StepKeepsInvariant(Run(s, events[..|events| - 1]), events[|events| - 1]);
    }
  }

  lemma StartsWithInvariant(s: State)
    requires Initial(s)
    ensures Invariant(s)
  {
  }

  // ---- what one step does -------------------------------------------------------------------

  /** What the logger ends: nothing but what one of its callbacks logs. */
  lemma LoggerDoes(s: State)
    requires LocksOk(s)
    ensures DoneIn(s, LoggerStep) == if s.logger.Calling? && s.logger.nested.Enqueues?
                                     then [Done(ByLogger, WantsPending(s.logger.nested.m))] else []
  {
    hide Removed;
  }

  lemma WorkerDoes(s: State, t: nat)
    requires LocksOk(s) && t < |s.workers|
    ensures DoneIn(s, WorkerStep(t)) ==
      match s.workers[t]
      case HoldsPending(m) => [Done(ByThread(t), WantsPending(m))]
      case HoldsAdd(cb) => [Done(ByThread(t), WantsAdd(cb))]
      case HoldsRemove(cb) => [Done(ByThread(t), WantsRemove(cb))]
      case _ => []
  {
    hide Removed, LoggerHoldsPending, LoggerHoldsCallbacks;
  }

  lemma OthersDoNothing(s: State, e: Event)
    requires e.Start? || e.Nest? || e.SpuriousWake? || (e.WorkerStep? && e.t >= |s.workers|)
    ensures DoneIn(s, e) == [] && CallsIn(s, e) == [] && DeliveredIn(s, e) == []
    ensures Step(s, e).pending == s.pending && Step(s, e).callbacks == s.callbacks
    ensures InFlight(Step(s, e).logger) == InFlight(s.logger)
  {
  }

  lemma OneDone(d: Done)
    ensures Logged([d]) == if d.op.WantsPending? then [d.op.m] else []
    ensures forall cbs :: Registered(cbs, [d]) == RegisteredAfter(cbs, d.op)
    ensures forall o :: By([d], o) == if d.who == o then [d.op] else []
  {
    hide Removed;
  }

  /** The ways in which messages get on: not at all, logged, taken, or delivered. */
  lemma OrderKept(f: seq<Message>, p: seq<Message>, l: seq<Message>, m: seq<Message>,
                  f': seq<Message>, p': seq<Message>)
    requires (l == m == [] && f' == f && p' == p) || (m == [] && f' == f && p' == p + l)
      || (l == m == f == [] && |f'| <= |p| && f' == p[..|f'|] && p' == p[|f'|..])
      || (l == f' == [] && m == f && p' == p)
    ensures f + p + l == m + (f' + p')
  {
    if m == [] && f' == f && p' == p + l {
      assert f + p + l == f + (p + l);
    }
  }

  /** Nothing gets lost, made up or reordered in one step. */
  lemma LoggerKeepsOrder(s: State)
    requires LocksOk(s)
    ensures InFlight(s.logger) + s.pending + Logged(DoneIn(s, LoggerStep)) ==
            Messages(DeliveredIn(s, LoggerStep)) + (InFlight(LoggerNext(s).logger) + LoggerNext(s).pending)
  {
    LoggerDoes(s);
    assert LoggerHoldsCallbacks(s.logger) ==> !s.callbackLock.Free?;
    hide LocksOk, DoneIn, Removed;
    var l, m := Logged(DoneIn(s, LoggerStep)), Messages(DeliveredIn(s, LoggerStep));
    if s.logger.Calling? && s.logger.nested.Enqueues? {
      OneDone(Done(ByLogger, WantsPending(s.logger.nested.m)));
      OrderKept([s.logger.msg], s.pending, l, m, [s.logger.msg], LoggerNext(s).pending);
    } else if s.logger.Draining? && s.pending != [] {
      OrderKept([], s.pending, l, m, [s.pending[0]], s.pending[1..]);
    } else if s.logger.Delivering? && s.logger.next >= |s.callbacks| {
      OrderKept([s.logger.msg], s.pending, l, m, [], s.pending);
    } else {
      OrderKept(InFlight(s.logger), s.pending, l, m, InFlight(s.logger), s.pending);
    }
  }

  lemma WorkerKeepsOrder(s: State, t: nat)
    requires LocksOk(s) && t < |s.workers|
    ensures InFlight(s.logger) + s.pending + Logged(DoneIn(s, WorkerStep(t))) ==
            Messages(DeliveredIn(s, WorkerStep(t))) + (InFlight(WorkerNext(s, t).logger) + WorkerNext(s, t).pending)
  {
    WorkerDoes(s, t);
    WorkerKeepsLogger(s, t);
    var l, m := Logged(DoneIn(s, WorkerStep(t))), Messages(DeliveredIn(s, WorkerStep(t)));
    hide LocksOk, DoneIn, Removed, InFlight, Messages;
    assert m == [] by { NoMessages(); }
    match s.workers[t] {
      case HoldsPending(msg) => OneDone(Done(ByThread(t), WantsPending(msg)));
      case HoldsAdd(cb) => OneDone(Done(ByThread(t), WantsAdd(cb)));
      case HoldsRemove(cb) => OneDone(Done(ByThread(t), WantsRemove(cb)));
      case _ =>
    }
    OrderKept(InFlight(s.logger), s.pending, l, m, InFlight(s.logger), WorkerNext(s, t).pending);
  }

  lemma NoMessages()
    ensures Messages([]) == []
  {
  }

  lemma StepKeepsOrder(s: State, e: Event)
    requires LocksOk(s)
    ensures InFlight(s.logger) + s.pending + Logged(DoneIn(s, e)) ==
            Messages(DeliveredIn(s, e)) + (InFlight(Step(s, e).logger) + Step(s, e).pending)
  {
    hide LocksOk, DoneIn, LoggerNext, WorkerNext, DeliveredIn;
    if e.LoggerStep? {
      LoggerKeepsOrder(s);
    } else if e.WorkerStep? && e.t < |s.workers| {
      WorkerKeepsOrder(s, e.t);
    } else {
      OthersDoNothing(s, e);
    }
  }

  /** The callbacks registered are changed by the operations done, and by nothing else. */
  lemma StepRegisters(s: State, e: Event)
    requires LocksOk(s)
    ensures Step(s, e).callbacks == Registered(s.callbacks, DoneIn(s, e))
  {
    hide Removed, LoggerHoldsPending;
    if e.LoggerStep? {
      LoggerDoes(s);
      assert s.logger.Calling? ==> s.callbackLock.ByLogger?;
      hide LocksOk, DoneIn;
      if s.logger.Calling? && s.logger.nested.Enqueues? { OneDone(Done(ByLogger, WantsPending(s.logger.nested.m))); }
    } else if e.WorkerStep? && e.t < |s.workers| {
      WorkerDoes(s, e.t);
      hide LocksOk, DoneIn;
      match s.workers[e.t]
      case HoldsPending(m) => OneDone(Done(ByThread(e.t), WantsPending(m)));
      case HoldsAdd(cb) => OneDone(Done(ByThread(e.t), WantsAdd(cb)));
      case HoldsRemove(cb) => OneDone(Done(ByThread(e.t), WantsRemove(cb)));
      case _ =>
    } else {
      OthersDoNothing(s, e);
    }
  }

  /** The calls made for the message in flight. */
  function CallsSoFar(s: State): seq<Call>
    requires NextOk(s)
  {
    match s.logger
    case Delivering(msg, next) => CallsTo(msg, s.callbacks[..next])
    case Calling(msg, next, _) => CallsTo(msg, s.callbacks[..next + 1])
    case _ => []
  }

  lemma DeliveringCalls(s: State)
    requires s.logger.Delivering? && NextOk(s) && NextOk(LoggerNext(s))
    ensures CallsSoFar(s) + CallsIn(s, LoggerStep) == AllCalls(DeliveredIn(s, LoggerStep)) + CallsSoFar(LoggerNext(s))
  {
    hide CallsTo, AllCalls;
    NoCalls();
    var msg, next := s.logger.msg, s.logger.next;
    if next < |s.callbacks| {
      OneMoreCall(msg, s.callbacks, next);
    } else {
      assert s.callbacks[..next] == s.callbacks;
      OneDelivery(Delivery(msg, s.callbacks));
    }
  }

  /** Each message goes to the callbacks one after the other, and is delivered when all were called. */
  lemma LoggerCalls(s: State)
    requires LocksOk(s) && NextOk(s) && NextOk(LoggerNext(s))
    ensures CallsSoFar(s) + CallsIn(s, LoggerStep) == AllCalls(DeliveredIn(s, LoggerStep)) + CallsSoFar(LoggerNext(s))
  {
    assert LoggerHoldsCallbacks(s.logger) ==> !s.callbackLock.Free?;
    hide LocksOk, Removed, CallsTo, AllCalls;
    NoCalls();
    if s.logger.Delivering? {
      DeliveringCalls(s);
    } else if s.logger.Draining? && s.pending != [] {
      NobodyYet(s.pending[0], s.callbacks);
    }
  }

  lemma NoCalls()
    ensures AllCalls([]) == []
  {
  }

  lemma NobodyYet(msg: Message, cbs: seq<Callback>)
    ensures CallsTo(msg, cbs[..0]) == []
  {
  }

  lemma OneMoreCall(msg: Message, cbs: seq<Callback>, next: nat)
    requires next < |cbs|
    ensures CallsTo(msg, cbs[..next + 1]) == CallsTo(msg, cbs[..next]) + [Call(msg, cbs[next])]
  {
  }

  lemma OneDelivery(d: Delivery)
    ensures AllCalls([d]) == CallsTo(d.msg, d.cbs) 
  {
    assert [d][..0] == [];
    assert [] + CallsTo(d.msg, d.cbs) == CallsTo(d.msg, d.cbs);
  }

  lemma StepCalls(s: State, e: Event)
    requires LocksOk(s) && NextOk(s) && NextOk(Step(s, e))
    ensures CallsSoFar(s) + CallsIn(s, e) == AllCalls(DeliveredIn(s, e)) + CallsSoFar(Step(s, e))
  {
    hide LoggerNext, WorkerNext, LocksOk, CallsTo;
    if e.LoggerStep? {
      LoggerCalls(s);
    } else if e.WorkerStep? && e.t < |s.workers| {
      WorkerKeepsNext(s, e.t);
      WorkerKeepsLogger(s, e.t);
    }
  }

  /** What is in hand stays there, or is done. */
  lemma HandKept(before: seq<Worker>, done: seq<Worker>, after: seq<Worker>)
    requires (done == [] && after == before) || (done == before && after == [])
    ensures before == done + after
  {
  }

  lemma NothingBy(o: Owner)
    ensures By([], o) == []
  {
  }

  /** What someone set out to do is in hand until it is done. */
  lemma LoggerKeepsHand(s: State, o: Owner)
    requires LocksOk(s)
    ensures InHand(s, o) == By(DoneIn(s, LoggerStep), o) + InHand(LoggerNext(s), o)
  {
    LoggerDoes(s);
    assert LoggerHoldsCallbacks(s.logger) ==> !s.callbackLock.Free?;
    LoggerLocks(s);
    NothingBy(o);
    hide LocksOk, DoneIn, Removed, By;
    if s.logger.Calling? && s.logger.nested.Enqueues? { OneDone(Done(ByLogger, WantsPending(s.logger.nested.m))); }
    HandKept(InHand(s, o), By(DoneIn(s, LoggerStep), o), InHand(LoggerNext(s), o));
  }

  lemma WorkerKeepsHand(s: State, t: nat, o: Owner)
    requires LocksOk(s) && t < |s.workers|
    ensures InHand(s, o) == By(DoneIn(s, WorkerStep(t)), o) + InHand(WorkerNext(s, t), o)
  {
    WorkerDoes(s, t);
    WorkerKeepsLogger(s, t);
    NothingBy(o);
    hide LocksOk, DoneIn, Removed, By;
    match s.workers[t] {
      case HoldsPending(m) => OneDone(Done(ByThread(t), WantsPending(m)));
      case HoldsAdd(cb) => OneDone(Done(ByThread(t), WantsAdd(cb)));
      case HoldsRemove(cb) => OneDone(Done(ByThread(t), WantsRemove(cb)));
      case _ =>
    }
    if o != ByThread(t) {
      OthersHand(s, t, o);
    }
    HandKept(InHand(s, o), By(DoneIn(s, WorkerStep(t)), o), InHand(WorkerNext(s, t), o));
  }

  lemma OthersHand(s: State, t: nat, o: Owner)
    requires t < |s.workers| && o != ByThread(t)
    ensures InHand(WorkerNext(s, t), o) == InHand(s, o)
  {
    hide Removed;
  }

  lemma StepKeepsHand(s: State, e: Event, o: Owner)
    requires LocksOk(s)
    ensures InHand(s, o) + StartsIn(s, e, o) == By(DoneIn(s, e), o) + InHand(Step(s, e), o)
  {
    hide LocksOk, DoneIn, LoggerNext, WorkerNext;
    if e.LoggerStep? {
      LoggerKeepsHand(s, o);
    } else if e.WorkerStep? && e.t < |s.workers| {
      WorkerKeepsHand(s, e.t, o);
    } else {
      OthersDoNothing(s, e);
    }
  }

  // ---- what it is for -----------------------------------------------------------------------

  lemma {:induction false} DoneConcat(a: seq<Done>, b: seq<Done>)
    ensures Logged(a + b) == Logged(a) + Logged(b)
    ensures forall cbs :: Registered(cbs, a + b) == Registered(Registered(cbs, a), b)
    ensures forall o :: By(a + b, o) == By(a, o) + By(b, o)
    decreases |b|
  {
    hide Removed;
    if b == [] {
      assert a + b == a;
    } else {
      DoneConcat(a, b[..|b| - 1]);
      assert (a + b)[..|a + b| - 1] == a + b[..|b| - 1];
    }
  }

  lemma Associative<T>(a: seq<T>, b: seq<T>, c: seq<T>)
    ensures (a + b) + c == a + (b + c)
  {
  }

  lemma {:induction false} CallsConcat(a: seq<Delivery>, b: seq<Delivery>)
    ensures AllCalls(a + b) == AllCalls(a) + AllCalls(b)
    decreases |b|
  {
    hide CallsTo;
    if b == [] {
      assert a + b == a;
      assert AllCalls(a) + [] == AllCalls(a);
    } else {
      assert AllCalls(b) == AllCalls(b[..|b| - 1]) + CallsTo(b[|b| - 1].msg, b[|b| - 1].cbs);
      assert AllCalls(a + b) ==
        AllCalls((a + b)[..|a + b| - 1]) + CallsTo((a + b)[|a + b| - 1].msg, (a + b)[|a + b| - 1].cbs);
      var init, last := b[..|b| - 1], b[|b| - 1];
      CallsConcat(a, init);
      assert (a + b)[..|a + b| - 1] == a + init && (a + b)[|a + b| - 1] == last;
      hide AllCalls;
      Associative(AllCalls(a), AllCalls(init), CallsTo(last.msg, last.cbs));
    }
  }

  lemma MessagesConcat(a: seq<Delivery>, b: seq<Delivery>)
    ensures Messages(a + b) == Messages(a) + Messages(b)
  {
  }

  lemma FromNothing<T>(before: seq<T>, more: seq<T>, all: seq<T>)
    requires before == [] && before + more == all
    ensures more == all
  {
  }

  lemma Shifted<T>(before: seq<T>, more: seq<T>, gone: seq<T>, now: seq<T>, last: seq<T>, left: seq<T>, after: seq<T>)
    requires before + more == gone + now && now + last == left + after
    ensures before + (more + last) == (gone + left) + after
  {
    assert before + (more + last) == gone + now + last;
    assert gone + now + last == gone + (now + last);
  }

  /** What was delivered, is being delivered and is pending is exactly what was logged, in order: by
      whoever gave up the lock with a message in hand. */
  lemma {:induction false} RunKeepsOrder(s: State, events: seq<Event>)
    requires Invariant(s)
    ensures var after := Run(s, events);
      InFlight(s.logger) + s.pending + Logged(DoneBy(s, events)) ==
      Messages(DeliveredBy(s, events)) + (InFlight(after.logger) + after.pending)
    decreases |events|
  {
    hide Invariant, Step, DoneIn, DeliveredIn, InFlight, Messages;
    if events != [] {
      var init, e := events[..|events| - 1], events[|events| - 1];
      var before := Run(s, init);
      RunKeepsOrder(s, init);
      RunKeepsInvariant(s, init);
      InvariantMeans(before);
      StepKeepsOrder(before, e);
      DoneConcat(DoneBy(s, init), DoneIn(before, e));
      MessagesConcat(DeliveredBy(s, init), DeliveredIn(before, e));
      Shifted(InFlight(s.logger) + s.pending, Logged(DoneBy(s, init)), Messages(DeliveredBy(s, init)),
              InFlight(before.logger) + before.pending, Logged(DoneIn(before, e)), Messages(DeliveredIn(before, e)),
              InFlight(Step(before, e).logger) + Step(before, e).pending);
    } else {
      assert Messages([]) == [];
    }
  }

  lemma InvariantMeans(s: State)
    requires Invariant(s)
    ensures LocksOk(s) && NextOk(s)
  {
  }

  lemma {:induction false} RunCalls(s: State, events: seq<Event>)
    requires Invariant(s)
    ensures NextOk(s) && NextOk(Run(s, events))
    ensures CallsSoFar(s) + CallsBy(s, events) == AllCalls(DeliveredBy(s, events)) + CallsSoFar(Run(s, events))
    decreases |events|
  {
    hide Invariant, Step, CallsIn, DeliveredIn, CallsSoFar, NextOk;
    InvariantMeans(s);
    if events != [] {
      var init, e := events[..|events| - 1], events[|events| - 1];
      var before := Run(s, init);
      RunCalls(s, init);
      RunKeepsInvariant(s, init);
      InvariantMeans(before);
      StepKeepsNext(before, e);
      StepCalls(before, e);
      CallsConcat(DeliveredBy(s, init), DeliveredIn(before, e));
      Shifted(CallsSoFar(s), CallsBy(s, init), AllCalls(DeliveredBy(s, init)), CallsSoFar(before),
              CallsIn(before, e), AllCalls(DeliveredIn(before, e)), CallsSoFar(Step(before, e)));
    }
  }

  lemma {:induction false} RunRegisters(s: State, events: seq<Event>)
    requires Invariant(s)
    ensures Run(s, events).callbacks == Registered(s.callbacks, DoneBy(s, events))
    decreases |events|
  {
    hide Invariant, Step, DoneIn;
    if events != [] {
      var init, e := events[..|events| - 1], events[|events| - 1];
      RunRegisters(s, init);
      RunKeepsInvariant(s, init);
      InvariantMeans(Run(s, init));
      StepRegisters(Run(s, init), e);
      DoneConcat(DoneBy(s, init), DoneIn(Run(s, init), e));
    }
  }

  lemma {:induction false} RunKeepsHand(s: State, events: seq<Event>, o: Owner)
    requires Invariant(s)
    ensures InHand(s, o) + StartedBy(s, events, o) == By(DoneBy(s, events), o) + InHand(Run(s, events), o)
    decreases |events|
  {
    hide Invariant, Step, DoneIn, StartsIn, InHand;
    if events != [] {
      var init, e := events[..|events| - 1], events[|events| - 1];
      var before := Run(s, init);
      RunKeepsHand(s, init, o);
      RunKeepsInvariant(s, init);
      InvariantMeans(before);
      StepKeepsHand(before, e, o);
      DoneConcat(DoneBy(s, init), DoneIn(before, e));
      Shifted(InHand(s, o), StartedBy(s, init, o), By(DoneBy(s, init), o), InHand(before, o), StartsIn(before, e, o),
              By(DoneIn(before, e), o), InHand(Step(before, e), o));
    }
  }

  /** In every interleaving, what was delivered, is being delivered and is pending is exactly what was
      logged, in order, and each message delivered went to each callback registered for it, once and in
      order, and to nobody else. */
  lemma NothingLostOrReordered(s: State, events: seq<Event>)
    requires Initial(s)
    ensures var (after, deliveries) := (Run(s, events), DeliveredBy(s, events));
      && Messages(deliveries) + (InFlight(after.logger) + after.pending) == Logged(DoneBy(s, events))
      && NextOk(after) && CallsBy(s, events) == AllCalls(deliveries) + CallsSoFar(after)
      && after.callbacks == Registered(s.callbacks, DoneBy(s, events))
  {
    StartsWithInvariant(s);
    RunKeepsOrder(s, events);
    RunCalls(s, events);
    RunRegisters(s, events);
    NothingAtFirst(s);
    hide Initial, Invariant, Run, DoneBy, DeliveredBy, CallsBy, Logged, Registered, AllCalls, Messages, CallsSoFar,
      InFlight, NextOk;
    var after, deliveries := Run(s, events), DeliveredBy(s, events);
    FromNothing(InFlight(s.logger) + s.pending, Logged(DoneBy(s, events)),
                Messages(deliveries) + (InFlight(after.logger) + after.pending));
    FromNothing(CallsSoFar(s), CallsBy(s, events), AllCalls(deliveries) + CallsSoFar(after));
  }

  lemma NothingAtFirst(s: State)
    requires Initial(s)
    ensures NextOk(s) && InFlight(s.logger) + s.pending == [] && CallsSoFar(s) == []
  {
  }

  /** What a thread, or the callbacks, did is what it set out to do, in that order, but for the one thing
      it may be at. */
  lemma EveryoneGetsItsTurn(s: State, events: seq<Event>, o: Owner)
    requires Initial(s)
    ensures StartedBy(s, events, o) == By(DoneBy(s, events), o) + InHand(Run(s, events), o)
    ensures |InHand(Run(s, events), o)| <= 1
    ensures o.ByThread? && o.t < |Run(s, events).workers| && Run(s, events).workers[o.t].Idle? ==>
      StartedBy(s, events, o) == By(DoneBy(s, events), o)
  {
    StartsWithInvariant(s);
    RunKeepsHand(s, events, o);
    assert InHand(s, o) == [];
    var after, done := Run(s, events), By(DoneBy(s, events), o);
    hide Invariant, Initial, Run, DoneBy, StartedBy, By;
    FromNothing(InHand(s, o), StartedBy(s, events, o), done + InHand(after, o));
    if o.ByThread? && o.t < |after.workers| && after.workers[o.t].Idle? {
      assert done + [] == done;
    }
  }

  lemma {:induction false} RemovedConcat(a: seq<Callback>, b: seq<Callback>, cb: Callback)
    ensures Removed(a + b, cb) == Removed(a, cb) + Removed(b, cb)
    decreases |b|
  {
    if b == [] {
      assert a + b == a;
    } else {
      RemovedConcat(a, b[..|b| - 1], cb);
      assert (a + b)[..|a + b| - 1] == a + b[..|b| - 1];
    }
  }

  lemma {:induction false} RemovedAbsent(s: seq<Callback>, cb: Callback)
    requires cb !in s
    ensures Removed(s, cb) == s
  {
    if s != [] { RemovedAbsent(s[..|s| - 1], cb); }
  }

  /** Removing takes a callback out wherever it is registered, and leaves the others and their order. */
  lemma RemovedFrom(a: seq<Callback>, b: seq<Callback>, cb: Callback)
    requires cb !in a
    ensures Removed(a + [cb] + b, cb) == a + Removed(b, cb)
  {
    RemovedAbsent(a, cb);
    RemovedConcat(a + [cb], b, cb);
    RemovedConcat(a, [cb], cb);
    assert Removed([cb], cb) == [] by { assert [cb][..0] == []; }
    hide Removed;
    assert a + [] == a;
  }

  lemma {:induction false} RemovedIsGone(s: seq<Callback>, cb: Callback, x: Callback)
    ensures x in Removed(s, cb) <==> x in s && x != cb
  {
    if s != [] { RemovedIsGone(s[..|s| - 1], cb, x); }
  }

  /** The step which ends an addition leaves the callback registered, behind all others. */
  lemma AdditionEnds(s: State, t: nat, cb: Callback)
    requires Invariant(s) && t < |s.workers| && s.workers[t] == HoldsAdd(cb)
    ensures var after := Step(s, WorkerStep(t));
      after.callbacks == s.callbacks + [cb] && after.workers[t].Idle? && after.callbackLock.Free?
  {
  }

  /** The step which ends a removal leaves the callback neither registered nor being called. */
  lemma RemovalEnds(s: State, t: nat, cb: Callback)
    requires Invariant(s) && t < |s.workers| && s.workers[t] == HoldsRemove(cb)
    ensures var after := Step(s, WorkerStep(t));
      && cb !in after.callbacks && after.callbacks == Removed(s.callbacks, cb) && !after.logger.Calling?
      && after.workers[t].Idle? && after.callbackLock.Free?
  {
    RemovedIsGone(s.callbacks, cb, cb);
  }

  lemma {:induction false} NotRegistered(before: seq<Callback>, done: seq<Done>, cb: Callback)
    requires cb !in before && forall d | d in done :: d.op != WantsAdd(cb)
    ensures cb !in Registered(before, done)
  {
    hide Removed;
    if done != [] {
      var init := done[..|done| - 1];
      NotRegistered(before, init, cb);
      var op := done[|done| - 1].op;
      assert op != WantsAdd(cb);
      if op.WantsRemove? { RemovedIsGone(Registered(before, init), op.cb, cb); }
    }
  }

  lemma CalledIsRegistered(s: State, e: Event, c: Call)
    requires c in CallsIn(s, e)
    ensures c.cb in Step(s, e).callbacks
  {
  }

  /** After its removal a callback is never called again, as long as it is not added again. */
  lemma {:induction false} NeverEnteredAfterRemoval(s: State, events: seq<Event>, cb: Callback)
    requires Invariant(s) && cb !in s.callbacks && forall d | d in DoneBy(s, events) :: d.op != WantsAdd(cb)
    ensures cb !in Run(s, events).callbacks && forall c | c in CallsBy(s, events) :: c.cb != cb
    decreases |events|
  {
    hide Invariant, Step, DoneIn, CallsIn, Registered;
    RunRegisters(s, events);
    NotRegistered(s.callbacks, DoneBy(s, events), cb);
    if events != [] {
      var init, e := events[..|events| - 1], events[|events| - 1];
      NeverEnteredAfterRemoval(s, init, cb);
      forall c | c in CallsIn(Run(s, init), e) ensures c.cb != cb { CalledIsRegistered(Run(s, init), e, c); }
    }
  }

  // ---- deadlock -----------------------------------------------------------------------------

  /** Nobody has anything to do. */
  ghost predicate Quiet(s: State) {
    s.logger.Waiting? && s.pending == [] && forall t | 0 <= t < |s.workers| :: s.workers[t].Idle?
  }

  /** A callback, which the logger calls with the callbacks locked, is locking them itself. */
  predicate LoggerRelocks(s: State) {
    s.logger.Calling? && (s.logger.nested.Registers? || s.logger.nested.Unregisters?)
  }

  /** The logger or another thread goes on. */
  predicate GoesOn(e: Event) {
    e.LoggerStep? || e.WorkerStep?
  }

  /** Who holds a lock can go on, or waits for someone who can: unless a callback is adding or removing
      one, the threads only ever stop when nobody has anything to do. */
  lemma NoDeadlock(s: State) returns (e: Event)
    requires Invariant(s) && !LoggerRelocks(s)
    ensures GoesOn(e) && (Step(s, e) != s || Quiet(s))
  {
    hide Removed;
    e := LoggerStep;
    if s.pendingLock.ByThread? {
      e := WorkerStep(s.pendingLock.t);
      assert Step(s, e).workers[s.pendingLock.t] == Notifying;
    } else if s.callbackLock.ByThread? {
      e := WorkerStep(s.callbackLock.t);
      assert Step(s, e).workers[s.callbackLock.t] == Idle;
    } else if !s.logger.Waiting? {
      assert LoggerNext(s).logger != s.logger;
    } else if t :| 0 <= t < |s.workers| && !s.workers[t].Idle? {
      e := WorkerStep(t);
      assert Step(s, e).workers[t] != s.workers[t];
    }
  }

  /** A callback which adds or removes one stops the logger for good: it waits for its own lock. */
  lemma {:induction false} RelockingDeadlocks(s: State, events: seq<Event>)
    requires Invariant(s) && LoggerRelocks(s)
    ensures Run(s, events).logger == s.logger && CallsBy(s, events) == [] && DeliveredBy(s, events) == []
    decreases |events|
  {
    hide Removed;
    if events != [] {
      var init, e := events[..|events| - 1], events[|events| - 1];
      RelockingDeadlocks(s, init);
      RunKeepsInvariant(s, init);
      StaysLocked(Run(s, init), e);
    }
  }

  lemma StaysLocked(s: State, e: Event)
    requires Invariant(s) && LoggerRelocks(s)
    ensures Step(s, e).logger == s.logger && CallsIn(s, e) == [] && DeliveredIn(s, e) == []
  {
    assert s.callbackLock.ByLogger?;
    hide Invariant, LocksOk, WorkerNext;
    if e.WorkerStep? && e.t < |s.workers| { WorkerKeepsLogger(s, e.t); }
  }

  /** With nobody else holding a lock, a logger which has something to do can do it exactly unless one of
      its own callbacks is locking the callbacks again. */
  lemma OnlyRelockingStops(s: State)
    requires Invariant(s) && !s.logger.Waiting? && !s.pendingLock.ByThread? && !s.callbackLock.ByThread?
    ensures LoggerNext(s) != s <==> !LoggerRelocks(s)
  {
    hide Removed;
    assert !LoggerRelocks(s) ==> LoggerNext(s).logger != s.logger;
  }

  // ---- progress -----------------------------------------------------------------------------

  /** How far a thread is from being done. */
  function WorkerRank(w: Worker): nat {
    match w
    case Idle => 0
    case Notifying => 1
    case HoldsPending(_) => 2
    case HoldsAdd(_) => 2
    case HoldsRemove(_) => 2
    case _ => 3
  }

  function WorkersRank(ws: seq<Worker>): nat {
    if ws == [] then 0 else WorkersRank(ws[..|ws| - 1]) + WorkerRank(ws[|ws| - 1])
  }

  /** The messages the logger has before it, one being logged by a callback included. */
  function Unread(s: State): nat {
    |s.pending| + if s.logger.Calling? && (s.logger.nested.WantsEnqueue? || s.logger.nested.Enqueues?) then 1 else 0
  }

  /** How far a callback which is logging is from its end. */
  function NestedRank(n: Nested): nat {
    match n
    case WantsEnqueue(_) => 4
    case Enqueues(_) => 3
    case Notifies => 2
    case _ => 1
  }

  /** How far the logger is from taking the next message, or from waiting when there is none. */
  function LoggerRank(s: State): nat
    requires NextOk(s)
  {
    match s.logger
    case Delivering(_, next) => 10 + 8 * (|s.callbacks| - next)
    case Calling(_, next, nested) => 10 + 8 * (|s.callbacks| - next - 1) + NestedRank(nested)
    case Relocking => 8
    case WantsCallbacks => if s.pending == [] then 7 else 1
    case Draining => if s.pending == [] then 6 else 0
    case Releasing => 5
    case Waiting => if s.notified then 4 else 0
    case Locking => 3
    case Checking => 2
  }

  /** Nearer to the end: a thread is, or else there are fewer messages, or else the logger is nearer to the
      next one. */
  ghost predicate Nearer(after: State, s: State)
    requires NextOk(s) && NextOk(after)
  {
    || WorkersRank(after.workers) < WorkersRank(s.workers)
    || (after.workers == s.workers && Unread(after) < Unread(s))
    || (after.workers == s.workers && Unread(after) == Unread(s) && LoggerRank(after) < LoggerRank(s))
  }

  lemma {:induction false} RankUpdate(ws: seq<Worker>, t: nat, w: Worker)
    requires t < |ws|
    ensures WorkersRank(ws[t := w]) + WorkerRank(ws[t]) == WorkersRank(ws) + WorkerRank(w)
    decreases |ws|
  {
    hide WorkerRank;
    var last := |ws| - 1;
    if t < last {
      RankUpdate(ws[..last], t, w);
      assert ws[t := w][..last] == ws[..last][t := w];
    } else {
      assert ws[t := w][..last] == ws[..last];
    }
  }

  lemma WorkerGetsNearer(s: State, t: nat)
    requires t < |s.workers| && WorkerNext(s, t) != s
    ensures WorkersRank(WorkerNext(s, t).workers) < WorkersRank(s.workers)
  {
    hide Removed;
    var w := WorkerNext(s, t).workers[t];
    assert WorkerNext(s, t).workers == s.workers[t := w];
    RankUpdate(s.workers, t, w);
  }

  lemma LoggerGetsNearer(s: State)
    requires LocksOk(s) && NextOk(s) && NextOk(LoggerNext(s)) && LoggerNext(s) != s
    ensures Nearer(LoggerNext(s), s)
  {
    assert s.logger.Calling? ==> s.callbackLock.ByLogger?;
    hide Removed, LocksOk, WorkersRank;
  }

  /** Whatever the order in which the threads go on, every step which does anything gets them nearer to
      the end, so they cannot keep each other busy. */
  lemma EveryStepGetsNearer(s: State, e: Event)
    requires Invariant(s) && GoesOn(e) && Step(s, e) != s
    ensures Invariant(Step(s, e)) && Nearer(Step(s, e), s)
    ensures !LoggerRelocks(s) ==> !LoggerRelocks(Step(s, e))
  {
    StepKeepsInvariant(s, e);
    hide LocksOk, WakeOk, LoggerRank, Unread, WorkersRank;
    if e.LoggerStep? {
      LoggerGetsNearer(s);
    } else {
      WorkerGetsNearer(s, e.t);
      WorkerKeepsLogger(s, e.t);
    }
  }

  lemma {:induction false} RunConcat(s: State, a: seq<Event>, b: seq<Event>)
    ensures Run(s, a + b) == Run(Run(s, a), b)
    ensures forall o | forall e | e in b :: GoesOn(e) :: StartedBy(s, a + b, o) == StartedBy(s, a, o)
    decreases |b|
  {
    hide Step;
    if b == [] {
      assert a + b == a;
    } else {
      RunConcat(s, a, b[..|b| - 1]);
      assert (a + b)[..|a + b| - 1] == a + b[..|b| - 1];
      assert b[|b| - 1] in b && forall e | e in b[..|b| - 1] :: e in b;
    }
  }

  /** Wherever they are, the threads can go on until nobody has anything to do. */
  lemma {:induction false} CanFinish(s: State) returns (events: seq<Event>)
    requires Invariant(s) && !LoggerRelocks(s)
    ensures Quiet(Run(s, events)) && forall e | e in events :: GoesOn(e)
    decreases WorkersRank(s.workers), Unread(s), if NextOk(s) then LoggerRank(s) else 0
  {
    var e := NoDeadlock(s);
    if Quiet(s) {
      events := [];
    } else {
      EveryStepGetsNearer(s, e);
      hide LocksOk, WakeOk, Step, Quiet, LoggerRank, Unread, WorkersRank;
      var rest := CanFinish(Step(s, e));
      assert [e][..0] == [];
      assert Run(s, [e]) == Step(s, e);
      RunConcat(s, [e], rest);
      events := [e] + rest;
    }
  }

  lemma QuietMeans(s: State, o: Owner)
    requires Quiet(s)
    ensures InFlight(s.logger) == [] && s.pending == [] && InHand(s, o) == []
  {
  }

  /** However a run went, unless a callback is adding or removing one, it can be brought to an end: and then
      everything anyone set out to do was done, and everything logged was delivered, in order, to all
      callbacks registered for it. */
  lemma CanDeliverEverything(s: State, events: seq<Event>) returns (more: seq<Event>)
    requires Initial(s) && !LoggerRelocks(Run(s, events))
    ensures var (done, deliveries) := (DoneBy(s, events + more), DeliveredBy(s, events + more));
      && Quiet(Run(s, events + more))
      && (forall o :: By(done, o) == StartedBy(s, events, o))
      && Messages(deliveries) == Logged(done) && CallsBy(s, events + more) == AllCalls(deliveries)
  {
    StartsWithInvariant(s);
    RunKeepsInvariant(s, events);
    more := CanFinish(Run(s, events));
    RunConcat(s, events, more);
    NothingLostOrReordered(s, events + more);
    hide Invariant, Run, Initial, DoneBy, DeliveredBy, CallsBy, StartedBy, Logged, AllCalls, Messages, By;
    forall o ensures By(DoneBy(s, events + more), o) == StartedBy(s, events, o) {
      QuietMeans(Run(s, events + more), o);
      EveryoneGetsItsTurn(s, events + more, o);
    }
    QuietMeans(Run(s, events + more), Free);
  }
}
