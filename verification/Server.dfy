/**
 The life of connections in the daemon: the main loop accepts them and starts a handler
 thread for each, handlers fail or end, and a counter of running threads, guarded by a
 mutex, decides whether an idle daemon may exit. Threads interleave in any way.
 */
module Server {
  import opened Bytes

  const COUNTER_SIZE := 0x1_0000

  /** What the main thread is about to do; fd is the descriptor it has just accepted. */
  datatype Main =
    | Polling
    | WantsLock(fd: nat)
    | Spawning(fd: nat)      // holds the mutex
    | Incrementing           // holds the mutex, the handler already runs
    | Unlocking              // holds the mutex
    | QuitWhenIdle
    | QuitOnSignal

  datatype Stage =
    | Serving
    | Ending                 // left the request loop, wants the mutex
    | Closing                // holds the mutex
    | Decrementing           // holds the mutex
    | Releasing              // holds the mutex
    | Gone

  /** A handler thread and its own copy of the descriptor, which a failed transfer sets to -1. */
  datatype Handler = Handler(fd: int, stage: Stage)

  datatype Mutex = Free | HeldByMain | HeldBy(h: nat)

  /**
   Connection k is the k-th that was accepted, and is served by handler k. open says which
   connection an open descriptor belongs to; closes counts how often each connection was closed.
   */
  datatype State = State(
    main: Main,
    handlers: seq<Handler>,
    mutex: Mutex,
    running: u16,
    open: map<nat, nat>,
    closes: seq<nat>)

  datatype Event =
    | Accept(fd: nat)        // the descriptor number is chosen by the system among those not open
    | MainStep
    | Timeout
    | Signal
    | TransferFails(h: nat)
    | Leave(h: nat)
    | HandlerStep(h: nat)

  const INITIAL := State(Polling, [], Free, 0, map[], [])

  /** close(fd): closing a number that is not open has no effect. */
  function Close(s: State, fd: int): State {
    if fd >= 0 && fd in s.open && s.open[fd] < |s.closes| then
      s.(open := s.open - {fd}, closes := s.closes[s.open[fd] := s.closes[s.open[fd]] + 1])
    else s
  }

  function SetStage(s: State, h: nat, stage: Stage): State
    requires h < |s.handlers|
  {
    s.(handlers := s.handlers[h := s.handlers[h].(stage := stage)])
  }

  predicate Enabled(s: State, e: Event) {
    match e
    case Accept(fd) => s.main == Polling && fd !in s.open
    case MainStep =>
      s.main.Spawning? || s.main == Incrementing || s.main == Unlocking || (s.main.WantsLock? && s.mutex == Free)
    case Timeout => s.main == Polling
    case Signal => s.main == Polling
    case TransferFails(h) => h < |s.handlers| && s.handlers[h].stage == Serving && s.handlers[h].fd >= 0
    case Leave(h) => h < |s.handlers| && s.handlers[h].stage == Serving
    case HandlerStep(h) =>
      h < |s.handlers| && match s.handlers[h].stage
        case Ending => s.mutex == Free
        case Closing => true
        case Decrementing => true
        case Releasing => true
        case _ => false
  }

  function Step(s: State, e: Event): State
    requires Enabled(s, e)
  {
    match e
    case Accept(fd) => s.(main := WantsLock(fd), open := s.open[fd := |s.closes|], closes := s.closes + [0])
    case MainStep =>
      (match s.main
       case WantsLock(fd) => s.(main := Spawning(fd), mutex := HeldByMain)
       case Spawning(fd) => s.(main := Incrementing, handlers := s.handlers + [Handler(fd, Serving)])
       case Incrementing => s.(main := Unlocking, running := (s.running as int + 1) % COUNTER_SIZE)
       case _ => s.(main := Polling, mutex := Free))
    case Timeout => if s.running == 0 then s.(main := QuitWhenIdle) else s
    case Signal => s.(main := QuitOnSignal)
    case TransferFails(h) =>
      var t := Close(s, s.handlers[h].fd);
      t.(handlers := s.handlers[h := Handler(-1, Serving)])
    case Leave(h) => SetStage(s, h, Ending)
    case HandlerStep(h) =>
      (match s.handlers[h].stage
       case Ending => SetStage(s, h, Closing).(mutex := HeldBy(h))
       case Closing => SetStage(Close(s, s.handlers[h].fd), h, Decrementing)
       case Decrementing => SetStage(s, h, Releasing).(running := (s.running as int - 1) % COUNTER_SIZE)
       case _ => SetStage(s, h, Gone).(mutex := Free))
  }

  predicate Runs(s: State, events: seq<Event>, t: State)
    decreases |events|
  {
    if events == [] then t == s
    else Enabled(s, events[0]) && Runs(Step(s, events[0]), events[1..], t)
  }

  // ----- The invariant

  /** Handlers that have been started and have not decremented the counter yet. */
  function Live(handlers: seq<Handler>): nat {
    if handlers == [] then 0
    else (if handlers[0].stage == Releasing || handlers[0].stage == Gone then 0 else 1) + Live(handlers[1..])
  }

  function Counts(stage: Stage): nat {
    if stage == Releasing || stage == Gone then 0 else 1
  }

  lemma {:induction false} LiveUpdate(handlers: seq<Handler>, h: nat, n: Handler)
    requires h < |handlers|
    ensures Live(handlers[h := n]) == Live(handlers) - Counts(handlers[h].stage) + Counts(n.stage)
    decreases |handlers|
  {
    if h > 0 {
      LiveUpdate(handlers[1..], h - 1, n);
      assert handlers[h := n][1..] == handlers[1..][h - 1 := n];
    } else {
      assert handlers[0 := n][1..] == handlers[1..];
    }
  }

  lemma {:induction false} LiveAppend(handlers: seq<Handler>, n: Handler)
    ensures Live(handlers + [n]) == Live(handlers) + Counts(n.stage)
    decreases |handlers|
  {
    if handlers == [] {
      assert Live([n][1..]) == 0;
    } else {
      LiveAppend(handlers[1..], n);
      assert (handlers + [n])[1..] == handlers[1..] + [n];
    }
  }

  lemma {:induction false} LiveAny(handlers: seq<Handler>)
    ensures Live(handlers) == 0 <==> forall h :: 0 <= h < |handlers| ==> Counts(handlers[h].stage) == 0
    decreases |handlers|
  {
    if handlers != [] {
      LiveAny(handlers[1..]);
      assert handlers == [handlers[0]] + handlers[1..];
      assert Live(handlers) == Counts(handlers[0].stage) + Live(handlers[1..]);
    }
  }

  predicate InSection(stage: Stage) {
    stage == Closing || stage == Decrementing || stage == Releasing
  }

  predicate MutexOk(s: State) {
    && (s.mutex == HeldByMain <==> s.main.Spawning? || s.main == Incrementing || s.main == Unlocking)
    && (s.mutex.HeldBy? ==> s.mutex.h < |s.handlers|)
    && forall h :: 0 <= h < |s.handlers| ==> (InSection(s.handlers[h].stage) <==> s.mutex == HeldBy(h))
  }

  /** The counter is the number of live handlers, except between spawn and increment. */
  predicate CounterOk(s: State) {
    && (s.main == Incrementing ==> Live(s.handlers) > 0)
    && s.running == (Live(s.handlers) - if s.main == Incrementing then 1 else 0) % COUNTER_SIZE
  }

  /** The handler still has its descriptor: it has neither failed nor reached its own close. */
  predicate Holds(n: Handler) {
    n.fd >= 0 && (n.stage == Serving || n.stage == Ending || n.stage == Closing)
  }

  predicate Pending(m: Main) {
    m.WantsLock? || m.Spawning?
  }

  /** Each connection is open under its holder's descriptor, or has been closed once. */
  predicate DescriptorsOk(s: State) {
    && |s.closes| == |s.handlers| + (if Pending(s.main) then 1 else 0)
    && (forall fd :: fd in s.open ==> s.open[fd] < |s.closes| && s.closes[s.open[fd]] == 0)
    && (forall h :: 0 <= h < |s.handlers| ==> HandlerOk(s, h))
    && (Pending(s.main) ==> s.main.fd in s.open && s.open[s.main.fd] == |s.handlers| && s.closes[|s.handlers|] == 0)
    && (forall fd :: fd in s.open ==> OwnerOk(s, fd))
  }

  predicate HandlerOk(s: State, h: nat)
    requires h < |s.handlers| <= |s.closes|
  {
    if Holds(s.handlers[h]) then s.handlers[h].fd in s.open && s.open[s.handlers[h].fd] == h && s.closes[h] == 0
    else s.closes[h] == 1
  }

  /** An open descriptor is the one that its connection's handler, or the main thread, has. */
  predicate OwnerOk(s: State, fd: nat)
    requires fd in s.open
  {
    if s.open[fd] < |s.handlers| then s.handlers[s.open[fd]].fd == fd
    else Pending(s.main) && s.main.fd == fd
  }

  predicate Inv(s: State) {
    MutexOk(s) && CounterOk(s) && DescriptorsOk(s)
  }

  lemma MainKeepsInv(s: State)
    requires Inv(s) && Enabled(s, MainStep)
    ensures Inv(Step(s, MainStep))
  {
    MainCounter(s);
    MainDescriptors(s);
    assert MutexOk(Step(s, MainStep)) by {
      hide Live, DescriptorsOk, CounterOk;
    }
  }

  lemma MainCounter(s: State)
    requires CounterOk(s) && Enabled(s, MainStep)
    ensures CounterOk(Step(s, MainStep))
  {
    hide Live;
    if s.main.Spawning? {
      LiveAppend(s.handlers, Handler(s.main.fd, Serving));
    }
  }

  lemma MainDescriptors(s: State)
    requires DescriptorsOk(s) && Enabled(s, MainStep)
    ensures DescriptorsOk(Step(s, MainStep))
  {
    var t := Step(s, MainStep);
    assert forall h :: 0 <= h < |s.handlers| ==> HandlerOk(s, h) ==> HandlerOk(t, h);
    assert forall fd :: fd in s.open ==> OwnerOk(s, fd) ==> OwnerOk(t, fd);
  }

  /** A handler that holds its descriptor closes its own connection and nothing else. */
  lemma CloseOwn(s: State, h: nat)
    requires DescriptorsOk(s) && h < |s.handlers|
    ensures Holds(s.handlers[h]) ==>
      var t := Close(s, s.handlers[h].fd);
      && t == s.(open := s.open - {s.handlers[h].fd}, closes := s.closes[h := 1])
    ensures s.handlers[h].fd < 0 ==> Close(s, s.handlers[h].fd) == s
  {
    assert HandlerOk(s, h);
  }

  lemma TransferFailsKeepsInv(s: State, h: nat)
    requires Inv(s) && Enabled(s, TransferFails(h))
    ensures Inv(Step(s, TransferFails(h)))
  {
    hide Live;
    var t := Step(s, TransferFails(h));
    CloseOwn(s, h);
    LiveUpdate(s.handlers, h, Handler(-1, Serving));
    assert HandlerOk(s, h);
    assert forall k :: 0 <= k < |s.handlers| ==> HandlerOk(s, k) ==> HandlerOk(t, k);
    assert forall fd :: fd in t.open ==> OwnerOk(s, fd) ==> OwnerOk(t, fd);
  }

  lemma HandlerKeepsInv(s: State, h: nat)
    requires Inv(s) && Enabled(s, HandlerStep(h))
    ensures Inv(Step(s, HandlerStep(h)))
  {
    hide Step, Enabled, MutexOk, CounterOk, DescriptorsOk;
    HandlerDescriptors(s, h);
    HandlerCounter(s, h);
    HandlerMutex(s, h);
  }

  lemma HandlerCounter(s: State, h: nat)
    requires CounterOk(s) && MutexOk(s) && Enabled(s, HandlerStep(h))
    ensures CounterOk(Step(s, HandlerStep(h)))
  {
    hide Live;
    var t := Step(s, HandlerStep(h));
    LiveUpdate(s.handlers, h, t.handlers[h]);
    hide Close;
  }

  lemma HandlerMutex(s: State, h: nat)
    requires MutexOk(s) && Enabled(s, HandlerStep(h))
    ensures MutexOk(Step(s, HandlerStep(h)))
  {
  }

  lemma HandlerDescriptors(s: State, h: nat)
    requires DescriptorsOk(s) && Enabled(s, HandlerStep(h))
    ensures DescriptorsOk(Step(s, HandlerStep(h)))
  {
    hide DescriptorsOk, HandlerOk, OwnerOk;
    var t := Step(s, HandlerStep(h));
    CloseOwn(s, h);
    hide Close;
    if s.handlers[h].stage == Closing {
      ClosingDescriptors(s, h, t);
    } else {
      StageDescriptors(s, h, t);
    }
  }

  /** Past the close of its own descriptor a handler holds none. */
  lemma ClosingDescriptors(s: State, h: nat, t: State)
    requires DescriptorsOk(s) && h < |s.handlers| && s.handlers[h].stage == Closing
    requires t.handlers == s.handlers[h := s.handlers[h].(stage := Decrementing)] && t.main == s.main
    requires if Holds(s.handlers[h]) then t.open == s.open - {s.handlers[h].fd} && t.closes == s.closes[h := 1]
             else t.open == s.open && t.closes == s.closes
    ensures DescriptorsOk(t)
  {
    assert HandlerOk(s, h);
    assert forall k :: 0 <= k < |s.handlers| ==> HandlerOk(s, k) ==> HandlerOk(t, k);
    assert forall fd :: fd in t.open ==> OwnerOk(s, fd) ==> OwnerOk(t, fd);
  }

  /** A change of stage that does not touch what a handler holds. */
  lemma StageDescriptors(s: State, h: nat, t: State)
    requires DescriptorsOk(s) && h < |s.handlers| && t.main == s.main
    requires t.open == s.open && t.closes == s.closes && |t.handlers| == |s.handlers|
    requires t.handlers == s.handlers[h := t.handlers[h]] && t.handlers[h].fd == s.handlers[h].fd
    requires Holds(t.handlers[h]) == Holds(s.handlers[h])
    ensures DescriptorsOk(t)
  {
    assert HandlerOk(s, h);
    assert forall k :: 0 <= k < |s.handlers| ==> HandlerOk(s, k) ==> HandlerOk(t, k);
    assert forall fd :: fd in s.open ==> OwnerOk(s, fd) ==> OwnerOk(t, fd);
  }

  lemma StepKeepsInv(s: State, e: Event)
    requires Inv(s) && Enabled(s, e)
    ensures Inv(Step(s, e))
  {
    hide Inv, Step;
    match e
    case MainStep => MainKeepsInv(s);
    case TransferFails(h) => TransferFailsKeepsInv(s, h);
    case HandlerStep(h) => HandlerKeepsInv(s, h);
    case Leave(h) => LeaveKeepsInv(s, h);
    case Accept(fd) => AcceptKeepsInv(s, fd);
    case Timeout => PollKeepsInv(s, Timeout);
    case Signal => PollKeepsInv(s, Signal);
  }

  lemma LeaveKeepsInv(s: State, h: nat)
    requires Inv(s) && Enabled(s, Leave(h))
    ensures Inv(Step(s, Leave(h)))
  {
    hide Live, Close;
    var t := Step(s, Leave(h));
    LiveUpdate(s.handlers, h, t.handlers[h]);
    assert HandlerOk(s, h);
    assert forall k :: 0 <= k < |s.handlers| ==> HandlerOk(s, k) ==> HandlerOk(t, k);
    assert forall fd :: fd in t.open ==> OwnerOk(s, fd) ==> OwnerOk(t, fd);
  }

  lemma AcceptKeepsInv(s: State, fd: nat)
    requires Inv(s) && Enabled(s, Accept(fd))
    ensures Inv(Step(s, Accept(fd)))
  {
    hide Live, Close;
    var t := Step(s, Accept(fd));
    assert forall k :: 0 <= k < |s.handlers| ==> HandlerOk(s, k) ==> HandlerOk(t, k);
    assert forall d :: d in s.open ==> OwnerOk(s, d) ==> OwnerOk(t, d);
  }

  lemma PollKeepsInv(s: State, e: Event)
    requires Inv(s) && Enabled(s, e) && (e == Timeout || e == Signal)
    ensures Inv(Step(s, e))
  {
    hide Live, Close;
    var t := Step(s, e);
    assert forall k :: 0 <= k < |s.handlers| ==> HandlerOk(s, k) ==> HandlerOk(t, k);
    assert forall fd :: fd in s.open ==> OwnerOk(s, fd) ==> OwnerOk(t, fd);
  }

  lemma {:induction false} RunKeepsInv(s: State, events: seq<Event>, t: State)
    requires Inv(s) && Runs(s, events, t)
    ensures Inv(t)
    decreases |events|
  {
    if events != [] {
      StepKeepsInv(s, events[0]);
      RunKeepsInv(Step(s, events[0]), events[1..], t);
    }
  }

  lemma InvReached(events: seq<Event>, t: State)
    requires Runs(INITIAL, events, t)
    ensures Inv(t)
  {
    assert Live(INITIAL.handlers) == 0;
    assert Inv(INITIAL);
    hide *;
    RunKeepsInv(INITIAL, events, t);
  }

  // ----- What holds in every run

  /** With the mutex free the counter is the number of handlers that have not been cleaned up. */
  lemma CounterWhenFree(events: seq<Event>, t: State)
    requires Runs(INITIAL, events, t) && t.mutex == Free
    ensures t.running == Live(t.handlers) % COUNTER_SIZE
  {
    InvReached(events, t);
  }

  /** With fewer handlers alive than the counter can tell apart, no decrement takes it below zero. */
  lemma NoUnderflow(events: seq<Event>, t: State, h: nat)
    requires Runs(INITIAL, events, t) && Enabled(t, HandlerStep(h)) && t.handlers[h].stage == Decrementing
    ensures Live(t.handlers) < COUNTER_SIZE ==> t.running == Live(t.handlers) && t.running > 0
  {
    InvReached(events, t);
    hide Runs, DescriptorsOk;
    LiveAny(t.handlers);
    hide Live;
    assert Counts(t.handlers[h].stage) == 1;
    assert InSection(t.handlers[h].stage);
  }

  /**
   A timeout ends the daemon exactly when the number of live handlers is a multiple of the
   counter's size; unless it has wrapped around, no accepted connection is open then.
   */
  lemma TimeoutExit(events: seq<Event>, t: State)
    requires Runs(INITIAL, events, t) && t.main == Polling
    ensures Step(t, Timeout).main == QuitWhenIdle <==> Live(t.handlers) % COUNTER_SIZE == 0
    ensures Step(t, Timeout).main == QuitWhenIdle && Live(t.handlers) < COUNTER_SIZE ==>
      t.open == map[] && forall c :: 0 <= c < |t.closes| ==> t.closes[c] == 1
  {
    InvReached(events, t);
    hide Inv, Live, Runs;
    IdleCounter(t);
    if Live(t.handlers) == 0 {
      NobodyLeft(t);
    }
  }

  lemma IdleCounter(s: State)
    requires Inv(s) && s.main == Polling
    ensures s.running == Live(s.handlers) % COUNTER_SIZE
  {
  }

  lemma NobodyLeft(s: State)
    requires Inv(s) && Live(s.handlers) == 0 && !Pending(s.main)
    ensures s.open == map[] && forall c :: 0 <= c < |s.closes| ==> s.closes[c] == 1
  {
    assert forall fd :: fd in s.open ==> s.open[fd] < |s.closes| && s.closes[s.open[fd]] == 0;
    LiveAny(s.handlers);
    hide Live;
    forall c | 0 <= c < |s.closes|
      ensures s.closes[c] == 1
    {
      assert HandlerOk(s, c);
      assert Counts(s.handlers[c].stage) == 0;
    }
  }

  /** No connection is closed twice, and a handler that is gone has closed its own exactly once. */
  lemma ClosedExactlyOnce(events: seq<Event>, t: State, c: nat)
    requires Runs(INITIAL, events, t) && c < |t.closes|
    ensures t.closes[c] <= 1
    ensures t.closes[c] == 0 <==> exists fd :: fd in t.open && t.open[fd] == c
    ensures c < |t.handlers| && t.handlers[c].stage == Gone ==> t.closes[c] == 1
  {
    InvReached(events, t);
    hide Runs, Live;
    if c < |t.handlers| {
      assert HandlerOk(t, c);
    }
  }

  // ----- The daemon can come to rest

  function StageRank(stage: Stage): nat {
    match stage
    case Serving => 5
    case Ending => 4
    case Closing => 3
    case Decrementing => 2
    case Releasing => 1
    case Gone => 0
  }

  function MainRank(m: Main): nat {
    match m
    case WantsLock(_) => 10
    case Spawning(_) => 9
    case Incrementing => 2
    case Unlocking => 1
    case _ => 0
  }

  /** How many steps the handlers have still to take. */
  function Ranks(handlers: seq<Handler>): nat {
    if handlers == [] then 0 else StageRank(handlers[0].stage) + Ranks(handlers[1..])
  }

  lemma {:induction false} RanksUpdate(handlers: seq<Handler>, h: nat, n: Handler)
    requires h < |handlers|
    ensures Ranks(handlers[h := n]) == Ranks(handlers) - StageRank(handlers[h].stage) + StageRank(n.stage)
    decreases |handlers|
  {
    if h > 0 {
      RanksUpdate(handlers[1..], h - 1, n);
      assert handlers[h := n][1..] == handlers[1..][h - 1 := n];
    } else {
      assert handlers[0 := n][1..] == handlers[1..];
    }
  }

  lemma {:induction false} RanksAppend(handlers: seq<Handler>, n: Handler)
    ensures Ranks(handlers + [n]) == Ranks(handlers) + StageRank(n.stage)
    decreases |handlers|
  {
    if handlers == [] {
      assert Ranks([n][1..]) == 0;
    } else {
      RanksAppend(handlers[1..], n);
      assert (handlers + [n])[1..] == handlers[1..] + [n];
    }
  }

  lemma {:induction false} SomeWork(handlers: seq<Handler>) returns (h: nat)
    requires Ranks(handlers) > 0
    ensures h < |handlers| && handlers[h].stage != Gone
    decreases |handlers|
  {
    if handlers[0].stage != Gone {
      h := 0;
    } else {
      h := SomeWork(handlers[1..]);
      h := h + 1;
    }
  }

  function Work(s: State): nat {
    MainRank(s.main) + Ranks(s.handlers)
  }

  /** Neither a new connection, nor a timeout or a signal, nor a failing transfer. */
  predicate Proceeds(e: Event) {
    e == MainStep || e.Leave? || e.HandlerStep?
  }

  lemma WorkDone(s: State, e: Event)
    requires Enabled(s, e) && Proceeds(e)
    ensures Work(Step(s, e)) < Work(s)
  {
    hide Ranks;
    match e
    case MainStep =>
      if s.main.Spawning? {
        RanksAppend(s.handlers, Handler(s.main.fd, Serving));
      }
    case Leave(h) => RanksUpdate(s.handlers, h, Step(s, e).handlers[h]);
    case HandlerStep(h) => RanksUpdate(s.handlers, h, Step(s, e).handlers[h]);
  }

  /** As long as there is work, some thread can go on: the mutex is never waited for in vain. */
  lemma NoDeadlock(s: State) returns (e: Event)
    requires MutexOk(s) && Work(s) > 0
    ensures Enabled(s, e) && Proceeds(e)
  {
    hide Ranks;
    if s.mutex == HeldByMain || (s.mutex == Free && s.main.WantsLock?) {
      e := MainStep;
    } else if s.mutex.HeldBy? {
      assert InSection(s.handlers[s.mutex.h].stage);
      e := HandlerStep(s.mutex.h);
    } else {
      assert MainRank(s.main) == 0;
      var h := SomeWork(s.handlers);
      assert InSection(s.handlers[h].stage) <==> s.mutex == HeldBy(h);
      e := if s.handlers[h].stage == Serving then Leave(h) else HandlerStep(h);
    }
  }

  lemma RunsStep(s: State, e: Event, events: seq<Event>, t: State)
    requires Enabled(s, e) && Runs(Step(s, e), events, t)
    ensures Runs(s, [e] + events, t)
  {
    hide Enabled, Step;
    assert ([e] + events)[1..] == events;
  }

  lemma {:induction false} Drain(s: State) returns (events: seq<Event>, t: State)
    requires Inv(s)
    ensures Runs(s, events, t) && Inv(t) && Work(t) == 0 && forall k :: 0 <= k < |events| ==> Proceeds(events[k])
    decreases Work(s)
  {
    hide Inv, Step, Enabled, Work, Proceeds;
    if Work(s) == 0 {
      events, t := [], s;
    } else {
      MutexPart(s);
      var e := NoDeadlock(s);
      WorkDone(s, e);
      StepKeepsInv(s, e);
      events, t := Drain(Step(s, e));
      RunsStep(s, e, events, t);
      events := [e] + events;
    }
  }

  lemma MutexPart(s: State)
    requires Inv(s)
    ensures MutexOk(s)
  {
  }

  /**
   From every state that the daemon can come to, its handlers can all come to their end without a
   new connection; then every connection has been closed once, the counter is zero, and unless
   the daemon is quitting already, the next timeout ends it.
   */
  lemma DaemonCanRest(before: seq<Event>, s: State) returns (events: seq<Event>, t: State)
    requires Runs(INITIAL, before, s)
    ensures Runs(s, events, t) && forall k :: 0 <= k < |events| ==> Proceeds(events[k])
    ensures t.open == map[] && t.running == 0 && forall h :: 0 <= h < |t.handlers| ==> t.handlers[h].stage == Gone
    ensures forall c :: 0 <= c < |t.closes| ==> t.closes[c] == 1
    ensures t.main == Polling || t.main == QuitWhenIdle || t.main == QuitOnSignal
    ensures t.main == Polling ==> Step(t, Timeout).main == QuitWhenIdle
  {
    InvReached(before, s);
    events, t := Drain(s);
    hide Runs, Proceeds;
    NothingLeft(t);
  }

  lemma NothingLeft(t: State)
    requires Inv(t) && Work(t) == 0
    ensures t.open == map[] && t.running == 0 && forall h :: 0 <= h < |t.handlers| ==> t.handlers[h].stage == Gone
    ensures forall c :: 0 <= c < |t.closes| ==> t.closes[c] == 1
    ensures t.main == Polling || t.main == QuitWhenIdle || t.main == QuitOnSignal
  {
    AllGone(t.handlers);
    LiveAny(t.handlers);
    NobodyLeft(t);
  }

  lemma {:induction false} AllGone(handlers: seq<Handler>)
    requires Ranks(handlers) == 0
    ensures forall h :: 0 <= h < |handlers| ==> handlers[h].stage == Gone
    decreases |handlers|
  {
    if handlers != [] {
      AllGone(handlers[1..]);
      assert forall h :: 1 <= h < |handlers| ==> handlers[h] == handlers[1..][h - 1];
    }
  }
}
