/**
 The prime benchmark as interleaved steps: the main thread launches it any number of times,
 worker threads draw candidates from one shared counter and count primes in another, and each
 launch has a timer thread that stops the workers and joins them. Any order of enabled steps
 is a run.
 */
module Benchmark {
  import opened Primes

  /** In fast mode the bound of the trial loop is some integer approximation of a square root. */
  datatype Mode = Slow | Fast(bound: nat -> nat)

  /** A run: its mode, its duration in seconds, and the number of values its score counter can hold. */
  datatype Config = Config(mode: Mode, limit: nat, capacity: nat)

  ghost predicate Sound(c: Config) {
    c.capacity > 1 && (c.mode.Fast? ==> forall n: nat :: n >= 3 ==> Admissible(n, c.mode.bound(n)))
  }

  function Sup(mode: Mode, n: nat): nat {
    match mode
    case Slow => n
    case Fast(bound) => bound(n)
  }

  function Verdict(mode: Mode, n: nat, i: nat): bool
    requires i > 0
  {
    match mode
    case Slow => n == i
    case Fast(_) => n % i != 0
  }

  datatype Worker =
    | Checking                     // about to look whether the benchmark is still running
    | Drawing                      // about to draw a candidate
    | Testing(n: nat, i: nat)      // in the trial loop
    | Counting(n: nat)             // about to count a prime
    | Exited
    | Joined

  datatype Timer =
    | Waiting                      // about to look at the time and the running flag
    | Sleeping                     // about to store the elapsed time
    | Completing                   // about to note whether the time is up
    | Stopping                     // about to clear the running flag
    | Joining(k: nat)              // about to join the k-th of the compute threads
    | Finished

  /** The main thread: idle, or resetting one field after the other, or with n workers left to start. */
  datatype Main =
    | Ready
    | ClearCompleted(n: nat)
    | ClearElapsed(n: nat)
    | ResetNumber(n: nat)
    | ResetPrimes(n: nat)
    | Spawning(n: nat)

  /**
   The compute threads are the workers from base on; those before were joined and cleared.
   drawn lists the candidates that each worker has drawn since the last reset of the candidate
   counter, and counted how often a prime was counted since the reset of the score.
   */
  datatype State = State(
    main: Main,
    didRun: bool,
    workers: seq<Worker>,
    base: nat,
    number: nat,
    primes: nat,
    running: bool,
    elapsed: nat,
    completed: bool,
    timers: seq<Timer>,
    drawn: seq<seq<nat>>,
    counted: nat,
    stopped: bool,      // the user has stopped the benchmark since its launch
    crashed: bool)

  datatype Event =
    | Launch(n: nat)
    | MainStep
    | Check(w: nat)
    | Draw(w: nat)
    | Iterate(w: nat)
    | Count(w: nat)
    | TimerStep(t: nat, now: nat)
    | UserStop

  function Nothing(workers: nat): seq<seq<nat>> {
    seq(workers, _ => [])
  }

  /** The program before its first benchmark. */
  const QUIET := State(Ready, false, [], 0, 0, 0, false, 0, false, [], [], 0, false, false)

  predicate At(s: State, w: nat, pc: Worker) {
    w < |s.workers| && s.workers[w] == pc
  }

  function Move(s: State, w: nat, pc: Worker): State
    requires w < |s.workers|
  {
    s.(workers := s.workers[w := pc])
  }

  /** The next step of a launch. */
  function MainNext(s: State): (r: seq<State>)
    ensures |r| <= 1
  {
    match s.main
    case Ready => []
    case ClearCompleted(n) => [s.(completed := false, main := ClearElapsed(n))]
    case ClearElapsed(n) => [s.(elapsed := 0, main := ResetNumber(n))]
    case ResetNumber(n) => [s.(number := 2, drawn := Nothing(|s.workers|), main := ResetPrimes(n))]
    case ResetPrimes(n) => [s.(primes := 1, counted := 1, main := Spawning(n))]
    case Spawning(n) =>
      if n > 0 then [s.(workers := s.workers + [Checking], drawn := s.drawn + [[]], main := Spawning(n - 1))]
      else [s.(timers := s.timers + [Waiting], main := Ready)]
  }

  /** Joining a thread twice, or clearing a list of threads that are not joined, ends the program. */
  function JoinNext(s: State, t: nat, k: nat): (r: seq<State>)
    requires t < |s.timers|
    ensures |r| <= 1
  {
    if s.base + k < |s.workers| then
      match s.workers[s.base + k]
      case Exited => [Move(s, s.base + k, Joined).(timers := s.timers[t := Joining(k + 1)])]
      case Joined => [s.(crashed := true)]
      case _ => []
    else if forall w :: s.base <= w < |s.workers| ==> s.workers[w] == Joined then
      [s.(base := |s.workers|, timers := s.timers[t := Finished])]
    else [s.(crashed := true)]
  }

  function TimerNext(c: Config, s: State, t: nat, now: nat): (r: seq<State>)
    requires t < |s.timers|
    ensures |r| <= 1
  {
    match s.timers[t]
    case Waiting => [s.(timers := s.timers[t := if s.elapsed < c.limit && s.running then Sleeping else Completing])]
    case Sleeping => [s.(elapsed := now, timers := s.timers[t := Waiting])]
    case Completing => [s.(completed := s.completed || s.elapsed >= c.limit, timers := s.timers[t := Stopping])]
    case Stopping => [s.(running := false, timers := s.timers[t := Joining(0)])]
    case Joining(k) => JoinNext(s, t, k)
    case Finished => []
  }

  /** The state after one step, when it is enabled. */
  function Step(c: Config, s: State, e: Event): (r: seq<State>)
    requires c.capacity > 1
    ensures |r| <= 1
  {
    if s.crashed then []
    else
      match e
      case Launch(n) =>
        if s.main == Ready && n > 0 then [s.(didRun := true, running := true, stopped := false, main := ClearCompleted(n))] else []
      case MainStep => MainNext(s)
      case Check(w) =>
        if At(s, w, Checking) then [Move(s, w, if s.running then Drawing else Exited)] else []
      case Draw(w) =>
        if At(s, w, Drawing) && |s.drawn| == |s.workers| then
          [Move(s, w, Testing(s.number + 1, 2)).(
            number := s.number + 1,
            drawn := s.drawn[w := s.drawn[w] + [s.number + 1]])]
        else []
      case Iterate(w) =>
        if w < |s.workers| && s.workers[w].Testing? && s.workers[w].i > 0 then
          var (n, i) := (s.workers[w].n, s.workers[w].i);
          [Move(s, w, if i < Sup(c.mode, n) && n % i != 0 then Testing(n, i + 1)
                      else if Verdict(c.mode, n, i) then Counting(n) else Checking)]
        else []
      case Count(w) =>
        if w < |s.workers| && s.workers[w].Counting? then
          [Move(s, w, Checking).(primes := (s.primes + 1) % c.capacity, counted := s.counted + 1)]
        else []
      case TimerStep(t, now) => if t < |s.timers| then TimerNext(c, s, t, now) else []
      case UserStop => [s.(running := false, stopped := true)]
  }

  /** s reaches t by these events. */
  predicate Runs(c: Config, s: State, events: seq<Event>, t: State)
    requires c.capacity > 1
    decreases |events|
  {
    if events == [] then t == s
    else
      var next := Step(c, s, events[0]);
      next != [] && Runs(c, next[0], events[1..], t)
  }

  predicate AllFinished(s: State) {
    forall t :: 0 <= t < |s.timers| ==> s.timers[t] == Finished
  }

  /** A run in which each launch waits for the timers of earlier ones. */
  predicate CarefulRuns(c: Config, s: State, events: seq<Event>, t: State)
    requires c.capacity > 1
    decreases |events|
  {
    if events == [] then t == s
    else
      var next := Step(c, s, events[0]);
      && next != []
      && (events[0].Launch? ==> AllFinished(s))
      && CarefulRuns(c, next[0], events[1..], t)
  }

  // ----- Counting

  /** 1 for a worker that holds a prime it has drawn but not counted. */
  function Weight(w: Worker): nat {
    match w
    case Testing(n, _) => if IsPrime(n) then 1 else 0
    case Counting(_) => 1
    case _ => 0
  }

  /** How many primes have been drawn but not counted. */
  function Pending(workers: seq<Worker>): nat {
    if workers == [] then 0 else Weight(workers[0]) + Pending(workers[1..])
  }

  lemma {:induction false} PendingUpdate(workers: seq<Worker>, w: nat, pc: Worker)
    requires w < |workers|
    ensures Pending(workers[w := pc]) == Pending(workers) - Weight(workers[w]) + Weight(pc)
    decreases |workers|
  {
    if w > 0 {
      PendingUpdate(workers[1..], w - 1, pc);
      assert workers[w := pc][1..] == workers[1..][w - 1 := pc];
    } else {
      assert workers[0 := pc][1..] == workers[1..];
    }
  }

  lemma {:induction false} NothingPending(workers: seq<Worker>)
    requires forall w :: 0 <= w < |workers| ==> Weight(workers[w]) == 0
    ensures Pending(workers) == 0
    decreases |workers|
  {
    if workers != [] {
      NothingPending(workers[1..]);
    }
  }

  lemma {:induction false} PendingAppend(workers: seq<Worker>, w: Worker)
    ensures Pending(workers + [w]) == Pending(workers) + Weight(w)
    decreases |workers|
  {
    if workers == [] {
      assert ([] + [w])[1..] == [];
    } else {
      PendingAppend(workers[1..], w);
      assert (workers + [w])[1..] == workers[1..] + [w];
    }
  }

  lemma {:induction false} PendingPart(workers: seq<Worker>, w: nat)
    requires w < |workers|
    ensures Weight(workers[w]) <= Pending(workers)
    decreases |workers|
  {
    if w > 0 {
      PendingPart(workers[1..], w - 1);
    }
  }

  /** All candidates drawn by anyone. */
  function AllDrawn(drawn: seq<seq<nat>>): multiset<nat> {
    if drawn == [] then multiset{} else multiset(drawn[0]) + AllDrawn(drawn[1..])
  }

  lemma {:induction false} AllDrawnUpdate(drawn: seq<seq<nat>>, w: nat, n: nat)
    requires w < |drawn|
    ensures AllDrawn(drawn[w := drawn[w] + [n]]) == AllDrawn(drawn) + multiset{n}
    decreases |drawn|
  {
    var d := drawn[w := drawn[w] + [n]];
    if w > 0 {
      AllDrawnUpdate(drawn[1..], w - 1, n);
      assert d[1..] == drawn[1..][w - 1 := drawn[1..][w - 1] + [n]];
    } else {
      assert d[1..] == drawn[1..];
      assert multiset(d[0]) == multiset(drawn[0]) + multiset{n};
    }
  }

  lemma {:induction false} NothingDrawn(workers: nat)
    ensures AllDrawn(Nothing(workers)) == multiset{}
  {
    if workers > 0 {
      NothingDrawn(workers - 1);
      assert Nothing(workers)[1..] == Nothing(workers - 1);
    }
  }

  lemma {:induction false} AllDrawnAppend(drawn: seq<seq<nat>>)
    ensures AllDrawn(drawn + [[]]) == AllDrawn(drawn)
    decreases |drawn|
  {
    if drawn == [] {
      assert (drawn + [[]])[1..] == [];
    } else {
      AllDrawnAppend(drawn[1..]);
      assert (drawn + [[]])[1..] == drawn[1..] + [[]];
    }
  }

  /** Each number from 3 to n once. */
  function Candidates(n: nat): multiset<nat> {
    if n < 3 then multiset{} else Candidates(n - 1) + multiset{n}
  }

  lemma {:induction false} CandidatesOnce(n: nat, k: nat)
    ensures Candidates(n)[k] == if 3 <= k <= n then 1 else 0
  {
    if n >= 3 {
      CandidatesOnce(n - 1, k);
    }
  }

  predicate Dead(w: Worker) {
    w == Exited || w == Joined
  }

  predicate NoneAlive(s: State) {
    forall w :: 0 <= w < |s.workers| ==> Dead(s.workers[w])
  }

  predicate WorkerOk(c: Config, w: Worker) {
    match w
    case Testing(n, i) => n >= 3 && i >= 2 && LoopEnd(n, i, Sup(c.mode, n)) == LoopEnd(n, 2, Sup(c.mode, n))
    case Counting(n) => n >= 3 && IsPrime(n)
    case _ => true
  }

  predicate WorkersOk(c: Config, workers: seq<Worker>) {
    forall w :: 0 <= w < |workers| ==> WorkerOk(c, workers[w])
  }

  /** The main thread is between the start of a launch and the reset of the score. */
  predicate Resetting(m: Main) {
    m.ClearCompleted? || m.ClearElapsed? || m.ResetNumber? || m.ResetPrimes?
  }

  /** The counters belong to the benchmark that was launched last. */
  predicate Scoring(s: State) {
    (s.main == Ready && s.didRun) || s.main.Spawning?
  }

  /** Counted primes and primes in hand add up, and the candidates so far were drawn once each. */
  ghost predicate Balanced(s: State) {
    && s.number >= 2
    && s.counted + Pending(s.workers) == Pi(s.number)
    && AllDrawn(s.drawn) == Candidates(s.number)
  }

  ghost predicate ScoreInv(c: Config, s: State) {
    && c.capacity > 1
    && |s.drawn| == |s.workers|
    && s.primes == s.counted % c.capacity
    && WorkersOk(c, s.workers)
    && (s.main != Ready ==> s.didRun)
    && (!Scoring(s) ==> NoneAlive(s))
    && (s.main.ResetPrimes? ==> s.number == 2 && AllDrawn(s.drawn) == multiset{})
    && (Scoring(s) ==> Balanced(s))
  }

  lemma MoveWorkersOk(c: Config, workers: seq<Worker>, w: nat, pc: Worker)
    requires WorkersOk(c, workers) && w < |workers| && WorkerOk(c, pc)
    ensures WorkersOk(c, workers[w := pc])
  {
    hide WorkerOk;
  }

  lemma CandidatesNext(n: nat)
    requires n >= 2
    ensures Candidates(n + 1) == Candidates(n) + multiset{n + 1}
  {
  }

  lemma DrawKeepsScore(c: Config, s: State, w: nat)
    requires ScoreInv(c, s) && Step(c, s, Draw(w)) != []
    ensures ScoreInv(c, Step(c, s, Draw(w))[0])
  {
    hide Pending, AllDrawn, IsPrime, Candidates, WorkersOk;
    var pc := Testing(s.number + 1, 2);
    assert Scoring(s);
    PendingUpdate(s.workers, w, pc);
    AllDrawnUpdate(s.drawn, w, s.number + 1);
    CandidatesNext(s.number);
    MoveWorkersOk(c, s.workers, w, pc);
  }

  /** When the trial loop ends, its verdict is whether the candidate is prime. */
  lemma VerdictRight(c: Config, n: nat, i: nat)
    requires Sound(c) && n >= 3 && i >= 2
    requires LoopEnd(n, i, Sup(c.mode, n)) == LoopEnd(n, 2, Sup(c.mode, n))
    requires !(i < Sup(c.mode, n) && n % i != 0)
    ensures Verdict(c.mode, n, i) == IsPrime(n)
  {
    if c.mode == Slow {
      SlowDecides(n);
    } else {
      FastDecides(n, c.mode.bound(n));
    }
  }

  /** One round of the trial loop keeps what is known about its worker. */
  lemma IterateResult(c: Config, s: State, w: nat)
    requires Sound(c) && w < |s.workers| && s.workers[w].Testing? && WorkerOk(c, s.workers[w]) && !s.crashed
    ensures Step(c, s, Iterate(w)) != []
    ensures var (n, i, pc) := (s.workers[w].n, s.workers[w].i, Step(c, s, Iterate(w))[0].workers[w]);
      && Step(c, s, Iterate(w))[0] == Move(s, w, pc)
      && WorkerOk(c, pc) && Weight(pc) == Weight(s.workers[w])
      && (if i < Sup(c.mode, n) && n % i != 0 then pc == Testing(n, i + 1)
          else pc == if IsPrime(n) then Counting(n) else Checking)
  {
    hide IsPrime;
    var (n, i) := (s.workers[w].n, s.workers[w].i);
    if !(i < Sup(c.mode, n) && n % i != 0) {
      VerdictRight(c, n, i);
    }
  }

  /** A move that changes neither what is pending nor any counter. */
  lemma MoveKeepsScore(c: Config, s: State, w: nat, pc: Worker)
    requires ScoreInv(c, s) && w < |s.workers| && WorkerOk(c, pc) && Weight(pc) == Weight(s.workers[w])
    requires Dead(s.workers[w]) ==> Dead(pc)
    ensures ScoreInv(c, Move(s, w, pc))
  {
    hide Pending, AllDrawn, IsPrime, Pi, Candidates, WorkersOk, WorkerOk, Weight;
    PendingUpdate(s.workers, w, pc);
    MoveWorkersOk(c, s.workers, w, pc);
  }

  lemma CountKeepsScore(c: Config, s: State, w: nat)
    requires ScoreInv(c, s) && w < |s.workers| && s.workers[w].Counting? && !s.crashed
    ensures ScoreInv(c, Step(c, s, Count(w))[0])
  {
    hide Pending, AllDrawn, IsPrime, Pi, Candidates, WorkersOk;
    PendingUpdate(s.workers, w, Checking);
    MoveWorkersOk(c, s.workers, w, Checking);
    NextCount(s.counted, c.capacity);
  }

  lemma NextCount(counted: nat, capacity: nat)
    requires capacity > 1
    ensures (counted % capacity + 1) % capacity == (counted + 1) % capacity
  {
    var q, r := counted / capacity, counted % capacity;
    if r + 1 == capacity {
      assert counted + 1 == (q + 1) * capacity;
      Multiple(q + 1, capacity);
      Multiple(1, capacity);
    } else {
      Remainder(q, capacity, r + 1);
      Remainder(0, capacity, r + 1);
    }
  }

  lemma Remainder(q: nat, m: nat, r: nat)
    requires r < m
    ensures (q * m + r) % m == r
  {
    var x := q * m + r;
    var k, s := x / m, x % m;
    assert (q - k) * m == s - r;
    if q - k >= 1 {
      Product(q - k, m, 1, m);
    } else if q - k <= -1 {
      Product(k - q, m, 1, m);
    }
  }

  /** A step that touches neither workers nor counters. */
  lemma SameScore(c: Config, s: State, t: State)
    requires ScoreInv(c, s) && t.workers == s.workers && t.drawn == s.drawn
    requires t.primes == s.primes && t.counted == s.counted && t.number == s.number
    requires
      || (t.main == s.main && t.didRun == s.didRun)
      || (Scoring(t) == Scoring(s) && !t.main.ResetPrimes? && (t.main != Ready ==> t.didRun))
    ensures ScoreInv(c, t)
  {
    hide Pending, AllDrawn, IsPrime, Pi, Candidates, WorkersOk;
  }

  lemma MainKeepsScore(c: Config, s: State)
    requires ScoreInv(c, s) && MainNext(s) != []
    ensures ScoreInv(c, MainNext(s)[0])
  {
    if s.main.Spawning? && s.main.n > 0 {
      SpawnKeepsScore(c, s);
    } else if s.main.ResetPrimes? {
      ResetBalances(c, s);
    } else if s.main.ResetNumber? {
      NothingDrawn(|s.workers|);
      hide Pending, AllDrawn, IsPrime, Pi, Candidates, WorkersOk;
    } else {
      SameScore(c, s, MainNext(s)[0]);
    }
  }

  lemma SpawnKeepsScore(c: Config, s: State)
    requires ScoreInv(c, s) && s.main.Spawning? && s.main.n > 0
    ensures ScoreInv(c, MainNext(s)[0])
  {
    hide Pending, AllDrawn, IsPrime, Pi, Candidates, WorkerOk, Weight;
    PendingAppend(s.workers, Checking);
    AllDrawnAppend(s.drawn);
    CheckingOk(c);
  }

  lemma ResetBalances(c: Config, s: State)
    requires ScoreInv(c, s) && s.main.ResetPrimes?
    ensures ScoreInv(c, MainNext(s)[0])
  {
    hide Pending, AllDrawn, IsPrime, Pi, Candidates, WorkersOk;
    DeadPending(s);
    FirstPrime();
    SmallRemainder(1, c.capacity);
  }

  lemma CheckingOk(c: Config)
    ensures WorkerOk(c, Checking) && Weight(Checking) == 0
  {
  }

  lemma FirstPrime()
    ensures Pi(2) == 1 && Candidates(2) == multiset{}
  {
    assert IsPrime(2);
  }

  lemma DeadPending(s: State)
    requires NoneAlive(s)
    ensures Pending(s.workers) == 0
  {
    NothingPending(s.workers);
  }

  lemma SmallRemainder(r: nat, m: nat)
    requires r < m
    ensures r % m == r
  {
  }

  /** A timer changes workers only by joining one that has exited. */
  lemma TimerKeepsScore(c: Config, s: State, t: nat, now: nat)
    requires ScoreInv(c, s) && t < |s.timers| && TimerNext(c, s, t, now) != []
    ensures ScoreInv(c, TimerNext(c, s, t, now)[0])
  {
    hide ScoreInv;
    if s.timers[t].Joining? {
      JoinKeepsScore(c, s, t, s.timers[t].k);
    } else {
      hide Scoring;
      SameScore(c, s, TimerNext(c, s, t, now)[0]);
    }
  }

  lemma JoinKeepsScore(c: Config, s: State, t: nat, k: nat)
    requires ScoreInv(c, s) && t < |s.timers| && JoinNext(s, t, k) != []
    ensures ScoreInv(c, JoinNext(s, t, k)[0])
  {
    var w, u := s.base + k, JoinNext(s, t, k)[0];
    if w < |s.workers| && s.workers[w] == Exited {
      JoinedOk(c);
      assert u == Move(s, w, Joined).(timers := u.timers);
      MoveKeepsScore(c, s, w, Joined);
      hide ScoreInv, Scoring;
      SameScore(c, Move(s, w, Joined), u);
    } else {
      hide ScoreInv, Scoring;
      SameScore(c, s, u);
    }
  }

  lemma JoinedOk(c: Config)
    ensures WorkerOk(c, Joined) && WorkerOk(c, Exited) && WorkerOk(c, Drawing)
    ensures Weight(Joined) == Weight(Exited) == Weight(Drawing) == Weight(Checking) == 0
  {
  }

  /** Every step keeps the counting invariant, as long as a launch finds no worker alive. */
  lemma StepKeepsScore(c: Config, s: State, e: Event)
    requires Sound(c) && ScoreInv(c, s) && Step(c, s, e) != []
    requires e.Launch? ==> NoneAlive(s)
    ensures ScoreInv(c, Step(c, s, e)[0])
  {
    hide Pending, AllDrawn, IsPrime, Pi, Candidates, WorkerOk, WorkersOk, Weight, MainNext, TimerNext;
    match e
    case Launch(_) =>
    case MainStep => MainKeepsScore(c, s);
    case Check(w) =>
      JoinedOk(c);
      MoveKeepsScore(c, s, w, if s.running then Drawing else Exited);
    case Draw(w) => DrawKeepsScore(c, s, w);
    case Iterate(w) =>
      WorkerIsOk(c, s, w);
      IterateResult(c, s, w);
      MoveKeepsScore(c, s, w, Step(c, s, e)[0].workers[w]);
    case Count(w) => CountKeepsScore(c, s, w);
    case TimerStep(t, now) => TimerKeepsScore(c, s, t, now);
    case UserStop =>
  }

  lemma WorkerIsOk(c: Config, s: State, w: nat)
    requires WorkersOk(c, s.workers) && w < |s.workers|
    ensures WorkerOk(c, s.workers[w])
  {
  }

  // ----- Joining

  /** The compute threads from base on: the first k of them are joined, the others are not. */
  predicate JoinedUpTo(s: State, k: nat) {
    && s.base + k <= |s.workers|
    && forall w :: 0 <= w < |s.workers| ==> (s.workers[w] == Joined <==> w < s.base + k)
  }

  /** The benchmark is over because its time is up or because the user has stopped it. */
  predicate Over(c: Config, s: State) {
    s.elapsed >= c.limit || s.stopped
  }

  /** Its end has been noted, with whether the time was up, and its flag has been cleared. */
  predicate Ended(c: Config, s: State) {
    !s.running && Over(c, s) && (s.completed <==> s.elapsed >= c.limit)
  }

  predicate LastTimerOk(c: Config, s: State, timer: Timer) {
    match timer
    case Finished => s.base == |s.workers| && JoinedUpTo(s, 0) && Ended(c, s)
    case Joining(k) => s.base < |s.workers| && JoinedUpTo(s, k) && Ended(c, s)
    case Stopping => s.base < |s.workers| && JoinedUpTo(s, 0) && Over(c, s) && (s.completed <==> s.elapsed >= c.limit)
    case Completing => s.base < |s.workers| && JoinedUpTo(s, 0) && Over(c, s) && !s.completed
    case _ => s.base < |s.workers| && JoinedUpTo(s, 0) && Going(s)
  }

  /** Nothing has ended yet: only the user can have cleared the flag. */
  predicate Going(s: State) {
    !s.completed && (s.running || s.stopped)
  }

  /** How many workers a launch has still to start. */
  function Left(m: Main): nat {
    match m
    case Ready => 0
    case ClearCompleted(n) => n
    case ClearElapsed(n) => n
    case ResetNumber(n) => n
    case ResetPrimes(n) => n
    case Spawning(n) => n
  }

  /** At most the last timer is unfinished, and only while nothing is being launched. */
  predicate JoinInv(c: Config, s: State) {
    && !s.crashed
    && s.base <= |s.workers|
    && (forall t :: 0 <= t < |s.timers| - 1 ==> s.timers[t] == Finished)
    && (s.main == Ready ==>
      if s.timers == [] then s.base == |s.workers| && JoinedUpTo(s, 0)
      else LastTimerOk(c, s, s.timers[|s.timers| - 1]))
    && (s.main != Ready ==> AllFinished(s) && JoinedUpTo(s, 0) && s.base < |s.workers| + Left(s.main))
    && (Resetting(s.main) ==> s.base == |s.workers|)
    && (s.main != Ready ==> s.running || s.stopped)
    && (s.main != Ready && !s.main.ClearCompleted? ==> !s.completed)
  }

  /** A move of a worker that neither was nor becomes joined. */
  lemma MoveKeepsJoin(c: Config, s: State, t: State, w: nat, pc: Worker)
    requires JoinInv(c, s) && w < |s.workers| && s.workers[w] != Joined && pc != Joined
    requires t.workers == s.workers[w := pc] && t.base == s.base && t.timers == s.timers
    requires t.main == s.main && !t.crashed && t.running == s.running && t.stopped == s.stopped
    requires t.completed == s.completed && t.elapsed == s.elapsed
    ensures JoinInv(c, t)
  {
    assert forall k :: JoinedUpTo(s, k) ==> JoinedUpTo(t, k);
    hide JoinedUpTo;
  }

  lemma MainKeepsJoin(c: Config, s: State)
    requires JoinInv(c, s) && MainNext(s) != []
    ensures JoinInv(c, MainNext(s)[0])
  {
    hide Nothing;
    var t := MainNext(s)[0];
    if s.main.Spawning? && s.main.n > 0 {
      assert JoinedUpTo(t, 0);
    } else {
      assert JoinedUpTo(s, 0) ==> JoinedUpTo(t, 0);
      hide JoinedUpTo;
    }
  }

  lemma StepKeepsJoin(c: Config, s: State, e: Event)
    requires c.capacity > 1 && JoinInv(c, s) && Step(c, s, e) != [] && (e.Launch? ==> AllFinished(s))
    ensures JoinInv(c, Step(c, s, e)[0])
  {
    hide Verdict, Sup, MainNext, TimerNext, JoinInv;
    var t := Step(c, s, e)[0];
    match e
    case Launch(n) => LaunchKeepsJoin(c, s, n, t);
    case MainStep => MainKeepsJoin(c, s);
    case TimerStep(k, now) =>
      if s.timers[k].Joining? {
        JoinKeepsJoin(c, s, k, now);
      } else {
        TimerKeepsJoin(c, s, k, now);
      }
    case UserStop => StopKeepsJoin(c, s);
    case Check(w) => MoveKeepsJoin(c, s, t, w, t.workers[w]);
    case Draw(w) => MoveKeepsJoin(c, s, t, w, t.workers[w]);
    case Iterate(w) => MoveKeepsJoin(c, s, t, w, t.workers[w]);
    case Count(w) => MoveKeepsJoin(c, s, t, w, t.workers[w]);
  }

  lemma StopKeepsJoin(c: Config, s: State)
    requires JoinInv(c, s)
    ensures JoinInv(c, s.(running := false, stopped := true))
  {
    assert forall k :: JoinedUpTo(s, k) ==> JoinedUpTo(s.(running := false, stopped := true), k);
    hide JoinedUpTo;
  }

  lemma LaunchKeepsJoin(c: Config, s: State, n: nat, t: State)
    requires JoinInv(c, s) && AllFinished(s) && s.main == Ready && n > 0
    requires t == s.(didRun := true, running := true, stopped := false, main := ClearCompleted(n))
    ensures JoinInv(c, t)
  {
    assert JoinedUpTo(s, 0) ==> JoinedUpTo(t, 0);
    assert s.timers != [] ==> s.timers[|s.timers| - 1] == Finished;
    hide JoinedUpTo;
  }

  lemma OnlyLast(c: Config, s: State, k: nat)
    requires JoinInv(c, s) && k < |s.timers| && s.timers[k] != Finished
    ensures k == |s.timers| - 1 && s.main == Ready
  {
  }

  lemma TimerKeepsJoin(c: Config, s: State, k: nat, now: nat)
    requires JoinInv(c, s) && k < |s.timers| && TimerNext(c, s, k, now) != [] && !s.timers[k].Joining?
    ensures JoinInv(c, TimerNext(c, s, k, now)[0])
  {
    OnlyLast(c, s, k);
    var t := TimerNext(c, s, k, now)[0];
    assert JoinedUpTo(s, 0) ==> JoinedUpTo(t, 0);
    hide JoinedUpTo, AllFinished;
  }

  lemma JoinKeepsJoin(c: Config, s: State, k: nat, now: nat)
    requires JoinInv(c, s) && k < |s.timers| && TimerNext(c, s, k, now) != [] && s.timers[k].Joining?
    ensures JoinInv(c, TimerNext(c, s, k, now)[0])
  {
    OnlyLast(c, s, k);
    var t, i := TimerNext(c, s, k, now)[0], s.timers[k].k;
    assert JoinedUpTo(s, i);
    if s.base + i < |s.workers| {
      assert s.workers[s.base + i] == Exited;
      assert JoinedUpTo(t, i + 1);
    } else {
      assert JoinedUpTo(t, 0);
    }
    hide JoinedUpTo, AllFinished;
  }

  /** When nothing is being launched, the list of compute threads is empty exactly if all timers have finished. */
  lemma NoThreadsIff(c: Config, s: State)
    requires JoinInv(c, s) && s.main == Ready
    ensures s.base == |s.workers| <==> AllFinished(s)
    ensures AllFinished(s) ==> NoneAlive(s)
  {
    if s.timers != [] {
      assert AllFinished(s) <==> s.timers[|s.timers| - 1] == Finished;
    }
  }

  // ----- Careful runs

  ghost predicate Inv(c: Config, s: State) {
    ScoreInv(c, s) && JoinInv(c, s)
  }

  lemma QuietInv(c: Config)
    requires c.capacity > 1
    ensures Inv(c, QUIET)
  {
  }

  /** Every step of a careful run keeps the invariant. */
  lemma StepKeepsInv(c: Config, s: State, e: Event)
    requires Sound(c) && Inv(c, s) && Step(c, s, e) != [] && (e.Launch? ==> AllFinished(s))
    ensures Inv(c, Step(c, s, e)[0])
  {
    hide ScoreInv, JoinInv, AllFinished, NoneAlive;
    if e.Launch? {
      NoThreadsIff(c, s);
    }
    StepKeepsScore(c, s, e);
    StepKeepsJoin(c, s, e);
  }

  lemma {:induction false} RunKeepsInv(c: Config, s: State, events: seq<Event>, t: State)
    requires Sound(c) && Inv(c, s) && CarefulRuns(c, s, events, t)
    ensures Inv(c, t)
    decreases |events|
  {
    hide Inv, Step;
    if events != [] {
      StepKeepsInv(c, s, events[0]);
      RunKeepsInv(c, Step(c, s, events[0])[0], events[1..], t);
    }
  }

  /**
   In every state of a careful run, with any number of launches, counted primes and primes
   still in hand add up to the number of primes up to the last candidate; the score is that
   count, as far as its counter goes; and no thread is joined twice or dropped unjoined.
   */
  lemma ScoreDuringRun(c: Config, events: seq<Event>, t: State)
    requires Sound(c) && CarefulRuns(c, QUIET, events, t)
    ensures !t.crashed
    ensures t.primes == t.counted % c.capacity
    ensures Scoring(t) ==> t.counted + Pending(t.workers) == Pi(t.number)
    ensures Scoring(t) && Pi(t.number) < c.capacity ==> t.primes + Pending(t.workers) == Pi(t.number)
  {
    QuietInv(c);
    RunKeepsInv(c, QUIET, events, t);
    hide Pending, Pi, AllDrawn, Candidates, WorkersOk, NoneAlive;
    if Scoring(t) && Pi(t.number) < c.capacity {
      SmallRemainder(t.counted, c.capacity);
    }
  }

  /** Once all timers have finished, the score is the prime count, and only a new launch changes it. */
  lemma FinalScore(c: Config, events: seq<Event>, t: State, e: Event)
    requires Sound(c) && CarefulRuns(c, QUIET, events, t)
    requires t.main == Ready && t.didRun && AllFinished(t)
    ensures t.primes == Pi(t.number) % c.capacity
    ensures forall w :: 0 <= w < |t.workers| ==> t.workers[w] == Joined
    ensures Step(c, t, e) != [] ==> Step(c, t, e)[0].primes == t.primes && Step(c, t, e)[0].number == t.number
  {
    QuietInv(c);
    RunKeepsInv(c, QUIET, events, t);
    NoThreadsIff(c, t);
    DeadPending(t);
    hide Pending, Pi, AllDrawn, Candidates, WorkersOk;
  }

  lemma {:induction false} DrawnByWorker(drawn: seq<seq<nat>>, n: nat)
    ensures n in AllDrawn(drawn) <==> exists w :: 0 <= w < |drawn| && n in drawn[w]
    decreases |drawn|
  {
    if drawn != [] {
      DrawnByWorker(drawn[1..], n);
      if n in AllDrawn(drawn[1..]) {
        var w :| 0 <= w < |drawn[1..]| && n in drawn[1..][w];
        assert n in drawn[w + 1];
      }
      if w :| 0 <= w < |drawn| && n in drawn[w] {
        if w > 0 {
          assert n in drawn[1..][w - 1];
        }
      }
    }
  }

  lemma {:induction false} DrawnAtLeast(drawn: seq<seq<nat>>, v: nat, w: nat, n: nat)
    requires v < w < |drawn|
    ensures AllDrawn(drawn)[n] >= multiset(drawn[v])[n] + multiset(drawn[w])[n]
    decreases |drawn|
  {
    if v > 0 {
      DrawnAtLeast(drawn[1..], v - 1, w - 1, n);
    } else {
      DrawnAtLeastOne(drawn[1..], w - 1, n);
    }
  }

  lemma {:induction false} DrawnAtLeastOne(drawn: seq<seq<nat>>, w: nat, n: nat)
    requires w < |drawn|
    ensures AllDrawn(drawn)[n] >= multiset(drawn[w])[n]
    decreases |drawn|
  {
    if w > 0 {
      DrawnAtLeastOne(drawn[1..], w - 1, n);
    }
  }

  /** In every scoring state of a careful run each candidate from 3 on has been drawn once, by exactly one worker. */
  lemma DrawnExactlyOnce(c: Config, events: seq<Event>, t: State, n: nat)
    requires Sound(c) && CarefulRuns(c, QUIET, events, t) && Scoring(t)
    ensures 3 <= n <= t.number <==> exists w :: 0 <= w < |t.drawn| && n in t.drawn[w]
    ensures forall v, w :: 0 <= v < w < |t.drawn| ==> !(n in t.drawn[v] && n in t.drawn[w])
    ensures forall w :: 0 <= w < |t.drawn| ==> multiset(t.drawn[w])[n] <= 1
  {
    QuietInv(c);
    RunKeepsInv(c, QUIET, events, t);
    assert AllDrawn(t.drawn) == Candidates(t.number);
    hide *;
    CandidatesOnce(t.number, n);
    DrawnByWorker(t.drawn, n);
    forall v, w | 0 <= v < w < |t.drawn|
      ensures !(n in t.drawn[v] && n in t.drawn[w])
    {
      DrawnAtLeast(t.drawn, v, w, n);
    }
    forall w | 0 <= w < |t.drawn|
      ensures multiset(t.drawn[w])[n] <= 1
    {
      DrawnAtLeastOne(t.drawn, w, n);
    }
  }

  // ----- Launching again too early

  /** A run in which nothing more is launched and the user does nothing. */
  ghost predicate Reaches(c: Config, s: State, t: State)
    requires c.capacity > 1
  {
    exists events :: Alone(events) && Runs(c, s, events, t)
  }

  predicate Alone(events: seq<Event>) {
    forall k :: 0 <= k < |events| ==> !events[k].Launch? && events[k] != UserStop
  }

  /** A run in which nothing more is launched. */
  ghost predicate Follows(c: Config, s: State, t: State)
    requires c.capacity > 1
  {
    exists events :: NoLaunch(events) && Runs(c, s, events, t)
  }

  predicate NoLaunch(events: seq<Event>) {
    forall k :: 0 <= k < |events| ==> !events[k].Launch?
  }

  lemma ReachesSelf(c: Config, s: State)
    requires c.capacity > 1
    ensures Reaches(c, s, s)
  {
    assert Alone([]) && Runs(c, s, [], s);
  }

  lemma {:induction false} RunsConcat(c: Config, s: State, xs: seq<Event>, m: State, ys: seq<Event>, t: State)
    requires c.capacity > 1 && Runs(c, s, xs, m) && Runs(c, m, ys, t)
    ensures Runs(c, s, xs + ys, t)
    decreases |xs|
  {
    hide Step;
    if xs == [] {
      assert xs + ys == ys;
    } else {
      RunsConcat(c, Step(c, s, xs[0])[0], xs[1..], m, ys, t);
      assert (xs + ys)[1..] == xs[1..] + ys;
    }
  }

  lemma ReachesTrans(c: Config, s: State, m: State, t: State)
    requires c.capacity > 1 && Reaches(c, s, m) && Reaches(c, m, t)
    ensures Reaches(c, s, t)
  {
    var xs :| Alone(xs) && Runs(c, s, xs, m);
    var ys :| Alone(ys) && Runs(c, m, ys, t);
    hide Runs;
    RunsConcat(c, s, xs, m, ys, t);
    assert Alone(xs + ys);
  }

  lemma FollowsTrans(c: Config, s: State, m: State, t: State)
    requires c.capacity > 1 && Follows(c, s, m) && Follows(c, m, t)
    ensures Follows(c, s, t)
  {
    var xs :| NoLaunch(xs) && Runs(c, s, xs, m);
    var ys :| NoLaunch(ys) && Runs(c, m, ys, t);
    hide Runs;
    RunsConcat(c, s, xs, m, ys, t);
    assert NoLaunch(xs + ys);
  }

  lemma ReachesFollows(c: Config, s: State, t: State)
    requires c.capacity > 1 && Reaches(c, s, t)
    ensures Follows(c, s, t)
  {
    var xs :| Alone(xs) && Runs(c, s, xs, t);
    assert NoLaunch(xs);
  }

  lemma ReachesStep(c: Config, s: State, e: Event)
    requires c.capacity > 1 && Step(c, s, e) != [] && !e.Launch? && e != UserStop
    ensures Reaches(c, s, Step(c, s, e)[0])
  {
    hide Step;
    var t := Step(c, s, e)[0];
    assert [e][1..] == [];
    assert Runs(c, t, [], t);
    assert Alone([e]) && Runs(c, s, [e], t);
  }

  /** One more step of a run. */
  lemma ReachesMore(c: Config, s: State, m: State, e: Event)
    requires c.capacity > 1 && Reaches(c, s, m) && Step(c, m, e) != [] && !e.Launch? && e != UserStop
    ensures Reaches(c, s, Step(c, m, e)[0])
  {
    hide Step, Reaches;
    ReachesStep(c, m, e);
    ReachesTrans(c, s, m, Step(c, m, e)[0]);
  }

  /** t is s except for worker w, the counters, and what was drawn. */
  predicate SameBut(s: State, t: State, w: nat) {
    && t == s.(workers := t.workers, number := t.number, primes := t.primes, counted := t.counted, drawn := t.drawn)
    && |t.workers| == |s.workers| && |t.drawn| == |s.drawn|
    && forall v :: 0 <= v < |s.workers| && v != w ==> t.workers[v] == s.workers[v]
  }

  /** A worker in the trial loop gets to the end of it, and its candidate is counted if it is prime. */
  lemma {:induction false} DriveTrial(c: Config, s: State, w: nat) returns (t: State)
    requires Sound(c) && !s.crashed && w < |s.workers| && s.workers[w].Testing? && WorkerOk(c, s.workers[w])
    ensures Reaches(c, s, t) && t == Move(s, w, if IsPrime(s.workers[w].n) then Counting(s.workers[w].n) else Checking)
    decreases Sup(c.mode, s.workers[w].n) - s.workers[w].i
  {
    IterateResult(c, s, w);
    var n, m := s.workers[w].n, Step(c, s, Iterate(w))[0];
    ReachesStep(c, s, Iterate(w));
    hide Step, Reaches, IsPrime, WorkerOk;
    if m.workers[w].Testing? {
      t := DriveTrial(c, m, w);
      ReachesTrans(c, s, m, t);
      assert t.workers == s.workers[w := t.workers[w]];
    } else {
      t := m;
    }
  }

  /** A worker that holds a prime counts it. */
  lemma DriveCount(c: Config, s: State, w: nat) returns (t: State)
    requires c.capacity > 1 && !s.crashed && w < |s.workers| && s.workers[w].Counting?
    ensures Reaches(c, s, t) && SameBut(s, t, w) && t.workers[w] == Checking
    ensures t.number == s.number && t.counted == s.counted + 1
  {
    t := Step(c, s, Count(w))[0];
    ReachesStep(c, s, Count(w));
  }

  /** A worker that is testing or counting gets back to the top of its loop. */
  lemma DriveBusy(c: Config, s: State, w: nat) returns (t: State)
    requires Sound(c) && !s.crashed && w < |s.workers| && WorkerOk(c, s.workers[w])
    requires s.workers[w].Testing? || s.workers[w].Counting?
    ensures Reaches(c, s, t) && SameBut(s, t, w) && t.workers[w] == Checking && t.number == s.number
    ensures t.counted == s.counted + if s.workers[w].Counting? || IsPrime(s.workers[w].n) then 1 else 0
  {
    hide IsPrime, Reaches, WorkerOk;
    if s.workers[w].Testing? {
      var m := DriveTrial(c, s, w);
      if m.workers[w].Counting? {
        t := DriveCount(c, m, w);
        ReachesTrans(c, s, m, t);
      } else {
        t := m;
      }
    } else {
      t := DriveCount(c, s, w);
    }
  }

  lemma DriveDraw(c: Config, s: State, w: nat) returns (t: State)
    requires c.capacity > 1 && !s.crashed && At(s, w, Drawing) && |s.drawn| == |s.workers| && s.number >= 2
    ensures Reaches(c, s, t) && SameBut(s, t, w) && t.number == s.number + 1 && t.counted == s.counted
    ensures t.workers[w] == Testing(t.number, 2) && WorkerOk(c, t.workers[w])
  {
    t := Step(c, s, Draw(w))[0];
    ReachesStep(c, s, Draw(w));
  }

  /** A worker that is alive gets to the top of its loop. */
  lemma DriveToCheck(c: Config, s: State, w: nat) returns (t: State)
    requires Sound(c) && !s.crashed && w < |s.workers| && !Dead(s.workers[w]) && WorkerOk(c, s.workers[w])
    requires |s.drawn| == |s.workers| && s.number >= 2
    ensures Reaches(c, s, t) && SameBut(s, t, w) && t.workers[w] == Checking
  {
    hide IsPrime, Reaches, WorkerOk;
    if s.workers[w] == Checking {
      ReachesSelf(c, s);
      t := s;
    } else if s.workers[w] == Drawing {
      var m := DriveDraw(c, s, w);
      t := DriveBusy(c, m, w);
      ReachesTrans(c, s, m, t);
    } else {
      t := DriveBusy(c, s, w);
    }
  }

  /** A launch can be carried through; the old workers and timers may stand still meanwhile. */
  lemma {:induction false} FinishLaunch(c: Config, s: State) returns (t: State)
    requires c.capacity > 1 && !s.crashed && s.main != Ready
    ensures Reaches(c, s, t) && !t.crashed && t.main == Ready
    ensures t.timers == s.timers + [Waiting] && t.base == s.base
    ensures |t.workers| == |s.workers| + Left(s.main) && s.workers <= t.workers
    ensures Pending(t.workers) == Pending(s.workers)
    ensures t.counted == if Resetting(s.main) then 1 else s.counted
    ensures t.number == if s.main.ResetPrimes? || s.main.Spawning? then s.number else 2
    ensures t.running == s.running && (|s.drawn| == |s.workers| ==> |t.drawn| == |t.workers|)
    decreases Left(s.main), if s.main.Spawning? then 0 else if s.main.ResetPrimes? then 1
      else if s.main.ResetNumber? then 2 else if s.main.ClearElapsed? then 3 else 4
  {
    hide Reaches, Pending, TimerNext, Verdict, Sup;
    var m := Step(c, s, MainStep)[0];
    ReachesStep(c, s, MainStep);
    hide Step;
    if m.main == Ready {
      t := m;
    } else {
      if s.main.Spawning? {
        PendingAppend(s.workers, Checking);
        CheckingOk(c);
      }
      t := FinishLaunch(c, m);
      ReachesTrans(c, s, m, t);
    }
  }

  /** A timer whose benchmark is stopped gets to the point where it joins the first thread. */
  lemma {:induction false} DriveTimer(c: Config, s: State, k: nat) returns (t: State)
    requires c.capacity > 1 && !s.crashed && !s.running && k < |s.timers|
    requires s.timers[k] != Finished && (s.timers[k].Joining? ==> s.timers[k].k == 0)
    ensures Reaches(c, s, t)
    ensures t == s.(timers := s.timers[k := Joining(0)], elapsed := t.elapsed, completed := t.completed)
    decreases match s.timers[k] case Sleeping => 4 case Waiting => 3 case Completing => 2 case Stopping => 1 case _ => 0
  {
    if s.timers[k] == Joining(0) {
      ReachesSelf(c, s);
      t := s;
      assert s.timers[k := Joining(0)] == s.timers;
    } else {
      var e := TimerStep(k, 0);
      var m := Step(c, s, e)[0];
      ReachesStep(c, s, e);
      hide Reaches, Step;
      t := DriveTimer(c, m, k);
      ReachesTrans(c, s, m, t);
      assert m.timers[k := Joining(0)] == s.timers[k := Joining(0)];
    }
  }

  /** Left alone, a timer gets to the point where it joins the first thread, and clears the flag on its way. */
  lemma {:induction false} DriveToEnd(c: Config, s: State, k: nat) returns (t: State)
    requires c.capacity > 1 && !s.crashed && k < |s.timers| && s.timers[k] != Finished && !s.timers[k].Joining?
    ensures Reaches(c, s, t) && !t.running
    ensures t == s.(timers := s.timers[k := Joining(0)], running := false, elapsed := t.elapsed, completed := t.completed)
    decreases match s.timers[k]
      case Waiting => (if s.elapsed < c.limit && s.running then 5 else 3)
      case Sleeping => 4 case Completing => 2 case _ => 1
  {
    var e := TimerStep(k, c.limit);
    var m := Step(c, s, e)[0];
    ReachesStep(c, s, e);
    hide Reaches, Step;
    if m.timers[k].Joining? {
      t := m;
    } else {
      t := DriveToEnd(c, m, k);
      ReachesTrans(c, s, m, t);
      assert m.timers[k := Joining(0)] == s.timers[k := Joining(0)];
    }
  }

  /** What is known of the thread that a timer is about to join. */
  lemma NextToJoin(c: Config, s: State)
    requires Inv(c, s) && s.main == Ready && s.timers != [] && s.timers[|s.timers| - 1].Joining?
    ensures var w := s.base + s.timers[|s.timers| - 1].k;
      && c.capacity > 1 && !s.crashed && !s.running && |s.drawn| == |s.workers|
      && w <= |s.workers|
      && (w < |s.workers| ==>
        && s.workers[w] != Joined && WorkerOk(c, s.workers[w])
        && (!Dead(s.workers[w]) ==> s.number >= 2))
      && (w == |s.workers| ==> forall v :: s.base <= v < |s.workers| ==> s.workers[v] == Joined)
  {
  }

  /** The last timer joins all its threads, which end one after the other. */
  lemma {:induction false} JoinAll(c: Config, s: State) returns (t: State)
    requires Sound(c) && Inv(c, s) && s.main == Ready && s.timers != [] && s.timers[|s.timers| - 1].Joining?
    ensures Reaches(c, s, t) && t.main == Ready && t.timers == s.timers[|s.timers| - 1 := Finished]
    decreases |s.workers| - s.base - s.timers[|s.timers| - 1].k
  {
    NextToJoin(c, s);
    var n, k := |s.timers| - 1, s.timers[|s.timers| - 1].k;
    var w := s.base + k;
    hide Inv, Reaches, SameBut, WorkerOk, Dead, Step;
    if w < |s.workers| {
      var x := JoinNextThread(c, s, n);
      ReachesFollows(c, s, x);
      ExtendRun(c, s, x);
      t := JoinAll(c, x);
      ReachesTrans(c, s, x, t);
      assert x.timers[n := Finished] == s.timers[n := Finished];
    } else {
      t := JoinNone(c, s, n);
    }
  }

  lemma JoinNone(c: Config, s: State, n: nat) returns (t: State)
    requires c.capacity > 1 && !s.crashed && n < |s.timers| && s.timers[n].Joining?
    requires s.base + s.timers[n].k >= |s.workers|
    requires forall v :: s.base <= v < |s.workers| ==> s.workers[v] == Joined
    ensures Reaches(c, s, t) && t == s.(base := |s.workers|, timers := s.timers[n := Finished])
  {
    t := Step(c, s, TimerStep(n, 0))[0];
    ReachesStep(c, s, TimerStep(n, 0));
  }

  /** The thread that is joined next comes to its end and is joined. */
  lemma JoinNextThread(c: Config, s: State, n: nat) returns (t: State)
    requires Sound(c) && !s.crashed && !s.running && n < |s.timers| && s.timers[n].Joining?
    requires |s.drawn| == |s.workers| && s.base + s.timers[n].k < |s.workers|
    requires s.workers[s.base + s.timers[n].k] != Joined && WorkerOk(c, s.workers[s.base + s.timers[n].k])
    requires !Dead(s.workers[s.base + s.timers[n].k]) ==> s.number >= 2
    ensures Reaches(c, s, t) && t.main == s.main && t.base == s.base && |t.workers| == |s.workers|
    ensures t.timers == s.timers[n := Joining(s.timers[n].k + 1)]
  {
    var w, m := s.base + s.timers[n].k, s;
    hide Reaches, SameBut, WorkerOk, Dead, Step;
    ReachesSelf(c, s);
    if s.workers[w] != Exited {
      AliveOr(s.workers[w]);
      m := DriveToExit(c, s, w);
    }
    t := JoinOne(c, m, n);
    ReachesTrans(c, s, m, t);
  }

  lemma AliveOr(w: Worker)
    ensures Dead(w) || (w != Exited && w != Joined)
    ensures w != Exited && w != Joined ==> !Dead(w)
  {
  }

  lemma JoinOne(c: Config, s: State, n: nat) returns (t: State)
    requires c.capacity > 1 && !s.crashed && n < |s.timers| && s.timers[n].Joining?
    requires s.base + s.timers[n].k < |s.workers| && s.workers[s.base + s.timers[n].k] == Exited
    ensures Reaches(c, s, t)
    ensures t == s.(workers := s.workers[s.base + s.timers[n].k := Joined],
                    timers := s.timers[n := Joining(s.timers[n].k + 1)])
  {
    t := Step(c, s, TimerStep(n, 0))[0];
    ReachesStep(c, s, TimerStep(n, 0));
  }

  /** While a timer joins, and after it until the next launch, the flag is down and the reason is noted. */
  lemma EndedWhileJoining(c: Config, events: seq<Event>, s: State, k: nat)
    requires Sound(c) && CarefulRuns(c, QUIET, events, s) && k < |s.timers|
    requires s.timers[k].Joining? || (k == |s.timers| - 1 && s.timers[k] == Finished && s.main == Ready)
    ensures !s.running
    ensures s.completed <==> s.elapsed >= c.limit
    ensures s.elapsed < c.limit ==> s.stopped
  {
    QuietInv(c);
    RunKeepsInv(c, QUIET, events, s);
  }

  /**
   From every state of a careful run the benchmark can come to its end without any help: all
   timers finish, all workers are joined, and the score is right.
   */
  lemma TimersFinish(c: Config, events: seq<Event>, s: State) returns (t: State)
    requires Sound(c) && CarefulRuns(c, QUIET, events, s)
    ensures Reaches(c, s, t) && t.main == Ready && AllFinished(t) && !t.crashed && NoneAlive(t)
    ensures t.didRun ==> t.primes == Pi(t.number) % c.capacity
    ensures t.timers != [] ==> !t.running && (t.completed <==> t.elapsed >= c.limit)
  {
    QuietInv(c);
    RunKeepsInv(c, QUIET, events, s);
    NotCrashed(c, s);
    ReachesSelf(c, s);
    var m := s;
    hide Inv, Reaches, AllFinished;
    if s.main != Ready {
      m := FinishLaunch(c, s);
    }
    ReachesFollows(c, s, m);
    ExtendRun(c, s, m);
    t := FinishFrom(c, m);
    ReachesTrans(c, s, m, t);
    ReachesFollows(c, s, t);
    ExtendRun(c, s, t);
    FinishedScore(c, t);
  }

  lemma FinishedScore(c: Config, t: State)
    requires Inv(c, t) && t.main == Ready && AllFinished(t)
    ensures NoneAlive(t) && !t.crashed
    ensures t.didRun ==> t.primes == Pi(t.number) % c.capacity
    ensures t.timers != [] ==> !t.running && (t.completed <==> t.elapsed >= c.limit)
  {
    NoThreadsIff(c, t);
    DeadPending(t);
    hide Pending, Pi, AllDrawn, Candidates, WorkersOk;
  }

  lemma FinishFrom(c: Config, s: State) returns (t: State)
    requires Sound(c) && Inv(c, s) && s.main == Ready
    ensures Reaches(c, s, t) && t.main == Ready && AllFinished(t)
  {
    ReachesSelf(c, s);
    if AllFinished(s) {
      t := s;
    } else {
      var n := |s.timers| - 1;
      UnfinishedLast(c, s);
      OthersFinished(c, s);
      var m := s;
      hide Inv, Reaches, AllFinished;
      if !s.timers[n].Joining? {
        m := DriveToEnd(c, s, n);
      }
      ReachesFollows(c, s, m);
      ExtendRun(c, s, m);
      t := JoinAll(c, m);
      ReachesTrans(c, s, m, t);
      LastFinished(t, n);
    }
  }

  lemma OthersFinished(c: Config, s: State)
    requires Inv(c, s)
    ensures forall k :: 0 <= k < |s.timers| - 1 ==> s.timers[k] == Finished
  {
  }

  lemma LastFinished(t: State, n: nat)
    requires |t.timers| == n + 1 && t.timers[n] == Finished
    requires forall k :: 0 <= k < n ==> t.timers[k] == Finished
    ensures AllFinished(t)
  {
  }

  /** Nothing that can still happen ends the program by joining a thread twice or dropping one. */
  ghost predicate Safe(c: Config, s: State)
    requires c.capacity > 1
  {
    forall t :: Follows(c, s, t) ==> !t.crashed
  }

  /** Whatever happens, outside a launch the count is right. */
  ghost predicate Exact(c: Config, s: State)
    requires c.capacity > 1
  {
    forall t :: Follows(c, s, t) && t.main == Ready ==> t.counted + Pending(t.workers) == Pi(t.number)
  }

  lemma {:induction false} QuietRunIsCareful(c: Config, s: State, events: seq<Event>, t: State)
    requires c.capacity > 1 && Runs(c, s, events, t) && NoLaunch(events)
    ensures CarefulRuns(c, s, events, t)
    decreases |events|
  {
    hide Step;
    if events != [] {
      assert NoLaunch(events[1..]);
      QuietRunIsCareful(c, Step(c, s, events[0])[0], events[1..], t);
    }
  }

  /** A second timer that joins a thread again ends the program. */
  lemma JoinAgain(c: Config, s: State, k: nat) returns (t: State)
    requires c.capacity > 1 && !s.crashed && !s.running && k < |s.timers| && s.timers[k] == Waiting
    requires s.base < |s.workers| && s.workers[s.base] == Joined
    ensures Reaches(c, s, t) && t.crashed
  {
    var m := DriveTimer(c, s, k);
    t := Step(c, m, TimerStep(k, 0))[0];
    ReachesMore(c, s, m, TimerStep(k, 0));
  }

  lemma StopAfter(c: Config, s: State, m: State) returns (t: State)
    requires c.capacity > 1 && Reaches(c, s, m) && !m.crashed
    ensures Follows(c, s, t) && t == m.(running := false, stopped := true)
  {
    t := Step(c, m, UserStop)[0];
    assert [UserStop][1..] == [];
    assert Runs(c, t, [], t) && Runs(c, m, [UserStop], t) && NoLaunch([UserStop]);
    hide Runs;
    ReachesFollows(c, s, m);
    FollowsTrans(c, s, m, t);
  }

  /** The first compute thread is driven to its end and joined by timer k. */
  lemma JoinFirst(c: Config, s: State, k: nat) returns (t: State)
    requires Sound(c) && !s.crashed && !s.running && k < |s.timers|
    requires s.timers[k] != Finished && (s.timers[k].Joining? ==> s.timers[k].k == 0)
    requires s.base < |s.workers| && s.workers[s.base] != Joined && WorkerOk(c, s.workers[s.base])
    requires |s.drawn| == |s.workers| && s.number >= 2
    ensures Reaches(c, s, t) && !t.crashed && !t.running && t.base == s.base && |t.workers| == |s.workers|
    ensures t.workers[t.base] == Joined && |t.timers| == |s.timers|
    ensures forall j :: 0 <= j < |s.timers| && j != k ==> t.timers[j] == s.timers[j]
  {
    var b, m := s.base, s;
    hide Reaches, SameBut, WorkerOk, Step;
    ReachesSelf(c, s);
    if s.workers[b] != Exited {
      m := DriveToExit(c, s, b);
      assert m.workers[b] == Exited;
    }
    var y := DriveTimer(c, m, k);
    ReachesTrans(c, s, m, y);
    t := FirstJoin(c, y, k);
    ReachesTrans(c, s, y, t);
  }

  lemma DriveToExit(c: Config, s: State, w: nat) returns (t: State)
    requires Sound(c) && !s.crashed && !s.running && w < |s.workers| && !Dead(s.workers[w]) && WorkerOk(c, s.workers[w])
    requires |s.drawn| == |s.workers| && s.number >= 2
    ensures Reaches(c, s, t) && !t.crashed && !t.running && t.base == s.base && t.timers == s.timers && t.main == s.main
    ensures |t.workers| == |s.workers| && t.workers[w] == Exited
  {
    var x := DriveToCheck(c, s, w);
    t := Step(c, x, Check(w))[0];
    ReachesMore(c, s, x, Check(w));
  }

  lemma FirstJoin(c: Config, s: State, k: nat) returns (t: State)
    requires c.capacity > 1 && !s.crashed && k < |s.timers| && s.timers[k] == Joining(0)
    requires s.base < |s.workers| && s.workers[s.base] == Exited
    ensures Reaches(c, s, t)
    ensures t == s.(workers := s.workers[s.base := Joined], timers := s.timers[k := Joining(1)])
  {
    t := Step(c, s, TimerStep(k, 0))[0];
    ReachesStep(c, s, TimerStep(k, 0));
  }

  /** With a timer of an earlier launch at work, a launch can end in a thread being joined twice. */
  lemma EarlyLaunchUnsafe(c: Config, s: State, n: nat) returns (t: State)
    requires Sound(c) && Inv(c, s) && s.main == Ready && n > 0 && !AllFinished(s)
    ensures Step(c, s, Launch(n)) != [] && Follows(c, Step(c, s, Launch(n))[0], t) && t.crashed
  {
    var l, k := Step(c, s, Launch(n))[0], |s.timers| - 1;
    NoThreadsIff(c, s);
    UnfinishedLast(c, s);
    WorkerIsOk(c, s, s.base);
    hide Inv, Reaches, Follows, AllFinished, WorkerOk, Pending, Step;
    LaunchFacts(c, s, n);
    var a := FinishLaunch(c, l);
    var m := StopAfter(c, l, a);
    assert m.workers[m.base] == s.workers[s.base] && m.timers == s.timers + [Waiting];
    var x := m;
    if s.workers[s.base] != Joined {
      x := JoinFirst(c, m, k);
      ReachesFollows(c, m, x);
      FollowsTrans(c, l, m, x);
    }
    t := JoinAgain(c, x, k + 1);
    ReachesFollows(c, x, t);
    FollowsTrans(c, l, x, t);
  }

  lemma LaunchFacts(c: Config, s: State, n: nat)
    requires c.capacity > 1 && s.main == Ready && n > 0 && !s.crashed
    ensures Step(c, s, Launch(n)) == [s.(didRun := true, running := true, stopped := false, main := ClearCompleted(n))]
  {
  }

  lemma UnfinishedLast(c: Config, s: State)
    requires Inv(c, s) && s.main == Ready && !AllFinished(s)
    ensures s.timers != [] && s.timers[|s.timers| - 1] != Finished && !s.crashed
    ensures s.base < |s.workers| && WorkersOk(c, s.workers) && |s.drawn| == |s.workers| && c.capacity > 1
    ensures s.workers[s.base] != Joined && s.timers[|s.timers| - 1].Joining? ==> s.timers[|s.timers| - 1].k == 0
  {
  }

  lemma ExtendRun(c: Config, s: State, t: State)
    requires Sound(c) && Inv(c, s) && Follows(c, s, t)
    ensures Inv(c, t)
  {
    var events :| NoLaunch(events) && Runs(c, s, events, t);
    QuietRunIsCareful(c, s, events, t);
    RunKeepsInv(c, s, events, t);
  }

  /**
   In any state that a careful run can come to, starting the benchmark again is safe exactly
   if all timers have finished, which is when there are no compute threads left.
   */
  lemma LaunchSafeIff(c: Config, events: seq<Event>, s: State, n: nat)
    requires Sound(c) && CarefulRuns(c, QUIET, events, s) && s.main == Ready && n > 0
    ensures Step(c, s, Launch(n)) != []
    ensures Safe(c, Step(c, s, Launch(n))[0]) <==> AllFinished(s)
    ensures AllFinished(s) <==> s.base == |s.workers|
  {
    QuietInv(c);
    RunKeepsInv(c, QUIET, events, s);
    NoThreadsIff(c, s);
    LaunchFacts(c, s, n);
    var l := Step(c, s, Launch(n))[0];
    hide Inv, Reaches, Follows, Step;
    if AllFinished(s) {
      StepKeepsInv(c, s, Launch(n));
      forall t | Follows(c, l, t)
        ensures !t.crashed
      {
        ExtendRun(c, l, t);
        NotCrashed(c, t);
      }
    } else {
      var t := EarlyLaunchUnsafe(c, s, n);
    }
  }

  lemma NotCrashed(c: Config, s: State)
    requires Inv(c, s)
    ensures !s.crashed
  {
  }

  /** Three steps into a launch the candidate counter has been reset and the score has not. */
  lemma ResetsFirst(c: Config, s: State) returns (t: State)
    requires c.capacity > 1 && !s.crashed && s.main.ClearCompleted?
    ensures Reaches(c, s, t) && t.main == ResetPrimes(s.main.n) && t.number == 2 && !t.crashed
    ensures t.workers == s.workers && |t.drawn| == |t.workers|
  {
    var m1 := Step(c, s, MainStep)[0];
    ReachesStep(c, s, MainStep);
    var m2 := Step(c, m1, MainStep)[0];
    ReachesMore(c, s, m1, MainStep);
    t := Step(c, m2, MainStep)[0];
    ReachesMore(c, s, m2, MainStep);
  }

  /** A worker that is alive can draw and count a prime between the two resets of a launch. */
  lemma LostPrime(c: Config, s: State, w: nat) returns (t: State)
    requires Sound(c) && !s.crashed && s.main.ClearCompleted? && s.running
    requires w < |s.workers| && !Dead(s.workers[w]) && WorkerOk(c, s.workers[w])
    requires |s.drawn| == |s.workers| && s.number >= 2
    ensures Reaches(c, s, t) && !t.crashed && t.main.ResetPrimes? && t.number == 3
    ensures |t.workers| == |s.workers| && t.workers[w] == Checking
    ensures forall v :: 0 <= v < |s.workers| && v != w ==> t.workers[v] == s.workers[v]
  {
    var x := DriveToCheck(c, s, w);
    var y := Step(c, x, Check(w))[0];
    ReachesMore(c, s, x, Check(w));
    assert y.workers == x.workers[w := Drawing] && y.main == s.main && !y.crashed;
    hide Reaches, WorkerOk, Step;
    var z := ResetsFirst(c, y);
    ReachesTrans(c, s, y, z);
    var d := DriveDraw(c, z, w);
    ReachesTrans(c, s, z, d);
    t := DriveBusy(c, d, w);
    ReachesTrans(c, s, d, t);
  }

  lemma WeightsZero(workers: seq<Worker>)
    requires Pending(workers) == 0
    ensures forall w :: 0 <= w < |workers| ==> Weight(workers[w]) == 0
  {
    forall w | 0 <= w < |workers|
      ensures Weight(workers[w]) == 0
    {
      PendingPart(workers, w);
    }
  }

  lemma PiThree()
    ensures Pi(2) == 1 && Pi(3) == 2
  {
    assert IsPrime(2) && IsPrime(3);
  }

  /** With a worker of an earlier launch alive, a launch can end with a wrong count. */
  lemma EarlyLaunchInexact(c: Config, s: State, n: nat) returns (t: State)
    requires Sound(c) && ScoreInv(c, s) && !s.crashed && s.main == Ready && n > 0 && !NoneAlive(s)
    ensures Step(c, s, Launch(n)) != [] && Reaches(c, Step(c, s, Launch(n))[0], t)
    ensures t.main == Ready && t.counted + Pending(t.workers) != Pi(t.number)
  {
    LaunchFacts(c, s, n);
    PiThree();
    var l := Step(c, s, Launch(n))[0];
    assert s.number >= 2;
    var w :| 0 <= w < |s.workers| && !Dead(s.workers[w]);
    WorkerIsOk(c, s, w);
    hide Reaches, Step, Pi, Pending, ScoreInv, WorkerOk, Weight;
    if Pending(s.workers) != 0 {
      t := FinishLaunch(c, l);
    } else {
      WeightsZero(s.workers);
      var e := LostPrime(c, l, w);
      JoinedOk(c);
      NothingPending(e.workers);
      t := FinishLaunch(c, e);
      ReachesTrans(c, l, e, t);
    }
  }

  lemma {:induction false} RunKeepsScore(c: Config, s: State, events: seq<Event>, t: State)
    requires Sound(c) && ScoreInv(c, s) && Runs(c, s, events, t) && NoLaunch(events)
    ensures ScoreInv(c, t)
    decreases |events|
  {
    hide ScoreInv, Step;
    if events != [] {
      assert NoLaunch(events[1..]);
      StepKeepsScore(c, s, events[0]);
      RunKeepsScore(c, Step(c, s, events[0])[0], events[1..], t);
    }
  }

  lemma ExtendScore(c: Config, s: State, t: State)
    requires Sound(c) && ScoreInv(c, s) && Follows(c, s, t)
    ensures ScoreInv(c, t)
  {
    var events :| NoLaunch(events) && Runs(c, s, events, t);
    hide ScoreInv, Runs;
    RunKeepsScore(c, s, events, t);
  }

  lemma {:induction false} DidRunKept(c: Config, s: State, events: seq<Event>, t: State)
    requires c.capacity > 1 && Runs(c, s, events, t) && s.didRun
    ensures t.didRun
    decreases |events|
  {
    if events != [] {
      assert Step(c, s, events[0])[0].didRun;
      hide Step;
      DidRunKept(c, Step(c, s, events[0])[0], events[1..], t);
    }
  }

  /** In such a state, the count of the next benchmark is sure to be right exactly if no worker is alive. */
  lemma LaunchExactIff(c: Config, events: seq<Event>, s: State, n: nat)
    requires Sound(c) && CarefulRuns(c, QUIET, events, s) && s.main == Ready && n > 0
    ensures Step(c, s, Launch(n)) != []
    ensures Exact(c, Step(c, s, Launch(n))[0]) <==> NoneAlive(s)
    ensures AllFinished(s) ==> NoneAlive(s)
  {
    QuietInv(c);
    RunKeepsInv(c, QUIET, events, s);
    NoThreadsIff(c, s);
    LaunchFacts(c, s, n);
    NotCrashed(c, s);
    var l := Step(c, s, Launch(n))[0];
    hide ScoreInv, JoinInv, Reaches, Follows, Step, Pending, Pi;
    if NoneAlive(s) {
      StepKeepsScore(c, s, Launch(n));
      forall t | Follows(c, l, t) && t.main == Ready
        ensures t.counted + Pending(t.workers) == Pi(t.number)
      {
        ExtendScore(c, l, t);
        Counted(c, l, t);
      }
    } else {
      var t := EarlyLaunchInexact(c, s, n);
      ReachesFollows(c, l, t);
    }
  }

  lemma Counted(c: Config, l: State, t: State)
    requires ScoreInv(c, t) && Follows(c, l, t) && l.didRun && t.main == Ready
    ensures t.counted + Pending(t.workers) == Pi(t.number)
  {
    var events :| NoLaunch(events) && Runs(c, l, events, t);
    DidRunKept(c, l, events, t);
  }
}
