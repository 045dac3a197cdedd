/**
 When the pthread calls of a program come to a standstill. `Process::step` asserts that no thread is
 left once nothing can be resolved (src/process.rs:112); it is not so when every task that has not
 returned waits for another one.
 */
module Deadlocks {
  import opened Pthreads

  // ---------------------------------------------------------------- standstill

  /* A mutex may be initialised statically; everything else is done by a task. */
  predicate ByTask(a: Step) { !a.Init? }

  /* No task can take a step. */
  ghost predicate Stuck(s: State) {
    forall a | Enabled(s, a) :: !ByTask(a)
  }

  /* Task t has returned, or waits for a mutex, a notification or the return of another task. */
  predicate Waits(s: State, t: nat)
    requires t < |s.tasks|
  {
    match s.tasks[t].pc
    case Blocked(_) => true
    case Waiting(_, _) => true
    case Joining(u) => !IsDone(s, u)
    case _ => false
  }

  predicate Still(s: State, t: nat) {
    t < |s.tasks| ==> s.tasks[t].pc.Done? || Waits(s, t)
  }

  /* The next thing that a task can do, if it can do anything. */
  function Move(s: State, t: nat): Step
    requires t < |s.tasks|
  {
    match s.tasks[t].pc
    case Acquiring(_) => AcquireCas(t)
    case Releasing(_, _) => ReleaseCas(t)
    case Released(_, _) => Finish(t)
    case Joining(_) => JoinReturn(t)
    case _ => Exit(t)
  }

  lemma MoveEnabled(s: State, t: nat)
    requires t < |s.tasks| && !Still(s, t)
    ensures Enabled(s, Move(s, t)) && ByTask(Move(s, t))
  {
  }

  /* No task can take a step if and only if every task has returned or waits. */
  lemma StuckExact(s: State)
    ensures Stuck(s) <==> forall t :: Still(s, t)
  {
    if Stuck(s) {
      forall t ensures Still(s, t) {
        if !Still(s, t) {
          MoveEnabled(s, t);
          assert false;
        }
      }
    }
    if forall t :: Still(s, t) {
      forall a | Enabled(s, a) ensures !ByTask(a) {
        if ByTask(a) { OwnStep(s, a); }
      }
    }
  }

  lemma OwnStep(s: State, a: Step)
    requires Enabled(s, a) && ByTask(a)
    ensures a.t < |s.tasks| && !Still(s, a.t)
  {
  }

  /* The assertion of src/process.rs:112 fails: nothing is left to do, and some thread is left. */
  ghost predicate Deadlocked(s: State) {
    Stuck(s) && exists t :: 0 <= t < |s.tasks| && !s.tasks[t].pc.Done?
  }

  // ---------------------------------------------------------------- who waits for whom

  /* Task t waits for something that only task u can do. */
  predicate WaitsFor(s: State, t: nat, u: nat)
    requires t < |s.tasks| && u < |s.tasks|
  {
    match s.tasks[t].pc
    case Blocked(m) => Owns(s.tasks[u], m)
    case Joining(v) => u == v && !s.tasks[u].pc.Done?
    case _ => false
  }

  /* A sequence of tasks each of which waits for the next. */
  ghost predicate Chain(s: State, c: seq<nat>) {
    && (forall k | 0 <= k < |c| :: c[k] < |s.tasks|)
    && forall i, j | 0 <= i && i + 1 == j < |c| :: WaitsFor(s, c[i], c[j])
  }

  /* The last task of a chain waits for the first. */
  ghost predicate Cycle(s: State, c: seq<nat>) {
    c != [] && Chain(s, c) && WaitsFor(s, c[|c| - 1], c[0])
  }

  /* The owner of the mutex for which task t is blocked. */
  lemma OwnerOfBlocked(s: State, t: nat) returns (u: nat)
    requires Inv(s) && t < |s.tasks| && s.tasks[t].pc.Blocked?
    ensures u < |s.tasks| && WaitsFor(s, t, u)
    ensures forall v | 0 <= v < |s.tasks| && WaitsFor(s, t, v) :: v == u
  {
    var owner :| InvWith(s, owner);
    var m := s.tasks[t].pc.m;
    assert QueueExact(s, m) && t in LockOf(s, m).queue;
    u := owner[m];
  }

  /* Everybody waits for a task that has not returned. */
  ghost predicate AllWaitForLive(s: State) {
    forall t | 0 <= t < |s.tasks| && !s.tasks[t].pc.Done? :: WaitsForLive(s, t)
  }

  ghost predicate WaitsForLive(s: State, t: nat)
    requires t < |s.tasks|
  {
    exists u :: 0 <= u < |s.tasks| && WaitsFor(s, t, u) && !s.tasks[u].pc.Done?
  }

  lemma ChainCons(s: State, t: nat, rest: seq<nat>)
    requires Chain(s, rest) && rest != [] && t < |s.tasks| && WaitsFor(s, t, rest[0])
    ensures Chain(s, [t] + rest)
  {
    var c := [t] + rest;
    forall i, j | 0 <= i && i + 1 == j < |c| ensures c[j] < |s.tasks| && WaitsFor(s, c[i], c[j]) {
      if i > 0 {
        var x := i - 1;
        assert c[i] == rest[x] && c[j] == rest[i] && WaitsFor(s, rest[x], rest[i]);
      }
    }
  }

  /* Following whoever is waited for, for n steps. */
  lemma {:induction false} LongChain(s: State, t: nat, n: nat) returns (c: seq<nat>)
    requires AllWaitForLive(s) && t < |s.tasks| && !s.tasks[t].pc.Done?
    ensures |c| == n + 1 && c[0] == t && Chain(s, c)
    decreases n
  {
    if n == 0 {
      c := [t];
    } else {
      assert WaitsForLive(s, t);
      var u :| 0 <= u < |s.tasks| && WaitsFor(s, t, u) && !s.tasks[u].pc.Done?;
      var rest := LongChain(s, u, n - 1);
      ChainCons(s, t, rest);
      c := [t] + rest;
    }
  }

  /* More numbers below n than n: two are equal. */
  lemma {:induction false} Pigeonhole(c: seq<nat>, n: nat) returns (i: nat, j: nat)
    requires |c| > n && forall k | 0 <= k < |c| :: c[k] < n
    ensures i < j < |c| && c[i] == c[j]
    decreases n
  {
    var last := c[|c| - 1];
    if x :| 0 <= x < |c| - 1 && c[x] == last {
      i, j := x, |c| - 1;
    } else {
      // Without the last one, numbers above it move down by one.
      var d := seq(|c| - 1, k requires 0 <= k < |c| - 1 => if c[k] > last then c[k] - 1 else c[k]);
      i, j := Pigeonhole(d, n - 1);
    }
  }

  lemma ChainSlice(s: State, c: seq<nat>, i: nat, j: nat)
    requires Chain(s, c) && i < j < |c| && c[i] == c[j]
    ensures Cycle(s, c[i..j])
  {
    var d, n, last := c[i..j], j - i, j - 1;
    forall k, l | 0 <= k && k + 1 == l < n ensures WaitsFor(s, d[k], d[l]) {
      var x, y := i + k, i + l;
      assert d[k] == c[x] && d[l] == c[y] && WaitsFor(s, c[x], c[y]);
    }
    assert d[n - 1] == c[last] && WaitsFor(s, c[last], c[j]);
  }

  /* When everybody waits for a task that has not returned, some of them wait in a circle. */
  lemma CycleExists(s: State, t: nat) returns (c: seq<nat>)
    requires AllWaitForLive(s) && t < |s.tasks| && !s.tasks[t].pc.Done?
    ensures Cycle(s, c)
  {
    var chain := LongChain(s, t, |s.tasks|);
    var i, j := Pigeonhole(chain, |s.tasks|);
    ChainSlice(s, chain, i, j);
    c := chain[i..j];
  }

  // ---------------------------------------------------------------- joining

  /* Only existing tasks are joined. */
  ghost predicate JoinsOk(s: State) {
    forall t | 0 <= t < |s.tasks| && s.tasks[t].pc.Joining? :: s.tasks[t].pc.u < |s.tasks|
  }

  lemma JoinsKept(s: State, s': State)
    requires JoinsOk(s) && |s'.tasks| == |s.tasks|
    requires forall t | 0 <= t < |s.tasks| :: s'.tasks[t].pc == s.tasks[t].pc || !s'.tasks[t].pc.Joining?
    ensures JoinsOk(s')
  {
  }

  lemma {:induction false} EachJoins(s: State, c: nat)
    requires JoinsOk(s)
    ensures JoinsOk(NotifyEach(s, c))
    decreases |Waiters(s, c)|
  {
    if Waiters(s, c) != [] {
      FrontTasks(s, c);
      JoinsKept(s, NotifyFront(s, c));
      EachJoins(NotifyFront(s, c), c);
    }
  }

  lemma JoinsStep(s: State, a: Step)
    requires JoinsOk(s) && Enabled(s, a) && AssertionHolds(s, a)
    ensures JoinsOk(Next(s, a))
  {
    match a
    case Broadcast(_, c) => EachJoins(s, c);
    case Signal(_, c) =>
      FrontTasks(s, c);
      JoinsKept(s, NotifyFront(s, c));
    case Finish(t) => FinishJoins(s, t);
    case JoinCall(_, _) =>
    case _ => JoinsKept(s, Next(s, a));
  }

  lemma FinishJoins(s: State, t: nat)
    requires JoinsOk(s) && Enabled(s, Finish(t)) && AssertionHolds(s, Finish(t))
    ensures JoinsOk(Next(s, Finish(t)))
  {
    var s' := Next(s, Finish(t));
    assert |s'.tasks| == |s.tasks|;
    forall u | 0 <= u < |s.tasks| ensures s'.tasks[u].pc == s.tasks[u].pc || !s'.tasks[u].pc.Joining? { }
    JoinsKept(s, s');
  }

  lemma {:induction false} RunJoins(s: State, run: seq<Step>)
    requires JoinsOk(s) && Run(s, run)
    ensures JoinsOk(Last(s, run))
    decreases |run|
  {
    if run != [] {
      JoinsStep(s, run[0]);
      RunJoins(Next(s, run[0]), run[1..]);
    }
  }

  // ---------------------------------------------------------------- why nothing moves

  ghost predicate SomeoneWaiting(s: State) {
    exists t :: 0 <= t < |s.tasks| && s.tasks[t].pc.Waiting?
  }

  /* Task t waits for a mutex that task u has kept. */
  predicate Abandoned(s: State, t: nat, u: nat) {
    t < |s.tasks| && u < |s.tasks| && WaitsFor(s, t, u) && s.tasks[u].pc.Done?
  }

  lemma StillWaitsForLive(s: State, t: nat)
    requires Inv(s) && JoinsOk(s) && t < |s.tasks| && !s.tasks[t].pc.Done? && Waits(s, t) && !s.tasks[t].pc.Waiting?
    requires forall u :: !Abandoned(s, t, u)
    ensures WaitsForLive(s, t)
  {
    if s.tasks[t].pc.Blocked? {
      var u := OwnerOfBlocked(s, t);
      assert !Abandoned(s, t, u);
    } else {
      assert WaitsFor(s, t, s.tasks[t].pc.u);
    }
  }

  /* What makes a standstill a deadlock, in every run: a task waits for a notification, a task has
     returned with a mutex that another one waits for, or tasks wait for each other in a circle. */
  lemma DeadlockExact(n: nat, run: seq<Step>, s: State)
    requires Run(Start(n), run) && GuardedRun(Start(n), run) && s == Last(Start(n), run) && Stuck(s)
    ensures Deadlocked(s) <==> SomeoneWaiting(s) || (exists t, u :: Abandoned(s, t, u)) || (exists c :: Cycle(s, c))
  {
    StartInv(n);
    RunInv(Start(n), run);
    RunJoins(Start(n), run);
    if Deadlocked(s) { DeadlockCauses(s); }
    if t: nat, u: nat :| Abandoned(s, t, u) { assert !s.tasks[t].pc.Done?; }
    if c :| Cycle(s, c) { CycleLive(s, c); }
  }

  lemma CycleLive(s: State, c: seq<nat>)
    requires Cycle(s, c)
    ensures c[0] < |s.tasks| && !s.tasks[c[0]].pc.Done?
  {
    if |c| > 1 { assert WaitsFor(s, c[0], c[1]); }
  }

  lemma DeadlockCauses(s: State)
    requires Inv(s) && JoinsOk(s) && Deadlocked(s)
    ensures SomeoneWaiting(s) || (exists t, u :: Abandoned(s, t, u)) || (exists c :: Cycle(s, c))
  {
    StuckExact(s);
    if !SomeoneWaiting(s) && forall t, u :: !Abandoned(s, t, u) {
      forall t | 0 <= t < |s.tasks| && !s.tasks[t].pc.Done? ensures WaitsForLive(s, t) {
        assert Still(s, t);
        StillWaitsForLive(s, t);
      }
      var t :| 0 <= t < |s.tasks| && !s.tasks[t].pc.Done?;
      var c := CycleExists(s, t);
    }
  }

  // ---------------------------------------------------------------- for ever

  /* A task outside the set neither owns m nor is about to. */
  ghost predicate OwnedInside(s: State, C: set<nat>, m: nat) {
    LockOf(s, m).locked && forall u | 0 <= u < |s.tasks| && u !in C :: !Owns(s.tasks[u], m)
  }

  ghost predicate Wanted(s: State, C: set<nat>, m: nat) {
    exists t :: t in C && t < |s.tasks| && s.tasks[t].pc == Blocked(m)
  }

  /* Every task of the set has returned, is blocked for a mutex that one of them owns, or joins one of
     them. */
  ghost predicate Entangled(s: State, C: set<nat>) {
    forall t | t in C :: t < |s.tasks| && (s.tasks[t].pc.Done? || WaitsInside(s, C, t))
  }

  ghost predicate WaitsInside(s: State, C: set<nat>, t: nat)
    requires t < |s.tasks|
  {
    exists u :: u in C && u < |s.tasks| && WaitsFor(s, t, u)
  }

  /* The tasks of the set are as they were... */
  ghost predicate SameInside(s0: State, C: set<nat>, s: State) {
    |s.tasks| == |s0.tasks| && forall t | t in C && t < |s.tasks| :: s.tasks[t] == s0.tasks[t]
  }

  /* ...nobody else owns a mutex for which one of them is blocked... */
  ghost predicate KeptInside(s0: State, C: set<nat>, s: State) {
    forall m | Wanted(s0, C, m) :: OwnedInside(s, C, m)
  }

  /* ...no other mutex has one of them in its queue... */
  ghost predicate QueuedInside(s0: State, C: set<nat>, s: State) {
    forall m, t | t in C && t in LockOf(s, m).queue :: Wanted(s0, C, m)
  }

  /* ...and no condition variable has. */
  ghost predicate NotifiedOutside(C: set<nat>, s: State) {
    forall c, i | 0 <= i < |Waiters(s, c)| :: Waiters(s, c)[i].task !in C
  }

  ghost predicate Lasting(s0: State, C: set<nat>, s: State) {
    SameInside(s0, C, s) && KeptInside(s0, C, s) && QueuedInside(s0, C, s) && NotifiedOutside(C, s)
  }

  lemma KeptStart(s: State, owner: Owners, C: set<nat>, m: nat)
    requires OwnersExact(s, owner) && Entangled(s, C) && Wanted(s, C, m)
    ensures OwnedInside(s, C, m)
  {
    var t :| t in C && t < |s.tasks| && s.tasks[t].pc == Blocked(m);
    assert WaitsInside(s, C, t);
    var u :| u in C && u < |s.tasks| && WaitsFor(s, t, u);
    assert Owns(s.tasks[u], m) && owner[m] == u;
  }

  lemma InQueue(s: State, m: nat, t: nat)
    requires QueueExact(s, m) && t in LockOf(s, m).queue
    ensures t < |s.tasks| && s.tasks[t].pc == Blocked(m)
  {
  }

  lemma InWaiters(s: State, c: nat, i: nat)
    requires CondExact(s, c) && i < |Waiters(s, c)|
    ensures Waiters(s, c)[i].task < |s.tasks| && s.tasks[Waiters(s, c)[i].task].pc.Waiting?
  {
  }

  lemma LastingStart(s: State, C: set<nat>)
    requires Inv(s) && Entangled(s, C)
    ensures Lasting(s, C, s)
  {
    var owner :| InvWith(s, owner);
    forall m | Wanted(s, C, m) ensures OwnedInside(s, C, m) { KeptStart(s, owner, C, m); }
    forall m, t | t in C && t in LockOf(s, m).queue ensures Wanted(s, C, m) { InQueue(s, m, t); }
    forall c, i | 0 <= i < |Waiters(s, c)| ensures Waiters(s, c)[i].task !in C {
      InWaiters(s, c, i);
    }
  }

  /* No task of the set can take a step. */
  lemma InsideStill(s0: State, C: set<nat>, s: State, t: nat)
    requires Entangled(s0, C) && SameInside(s0, C, s) && t in C
    ensures Still(s, t)
  {
    assert s.tasks[t] == s0.tasks[t];
    if !s0.tasks[t].pc.Done? {
      var u :| u in C && u < |s0.tasks| && WaitsFor(s0, t, u);
      assert s.tasks[u] == s0.tasks[u];
    }
  }

  /* A task outside the set goes on without getting one of the mutexes of the set. */
  lemma LastingTask(s0: State, C: set<nat>, s: State, s': State, t: nat)
    requires Lasting(s0, C, s) && t < |s.tasks| && t !in C && |s'.tasks| == |s.tasks|
    requires forall u | 0 <= u < |s.tasks| && u != t :: s'.tasks[u] == s.tasks[u]
    requires s'.conds == s.conds
    requires forall m | Wanted(s0, C, m) :: (Owns(s'.tasks[t], m) ==> Owns(s.tasks[t], m)) && LockOf(s', m).locked
    requires forall m, u | u in LockOf(s', m).queue :: u in LockOf(s, m).queue || u == t
    ensures Lasting(s0, C, s')
  {
    forall m | Wanted(s0, C, m) ensures OwnedInside(s', C, m) { assert OwnedInside(s, C, m); }
    forall m, u | u in C && u in LockOf(s', m).queue ensures Wanted(s0, C, m) { assert u in LockOf(s, m).queue; }
    forall c, i | 0 <= i < |Waiters(s', c)| ensures Waiters(s', c)[i].task !in C {
      assert Waiters(s', c) == Waiters(s, c);
    }
  }

  lemma LastingLock(s0: State, C: set<nat>, s: State, a: Step)
    requires Lasting(s0, C, s) && Enabled(s, a) && (a.LockCall? || a.TryLockCall?) && a.t !in C
    ensures Lasting(s0, C, Next(s, a))
  {
    forall m | Wanted(s0, C, m)
      ensures (Owns(Next(s, a).tasks[a.t], m) ==> Owns(s.tasks[a.t], m)) && LockOf(Next(s, a), m).locked
    {
      assert OwnedInside(s, C, m);
    }
    LastingTask(s0, C, s, Next(s, a), a.t);
  }

  /* The mutex that is handed on is none of those. */
  lemma LastingHandOff(s0: State, C: set<nat>, s: State, x: nat)
    requires Lasting(s0, C, s) && LockOf(s, x).locked && !Wanted(s0, C, x)
    ensures Lasting(s0, C, HandOff(s, x)) && HandOff(s, x).conds == s.conds
    ensures forall u | 0 <= u < |s.tasks| && (LockOf(s, x).queue == [] || u != LockOf(s, x).queue[0]) ::
              HandOff(s, x).tasks[u] == s.tasks[u]
  {
    var s', q := HandOff(s, x), LockOf(s, x).queue;
    assert q != [] ==> q[0] in q && q[0] !in C;
    forall m | Wanted(s0, C, m) ensures OwnedInside(s', C, m) { assert OwnedInside(s, C, m); }
    forall m, u | u in C && u in LockOf(s', m).queue ensures Wanted(s0, C, m) { assert u in LockOf(s, m).queue; }
    forall c, i | 0 <= i < |Waiters(s', c)| ensures Waiters(s', c)[i].task !in C {
      assert Waiters(s', c) == Waiters(s, c);
    }
  }

  lemma LastingWaits(s0: State, C: set<nat>, s: State, t: nat, m: nat, c: nat)
    requires Lasting(s0, C, s) && t !in C && t < |s.tasks|
    ensures Lasting(s0, C, s.(conds := s.conds[c := Waiters(s, c) + [Waiter(m, t)]]))
  {
    var s' := s.(conds := s.conds[c := Waiters(s, c) + [Waiter(m, t)]]);
    forall x | Wanted(s0, C, x) ensures OwnedInside(s', C, x) { assert OwnedInside(s, C, x); }
    forall x, u | u in C && u in LockOf(s', x).queue ensures Wanted(s0, C, x) { assert u in LockOf(s, x).queue; }
    forall x, i | 0 <= i < |Waiters(s', x)| ensures Waiters(s', x)[i].task !in C {
      if x != c || i < |Waiters(s, c)| { assert Waiters(s, x)[i].task !in C; }
    }
  }

  lemma LastingPc(s0: State, C: set<nat>, s: State, t: nat, pc: Pc)
    requires Lasting(s0, C, s) && t !in C && t < |s.tasks| && forall m :: !PcOwns(pc, m)
    ensures Lasting(s0, C, SetPc(s, t, pc))
  {
    forall m | Wanted(s0, C, m) ensures LockOf(s, m).locked { assert OwnedInside(s, C, m); }
    LastingTask(s0, C, s, SetPc(s, t, pc), t);
  }

  lemma LastingFinish(s0: State, C: set<nat>, s: State, t: nat)
    requires Lasting(s0, C, s) && Enabled(s, Finish(t)) && AssertionHolds(s, Finish(t)) && t !in C
    ensures Lasting(s0, C, Next(s, Finish(t)))
  {
    var Released(x, after) := s.tasks[t].pc;
    assert Owns(s.tasks[t], x);
    assert Wanted(s0, C, x) ==> OwnedInside(s, C, x);
    LastingHandOff(s0, C, s, x);
    var s1 := HandOff(s, x);
    match after {
      case Return => LastingPc(s0, C, s1, t, Idle);
      case WaitOn(c) =>
        LastingWaits(s0, C, s1, t, x, c);
        LastingPc(s0, C, s1.(conds := s1.conds[c := Waiters(s1, c) + [Waiter(x, t)]]), t, Waiting(c, x));
    }
  }

  lemma LastingNotify(s0: State, C: set<nat>, s: State, c: nat)
    requires Lasting(s0, C, s)
    ensures Lasting(s0, C, NotifyFront(s, c))
  {
    var s', q := NotifyFront(s, c), Waiters(s, c);
    if q != [] {
      assert q[0].task !in C;
      forall m | Wanted(s0, C, m) ensures OwnedInside(s', C, m) { assert OwnedInside(s, C, m); }
      forall m, u | u in C && u in LockOf(s', m).queue ensures Wanted(s0, C, m) { assert u in LockOf(s, m).queue; }
      forall x, i | 0 <= i < |Waiters(s', x)| ensures Waiters(s', x)[i].task !in C {
        if x == c { assert Waiters(s', x)[i] == q[i + 1]; } else { assert Waiters(s', x) == Waiters(s, x); }
      }
    }
  }

  lemma {:induction false} LastingEach(s0: State, C: set<nat>, s: State, c: nat)
    requires Lasting(s0, C, s)
    ensures Lasting(s0, C, NotifyEach(s, c))
    decreases |Waiters(s, c)|
  {
    if Waiters(s, c) != [] {
      LastingNotify(s0, C, s, c);
      LastingEach(s0, C, NotifyFront(s, c), c);
    }
  }

  lemma LastingStep(s0: State, C: set<nat>, s: State, a: Step)
    requires Entangled(s0, C) && Lasting(s0, C, s) && Enabled(s, a) && AssertionHolds(s, a)
    ensures Lasting(s0, C, Next(s, a))
  {
    if ByTask(a) {
      OwnStep(s, a);
      if a.t in C { InsideStill(s0, C, s, a.t); }
    }
    match a
    case Init(m) => LastingInit(s0, C, s, m);
    case LockCall(_, _) => LastingLock(s0, C, s, a);
    case TryLockCall(_, _) => LastingLock(s0, C, s, a);
    case Finish(t) => LastingFinish(s0, C, s, t);
    case Signal(_, c) => LastingNotify(s0, C, s, c);
    case Broadcast(_, c) => LastingEach(s0, C, s, c);
    case _ => LastingPass(s0, C, s, a);
  }

  lemma LastingInit(s0: State, C: set<nat>, s: State, m: nat)
    requires Lasting(s0, C, s) && Enabled(s, Init(m))
    ensures Lasting(s0, C, Next(s, Init(m)))
  {
    var s' := Next(s, Init(m));
    forall x | Wanted(s0, C, x) ensures OwnedInside(s', C, x) { assert OwnedInside(s, C, x); }
    forall x, u | u in C && u in LockOf(s', x).queue ensures Wanted(s0, C, x) { assert u in LockOf(s, x).queue; }
    forall c, i | 0 <= i < |Waiters(s', c)| ensures Waiters(s', c)[i].task !in C {
      assert Waiters(s', c) == Waiters(s, c);
    }
  }

  /* Steps that leave all queues alone. */
  lemma LastingPass(s0: State, C: set<nat>, s: State, a: Step)
    requires Lasting(s0, C, s) && Enabled(s, a) && ByTask(a) && a.t !in C
    requires !a.LockCall? && !a.TryLockCall? && !a.Finish? && !a.Signal? && !a.Broadcast?
    requires AssertionHolds(s, a)
    ensures Lasting(s0, C, Next(s, a))
  {
    forall m | Wanted(s0, C, m)
      ensures (Owns(Next(s, a).tasks[a.t], m) ==> Owns(s.tasks[a.t], m)) && LockOf(Next(s, a), m).locked
    {
      assert OwnedInside(s, C, m);
    }
    assert forall m :: LockOf(Next(s, a), m) == LockOf(s, m);
    LastingTask(s0, C, s, Next(s, a), a.t);
  }

  lemma {:induction false} LastingRun(s0: State, C: set<nat>, s: State, run: seq<Step>)
    requires Entangled(s0, C) && Lasting(s0, C, s) && Run(s, run)
    ensures Lasting(s0, C, Last(s, run))
    decreases |run|
  {
    if run != [] {
      LastingStep(s0, C, s, run[0]);
      LastingRun(s0, C, Next(s, run[0]), run[1..]);
    }
  }

  /* Entangled tasks stay as they are in every continuation, whatever the others do. */
  lemma EntangledForever(s: State, C: set<nat>, run: seq<Step>)
    requires Inv(s) && Entangled(s, C) && Run(s, run)
    ensures |Last(s, run).tasks| == |s.tasks| && forall t | t in C :: Last(s, run).tasks[t] == s.tasks[t]
  {
    LastingStart(s, C);
    LastingRun(s, C, s, run);
  }

  ghost function Members(c: seq<nat>): set<nat> { set k | 0 <= k < |c| :: c[k] }

  lemma CycleEntangled(s: State, c: seq<nat>)
    requires Cycle(s, c)
    ensures Entangled(s, Members(c)) && forall k | 0 <= k < |c| :: c[k] in Members(c)
  {
    forall k | 0 <= k < |c| ensures WaitsInside(s, Members(c), c[k]) {
      var next := if k < |c| - 1 then c[k + 1] else c[0];
      assert next in Members(c) && WaitsFor(s, c[k], next);
    }
  }

  lemma SameCycle(s: State, f: State, c: seq<nat>)
    requires Cycle(s, c) && |f.tasks| == |s.tasks| && forall k | 0 <= k < |c| :: f.tasks[c[k]] == s.tasks[c[k]]
    ensures Cycle(f, c)
  {
    forall k, l | 0 <= k && k + 1 == l < |c| ensures WaitsFor(f, c[k], c[l]) { assert WaitsFor(s, c[k], c[l]); }
  }

  /* The tasks of a circle stay blocked in every continuation, so the assertion fails if the others
     come to a standstill. */
  lemma CycleForever(s: State, c: seq<nat>, run: seq<Step>)
    requires Inv(s) && Cycle(s, c) && Run(s, run)
    ensures |Last(s, run).tasks| == |s.tasks| && Cycle(Last(s, run), c)
    ensures forall k | 0 <= k < |c| :: Last(s, run).tasks[c[k]] == s.tasks[c[k]]
    ensures Stuck(Last(s, run)) ==> Deadlocked(Last(s, run))
  {
    CycleEntangled(s, c);
    EntangledForever(s, Members(c), run);
    SameCycle(s, Last(s, run), c);
    CycleLive(Last(s, run), c);
  }

  // ---------------------------------------------------------------- programs that come to it

  /* A task that locks a mutex twice, as POSIX lets a mutex of the default type do, waits for itself. */
  lemma LocksTwice(m: nat) returns (run: seq<Step>, s: State)
    ensures Run(Start(1), run) && GuardedRun(Start(1), run) && s == Last(Start(1), run)
    ensures s.conds == map[] && |s.tasks| == 1 && s.tasks[0].pc == Blocked(m) && Cycle(s, [0]) && Deadlocked(s)
  {
    var s0 := Start(1);
    assert s0.tasks == [Task(Idle, {})];
    run := [];
    RunSnoc(s0, run, Init(m));
    run := run + [Init(m)];
    RunSnoc(s0, run, LockCall(0, m));
    run := run + [LockCall(0, m)];
    RunSnoc(s0, run, AcquireCas(0));
    run := run + [AcquireCas(0)];
    RunSnoc(s0, run, LockCall(0, m));
    run := run + [LockCall(0, m)];
    NoNotifications(s0, run);
    s := Last(s0, run);
    forall t ensures Still(s, t) { }
    StuckExact(s);
  }

  lemma {:induction false} NoNotifications(s: State, run: seq<Step>)
    requires Run(s, run) && forall k | 0 <= k < |run| :: !run[k].Signal? && !run[k].Broadcast?
    ensures GuardedRun(s, run)
    decreases |run|
  {
    if run != [] { NoNotifications(Next(s, run[0]), run[1..]); }
  }
}
