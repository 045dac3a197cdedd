/**
 Whole calls of src/native/pthread.rs: what a call leaves behind once its steps have been taken
 without interruption, and which calls undo each other.
 */
module PthreadCalls {
  import opened Wrappers
  import Mutexes
  import opened Pthreads

  // ---------------------------------------------------------------- comparing states

  /* Only the state of mutex m changes. */
  ghost predicate LockSet(s: State, s': State, m: nat, l: Mutexes.Lock) {
    forall x :: LockOf(s', x) == if x == m then l else LockOf(s, x)
  }

  /* Only the queue of condition variable c changes. */
  ghost predicate CondSet(s: State, s': State, c: nat, q: seq<Waiter>) {
    forall x :: Waiters(s', x) == if x == c then q else Waiters(s, x)
  }

  ghost predicate SameLocks(s: State, s': State) { forall x :: LockOf(s', x) == LockOf(s, x) }

  ghost predicate SameConds(s: State, s': State) { forall x :: Waiters(s', x) == Waiters(s, x) }

  /* No call can tell the two states apart. */
  ghost predicate Alike(s: State, s': State) {
    s'.tasks == s.tasks && s'.words == s.words && SameLocks(s, s') && SameConds(s, s')
  }

  // ---------------------------------------------------------------- what the invariant says

  lemma FreeWith(s: State, owner: Owners, m: nat, t: nat)
    requires OwnersExact(s, owner) && QueueExact(s, m) && WordExact(s, owner, m) && !LockOf(s, m).locked
    ensures LockOf(s, m) == Mutexes.Lock(false, []) && (m in s.words ==> s.words[m] == UNLOCKED)
    ensures t < |s.tasks| ==> !Owns(s.tasks[t], m)
  {
  }

  /* Nobody owns a free mutex, and nobody waits in its queue. */
  lemma FreeMutex(s: State, m: nat, t: nat)
    requires Inv(s) && !LockOf(s, m).locked
    ensures LockOf(s, m) == Mutexes.Lock(false, []) && (m in s.words ==> s.words[m] == UNLOCKED)
    ensures t < |s.tasks| ==> !Owns(s.tasks[t], m)
  {
    var owner :| InvWith(s, owner);
    FreeWith(s, owner, m, t);
  }

  lemma HeldWith(s: State, owner: Owners, t: nat, m: nat)
    requires OwnersExact(s, owner) && QueueExact(s, m) && WordExact(s, owner, m)
    requires t < |s.tasks| && m in s.tasks[t].held
    ensures LockOf(s, m).locked && (m in s.words ==> s.words[m] == LOCKED)
    ensures var q := LockOf(s, m).queue;
            q != [] ==> q[0] < |s.tasks| && s.tasks[q[0]].pc == Blocked(m)
  {
    assert Owns(s.tasks[t], m);
    var q := LockOf(s, m).queue;
    assert q != [] ==> q[0] in q;
  }

  lemma HeldMutex(s: State, t: nat, m: nat)
    requires Inv(s) && t < |s.tasks| && m in s.tasks[t].held
    ensures LockOf(s, m).locked && m in s.words && s.words[m] == LOCKED
    ensures var q := LockOf(s, m).queue;
            q != [] ==> q[0] < |s.tasks| && s.tasks[q[0]].pc == Blocked(m)
  {
    var owner :| InvWith(s, owner);
    HeldWith(s, owner, t, m);
  }

  lemma FrontWaiter(s: State, c: nat)
    requires Inv(s) && Waiters(s, c) != []
    ensures Waiters(s, c)[0].task < |s.tasks|
    ensures s.tasks[Waiters(s, c)[0].task].pc == Waiting(c, Waiters(s, c)[0].mutex)
  {
    var owner :| InvWith(s, owner);
    assert CondExact(s, c);
  }

  lemma OwnerIs(s: State, owner: Owners, t: nat, m: nat)
    requires OwnersExact(s, owner) && t < |s.tasks| && Owns(s.tasks[t], m)
    ensures m in owner && owner[m] == t
  {
  }

  lemma OneHolds(s: State, t: nat, u: nat, m: nat)
    requires Inv(s) && t < |s.tasks| && u < |s.tasks| && m in s.tasks[t].held
    ensures m in s.tasks[u].held ==> t == u
  {
    if m in s.tasks[u].held {
      var owner :| InvWith(s, owner);
      OwnerIs(s, owner, t, m);
      OwnerIs(s, owner, u, m);
    }
  }

  // ---------------------------------------------------------------- running steps

  ghost predicate Goes(s: State, run: seq<Step>, s': State) { Run(s, run) && Last(s, run) == s' }

  lemma {:induction false} RunAppend(s: State, a: seq<Step>, b: seq<Step>, mid: State, end: State)
    requires Goes(s, a, mid) && Goes(mid, b, end)
    ensures Goes(s, a + b, end)
    decreases |a|
  {
    if a == [] {
      assert a + b == b;
    } else {
      assert (a + b)[1..] == a[1..] + b;
      RunAppend(Next(s, a[0]), a[1..], b, mid, end);
    }
  }

  lemma One(s: State, a: Step, s1: State)
    requires Inv(s) && Enabled(s, a) && Guarded(s, a) && (AssertionHolds(s, a) ==> s1 == Next(s, a))
    ensures AssertionHolds(s, a) && Goes(s, [a], s1) && Inv(s1)
  {
    StepInv(s, a);
    RunSnoc(s, [], a);
    assert [] + [a] == [a];
  }

  // ---------------------------------------------------------------- init

  /* `pthread_mutex_init` stores the word of a free mutex and does nothing else. */
  lemma Inits(s: State, m: nat)
    requires Enabled(s, Init(m))
    ensures var s' := Next(s, Init(m));
            && s'.words == s.words[m := 0x32AAABA7] && s'.tasks == s.tasks && SameLocks(s, s') && SameConds(s, s')
  {
  }

  // ---------------------------------------------------------------- lock and trylock

  /* A failing trylock leaves everything as it was; the caller goes on. */
  lemma TryLockFails(s: State, t: nat, m: nat)
    requires Enabled(s, TryLockCall(t, m)) && LockOf(s, m).locked
    ensures Alike(s, Next(s, TryLockCall(t, m)))
  {
  }

  /* A lock call on a locked mutex joins the end of the queue, and does nothing else. */
  lemma LockBlocks(s: State, t: nat, m: nat)
    requires Enabled(s, LockCall(t, m)) && LockOf(s, m).locked
    ensures var s' := Next(s, LockCall(t, m));
            && s'.tasks == s.tasks[t := Task(Blocked(m), s.tasks[t].held)] && s'.words == s.words
            && LockSet(s, s', m, Mutexes.Lock(true, LockOf(s, m).queue + [t])) && SameConds(s, s')
  {
  }

  /* A granted task gets the lock word. */
  ghost predicate Acquired(s: State, s': State, t: nat, m: nat)
    requires t < |s.tasks|
  {
    && s'.tasks == s.tasks[t := Task(Idle, s.tasks[t].held + {m})] && s'.words == s.words[m := 1]
    && SameLocks(s, s') && SameConds(s, s')
  }

  lemma Acquires(s: State, t: nat, m: nat) returns (s': State)
    requires Inv(s) && t < |s.tasks| && s.tasks[t].pc == Acquiring(m)
    ensures Goes(s, [AcquireCas(t)], s') && Inv(s') && Acquired(s, s', t, m)
  {
    AssertionsHold(s, AcquireCas(t));
    s' := Next(s, AcquireCas(t));
    One(s, AcquireCas(t), s');
  }

  ghost predicate Taken(s: State, s': State, t: nat, m: nat)
    requires t < |s.tasks|
  {
    && s'.tasks == s.tasks[t := Task(Idle, s.tasks[t].held + {m})] && s'.words == s.words[m := 1]
    && LockSet(s, s', m, Mutexes.Lock(true, [])) && SameConds(s, s')
  }

  predicate Locks(call: Step, t: nat, m: nat) { call == LockCall(t, m) || call == TryLockCall(t, m) }

  lemma Grants(s: State, t: nat, m: nat, call: Step)
    requires IdleTask(s, t) && m in s.words && LockOf(s, m) == Mutexes.Lock(false, []) && Locks(call, t, m)
    ensures Enabled(s, call) && AssertionHolds(s, call)
    ensures var s' := Next(s, call);
            && s'.tasks == s.tasks[t := Task(Acquiring(m), s.tasks[t].held)] && s'.words == s.words
            && LockSet(s, s', m, Mutexes.Lock(true, [])) && SameConds(s, s')
  {
  }

  lemma GrantThenAcquire(s: State, s1: State, s2: State, t: nat, m: nat)
    requires t < |s.tasks| && s1.tasks == s.tasks[t := Task(Acquiring(m), s.tasks[t].held)] && s1.words == s.words
    requires LockSet(s, s1, m, Mutexes.Lock(true, [])) && SameConds(s, s1) && Acquired(s1, s2, t, m)
    ensures Taken(s, s2, t, m)
  {
  }

  /* On a free mutex lock and trylock do the same: the caller holds it, and its word is LOCKED. */
  lemma LockTakes(s: State, t: nat, m: nat, call: Step) returns (s': State)
    requires Inv(s) && IdleTask(s, t) && m in s.words && !LockOf(s, m).locked && Locks(call, t, m)
    ensures Goes(s, [call] + [AcquireCas(t)], s') && Inv(s') && Taken(s, s', t, m)
  {
    FreeMutex(s, m, t);
    Grants(s, t, m, call);
    var s1 := Next(s, call);
    One(s, call, s1);
    s' := Acquires(s1, t, m);
    GrantThenAcquire(s, s1, s', t, m);
    RunAppend(s, [call], [AcquireCas(t)], s1, s');
  }

  // ---------------------------------------------------------------- unlock and wait

  /* The tasks once t has given up m: the first task in the queue is granted it. */
  function GivenUp(s: State, t: nat, m: nat, pc: Pc): seq<Task>
    requires t < |s.tasks|
  {
    var tasks, q := s.tasks[t := Task(pc, s.tasks[t].held - {m})], LockOf(s, m).queue;
    if q == [] || q[0] >= |tasks| then tasks else tasks[q[0] := Task(Acquiring(m), s.tasks[q[0]].held)]
  }

  function Passed(l: Mutexes.Lock): Mutexes.Lock {
    if l.queue == [] then Mutexes.Lock(false, []) else Mutexes.Lock(true, l.queue[1..])
  }

  function PcAfter(after: After, m: nat): Pc { if after.Return? then Idle else Waiting(after.cond, m) }

  function CallFor(after: After, t: nat, m: nat): Step {
    match after
    case Return => UnlockCall(t, m)
    case WaitOn(c) => WaitCall(t, m, c)
  }

  ghost predicate Queues(s: State, s': State, t: nat, m: nat, after: After) {
    match after
    case Return => SameConds(s, s')
    case WaitOn(c) => CondSet(s, s', c, Waiters(s, c) + [Waiter(m, t)])
  }

  ghost predicate Left(s: State, s': State, t: nat, m: nat, after: After)
    requires t < |s.tasks|
  {
    && s'.tasks == GivenUp(s, t, m, PcAfter(after, m)) && s'.words == s.words[m := 0x32AAABA7]
    && LockSet(s, s', m, Passed(LockOf(s, m))) && Queues(s, s', t, m, after)
  }

  /* The word has been released, the mutex has not. */
  ghost predicate Leaving(s: State, s2: State, t: nat, m: nat, after: After)
    requires t < |s.tasks|
  {
    && s2.tasks == s.tasks[t := Task(Released(m, after), s.tasks[t].held - {m})]
    && s2.words == s.words[m := UNLOCKED] && s2.locks == s.locks && s2.conds == s.conds
  }

  lemma LeaveWord(s: State, s1: State, s2: State, t: nat, m: nat, after: After)
    requires IdleTask(s, t) && m in s.tasks[t].held && s1 == Next(s, CallFor(after, t, m))
    requires AssertionHolds(s1, ReleaseCas(t)) && s2 == Next(s1, ReleaseCas(t))
    ensures Leaving(s, s2, t, m, after)
  {
  }

  lemma LeaveMutex(s: State, s2: State, s3: State, t: nat, m: nat, after: After)
    requires IdleTask(s, t) && LockOf(s, m).locked && Leaving(s, s2, t, m, after) && Finished(s2, s3, t, m, after)
    requires LockOf(s, m).queue != [] ==> LockOf(s, m).queue[0] < |s.tasks| && LockOf(s, m).queue[0] != t
    ensures Left(s, s3, t, m, after)
  {
    assert LockOf(s2, m) == LockOf(s, m);
    assert s3.tasks == GivenUp(s, t, m, PcAfter(after, m));
  }

  /* `unlock` and the first half of `wait`: the word is UNLOCKED, the mutex is passed on or free, and
     the caller goes on or waits at the end of the queue of the condition variable. */
  lemma GivesUp(s: State, t: nat, m: nat, after: After) returns (s': State)
    requires Inv(s) && IdleTask(s, t) && m in s.tasks[t].held
    ensures Goes(s, [CallFor(after, t, m)] + [ReleaseCas(t)] + [Finish(t)], s') && Inv(s')
    ensures Left(s, s', t, m, after)
  {
    HeldMutex(s, t, m);
    var call := CallFor(after, t, m);
    var s1 := Next(s, call);
    One(s, call, s1);
    AssertionsHold(s1, ReleaseCas(t));
    var s2 := Next(s1, ReleaseCas(t));
    One(s1, ReleaseCas(t), s2);
    AssertionsHold(s2, Finish(t));
    s' := Next(s2, Finish(t));
    One(s2, Finish(t), s');
    LeaveWord(s, s1, s2, t, m, after);
    FinishStep(s2, t);
    LeaveMutex(s, s2, s', t, m, after);
    RunAppend(s, [call], [ReleaseCas(t)], s1, s2);
    RunAppend(s, [call] + [ReleaseCas(t)], [Finish(t)], s2, s');
  }

  // ---------------------------------------------------------------- lock, then unlock

  lemma TakenThenLeft(s: State, s1: State, s2: State, t: nat, m: nat)
    requires IdleTask(s, t) && LockOf(s, m) == Mutexes.Lock(false, []) && WordIs(s, m, UNLOCKED)
    requires m !in s.tasks[t].held
    requires Taken(s, s1, t, m) && Left(s1, s2, t, m, Return)
    ensures Alike(s, s2)
  {
    assert s1.tasks[t].held - {m} == s.tasks[t].held;
    assert s2.tasks == s.tasks;
    assert s2.words == s.words;
  }

  /* Locking a free mutex and unlocking it leaves everything as it was. */
  lemma LockUnlock(s: State, t: nat, m: nat, call: Step) returns (s': State)
    requires Inv(s) && IdleTask(s, t) && m in s.words && !LockOf(s, m).locked && Locks(call, t, m)
    ensures Goes(s, ([call] + [AcquireCas(t)]) + ([UnlockCall(t, m)] + [ReleaseCas(t)] + [Finish(t)]), s')
    ensures Alike(s, s')
  {
    FreeMutex(s, m, t);
    var s1 := LockTakes(s, t, m, call);
    s' := GivesUp(s1, t, m, Return);
    TakenThenLeft(s, s1, s', t, m);
    RunAppend(s, [call] + [AcquireCas(t)], [UnlockCall(t, m)] + [ReleaseCas(t)] + [Finish(t)], s1, s');
  }

  // ---------------------------------------------------------------- signal

  /* The first waiter leaves the queue: blocked on its mutex when that is locked, granted it otherwise. */
  ghost predicate Signalled(s: State, s': State, c: nat, m: nat, u: nat)
    requires u < |s.tasks| && Waiters(s, c) != []
  {
    var l := LockOf(s, m);
    && s'.tasks == s.tasks[u := Task(if l.locked then Blocked(m) else Acquiring(m), s.tasks[u].held)]
    && s'.words == s.words && LockSet(s, s', m, if l.locked then Mutexes.Lock(true, l.queue + [u]) else l)
    && CondSet(s, s', c, Waiters(s, c)[1..])
  }

  lemma FrontSignalled(s: State, c: nat, m: nat, u: nat)
    requires Waiters(s, c) != [] && Waiters(s, c)[0] == Waiter(m, u) && u < |s.tasks|
    ensures Signalled(s, NotifyFront(s, c), c, m, u)
  {
  }

  /* `pthread_cond_signal`. */
  lemma Signals(s: State, t: nat, c: nat)
    requires Inv(s) && IdleTask(s, t)
    ensures Enabled(s, Signal(t, c)) && AssertionHolds(s, Signal(t, c))
    ensures if Waiters(s, c) == [] then Alike(s, Next(s, Signal(t, c)))
            else var Waiter(m, u) := Waiters(s, c)[0];
                 u < |s.tasks| && Signalled(s, Next(s, Signal(t, c)), c, m, u)
  {
    if Waiters(s, c) != [] {
      FrontWaiter(s, c);
      FrontSignalled(s, c, Waiters(s, c)[0].mutex, Waiters(s, c)[0].task);
    }
  }

  // ---------------------------------------------------------------- broadcast

  /* What notifying every waiter does to task u. */
  function TaskAfter(s: State, q: seq<Waiter>, u: nat): Task
    requires u < |s.tasks|
  {
    if q == [] then s.tasks[u]
    else if q[0].task == u then
      Task(if LockOf(s, q[0].mutex).locked then Blocked(q[0].mutex) else Acquiring(q[0].mutex), s.tasks[u].held)
    else TaskAfter(s, q[1..], u)
  }

  lemma {:induction false} TaskAfterSame(s: State, s1: State, q: seq<Waiter>, u: nat)
    requires u < |s.tasks| && u < |s1.tasks| && s1.tasks[u] == s.tasks[u]
    requires forall x :: LockOf(s1, x).locked == LockOf(s, x).locked
    ensures TaskAfter(s1, q, u) == TaskAfter(s, q, u)
  {
    if q != [] && q[0].task != u { TaskAfterSame(s, s1, q[1..], u); }
  }

  lemma {:induction false} TaskAfterOther(s: State, q: seq<Waiter>, u: nat)
    requires u < |s.tasks| && forall i | 0 <= i < |q| :: q[i].task != u
    ensures TaskAfter(s, q, u) == s.tasks[u]
  {
    if q != [] { TaskAfterOther(s, q[1..], u); }
  }

  ghost predicate Roused(s: State, s': State, c: nat) {
    && |s'.tasks| == |s.tasks| && s'.words == s.words && CondSet(s, s', c, [])
    && (forall u | 0 <= u < |s.tasks| :: s'.tasks[u] == TaskAfter(s, Waiters(s, c), u))
    && (forall m :: LockOf(s', m).locked == LockOf(s, m).locked)
    && (forall m :: LockOf(s', m).queue ==
          LockOf(s, m).queue + if LockOf(s, m).locked then WaitingFor(Waiters(s, c), m) else [])
  }

  lemma RousedTask(s: State, s1: State, s': State, c: nat, m: nat, w: nat, u: nat)
    requires DistinctWaiters(s, c) && u < |s.tasks| && w < |s.tasks|
    requires Waiters(s, c) != [] && Waiters(s, c)[0] == Waiter(m, w)
    requires Signalled(s, s1, c, m, w) && Roused(s1, s', c)
    ensures s'.tasks[u] == TaskAfter(s, Waiters(s, c), u)
  {
    var q := Waiters(s, c);
    assert s'.tasks[u] == TaskAfter(s1, q[1..], u);
    if u == w {
      forall i | 0 <= i < |q[1..]| ensures q[1..][i].task != u { assert q[1..][i] == q[i + 1]; }
      TaskAfterOther(s1, q[1..], u);
    } else {
      TaskAfterSame(s, s1, q[1..], u);
    }
  }

  lemma {:induction false} AllRoused(s: State, c: nat)
    requires DistinctWaiters(s, c) && forall i | 0 <= i < |Waiters(s, c)| :: Waiters(s, c)[i].task < |s.tasks|
    ensures Roused(s, NotifyEach(s, c), c)
    decreases |Waiters(s, c)|
  {
    var q, s' := Waiters(s, c), NotifyEach(s, c);
    forall m { EachQueue(s, c, m); }
    if q != [] {
      var s1 := NotifyFront(s, c);
      FrontSignalled(s, c, q[0].mutex, q[0].task);
      assert Waiters(s1, c) == q[1..];
      AllRoused(s1, c);
      forall u | 0 <= u < |s.tasks| ensures s'.tasks[u] == TaskAfter(s, q, u) {
        RousedTask(s, s1, s', c, q[0].mutex, q[0].task, u);
      }
    }
  }

  lemma WaitersOf(s: State, c: nat)
    requires Inv(s)
    ensures DistinctWaiters(s, c) && forall i | 0 <= i < |Waiters(s, c)| :: Waiters(s, c)[i].task < |s.tasks|
  {
    var owner :| InvWith(s, owner);
    assert CondExact(s, c);
  }

  /* `pthread_cond_broadcast`: every waiter is blocked on its mutex behind those already there, in order,
     or granted it when it is not locked; nobody waits any more. */
  lemma Broadcasts(s: State, t: nat, c: nat)
    requires Inv(s) && IdleTask(s, t)
    ensures Enabled(s, Broadcast(t, c)) && AssertionHolds(s, Broadcast(t, c))
    ensures Roused(s, Next(s, Broadcast(t, c)), c)
  {
    WaitersOf(s, c);
    AllRoused(s, c);
  }

  // ---------------------------------------------------------------- wait, signal, unlock

  ghost predicate Idlers(s: State, t: nat, u: nat, m: nat) {
    && IdleTask(s, t) && IdleTask(s, u) && t != u
    && m in s.tasks[t].held && m !in s.tasks[u].held && WordIs(s, m, LOCKED)
  }

  lemma WaitThenTake(s: State, s1: State, s2: State, t: nat, u: nat, m: nat, c: nat)
    requires Idlers(s, t, u, m) && LockOf(s, m) == Mutexes.Lock(true, []) && Waiters(s, c) == []
    requires Left(s, s1, t, m, WaitOn(c)) && Taken(s1, s2, u, m)
    ensures s2.tasks == s.tasks[t := Task(Waiting(c, m), s.tasks[t].held - {m})]
                               [u := Task(Idle, s.tasks[u].held + {m})]
    ensures s2.words == s.words && SameLocks(s, s2) && CondSet(s, s2, c, [Waiter(m, t)])
  {
    assert [] + [Waiter(m, t)] == [Waiter(m, t)];
    assert s2.words == s.words;
  }

  lemma SignalThenLeave(s: State, s2: State, s3: State, s4: State, t: nat, u: nat, m: nat, c: nat)
    requires Idlers(s, t, u, m) && LockOf(s, m) == Mutexes.Lock(true, []) && Waiters(s, c) == []
    requires s2.tasks == s.tasks[t := Task(Waiting(c, m), s.tasks[t].held - {m})]
                                [u := Task(Idle, s.tasks[u].held + {m})]
    requires s2.words == s.words && SameLocks(s, s2) && CondSet(s, s2, c, [Waiter(m, t)])
    requires Signalled(s2, s3, c, m, t) && Left(s3, s4, u, m, Return)
    ensures s4.tasks == s.tasks[t := Task(Acquiring(m), s.tasks[t].held - {m})]
    ensures s4.words == s.words[m := UNLOCKED] && SameLocks(s, s4) && SameConds(s, s4)
  {
    assert [] + [t] == [t];
    assert LockOf(s3, m) == Mutexes.Lock(true, [t]);
    assert s3.tasks[u].held - {m} == s.tasks[u].held;
    assert s4.tasks == s.tasks[t := Task(Acquiring(m), s.tasks[t].held - {m})];
  }

  lemma AcquireAgain(s: State, s4: State, s5: State, t: nat, u: nat, m: nat)
    requires Idlers(s, t, u, m) && s4.tasks == s.tasks[t := Task(Acquiring(m), s.tasks[t].held - {m})]
    requires s4.words == s.words[m := UNLOCKED] && SameLocks(s, s4) && SameConds(s, s4)
    requires Acquired(s4, s5, t, m)
    ensures Alike(s, s5)
  {
    assert s.tasks[t].held - {m} + {m} == s.tasks[t].held;
    assert s5.tasks == s.tasks && s5.words == s.words;
  }

  /* The steps of `wait` by t, and of lock, signal and unlock by u meanwhile. */
  function Meeting(t: nat, u: nat, m: nat, c: nat): seq<Step> {
    [WaitCall(t, m, c)] + [ReleaseCas(t)] + [Finish(t)] + ([LockCall(u, m)] + [AcquireCas(u)]) + [Signal(u, c)] +
    ([UnlockCall(u, m)] + [ReleaseCas(u)] + [Finish(u)]) + [AcquireCas(t)]
  }

  /* A wait that another task's signal under the mutex ends gives the waiter the mutex back, and leaves
     everything as it was. */
  lemma WaitSignal(s: State, t: nat, u: nat, m: nat, c: nat) returns (s': State)
    requires Inv(s) && IdleTask(s, t) && IdleTask(s, u) && t != u && m in s.tasks[t].held
    requires LockOf(s, m).queue == [] && Waiters(s, c) == []
    ensures Goes(s, Meeting(t, u, m, c), s') && Alike(s, s')
  {
    HeldMutex(s, t, m);
    OneHolds(s, t, u, m);
    var s1 := GivesUp(s, t, m, WaitOn(c));
    var s2 := LockTakes(s1, u, m, LockCall(u, m));
    WaitThenTake(s, s1, s2, t, u, m, c);
    Signals(s2, u, c);
    var s3 := Next(s2, Signal(u, c));
    One(s2, Signal(u, c), s3);
    var s4 := GivesUp(s3, u, m, Return);
    SignalThenLeave(s, s2, s3, s4, t, u, m, c);
    s' := Acquires(s4, t, m);
    AcquireAgain(s, s4, s', t, u, m);
    var wait, lock := [WaitCall(t, m, c)] + [ReleaseCas(t)] + [Finish(t)], [LockCall(u, m)] + [AcquireCas(u)];
    var leave := [UnlockCall(u, m)] + [ReleaseCas(u)] + [Finish(u)];
    RunAppend(s, wait, lock, s1, s2);
    RunAppend(s, wait + lock, [Signal(u, c)], s2, s3);
    RunAppend(s, wait + lock + [Signal(u, c)], leave, s3, s4);
    RunAppend(s, wait + lock + [Signal(u, c)] + leave, [AcquireCas(t)], s4, s');
  }

  // ---------------------------------------------------------------- join

  lemma JoinSteps(s: State, t: nat, u: nat)
    requires IdleTask(s, t) && u < |s.tasks|
    ensures var s1 := Next(s, JoinCall(t, u));
            && (Enabled(s1, JoinReturn(t)) <==> s.tasks[u].pc.Done?)
            && (s.tasks[u].pc.Done? ==> Next(s1, JoinReturn(t)) == s)
  {
    if s.tasks[u].pc.Done? { assert Next(Next(s, JoinCall(t, u)), JoinReturn(t)).tasks == s.tasks; }
  }

  /* A join goes on exactly when the other task has returned, and changes nothing. */
  lemma Joins(s: State, t: nat, u: nat)
    requires Inv(s) && IdleTask(s, t) && u < |s.tasks|
    ensures Enabled(s, JoinCall(t, u)) && AssertionHolds(s, JoinCall(t, u))
    ensures Enabled(Next(s, JoinCall(t, u)), JoinReturn(t)) <==> s.tasks[u].pc.Done?
    ensures s.tasks[u].pc.Done? ==> Goes(s, [JoinCall(t, u)] + [JoinReturn(t)], s)
  {
    JoinSteps(s, t, u);
    var s1 := Next(s, JoinCall(t, u));
    if s.tasks[u].pc.Done? {
      One(s, JoinCall(t, u), s1);
      One(s1, JoinReturn(t), s);
      RunAppend(s, [JoinCall(t, u)], [JoinReturn(t)], s1, s);
    }
  }
}
