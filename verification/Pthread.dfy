/**
 The pthread wrapper of src/native/pthread.rs as a protocol: any number of tasks, mutexes and
 condition variables, and for every mutex a lock word in simulated memory that is set and cleared
 by separate compare-exchanges. The mutexes and condition variables behave as in Mutex.dfy.
 */
module Pthreads {
  import opened Wrappers
  import opened Mutexes

  const UNLOCKED: nat := 0x32AAABA7
  const LOCKED: nat := 1

  // ---------------------------------------------------------------- states

  datatype Waiter = Waiter(mutex: nat, task: nat)

  /* What follows the release of the lock word: `unlock`, or `wait` on a condition variable. */
  datatype After = Return | WaitOn(cond: nat)

  /* Where a task is inside a pthread function; between calls it is Idle, and when it has returned
     from its start routine it is Done. */
  datatype Pc =
    | Idle
    | Done
    | Blocked(m: nat)
    | Waiting(c: nat, m: nat)
    | Joining(u: nat)
    | Acquiring(m: nat)
    | Releasing(m: nat, after: After)
    | Released(m: nat, after: After)

  /* `held`: the mutexes for which a lock call has returned and no unlock or wait was called. */
  datatype Task = Task(pc: Pc, held: set<nat>)

  datatype State = State(tasks: seq<Task>, locks: map<nat, Lock>, conds: map<nat, seq<Waiter>>, words: map<nat, nat>)

  /* `scheduler.mutex(m)` and `scheduler.condvar(c)` create on first use (src/scheduler.rs:68-74). */
  function LockOf(s: State, m: nat): Lock { if m in s.locks then s.locks[m] else Lock(false, []) }

  function Waiters(s: State, c: nat): seq<Waiter> { if c in s.conds then s.conds[c] else [] }

  // ---------------------------------------------------------------- steps

  datatype Step =
    | Init(m: nat)
    | LockCall(t: nat, m: nat)
    | TryLockCall(t: nat, m: nat)
    | AcquireCas(t: nat)
    | UnlockCall(t: nat, m: nat)
    | WaitCall(t: nat, m: nat, c: nat)
    | ReleaseCas(t: nat)
    | Finish(t: nat)
    | Signal(t: nat, c: nat)
    | Broadcast(t: nat, c: nat)
    | JoinCall(t: nat, u: nat)
    | JoinReturn(t: nat)
    | Exit(t: nat)

  predicate IdleTask(s: State, t: nat) { t < |s.tasks| && s.tasks[t].pc.Idle? }

  predicate IsDone(s: State, t: nat) { t < |s.tasks| && s.tasks[t].pc.Done? }

  /* When a step can happen. Unlock and wait are called by the holder, and a mutex is initialised
     once, before it is used; nothing is asked of the other calls. */
  predicate Enabled(s: State, a: Step) {
    match a
    case Init(m) => m !in s.words
    case LockCall(t, m) => IdleTask(s, t) && m in s.words
    case TryLockCall(t, m) => IdleTask(s, t) && m in s.words
    case AcquireCas(t) => t < |s.tasks| && s.tasks[t].pc.Acquiring?
    case UnlockCall(t, m) => IdleTask(s, t) && m in s.tasks[t].held
    case WaitCall(t, m, _) => IdleTask(s, t) && m in s.tasks[t].held
    case ReleaseCas(t) => t < |s.tasks| && s.tasks[t].pc.Releasing?
    case Finish(t) => t < |s.tasks| && s.tasks[t].pc.Released?
    case Signal(t, _) => IdleTask(s, t)
    case Broadcast(t, _) => IdleTask(s, t)
    case JoinCall(t, u) => IdleTask(s, t) && u < |s.tasks|
    case JoinReturn(t) => t < |s.tasks| && s.tasks[t].pc.Joining? && IsDone(s, s.tasks[t].pc.u)
    case Exit(t) => IdleTask(s, t)
  }

  predicate WordIs(s: State, m: nat, w: nat) { m in s.words && s.words[m] == w }

  /* The assertions of src/native/pthread.rs:18 and :27 and src/util/mutex.rs:57. */
  predicate AssertionHolds(s: State, a: Step)
    requires Enabled(s, a)
  {
    match a
    case AcquireCas(t) => WordIs(s, s.tasks[t].pc.m, UNLOCKED)
    case ReleaseCas(t) => WordIs(s, s.tasks[t].pc.m, LOCKED)
    case Finish(t) => LockOf(s, s.tasks[t].pc.m).locked
    case _ => true
  }

  function SetPc(s: State, t: nat, pc: Pc): State {
    if t < |s.tasks| then s.(tasks := s.tasks[t := s.tasks[t].(pc := pc)]) else s
  }

  function SetTask(s: State, t: nat, pc: Pc, held: set<nat>): State
    requires t < |s.tasks|
  {
    s.(tasks := s.tasks[t := Task(pc, held)])
  }

  /* `Mutex::unlock`: the first task of the queue gets the mutex. */
  function HandOff(s: State, m: nat): State
    requires LockOf(s, m).locked
  {
    var (l, woken) := Unlocking(LockOf(s, m));
    var s1 := s.(locks := s.locks[m := l]);
    match woken
    case None => s1
    case Some(u) => SetPc(s1, u, Acquiring(m))
  }

  /* `Condvar::notify`. */
  function NotifyFront(s: State, c: nat): State {
    var q := Waiters(s, c);
    if q == [] then s
    else
      var Waiter(m, u) := q[0];
      var (l, wakes) := Notifying(LockOf(s, m), u);
      var s1 := s.(conds := s.conds[c := q[1..]], locks := s.locks[m := l]);
      SetPc(s1, u, if wakes then Acquiring(m) else Blocked(m))
  }

  /* `Condvar::notify_all` notifies one waiter after another. */
  function NotifyEach(s: State, c: nat): State
    decreases |Waiters(s, c)|
  {
    if Waiters(s, c) == [] then s else NotifyEach(NotifyFront(s, c), c)
  }

  function Next(s: State, a: Step): State
    requires Enabled(s, a) && AssertionHolds(s, a)
  {
    match a
    case Init(m) => s.(words := s.words[m := UNLOCKED])
    case LockCall(t, m) =>
      var (l, granted) := Locking(LockOf(s, m), t);
      SetPc(s.(locks := s.locks[m := l]), t, if granted then Acquiring(m) else Blocked(m))
    case TryLockCall(t, m) =>
      var (l, granted) := TryLocking(LockOf(s, m));
      SetPc(s.(locks := s.locks[m := l]), t, if granted then Acquiring(m) else Idle)
    case AcquireCas(t) =>
      var m := s.tasks[t].pc.m;
      SetTask(s.(words := s.words[m := LOCKED]), t, Idle, s.tasks[t].held + {m})
    case UnlockCall(t, m) => SetTask(s, t, Releasing(m, Return), s.tasks[t].held - {m})
    case WaitCall(t, m, c) => SetTask(s, t, Releasing(m, WaitOn(c)), s.tasks[t].held - {m})
    case ReleaseCas(t) =>
      var Releasing(m, after) := s.tasks[t].pc;
      SetPc(s.(words := s.words[m := UNLOCKED]), t, Released(m, after))
    case Finish(t) =>
      var Released(m, after) := s.tasks[t].pc;
      var s1 := HandOff(s, m);
      match after {
        case Return => SetPc(s1, t, Idle)
        case WaitOn(c) => SetPc(s1.(conds := s1.conds[c := Waiters(s1, c) + [Waiter(m, t)]]), t, Waiting(c, m))
      }
    case Signal(_, c) => NotifyFront(s, c)
    case Broadcast(_, c) => NotifyEach(s, c)
    case JoinCall(t, u) => SetPc(s, t, Joining(u))
    case JoinReturn(t) => SetPc(s, t, Idle)
    case Exit(t) => SetPc(s, t, Done)
  }

  // ---------------------------------------------------------------- the invariant

  /* A task owns a mutex from the moment it is granted until it is handed on. */
  predicate PcOwns(pc: Pc, m: nat) {
    match pc
    case Acquiring(x) => x == m
    case Releasing(x, _) => x == m
    case Released(x, _) => x == m
    case _ => false
  }

  predicate Owns(task: Task, m: nat) { m in task.held || PcOwns(task.pc, m) }

  /* Between its two compare-exchanges. */
  predicate Between(task: Task, m: nat) { m in task.held || (task.pc.Releasing? && task.pc.m == m) }

  type Owners = map<nat, nat>

  /* `owner` names the one owner of every locked mutex. */
  ghost predicate OwnersExact(s: State, owner: Owners) {
    && (forall m | m in owner :: owner[m] < |s.tasks| && Owns(s.tasks[owner[m]], m))
    && (forall t, m | 0 <= t < |s.tasks| && Owns(s.tasks[t], m) :: m in owner && owner[m] == t)
    && (forall m :: LockOf(s, m).locked <==> m in owner)
    && (forall t, m | 0 <= t < |s.tasks| && PcOwns(s.tasks[t].pc, m) :: m !in s.tasks[t].held)
  }

  /* A mutex queue holds exactly the tasks blocked on the mutex, each once, and only while the
     mutex is locked. */
  ghost predicate QueueExact(s: State, m: nat) {
    var q := LockOf(s, m).queue;
    && Distinct(q)
    && (forall t: nat :: t in q <==> t < |s.tasks| && s.tasks[t].pc == Blocked(m))
    && (q != [] ==> LockOf(s, m).locked)
  }

  /* A condition variable's queue holds exactly the tasks waiting on it, each once. */
  ghost predicate CondExact(s: State, c: nat) {
    var q := Waiters(s, c);
    && (forall i, j | 0 <= i < j < |q| :: q[i].task != q[j].task)
    && (forall i | 0 <= i < |q| :: q[i].task < |s.tasks| && s.tasks[q[i].task].pc == Waiting(c, q[i].mutex))
    && (forall t | 0 <= t < |s.tasks| && s.tasks[t].pc.Waiting? && s.tasks[t].pc.c == c ::
          Waiter(s.tasks[t].pc.m, t) in q)
  }

  /* The lock word is LOCKED exactly while the owner is between its compare-exchanges. */
  ghost predicate WordExact(s: State, owner: Owners, m: nat) {
    m in s.words ==>
      s.words[m] == if m in owner && owner[m] < |s.tasks| && Between(s.tasks[owner[m]], m) then LOCKED else UNLOCKED
  }

  predicate Uses(pc: Pc, m: nat) { PcOwns(pc, m) || pc == Blocked(m) || (pc.Waiting? && pc.m == m) }

  ghost predicate Initialised(s: State) {
    forall t, m | 0 <= t < |s.tasks| && (Uses(s.tasks[t].pc, m) || m in s.tasks[t].held) :: m in s.words
  }

  ghost predicate InvWith(s: State, owner: Owners) {
    && OwnersExact(s, owner)
    && (forall m :: QueueExact(s, m))
    && (forall c :: CondExact(s, c))
    && (forall m :: WordExact(s, owner, m))
    && Initialised(s)
  }

  ghost predicate Inv(s: State) { exists owner :: InvWith(s, owner) }

  // ---------------------------------------------------------------- how queues change

  ghost predicate SameTasks(s: State, s': State) { |s'.tasks| == |s.tasks| }

  ghost predicate BlockedAlike(s: State, s': State, m: nat, u: nat)
    requires SameTasks(s, s') && u < |s.tasks|
  {
    s'.tasks[u].pc == Blocked(m) <==> s.tasks[u].pc == Blocked(m)
  }

  lemma QueueKept(s: State, s': State, m: nat)
    requires QueueExact(s, m) && SameTasks(s, s') && LockOf(s', m).queue == LockOf(s, m).queue
    requires LockOf(s, m).queue != [] ==> LockOf(s', m).locked
    requires forall u | 0 <= u < |s.tasks| :: BlockedAlike(s, s', m, u)
    ensures QueueExact(s', m)
  {
    forall t: nat ensures t in LockOf(s', m).queue <==> t < |s'.tasks| && s'.tasks[t].pc == Blocked(m) {
      assert t < |s.tasks| ==> BlockedAlike(s, s', m, t);
    }
  }

  lemma QueuePushed(s: State, s': State, m: nat, t: nat)
    requires QueueExact(s, m) && SameTasks(s, s') && t < |s.tasks|
    requires LockOf(s', m) == Lock(true, LockOf(s, m).queue + [t])
    requires s.tasks[t].pc != Blocked(m) && s'.tasks[t].pc == Blocked(m)
    requires forall u | 0 <= u < |s.tasks| && u != t :: BlockedAlike(s, s', m, u)
    ensures QueueExact(s', m)
  {
    forall u: nat ensures u in LockOf(s', m).queue <==> u < |s'.tasks| && s'.tasks[u].pc == Blocked(m) {
      assert u < |s.tasks| && u != t ==> BlockedAlike(s, s', m, u);
    }
  }

  lemma QueuePopped(s: State, s': State, m: nat, t: nat)
    requires QueueExact(s, m) && SameTasks(s, s') && LockOf(s, m).queue != [] && t == LockOf(s, m).queue[0]
    requires LockOf(s', m) == Lock(true, LockOf(s, m).queue[1..])
    requires t < |s.tasks| && s'.tasks[t].pc != Blocked(m)
    requires forall u | 0 <= u < |s.tasks| && u != t :: BlockedAlike(s, s', m, u)
    ensures QueueExact(s', m)
  {
    var q := LockOf(s, m).queue;
    assert q == [t] + q[1..];
    forall u: nat ensures u in q[1..] <==> u < |s'.tasks| && s'.tasks[u].pc == Blocked(m) {
      assert u in q <==> u == t || u in q[1..];
      assert u < |s.tasks| && u != t ==> BlockedAlike(s, s', m, u);
    }
  }

  ghost predicate WaitsAlike(s: State, s': State, c: nat, u: nat)
    requires SameTasks(s, s') && u < |s.tasks|
  {
    (s.tasks[u].pc.Waiting? && s.tasks[u].pc.c == c) || (s'.tasks[u].pc.Waiting? && s'.tasks[u].pc.c == c) ==>
      s'.tasks[u].pc == s.tasks[u].pc
  }

  lemma CondKept(s: State, s': State, c: nat)
    requires CondExact(s, c) && SameTasks(s, s') && Waiters(s', c) == Waiters(s, c)
    requires forall u | 0 <= u < |s.tasks| :: WaitsAlike(s, s', c, u)
    ensures CondExact(s', c)
  {
    var q := Waiters(s, c);
    forall i | 0 <= i < |q| ensures s'.tasks[q[i].task].pc == Waiting(c, q[i].mutex) {
      assert WaitsAlike(s, s', c, q[i].task);
    }
    forall t | 0 <= t < |s'.tasks| && s'.tasks[t].pc.Waiting? && s'.tasks[t].pc.c == c
      ensures Waiter(s'.tasks[t].pc.m, t) in q
    {
      assert WaitsAlike(s, s', c, t);
    }
  }

  lemma CondPushed(s: State, s': State, c: nat, m: nat, t: nat)
    requires CondExact(s, c) && SameTasks(s, s') && Waiters(s', c) == Waiters(s, c) + [Waiter(m, t)]
    requires t < |s.tasks| && !s.tasks[t].pc.Waiting? && s'.tasks[t].pc == Waiting(c, m)
    requires forall u | 0 <= u < |s.tasks| && u != t :: WaitsAlike(s, s', c, u)
    ensures CondExact(s', c)
  {
    var q, q' := Waiters(s, c), Waiters(s', c);
    forall i | 0 <= i < |q| ensures q[i].task != t && s'.tasks[q[i].task].pc == Waiting(c, q[i].mutex) {
      assert q[i].task != t;
      assert WaitsAlike(s, s', c, q[i].task);
    }
    forall u | 0 <= u < |s'.tasks| && s'.tasks[u].pc.Waiting? && s'.tasks[u].pc.c == c
      ensures Waiter(s'.tasks[u].pc.m, u) in q'
    {
      if u == t { assert q'[|q|] == Waiter(m, t); } else { assert WaitsAlike(s, s', c, u); }
    }
  }

  lemma CondPopped(s: State, s': State, c: nat)
    requires CondExact(s, c) && SameTasks(s, s') && Waiters(s, c) != [] && Waiters(s', c) == Waiters(s, c)[1..]
    requires Waiters(s, c)[0].task < |s.tasks| && !s'.tasks[Waiters(s, c)[0].task].pc.Waiting?
    requires forall u | 0 <= u < |s.tasks| && u != Waiters(s, c)[0].task :: WaitsAlike(s, s', c, u)
    ensures CondExact(s', c)
  {
    var q := Waiters(s, c);
    assert q == [q[0]] + q[1..];
    forall i | 0 <= i < |q[1..]|
      ensures q[1..][i].task < |s'.tasks| && s'.tasks[q[1..][i].task].pc == Waiting(c, q[1..][i].mutex)
    {
      assert q[1..][i] == q[i + 1] && q[i + 1].task != q[0].task;
      assert WaitsAlike(s, s', c, q[i + 1].task);
    }
    forall u | 0 <= u < |s'.tasks| && s'.tasks[u].pc.Waiting? && s'.tasks[u].pc.c == c
      ensures Waiter(s'.tasks[u].pc.m, u) in q[1..]
    {
      assert WaitsAlike(s, s', c, u);
    }
  }

  // ---------------------------------------------------------------- how owners change

  ghost predicate OwnsAlike(s: State, s': State, m: nat) {
    SameTasks(s, s') && forall u | 0 <= u < |s.tasks| :: Owns(s'.tasks[u], m) <==> Owns(s.tasks[u], m)
  }

  /* A mutex that a task is about to acquire or is releasing is not among those it holds. */
  ghost predicate Exclusive(s: State) {
    forall t, m | 0 <= t < |s.tasks| && PcOwns(s.tasks[t].pc, m) :: m !in s.tasks[t].held
  }

  lemma OwnersKept(s: State, s': State, owner: Owners)
    requires OwnersExact(s, owner) && SameTasks(s, s') && Exclusive(s')
    requires forall m :: OwnsAlike(s, s', m) && LockOf(s', m).locked == LockOf(s, m).locked
    ensures OwnersExact(s', owner)
  {
    forall m | m in owner ensures owner[m] < |s'.tasks| && Owns(s'.tasks[owner[m]], m) {
      assert OwnsAlike(s, s', m);
    }
    forall t, m | 0 <= t < |s'.tasks| && Owns(s'.tasks[t], m) ensures m in owner && owner[m] == t {
      assert OwnsAlike(s, s', m);
    }
    forall m ensures LockOf(s', m).locked <==> m in owner { assert OwnsAlike(s, s', m); }
  }

  /* Mutex m gets the owner t, whoever owned it before. */
  lemma OwnersSet(s: State, s': State, owner: Owners, m: nat, t: nat)
    requires OwnersExact(s, owner) && SameTasks(s, s') && Exclusive(s') && t < |s.tasks|
    requires LockOf(s', m).locked && forall u | 0 <= u < |s'.tasks| :: Owns(s'.tasks[u], m) <==> u == t
    requires forall x | x != m :: OwnsAlike(s, s', x) && LockOf(s', x).locked == LockOf(s, x).locked
    ensures OwnersExact(s', owner[m := t])
  {
    var owner' := owner[m := t];
    forall x | x in owner' ensures owner'[x] < |s'.tasks| && Owns(s'.tasks[owner'[x]], x) {
      assert x != m ==> OwnsAlike(s, s', x);
    }
    forall u, x | 0 <= u < |s'.tasks| && Owns(s'.tasks[u], x) ensures x in owner' && owner'[x] == u {
      assert x != m ==> OwnsAlike(s, s', x);
    }
    forall x ensures LockOf(s', x).locked <==> x in owner' { assert x != m ==> OwnsAlike(s, s', x); }
  }

  /* Mutex m is free. */
  lemma OwnersDropped(s: State, s': State, owner: Owners, m: nat)
    requires OwnersExact(s, owner) && SameTasks(s, s') && Exclusive(s')
    requires !LockOf(s', m).locked && forall u | 0 <= u < |s'.tasks| :: !Owns(s'.tasks[u], m)
    requires forall x | x != m :: OwnsAlike(s, s', x) && LockOf(s', x).locked == LockOf(s, x).locked
    ensures OwnersExact(s', owner - {m})
  {
    var owner' := owner - {m};
    forall x | x in owner' ensures owner'[x] < |s'.tasks| && Owns(s'.tasks[owner'[x]], x) {
      assert OwnsAlike(s, s', x);
    }
    forall u, x | 0 <= u < |s'.tasks| && Owns(s'.tasks[u], x) ensures x in owner' && owner'[x] == u {
      assert x != m ==> OwnsAlike(s, s', x);
    }
    forall x ensures LockOf(s', x).locked <==> x in owner' { assert x != m ==> OwnsAlike(s, s', x); }
  }

  // ---------------------------------------------------------------- every step keeps it

  lemma InitInv(s: State, owner: Owners, m: nat)
    requires InvWith(s, owner) && Enabled(s, Init(m))
    ensures InvWith(Next(s, Init(m)), owner)
  {
    var s' := Next(s, Init(m));
    assert Exclusive(s');
    forall x ensures OwnsAlike(s, s', x) && LockOf(s', x).locked == LockOf(s, x).locked { }
    OwnersKept(s, s', owner);
    forall x ensures QueueExact(s', x) { QueueKept(s, s', x); }
    forall x ensures CondExact(s', x) { CondKept(s, s', x); }
    forall x ensures WordExact(s', owner, x) { assert WordExact(s, owner, x); }
  }

  lemma LockCallOwners(s: State, owner: Owners, t: nat, m: nat)
    requires InvWith(s, owner) && Enabled(s, LockCall(t, m))
    ensures OwnersExact(Next(s, LockCall(t, m)), if LockOf(s, m).locked then owner else owner[m := t])
  {
    var s' := Next(s, LockCall(t, m));
    assert Exclusive(s');
    forall x | x != m || LockOf(s, m).locked
      ensures OwnsAlike(s, s', x) && LockOf(s', x).locked == LockOf(s, x).locked
    {
    }
    if LockOf(s, m).locked { OwnersKept(s, s', owner); } else { OwnersSet(s, s', owner, m, t); }
  }

  ghost predicate QueuesExact(s: State) {
    (forall m :: QueueExact(s, m)) && (forall c :: CondExact(s, c))
  }

  lemma LockCallQueues(s: State, t: nat, m: nat)
    requires QueuesExact(s) && Enabled(s, LockCall(t, m))
    ensures QueuesExact(Next(s, LockCall(t, m)))
  {
    var s' := Next(s, LockCall(t, m));
    forall x ensures QueueExact(s', x) {
      assert QueueExact(s, x);
      if x == m && LockOf(s, m).locked { QueuePushed(s, s', m, t); } else { QueueKept(s, s', x); }
    }
    forall x ensures CondExact(s', x) {
      assert CondExact(s, x);
      CondKept(s, s', x);
    }
  }

  /* Granting a free mutex to a task that is not between its compare-exchanges leaves the words right. */
  lemma WordsGranted(s: State, s': State, owner: Owners, t: nat, m: nat, x: nat)
    requires OwnersExact(s, owner) && WordExact(s, owner, x) && SameTasks(s, s') && s'.words == s.words && t < |s.tasks|
    requires forall u | 0 <= u < |s.tasks| :: Between(s'.tasks[u], x) <==> Between(s.tasks[u], x)
    requires !LockOf(s, m).locked
    ensures WordExact(s', owner[m := t], x)
  {
    if x == m { assert !Owns(s.tasks[t], m); }
  }

  lemma WordsKept(s: State, s': State, owner: Owners, x: nat)
    requires WordExact(s, owner, x) && SameTasks(s, s') && s'.words == s.words
    requires forall u | 0 <= u < |s.tasks| :: Between(s'.tasks[u], x) <==> Between(s.tasks[u], x)
    ensures WordExact(s', owner, x)
  {
  }

  lemma LockCallInv(s: State, owner: Owners, t: nat, m: nat)
    requires InvWith(s, owner) && Enabled(s, LockCall(t, m))
    ensures InvWith(Next(s, LockCall(t, m)), if LockOf(s, m).locked then owner else owner[m := t])
  {
    var s' := Next(s, LockCall(t, m));
    var owner' := if LockOf(s, m).locked then owner else owner[m := t];
    LockCallOwners(s, owner, t, m);
    LockCallQueues(s, t, m);
    forall x ensures WordExact(s', owner', x) {
      assert WordExact(s, owner, x);
      if LockOf(s, m).locked { WordsKept(s, s', owner, x); } else { WordsGranted(s, s', owner, t, m, x); }
    }
  }

  predicate Queued(pc: Pc) { pc.Blocked? || pc.Waiting? }

  /* A step that moves nobody into or out of a queue. */
  lemma QueuesStay(s: State, s': State)
    requires QueuesExact(s) && SameTasks(s, s') && s'.conds == s.conds
    requires forall u | 0 <= u < |s.tasks| ::
               s'.tasks[u].pc == s.tasks[u].pc || (!Queued(s.tasks[u].pc) && !Queued(s'.tasks[u].pc))
    requires forall m :: LockOf(s', m).queue == LockOf(s, m).queue && (LockOf(s, m).locked ==> LockOf(s', m).locked)
    ensures QueuesExact(s')
  {
    forall m ensures QueueExact(s', m) {
      assert QueueExact(s, m);
      QueueKept(s, s', m);
    }
    forall c ensures CondExact(s', c) {
      assert CondExact(s, c) && Waiters(s', c) == Waiters(s, c);
      CondKept(s, s', c);
    }
  }

  lemma TryLockOwners(s: State, owner: Owners, t: nat, m: nat)
    requires InvWith(s, owner) && Enabled(s, TryLockCall(t, m))
    ensures OwnersExact(Next(s, TryLockCall(t, m)), if LockOf(s, m).locked then owner else owner[m := t])
  {
    var s' := Next(s, TryLockCall(t, m));
    assert Exclusive(s');
    forall x | x != m || LockOf(s, m).locked
      ensures OwnsAlike(s, s', x) && LockOf(s', x).locked == LockOf(s, x).locked
    {
    }
    if LockOf(s, m).locked { OwnersKept(s, s', owner); } else { OwnersSet(s, s', owner, m, t); }
  }

  lemma TryLockQueues(s: State, t: nat, m: nat)
    requires QueuesExact(s) && Enabled(s, TryLockCall(t, m))
    ensures QueuesExact(Next(s, TryLockCall(t, m)))
  {
    QueuesStay(s, Next(s, TryLockCall(t, m)));
  }

  lemma TryLockInv(s: State, owner: Owners, t: nat, m: nat)
    requires InvWith(s, owner) && Enabled(s, TryLockCall(t, m))
    ensures InvWith(Next(s, TryLockCall(t, m)), if LockOf(s, m).locked then owner else owner[m := t])
  {
    var s' := Next(s, TryLockCall(t, m));
    var owner' := if LockOf(s, m).locked then owner else owner[m := t];
    TryLockOwners(s, owner, t, m);
    TryLockQueues(s, t, m);
    forall x ensures WordExact(s', owner', x) {
      assert WordExact(s, owner, x);
      if LockOf(s, m).locked { WordsKept(s, s', owner, x); } else { WordsGranted(s, s', owner, t, m, x); }
    }
  }

  lemma AcquireInv(s: State, owner: Owners, t: nat)
    requires InvWith(s, owner) && Enabled(s, AcquireCas(t)) && AssertionHolds(s, AcquireCas(t))
    ensures InvWith(Next(s, AcquireCas(t)), owner)
  {
    var s' := Next(s, AcquireCas(t));
    var m := s.tasks[t].pc.m;
    assert Owns(s.tasks[t], m);
    forall x ensures OwnsAlike(s, s', x) && LockOf(s', x).locked == LockOf(s, x).locked { }
    assert Exclusive(s');
    OwnersKept(s, s', owner);
    QueuesStay(s, s');
    forall x ensures WordExact(s', owner, x) { assert WordExact(s, owner, x); }
  }

  lemma CallInv(s: State, owner: Owners, t: nat, m: nat, after: After)
    requires InvWith(s, owner) && IdleTask(s, t) && m in s.tasks[t].held
    ensures InvWith(SetTask(s, t, Releasing(m, after), s.tasks[t].held - {m}), owner)
  {
    var s' := SetTask(s, t, Releasing(m, after), s.tasks[t].held - {m});
    assert Owns(s.tasks[t], m);
    forall x ensures OwnsAlike(s, s', x) && LockOf(s', x).locked == LockOf(s, x).locked { }
    assert Exclusive(s');
    OwnersKept(s, s', owner);
    QueuesStay(s, s');
    forall x ensures WordExact(s', owner, x) { assert WordExact(s, owner, x); }
  }

  /* Going on to something that concerns no mutex. */
  predicate Passive(pc: Pc) { pc.Idle? || pc.Done? || pc.Joining? }

  lemma PassInv(s: State, owner: Owners, t: nat, pc: Pc)
    requires InvWith(s, owner) && t < |s.tasks| && Passive(s.tasks[t].pc) && Passive(pc)
    ensures InvWith(SetPc(s, t, pc), owner)
  {
    var s' := SetPc(s, t, pc);
    forall x ensures OwnsAlike(s, s', x) && LockOf(s', x).locked == LockOf(s, x).locked { }
    assert Exclusive(s');
    OwnersKept(s, s', owner);
    QueuesStay(s, s');
    forall x ensures WordExact(s', owner, x) {
      assert WordExact(s, owner, x);
      WordsKept(s, s', owner, x);
    }
  }

  lemma ReleaseInv(s: State, owner: Owners, t: nat)
    requires InvWith(s, owner) && Enabled(s, ReleaseCas(t)) && AssertionHolds(s, ReleaseCas(t))
    ensures InvWith(Next(s, ReleaseCas(t)), owner)
  {
    var s' := Next(s, ReleaseCas(t));
    var m := s.tasks[t].pc.m;
    assert Owns(s.tasks[t], m);
    forall x ensures OwnsAlike(s, s', x) && LockOf(s', x).locked == LockOf(s, x).locked { }
    assert Exclusive(s');
    OwnersKept(s, s', owner);
    QueuesStay(s, s');
    forall x ensures WordExact(s', owner, x) { assert WordExact(s, owner, x); }
  }

  // ---------------------------------------------------------------- hand-off

  ghost function Handed(s: State, owner: Owners, m: nat): Owners {
    if LockOf(s, m).queue == [] then owner - {m} else owner[m := LockOf(s, m).queue[0]]
  }

  /* The task that gets the mutex is blocked on it, so it is not the one that gives it up. */
  lemma FrontBlocked(s: State, owner: Owners, t: nat)
    requires InvWith(s, owner) && Enabled(s, Finish(t)) && LockOf(s, s.tasks[t].pc.m).queue != []
    ensures var u := LockOf(s, s.tasks[t].pc.m).queue[0];
            u < |s.tasks| && u != t && s.tasks[u].pc == Blocked(s.tasks[t].pc.m) && s.tasks[t].pc.m !in s.tasks[u].held
  {
    var m := s.tasks[t].pc.m;
    assert QueueExact(s, m) && LockOf(s, m).queue[0] in LockOf(s, m).queue;
    assert Owns(s.tasks[t], m);
  }

  /* The state after task t has unlocked m and perhaps queued up on a condition variable. */
  ghost predicate Finished(s: State, s': State, t: nat, m: nat, after: After) {
    var q := LockOf(s, m).queue;
    && SameTasks(s, s') && s'.words == s.words
    && (forall x :: LockOf(s', x) == if x != m then LockOf(s, x)
                                     else if q == [] then Lock(false, []) else Lock(true, q[1..]))
    && (forall u | 0 <= u < |s.tasks| ::
          s'.tasks[u] == if u == t then s.tasks[u].(pc := if after.Return? then Idle else Waiting(after.cond, m))
                         else if q != [] && u == q[0] then s.tasks[u].(pc := Acquiring(m))
                         else s.tasks[u])
    && (forall c :: Waiters(s', c) == if after == WaitOn(c) then Waiters(s, c) + [Waiter(m, t)] else Waiters(s, c))
  }

  lemma FinishStep(s: State, t: nat)
    requires Enabled(s, Finish(t)) && AssertionHolds(s, Finish(t))
    requires LockOf(s, s.tasks[t].pc.m).queue != [] ==>
               LockOf(s, s.tasks[t].pc.m).queue[0] < |s.tasks| && LockOf(s, s.tasks[t].pc.m).queue[0] != t
    ensures Finished(s, Next(s, Finish(t)), t, s.tasks[t].pc.m, s.tasks[t].pc.after)
  {
  }

  lemma FinishIs(s: State, owner: Owners, t: nat)
    requires InvWith(s, owner) && Enabled(s, Finish(t)) && AssertionHolds(s, Finish(t))
    ensures Finished(s, Next(s, Finish(t)), t, s.tasks[t].pc.m, s.tasks[t].pc.after)
  {
    if LockOf(s, s.tasks[t].pc.m).queue != [] { FrontBlocked(s, owner, t); }
    FinishStep(s, t);
  }

  lemma FinishOwners(s: State, s': State, owner: Owners, t: nat, m: nat, after: After)
    requires InvWith(s, owner) && t < |s.tasks| && s.tasks[t].pc == Released(m, after)
    requires Finished(s, s', t, m, after)
    ensures OwnersExact(s', Handed(s, owner, m))
  {
    assert Owns(s.tasks[t], m);
    if LockOf(s, m).queue != [] { FrontBlocked(s, owner, t); }
    forall x | x != m ensures OwnsAlike(s, s', x) && LockOf(s', x).locked == LockOf(s, x).locked { }
    assert Exclusive(s');
    if LockOf(s, m).queue == [] { OwnersDropped(s, s', owner, m); }
    else { OwnersSet(s, s', owner, m, LockOf(s, m).queue[0]); }
  }

  lemma FinishQueues(s: State, s': State, owner: Owners, t: nat, m: nat, after: After)
    requires InvWith(s, owner) && t < |s.tasks| && s.tasks[t].pc == Released(m, after)
    requires Finished(s, s', t, m, after)
    ensures QueuesExact(s')
  {
    if LockOf(s, m).queue != [] { FrontBlocked(s, owner, t); }
    forall x ensures QueueExact(s', x) {
      assert QueueExact(s, x);
      if x == m && LockOf(s, m).queue != [] {
        QueuePopped(s, s', m, LockOf(s, m).queue[0]);
      } else {
        QueueKept(s, s', x);
      }
    }
    forall c ensures CondExact(s', c) {
      assert CondExact(s, c);
      if after == WaitOn(c) { CondPushed(s, s', c, m, t); } else { CondKept(s, s', c); }
    }
  }

  lemma FinishInv(s: State, owner: Owners, t: nat)
    requires InvWith(s, owner) && Enabled(s, Finish(t)) && AssertionHolds(s, Finish(t))
    ensures InvWith(Next(s, Finish(t)), Handed(s, owner, s.tasks[t].pc.m))
  {
    var s', m, after := Next(s, Finish(t)), s.tasks[t].pc.m, s.tasks[t].pc.after;
    FinishIs(s, owner, t);
    FinishOwners(s, s', owner, t, m, after);
    FinishQueues(s, s', owner, t, m, after);
    FinishWords(s, s', owner, t, m, after);
  }

  lemma FinishWords(s: State, s': State, owner: Owners, t: nat, m: nat, after: After)
    requires InvWith(s, owner) && t < |s.tasks| && s.tasks[t].pc == Released(m, after)
    requires Finished(s, s', t, m, after)
    ensures Initialised(s') && forall x :: WordExact(s', Handed(s, owner, m), x)
  {
    assert Owns(s.tasks[t], m);
    if LockOf(s, m).queue != [] { FrontBlocked(s, owner, t); }
    FinishInitialised(s, s', t, m, after);
    forall x ensures WordExact(s', Handed(s, owner, m), x) { FinishWord(s, s', owner, t, m, after, x); }
  }

  lemma FinishInitialised(s: State, s': State, t: nat, m: nat, after: After)
    requires Initialised(s) && t < |s.tasks| && s.tasks[t].pc == Released(m, after) && Finished(s, s', t, m, after)
    ensures Initialised(s')
  {
    assert Uses(s.tasks[t].pc, m);
    forall u, x | 0 <= u < |s'.tasks| && (Uses(s'.tasks[u].pc, x) || x in s'.tasks[u].held) ensures x in s'.words {
      assert Uses(s.tasks[u].pc, x) || x in s.tasks[u].held || x == m;
    }
  }

  lemma FinishWord(s: State, s': State, owner: Owners, t: nat, m: nat, after: After, x: nat)
    requires InvWith(s, owner) && t < |s.tasks| && s.tasks[t].pc == Released(m, after) && Finished(s, s', t, m, after)
    requires LockOf(s, m).queue != [] ==>
               var u := LockOf(s, m).queue[0];
               u < |s.tasks| && u != t && s.tasks[u].pc == Blocked(m) && m !in s.tasks[u].held
    ensures WordExact(s', Handed(s, owner, m), x)
  {
    assert WordExact(s, owner, x) && Owns(s.tasks[t], m);
  }

  // ---------------------------------------------------------------- notification

  /* What `notify` needs: the mutex of the waiter it wakes is locked. */
  predicate FrontGuarded(s: State, c: nat) {
    Waiters(s, c) == [] || LockOf(s, Waiters(s, c)[0].mutex).locked
  }

  predicate AllGuarded(s: State, c: nat) {
    forall i | 0 <= i < |Waiters(s, c)| :: LockOf(s, Waiters(s, c)[i].mutex).locked
  }

  lemma NotifyQueues(s: State, c: nat)
    requires QueuesExact(s) && FrontGuarded(s, c) && Waiters(s, c) != []
    ensures QueuesExact(NotifyFront(s, c))
  {
    var s' := NotifyFront(s, c);
    var Waiter(m, u) := Waiters(s, c)[0];
    assert CondExact(s, c);
    forall x ensures QueueExact(s', x) {
      assert QueueExact(s, x);
      if x == m { QueuePushed(s, s', m, u); } else { QueueKept(s, s', x); }
    }
    forall x ensures CondExact(s', x) {
      assert CondExact(s, x);
      if x == c { CondPopped(s, s', c); } else { CondKept(s, s', x); }
    }
  }

  lemma NotifyFrontInv(s: State, owner: Owners, c: nat)
    requires InvWith(s, owner) && FrontGuarded(s, c)
    ensures InvWith(NotifyFront(s, c), owner)
  {
    if Waiters(s, c) != [] {
      var s' := NotifyFront(s, c);
      assert CondExact(s, c);
      forall x ensures OwnsAlike(s, s', x) && LockOf(s', x).locked == LockOf(s, x).locked { }
      OwnersKept(s, s', owner);
      NotifyQueues(s, c);
      forall x ensures WordExact(s', owner, x) { assert WordExact(s, owner, x); }
    }
  }

  lemma {:induction false} NotifyEachInv(s: State, owner: Owners, c: nat)
    requires InvWith(s, owner) && AllGuarded(s, c)
    ensures InvWith(NotifyEach(s, c), owner)
    decreases |Waiters(s, c)|
  {
    if Waiters(s, c) != [] {
      NotifyFrontInv(s, owner, c);
      NotifyEachInv(NotifyFront(s, c), owner, c);
    }
  }

  // ---------------------------------------------------------------- whole runs

  /* Every waiter that a notification wakes has a locked mutex. */
  predicate Guarded(s: State, a: Step) {
    match a
    case Signal(_, c) => FrontGuarded(s, c)
    case Broadcast(_, c) => AllGuarded(s, c)
    case _ => true
  }

  lemma OwnerAgrees(s: State, owner: Owners, t: nat, m: nat)
    requires InvWith(s, owner) && t < |s.tasks| && PcOwns(s.tasks[t].pc, m)
    ensures LockOf(s, m).locked && m !in s.tasks[t].held
    ensures WordIs(s, m, if s.tasks[t].pc.Releasing? then LOCKED else UNLOCKED)
  {
    assert Owns(s.tasks[t], m) && WordExact(s, owner, m) && Uses(s.tasks[t].pc, m);
  }

  lemma AssertionsHold(s: State, a: Step)
    requires Inv(s) && Enabled(s, a)
    ensures AssertionHolds(s, a)
  {
    var owner :| InvWith(s, owner);
    if a.AcquireCas? || a.ReleaseCas? || a.Finish? { OwnerAgrees(s, owner, a.t, s.tasks[a.t].pc.m); }
  }

  /* The owners after a step. */
  ghost function Reowned(s: State, owner: Owners, a: Step): Owners
    requires Enabled(s, a)
  {
    match a
    case LockCall(t, m) => if LockOf(s, m).locked then owner else owner[m := t]
    case TryLockCall(t, m) => if LockOf(s, m).locked then owner else owner[m := t]
    case Finish(t) => Handed(s, owner, s.tasks[t].pc.m)
    case _ => owner
  }

  lemma StepOwners(s: State, owner: Owners, a: Step)
    requires InvWith(s, owner) && Enabled(s, a) && AssertionHolds(s, a) && Guarded(s, a)
    ensures InvWith(Next(s, a), Reowned(s, owner, a))
  {
    match a
    case Init(m) => InitInv(s, owner, m);
    case LockCall(t, m) => LockCallInv(s, owner, t, m);
    case TryLockCall(t, m) => TryLockInv(s, owner, t, m);
    case AcquireCas(t) => AcquireInv(s, owner, t);
    case UnlockCall(t, m) => CallInv(s, owner, t, m, Return);
    case WaitCall(t, m, c) => CallInv(s, owner, t, m, WaitOn(c));
    case ReleaseCas(t) => ReleaseInv(s, owner, t);
    case Finish(t) => FinishInv(s, owner, t);
    case Signal(_, c) => NotifyFrontInv(s, owner, c);
    case Broadcast(_, c) => NotifyEachInv(s, owner, c);
    case JoinCall(t, u) => PassInv(s, owner, t, Joining(u));
    case JoinReturn(t) => PassInv(s, owner, t, Idle);
    case Exit(t) => PassInv(s, owner, t, Done);
  }

  lemma StepInv(s: State, a: Step)
    requires Inv(s) && Enabled(s, a) && Guarded(s, a)
    ensures AssertionHolds(s, a) && Inv(Next(s, a))
  {
    AssertionsHold(s, a);
    var owner :| InvWith(s, owner);
    StepOwners(s, owner, a);
  }

  /* Runs that do not panic; a notification may find its waiter's mutex unlocked. */
  predicate Run(s: State, run: seq<Step>)
    decreases |run|
  {
    run == [] || (Enabled(s, run[0]) && AssertionHolds(s, run[0]) && Run(Next(s, run[0]), run[1..]))
  }

  function Last(s: State, run: seq<Step>): State
    requires Run(s, run)
    decreases |run|
  {
    if run == [] then s else Last(Next(s, run[0]), run[1..])
  }

  /* Runs in which every notification is guarded. */
  predicate GuardedRun(s: State, run: seq<Step>)
    requires Run(s, run)
    decreases |run|
  {
    run == [] || (Guarded(s, run[0]) && GuardedRun(Next(s, run[0]), run[1..]))
  }

  function Start(n: nat): State { State(seq(n, i => Task(Idle, {})), map[], map[], map[]) }

  lemma {:induction false} RunInv(s: State, run: seq<Step>)
    requires Inv(s) && Run(s, run) && GuardedRun(s, run)
    ensures Inv(Last(s, run))
    decreases |run|
  {
    if run != [] {
      StepInv(s, run[0]);
      RunInv(Next(s, run[0]), run[1..]);
    }
  }

  lemma StartInv(n: nat)
    ensures Inv(Start(n))
  {
    var owner: Owners := map[];
    assert InvWith(Start(n), owner);
  }

  ghost predicate OwnedIffLocked(s: State, m: nat) {
    LockOf(s, m).locked <==> exists t :: 0 <= t < |s.tasks| && Owns(s.tasks[t], m)
  }

  ghost predicate OneOwner(s: State, m: nat) {
    forall t, u | 0 <= t < |s.tasks| && 0 <= u < |s.tasks| && Owns(s.tasks[t], m) && Owns(s.tasks[u], m) :: t == u
  }

  lemma OwnersMean(s: State, owner: Owners, m: nat)
    requires OwnersExact(s, owner)
    ensures OwnedIffLocked(s, m) && OneOwner(s, m)
  {
    if m in owner { assert Owns(s.tasks[owner[m]], m); }
  }

  /* The mutex protocol: a mutex is locked exactly while one task owns it, no two tasks own it, and
     every queue holds exactly the tasks that are blocked there, each once. */
  lemma MutualExclusion(n: nat, run: seq<Step>, s: State)
    requires Run(Start(n), run) && GuardedRun(Start(n), run) && s == Last(Start(n), run)
    ensures forall m :: OwnedIffLocked(s, m) && OneOwner(s, m)
    ensures QueuesExact(s)
  {
    StartInv(n);
    RunInv(Start(n), run);
    var owner :| InvWith(s, owner);
    forall m ensures OwnedIffLocked(s, m) && OneOwner(s, m) { OwnersMean(s, owner, m); }
  }

  ghost predicate WordAgrees(s: State, m: nat) {
    m in s.words ==>
      s.words[m] == if exists t :: 0 <= t < |s.tasks| && Between(s.tasks[t], m) then LOCKED else UNLOCKED
  }

  lemma WordMeans(s: State, owner: Owners, m: nat)
    requires OwnersExact(s, owner) && WordExact(s, owner, m)
    ensures WordAgrees(s, m)
  {
    if t :| 0 <= t < |s.tasks| && Between(s.tasks[t], m) { assert Owns(s.tasks[t], m); }
  }

  /* Two-level agreement: the lock word in simulated memory is LOCKED exactly while some task is
     between its two compare-exchanges, and no assertion can fail. */
  lemma WordAgreement(n: nat, run: seq<Step>, s: State)
    requires Run(Start(n), run) && GuardedRun(Start(n), run) && s == Last(Start(n), run)
    ensures forall m :: WordAgrees(s, m)
    ensures forall a | Enabled(s, a) :: AssertionHolds(s, a)
  {
    StartInv(n);
    RunInv(Start(n), run);
    var owner :| InvWith(s, owner);
    forall m ensures WordAgrees(s, m) { WordMeans(s, owner, m); }
    forall a | Enabled(s, a) ensures AssertionHolds(s, a) { AssertionsHold(s, a); }
  }

  // ---------------------------------------------------------------- first come, first served

  /* The tasks that a step adds to the queue of m, in order. */
  function Entering(s: State, a: Step, m: nat): seq<nat> {
    match a
    case LockCall(t, x) => if x == m && LockOf(s, m).locked then [t] else []
    case Signal(_, c) => MovedFront(s, c, m)
    case Broadcast(_, c) => if LockOf(s, m).locked then WaitingFor(Waiters(s, c), m) else []
    case _ => []
  }

  function MovedFront(s: State, c: nat, m: nat): seq<nat> {
    var q := Waiters(s, c);
    if q != [] && q[0].mutex == m && LockOf(s, m).locked then [q[0].task] else []
  }

  /* The waiters of one mutex, in order. */
  function WaitingFor(q: seq<Waiter>, m: nat): seq<nat> {
    if q == [] then [] else (if q[0].mutex == m then [q[0].task] else []) + WaitingFor(q[1..], m)
  }

  /* The task to which a step hands m. */
  function Granting(s: State, a: Step, m: nat): seq<nat>
    requires Enabled(s, a)
  {
    match a
    case Finish(t) => if s.tasks[t].pc.m == m && LockOf(s, m).queue != [] then [LockOf(s, m).queue[0]] else []
    case _ => []
  }

  /* A grant makes a blocked task the owner, and the mutex does not become free in between. */
  lemma GrantOwns(s: State, a: Step, m: nat)
    requires Inv(s) && Enabled(s, a) && AssertionHolds(s, a) && Granting(s, a, m) != []
    ensures var u := Granting(s, a, m)[0];
            && u < |s.tasks| && s.tasks[u].pc == Blocked(m)
            && Next(s, a).tasks[u].pc == Acquiring(m)
            && LockOf(s, m).locked && LockOf(Next(s, a), m).locked
  {
    var owner :| InvWith(s, owner);
    FrontBlocked(s, owner, a.t);
    FinishIs(s, owner, a.t);
  }

  /* A notification moves only the first waiter. */
  lemma FrontTasks(s: State, c: nat)
    ensures |NotifyFront(s, c).tasks| == |s.tasks|
    ensures forall t | 0 <= t < |s.tasks| && (Waiters(s, c) == [] || t != Waiters(s, c)[0].task) ::
              NotifyFront(s, c).tasks[t] == s.tasks[t]
    ensures Waiters(s, c) != [] && Waiters(s, c)[0].task < |s.tasks| ==>
              var Waiter(m, u) := Waiters(s, c)[0];
              NotifyFront(s, c).tasks[u] == s.tasks[u].(pc := if LockOf(s, m).locked then Blocked(m) else Acquiring(m))
  {
    if Waiters(s, c) != [] {
      var Waiter(m, u) := Waiters(s, c)[0];
      var (l, wakes) := Notifying(LockOf(s, m), u);
      var s1 := s.(conds := s.conds[c := Waiters(s, c)[1..]], locks := s.locks[m := l]);
      assert NotifyFront(s, c) == SetPc(s1, u, if wakes then Acquiring(m) else Blocked(m));
    }
  }

  lemma FrontQueue(s: State, c: nat, m: nat)
    ensures LockOf(NotifyFront(s, c), m).queue == LockOf(s, m).queue + MovedFront(s, c, m)
    ensures LockOf(NotifyFront(s, c), m).locked == LockOf(s, m).locked
  {
  }

  lemma Joins(a: seq<nat>, b: seq<nat>, c: seq<nat>)
    ensures (a + b) + c == a + (b + c)
  {
  }

  lemma {:induction false} EachQueue(s: State, c: nat, m: nat)
    ensures LockOf(NotifyEach(s, c), m).queue ==
            LockOf(s, m).queue + if LockOf(s, m).locked then WaitingFor(Waiters(s, c), m) else []
    ensures LockOf(NotifyEach(s, c), m).locked == LockOf(s, m).locked
    ensures Waiters(NotifyEach(s, c), c) == []
    decreases |Waiters(s, c)|
  {
    var q := Waiters(s, c);
    if q != [] {
      var s1 := NotifyFront(s, c);
      FrontQueue(s, c, m);
      EachQueue(s1, c, m);
      assert Waiters(s1, c) == q[1..] && NotifyEach(s, c) == NotifyEach(s1, c);
      if LockOf(s, m).locked {
        assert WaitingFor(q, m) == MovedFront(s, c, m) + WaitingFor(q[1..], m);
        Joins(LockOf(s, m).queue, MovedFront(s, c, m), WaitingFor(q[1..], m));
      }
    }
  }

  lemma FinishQueue(s: State, t: nat, m: nat)
    requires Enabled(s, Finish(t)) && AssertionHolds(s, Finish(t))
    ensures LockOf(s, m).queue == Granting(s, Finish(t), m) + LockOf(Next(s, Finish(t)), m).queue
  {
  }

  lemma QueueStep(s: State, a: Step, m: nat)
    requires Enabled(s, a) && AssertionHolds(s, a)
    ensures LockOf(s, m).queue + Entering(s, a, m) == Granting(s, a, m) + LockOf(Next(s, a), m).queue
  {
    match a
    case Signal(_, c) => FrontQueue(s, c, m);
    case Broadcast(_, c) => EachQueue(s, c, m);
    case Finish(t) => FinishQueue(s, t, m);
    case _ =>
  }

  function Entered(s: State, run: seq<Step>, m: nat): seq<nat>
    requires Run(s, run)
    decreases |run|
  {
    if run == [] then [] else Entering(s, run[0], m) + Entered(Next(s, run[0]), run[1..], m)
  }

  function Granted(s: State, run: seq<Step>, m: nat): seq<nat>
    requires Run(s, run)
    decreases |run|
  {
    if run == [] then [] else Granting(s, run[0], m) + Granted(Next(s, run[0]), run[1..], m)
  }

  /* Conservation over whole runs: what was queued at first, followed by everyone who queued up
     since (by `lock` or by being notified), is everyone who was granted the mutex, followed by what
     is queued now. So ownership is handed on first come, first served, and nobody is lost or
     granted twice. */
  lemma {:induction false} FirstComeFirstServed(s: State, run: seq<Step>, m: nat)
    requires Run(s, run)
    ensures LockOf(s, m).queue + Entered(s, run, m) == Granted(s, run, m) + LockOf(Last(s, run), m).queue
    decreases |run|
  {
    if run != [] {
      var s1 := Next(s, run[0]);
      QueueStep(s, run[0], m);
      FirstComeFirstServed(s1, run[1..], m);
      Chained(LockOf(s, m).queue, Entering(s, run[0], m), Granting(s, run[0], m), LockOf(s1, m).queue,
              Entered(s1, run[1..], m), Granted(s1, run[1..], m), LockOf(Last(s, run), m).queue);
    }
  }

  lemma Chained<T>(q: seq<T>, e: seq<T>, g: seq<T>, q1: seq<T>, e1: seq<T>, g1: seq<T>, q2: seq<T>)
    requires q + e == g + q1 && q1 + e1 == g1 + q2
    ensures q + (e + e1) == (g + g1) + q2
  {
    assert q + (e + e1) == (q + e) + e1 == g + (q1 + e1) == g + (g1 + q2);
  }

  /* The waiters a step adds to a condition variable, and those it takes from it. */
  function StartsWaiting(s: State, a: Step, c: nat): seq<Waiter>
    requires Enabled(s, a)
  {
    match a
    case Finish(t) => if s.tasks[t].pc.after == WaitOn(c) then [Waiter(s.tasks[t].pc.m, t)] else []
    case _ => []
  }

  function Notified(s: State, a: Step, c: nat): seq<Waiter> {
    match a
    case Signal(_, x) => if x == c && Waiters(s, c) != [] then [Waiters(s, c)[0]] else []
    case Broadcast(_, x) => if x == c then Waiters(s, c) else []
    case _ => []
  }

  lemma {:induction false} EachOther(s: State, c: nat, x: nat)
    requires x != c
    ensures Waiters(NotifyEach(s, c), x) == Waiters(s, x)
    decreases |Waiters(s, c)|
  {
    if Waiters(s, c) != [] { EachOther(NotifyFront(s, c), c, x); }
  }

  lemma FinishWaiters(s: State, t: nat, c: nat)
    requires Enabled(s, Finish(t)) && AssertionHolds(s, Finish(t))
    ensures Waiters(s, c) + StartsWaiting(s, Finish(t), c) == Waiters(Next(s, Finish(t)), c)
  {
  }

  lemma FrontWaiters(s: State, t: nat, x: nat, c: nat)
    ensures Waiters(s, c) == Notified(s, Signal(t, x), c) + Waiters(NotifyFront(s, x), c)
  {
  }

  lemma WaitersStep(s: State, a: Step, c: nat)
    requires Enabled(s, a) && AssertionHolds(s, a)
    ensures Waiters(s, c) + StartsWaiting(s, a, c) == Notified(s, a, c) + Waiters(Next(s, a), c)
  {
    match a
    case Broadcast(_, x) =>
      if x == c { EachQueue(s, c, 0); } else { EachOther(s, x, c); }
    case Finish(t) => FinishWaiters(s, t, c);
    case Signal(t, x) => FrontWaiters(s, t, x, c);
    case _ =>
  }

  function WaitingOver(s: State, run: seq<Step>, c: nat): seq<Waiter>
    requires Run(s, run)
    decreases |run|
  {
    if run == [] then [] else StartsWaiting(s, run[0], c) + WaitingOver(Next(s, run[0]), run[1..], c)
  }

  function NotifiedOver(s: State, run: seq<Step>, c: nat): seq<Waiter>
    requires Run(s, run)
    decreases |run|
  {
    if run == [] then [] else Notified(s, run[0], c) + NotifiedOver(Next(s, run[0]), run[1..], c)
  }

  /* The same for condition variables: waiters are notified in the order in which they began to
     wait, each once, and a broadcast loses nobody. */
  lemma {:induction false} WaitersConserved(s: State, run: seq<Step>, c: nat)
    requires Run(s, run)
    ensures Waiters(s, c) + WaitingOver(s, run, c) == NotifiedOver(s, run, c) + Waiters(Last(s, run), c)
    decreases |run|
  {
    if run != [] {
      var s1 := Next(s, run[0]);
      WaitersStep(s, run[0], c);
      WaitersConserved(s1, run[1..], c);
      Chained(Waiters(s, c), StartsWaiting(s, run[0], c), Notified(s, run[0], c), Waiters(s1, c),
              WaitingOver(s1, run[1..], c), NotifiedOver(s1, run[1..], c), Waiters(Last(s, run), c));
    }
  }

  // ---------------------------------------------------------------- notifying without the lock

  /* A task that owns a mutex which is not locked. */
  ghost predicate Rogue(s: State, t: nat) {
    && t < |s.tasks| && s.tasks[t].pc.Acquiring? && !LockOf(s, s.tasks[t].pc.m).locked
  }

  lemma NoRogue(s: State, owner: Owners, t: nat)
    requires OwnersExact(s, owner)
    ensures !Rogue(s, t)
  {
    assert t < |s.tasks| && s.tasks[t].pc.Acquiring? ==> Owns(s.tasks[t], s.tasks[t].pc.m);
  }

  lemma RogueBreaks(s: State, t: nat)
    requires Rogue(s, t)
    ensures !Inv(s)
  {
    if owner :| InvWith(s, owner) { NoRogue(s, owner, t); }
  }

  /* Some continuation in which every notification is guarded comes to a step whose assertion fails. */
  ghost predicate Breaks(s: State) {
    exists run, a :: Run(s, run) && GuardedRun(s, run) && FailsAt(Last(s, run), a)
  }

  predicate FailsAt(s: State, a: Step) { Enabled(s, a) && !AssertionHolds(s, a) }

  lemma InvHolds(s: State)
    requires Inv(s)
    ensures !Breaks(s)
  {
    forall run, a | Run(s, run) && GuardedRun(s, run) && Enabled(Last(s, run), a)
      ensures AssertionHolds(Last(s, run), a)
    {
      RunInv(s, run);
      AssertionsHold(Last(s, run), a);
    }
  }

  /* A task that owns an unlocked mutex takes the lock word and gives it back, and then fails to
     unlock. */
  lemma RogueFails(s: State, t: nat)
    requires Rogue(s, t) && WordIs(s, s.tasks[t].pc.m, UNLOCKED)
    ensures Breaks(s)
  {
    var m := s.tasks[t].pc.m;
    var s1 := Next(s, AcquireCas(t));
    var s2 := Next(s1, UnlockCall(t, m));
    var s3 := Next(s2, ReleaseCas(t));
    var run := [AcquireCas(t), UnlockCall(t, m), ReleaseCas(t)];
    assert run[1..] == [UnlockCall(t, m), ReleaseCas(t)] && run[1..][1..] == [ReleaseCas(t)];
    Three(s, s1, s2, s3, run);
    assert FailsAt(s3, Finish(t));
  }

  lemma Three(s: State, s1: State, s2: State, s3: State, run: seq<Step>)
    requires |run| == 3 && (forall k | 0 <= k < 3 :: !run[k].Signal? && !run[k].Broadcast?)
    requires Enabled(s, run[0]) && AssertionHolds(s, run[0]) && s1 == Next(s, run[0])
    requires Enabled(s1, run[1]) && AssertionHolds(s1, run[1]) && s2 == Next(s1, run[1])
    requires Enabled(s2, run[2]) && AssertionHolds(s2, run[2]) && s3 == Next(s2, run[2])
    ensures Run(s, run) && GuardedRun(s, run) && Last(s, run) == s3
  {
    var rest, last := run[1..], run[2..];
    assert rest[1..] == last && last[1..] == [];
    assert Run(s3, []) && Run(s2, last) && Run(s1, rest);
    assert GuardedRun(s2, last) && GuardedRun(s1, rest);
    assert Last(s2, last) == s3 && Last(s1, rest) == s3;
  }

  /* The lock word of a free mutex that somebody waits for. */
  lemma FreeWord(s: State, owner: Owners, t: nat, m: nat)
    requires InvWith(s, owner) && t < |s.tasks| && Uses(s.tasks[t].pc, m) && !LockOf(s, m).locked
    ensures WordIs(s, m, UNLOCKED)
  {
    assert WordExact(s, owner, m);
  }

  ghost predicate DistinctWaiters(s: State, c: nat) {
    var q := Waiters(s, c);
    forall i, j | 0 <= i < j < |q| :: q[i].task != q[j].task
  }

  lemma {:induction false} RogueStays(s: State, c: nat, t: nat)
    requires Rogue(s, t) && forall i | 0 <= i < |Waiters(s, c)| :: Waiters(s, c)[i].task != t
    ensures Rogue(NotifyEach(s, c), t) && NotifyEach(s, c).tasks[t].pc == s.tasks[t].pc
    decreases |Waiters(s, c)|
  {
    var q := Waiters(s, c);
    if q != [] {
      var s1 := NotifyFront(s, c);
      FrontQueue(s, c, s.tasks[t].pc.m);
      assert Waiters(s1, c) == q[1..];
      RogueStays(s1, c, t);
    }
  }

  lemma {:induction false} UnguardedRogue(s: State, c: nat) returns (i: nat, t: nat)
    requires DistinctWaiters(s, c) && !AllGuarded(s, c)
    requires forall i | 0 <= i < |Waiters(s, c)| :: Waiters(s, c)[i].task < |s.tasks|
    ensures i < |Waiters(s, c)| && Waiters(s, c)[i].task == t && !LockOf(s, Waiters(s, c)[i].mutex).locked
    ensures Rogue(NotifyEach(s, c), t) && NotifyEach(s, c).tasks[t].pc.m == Waiters(s, c)[i].mutex
    decreases |Waiters(s, c)|
  {
    var q := Waiters(s, c);
    var s1 := NotifyFront(s, c);
    assert Waiters(s1, c) == q[1..];
    if !LockOf(s, q[0].mutex).locked {
      i, t := 0, q[0].task;
      RogueStays(s1, c, t);
    } else {
      var k :| 0 <= k < |q| && !LockOf(s, q[k].mutex).locked;
      FrontQueue(s, c, q[k].mutex);
      assert q[1..][k - 1] == q[k];
      i, t := UnguardedRogue(s1, c);
      i := i + 1;
      FrontQueue(s, c, q[i].mutex);
    }
  }

  lemma {:induction false} EachWords(s: State, c: nat)
    ensures NotifyEach(s, c).words == s.words
    decreases |Waiters(s, c)|
  {
    if Waiters(s, c) != [] { EachWords(NotifyFront(s, c), c); }
  }

  /* After a `signal` some continuation fails an assertion if and only if the mutex of the waiter it
     wakes is not locked; and otherwise the protocol is kept. */
  lemma SignalExact(s: State, c: nat)
    requires Inv(s)
    ensures Breaks(NotifyFront(s, c)) <==> !FrontGuarded(s, c)
    ensures Inv(NotifyFront(s, c)) <==> FrontGuarded(s, c)
  {
    var owner :| InvWith(s, owner);
    assert CondExact(s, c);
    if FrontGuarded(s, c) {
      NotifyFrontInv(s, owner, c);
      InvHolds(NotifyFront(s, c));
    } else {
      var w := Waiters(s, c)[0];
      FreeWord(s, owner, w.task, w.mutex);
      RogueFails(NotifyFront(s, c), w.task);
      RogueBreaks(NotifyFront(s, c), w.task);
    }
  }

  /* The same for `broadcast` and the mutexes of all waiters. */
  lemma BroadcastExact(s: State, c: nat)
    requires Inv(s)
    ensures Breaks(NotifyEach(s, c)) <==> !AllGuarded(s, c)
    ensures Inv(NotifyEach(s, c)) <==> AllGuarded(s, c)
  {
    var owner :| InvWith(s, owner);
    assert CondExact(s, c);
    if AllGuarded(s, c) {
      NotifyEachInv(s, owner, c);
      InvHolds(NotifyEach(s, c));
    } else {
      var i, t := UnguardedRogue(s, c);
      FreeWord(s, owner, t, Waiters(s, c)[i].mutex);
      EachWords(s, c);
      RogueFails(NotifyEach(s, c), t);
      RogueBreaks(NotifyEach(s, c), t);
    }
  }

  lemma {:induction false} RunSnoc(s: State, run: seq<Step>, a: Step)
    requires Run(s, run) && Enabled(Last(s, run), a) && AssertionHolds(Last(s, run), a)
    ensures Run(s, run + [a]) && Last(s, run + [a]) == Next(Last(s, run), a)
    decreases |run|
  {
    if run == [] {
      assert run + [a] == [a];
    } else {
      assert (run + [a])[1..] == run[1..] + [a];
      RunSnoc(Next(s, run[0]), run[1..], a);
    }
  }

  /* Task 0 waits on condition variable c with mutex m, which is free. */
  function OneWaiter(m: nat, c: nat): State {
    State([Task(Waiting(c, m), {}), Task(Idle, {})], map[m := Lock(false, [])], map[c := [Waiter(m, 0)]],
          map[m := UNLOCKED])
  }

  /* Task 0 has taken mutex m and called `wait` on condition variable c. */
  function AboutToWait(m: nat, c: nat): State {
    State([Task(Releasing(m, WaitOn(c)), {}), Task(Idle, {})], map[m := Lock(true, [])], map[], map[m := LOCKED])
  }

  lemma AboutToWaitReached(m: nat, c: nat) returns (run: seq<Step>)
    ensures Run(Start(2), run) && Last(Start(2), run) == AboutToWait(m, c)
  {
    var s := Start(2);
    assert s.tasks == [Task(Idle, {}), Task(Idle, {})];
    run := [];
    RunSnoc(s, run, Init(m));
    run := run + [Init(m)];
    RunSnoc(s, run, LockCall(0, m));
    run := run + [LockCall(0, m)];
    RunSnoc(s, run, AcquireCas(0));
    run := run + [AcquireCas(0)];
    RunSnoc(s, run, WaitCall(0, m, c));
    run := run + [WaitCall(0, m, c)];
    var s' := Last(s, run);
    assert s'.tasks[0].held == {} + {m} - {m} == {};
    assert s'.tasks == AboutToWait(m, c).tasks && s'.locks == AboutToWait(m, c).locks;
    assert s'.conds == AboutToWait(m, c).conds && s'.words == AboutToWait(m, c).words;
  }

  lemma OneWaiterReached(m: nat, c: nat) returns (run: seq<Step>)
    ensures Run(Start(2), run) && Last(Start(2), run) == OneWaiter(m, c)
  {
    var s := Start(2);
    run := AboutToWaitReached(m, c);
    RunSnoc(s, run, ReleaseCas(0));
    run := run + [ReleaseCas(0)];
    RunSnoc(s, run, Finish(0));
    run := run + [Finish(0)];
    var s' := Last(s, run);
    assert s'.tasks == OneWaiter(m, c).tasks && s'.locks == OneWaiter(m, c).locks;
    assert [] + [Waiter(m, 0)] == Waiters(s', c) == [Waiter(m, 0)];
    assert s'.conds == OneWaiter(m, c).conds && s'.words == OneWaiter(m, c).words;
  }

  /* POSIX lets a task signal without holding the mutex. Then the waiter wakes without the mutex,
     a second task can take it, and the assertion of src/native/pthread.rs:18 fails. */
  lemma SignalWithoutLock(m: nat, c: nat) returns (run: seq<Step>)
    ensures Run(Start(2), run)
    ensures Enabled(Last(Start(2), run), AcquireCas(1)) && !AssertionHolds(Last(Start(2), run), AcquireCas(1))
  {
    run := OneWaiterReached(m, c);
    RunSnoc(Start(2), run, Signal(1, c));
    run := run + [Signal(1, c)];
    RunSnoc(Start(2), run, LockCall(1, m));
    run := run + [LockCall(1, m)];
    RunSnoc(Start(2), run, AcquireCas(0));
    run := run + [AcquireCas(0)];
  }
}
