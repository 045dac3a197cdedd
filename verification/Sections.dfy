/**
 In which order the pthread wrapper takes and frees the lock word of a mutex: the acquire
 compare-exchange of a task is decoded only after the Release compare-exchange of the last holder,
 since the mutex is handed on after that.
 */
module PthreadSections {
  import opened Wrappers
  import opened Pthreads

  /* A task is about to take the lock word, has taken it, has freed it. */
  datatype Mark = Begun(t: nat) | Taken(t: nat) | Freed(t: nat)

  /* What a step does to the lock word of mutex m. */
  function Marks(s: State, a: Step, m: nat): seq<Mark>
    requires Enabled(s, a)
  {
    match a
    case LockCall(t, x) => if x == m && !LockOf(s, m).locked then [Begun(t)] else []
    case TryLockCall(t, x) => if x == m && !LockOf(s, m).locked then [Begun(t)] else []
    case AcquireCas(t) => if s.tasks[t].pc.m == m then [Taken(t)] else []
    case ReleaseCas(t) => if s.tasks[t].pc.m == m then [Freed(t)] else []
    case Finish(t) => if s.tasks[t].pc.m == m && LockOf(s, m).queue != [] then [Begun(LockOf(s, m).queue[0])] else []
    case _ => []
  }

  function Trace(s: State, run: seq<Step>, m: nat): seq<Mark>
    requires Run(s, run)
    decreases |run|
  {
    if run == [] then [] else Marks(s, run[0], m) + Trace(Next(s, run[0]), run[1..], m)
  }

  /* Who has the lock word or is about to take it. */
  datatype Phase = Free | Beginning(t: nat) | Holding(t: nat)

  /* Sections one after another: each begins, takes the word and frees it before the next begins. */
  function Follow(p: Phase, marks: seq<Mark>): Option<Phase>
    decreases |marks|
  {
    if marks == [] then Some(p)
    else
      match (p, marks[0])
      case (Free, Begun(t)) => Follow(Beginning(t), marks[1..])
      case (Beginning(t), Taken(u)) => if t == u then Follow(Holding(t), marks[1..]) else None
      case (Holding(t), Freed(u)) => if t == u then Follow(Free, marks[1..]) else None
      case _ => None
  }

  ghost predicate PhaseIs(s: State, m: nat, p: Phase) {
    match p
    case Beginning(t) => t < |s.tasks| && s.tasks[t].pc == Acquiring(m)
    case Holding(t) => t < |s.tasks| && Between(s.tasks[t], m)
    case Free => forall t | 0 <= t < |s.tasks| :: s.tasks[t].pc != Acquiring(m) && !Between(s.tasks[t], m)
  }

  /* The phase after one more mark. */
  function Turned(p: Phase, marks: seq<Mark>): Phase {
    if marks == [] then p
    else
      match marks[0]
      case Begun(t) => Beginning(t)
      case Taken(t) => Holding(t)
      case Freed(_) => Free
  }

  /* Whoever is about to take the word or has it is the owner. */
  lemma PhaseOwner(s: State, owner: Owners, m: nat, t: nat)
    requires OwnersExact(s, owner) && t < |s.tasks| && (s.tasks[t].pc == Acquiring(m) || Between(s.tasks[t], m))
    ensures m in owner && owner[m] == t && LockOf(s, m).locked
  {
    assert Owns(s.tasks[t], m);
  }

  /* The phase is what the state says. */
  lemma PhaseOfTask(s: State, owner: Owners, m: nat, p: Phase, t: nat)
    requires OwnersExact(s, owner) && PhaseIs(s, m, p) && t < |s.tasks|
    ensures s.tasks[t].pc == Acquiring(m) ==> p == Beginning(t)
    ensures Between(s.tasks[t], m) ==> p == Holding(t)
  {
    if s.tasks[t].pc == Acquiring(m) || Between(s.tasks[t], m) {
      PhaseOwner(s, owner, m, t);
      if !p.Free? { PhaseOwner(s, owner, m, p.t); }
    }
  }

  lemma PhaseFree(s: State, owner: Owners, m: nat, p: Phase)
    requires OwnersExact(s, owner) && PhaseIs(s, m, p)
    requires m in owner ==> s.tasks[owner[m]].pc != Acquiring(m) && !Between(s.tasks[owner[m]], m)
    ensures p == Free
  {
    if !p.Free? { PhaseOwner(s, owner, m, p.t); }
  }

  ghost predicate Alike(s: State, s': State, m: nat, t: nat)
    requires |s'.tasks| == |s.tasks| && t < |s.tasks|
  {
    && (s'.tasks[t].pc == Acquiring(m) <==> s.tasks[t].pc == Acquiring(m))
    && (Between(s'.tasks[t], m) <==> Between(s.tasks[t], m))
  }

  ghost predicate AllAlike(s: State, s': State, m: nat) {
    |s'.tasks| == |s.tasks| && forall t | 0 <= t < |s.tasks| :: Alike(s, s', m, t)
  }

  lemma PhaseStays(s: State, s': State, m: nat, p: Phase)
    requires PhaseIs(s, m, p) && AllAlike(s, s', m)
    ensures PhaseIs(s', m, p)
  {
    if p.Free? {
      forall t | 0 <= t < |s'.tasks| ensures s'.tasks[t].pc != Acquiring(m) && !Between(s'.tasks[t], m) {
        assert Alike(s, s', m, t);
      }
    } else {
      assert Alike(s, s', m, p.t);
    }
  }

  /* The step does what it should to the phase. */
  ghost predicate InTurn(s: State, a: Step, m: nat, p: Phase)
    requires Enabled(s, a) && AssertionHolds(s, a)
  {
    Follow(p, Marks(s, a, m)) == Some(Turned(p, Marks(s, a, m))) && PhaseIs(Next(s, a), m, Turned(p, Marks(s, a, m)))
  }

  lemma FrontAlike(s: State, owner: Owners, c: nat, m: nat)
    requires InvWith(s, owner) && FrontGuarded(s, c)
    ensures AllAlike(s, NotifyFront(s, c), m)
  {
    FrontTasks(s, c);
    assert CondExact(s, c);
  }

  lemma AlikeTransitive(a: State, b: State, c: State, m: nat)
    requires AllAlike(a, b, m) && AllAlike(b, c, m)
    ensures AllAlike(a, c, m)
  {
    forall t | 0 <= t < |a.tasks| ensures Alike(a, c, m, t) { assert Alike(a, b, m, t) && Alike(b, c, m, t); }
  }

  lemma {:induction false} EachAlike(s: State, owner: Owners, c: nat, m: nat)
    requires InvWith(s, owner) && AllGuarded(s, c)
    ensures AllAlike(s, NotifyEach(s, c), m)
    decreases |Waiters(s, c)|
  {
    if Waiters(s, c) != [] {
      var s1 := NotifyFront(s, c);
      NotifyFrontInv(s, owner, c);
      FrontAlike(s, owner, c, m);
      EachAlike(s1, owner, c, m);
      AlikeTransitive(s, s1, NotifyEach(s1, c), m);
    }
  }

  /* Only task t changes, and not in this respect. */
  lemma AlikeOne(s: State, s': State, m: nat, t: nat)
    requires |s'.tasks| == |s.tasks| && t < |s.tasks| && Alike(s, s', m, t)
    requires forall u | 0 <= u < |s.tasks| && u != t :: s'.tasks[u] == s.tasks[u]
    ensures AllAlike(s, s', m)
  {
  }

  lemma FinishAlike(s: State, owner: Owners, t: nat, m: nat)
    requires InvWith(s, owner) && Enabled(s, Finish(t)) && AssertionHolds(s, Finish(t)) && Marks(s, Finish(t), m) == []
    ensures AllAlike(s, Next(s, Finish(t)), m)
  {
    var s', q := Next(s, Finish(t)), LockOf(s, s.tasks[t].pc.m).queue;
    FinishIs(s, owner, t);
    if q != [] { FrontBlocked(s, owner, t); }
    forall u | 0 <= u < |s.tasks| ensures Alike(s, s', m, u) { }
  }

  lemma LockAlike(s: State, a: Step, m: nat)
    requires Enabled(s, a) && (a.LockCall? || a.TryLockCall?) && Marks(s, a, m) == []
    ensures AllAlike(s, Next(s, a), m)
  {
    AlikeOne(s, Next(s, a), m, a.t);
  }

  /* A step without a mark concerns nobody's hold on the word. */
  lemma NoMarkAlike(s: State, owner: Owners, a: Step, m: nat)
    requires InvWith(s, owner) && Enabled(s, a) && AssertionHolds(s, a) && Guarded(s, a) && Marks(s, a, m) == []
    ensures AllAlike(s, Next(s, a), m)
  {
    match a
    case Init(_) =>
    case Signal(_, c) => FrontAlike(s, owner, c, m);
    case Broadcast(_, c) => EachAlike(s, owner, c, m);
    case Finish(t) => FinishAlike(s, owner, t, m);
    case LockCall(_, _) => LockAlike(s, a, m);
    case TryLockCall(_, _) => LockAlike(s, a, m);
    case _ => AlikeOne(s, Next(s, a), m, a.t);
  }

  lemma LockInTurn(s: State, owner: Owners, a: Step, m: nat, p: Phase)
    requires InvWith(s, owner) && Enabled(s, a) && (a.LockCall? || a.TryLockCall?) && PhaseIs(s, m, p)
    requires Marks(s, a, m) != []
    ensures InTurn(s, a, m, p)
  {
    PhaseFree(s, owner, m, p);
  }

  lemma CasInTurn(s: State, owner: Owners, a: Step, m: nat, p: Phase)
    requires InvWith(s, owner) && Enabled(s, a) && (a.AcquireCas? || a.ReleaseCas?) && PhaseIs(s, m, p)
    requires AssertionHolds(s, a) && Marks(s, a, m) != []
    ensures InTurn(s, a, m, p)
  {
    PhaseOfTask(s, owner, m, p, a.t);
    if a.ReleaseCas? { FreedAll(s, owner, Next(s, a), m, a.t); }
  }

  /* Nobody else has the word that task t frees. */
  lemma FreedAll(s: State, owner: Owners, s': State, m: nat, t: nat)
    requires OwnersExact(s, owner) && Enabled(s, ReleaseCas(t)) && s.tasks[t].pc.m == m
    requires AssertionHolds(s, ReleaseCas(t)) && s' == Next(s, ReleaseCas(t))
    ensures PhaseIs(s', m, Free)
  {
    PhaseOwner(s, owner, m, t);
    forall u | 0 <= u < |s'.tasks| ensures s'.tasks[u].pc != Acquiring(m) && !Between(s'.tasks[u], m) {
      if u == t { assert PcOwns(s.tasks[t].pc, m); }
      else if s.tasks[u].pc == Acquiring(m) || Between(s.tasks[u], m) { PhaseOwner(s, owner, m, u); }
    }
  }

  lemma FinishInTurn(s: State, owner: Owners, t: nat, m: nat, p: Phase)
    requires InvWith(s, owner) && Enabled(s, Finish(t)) && AssertionHolds(s, Finish(t)) && PhaseIs(s, m, p)
    requires Marks(s, Finish(t), m) != []
    ensures InTurn(s, Finish(t), m, p)
  {
    FinishIs(s, owner, t);
    FrontBlocked(s, owner, t);
    assert Owns(s.tasks[t], m) && PcOwns(s.tasks[t].pc, m);
    PhaseFree(s, owner, m, p);
  }

  lemma StepInTurn(s: State, a: Step, m: nat, p: Phase)
    requires Inv(s) && Enabled(s, a) && AssertionHolds(s, a) && Guarded(s, a) && PhaseIs(s, m, p)
    ensures InTurn(s, a, m, p)
  {
    var owner :| InvWith(s, owner);
    if Marks(s, a, m) == [] {
      NoMarkAlike(s, owner, a, m);
      PhaseStays(s, Next(s, a), m, p);
    } else if a.Finish? {
      FinishInTurn(s, owner, a.t, m, p);
    } else if a.AcquireCas? || a.ReleaseCas? {
      CasInTurn(s, owner, a, m, p);
    } else {
      LockInTurn(s, owner, a, m, p);
    }
  }

  lemma {:induction false} FollowAppend(p: Phase, a: seq<Mark>, b: seq<Mark>)
    requires Follow(p, a).Some?
    ensures Follow(p, a + b) == Follow(Follow(p, a).value, b)
    decreases |a|
  {
    if a == [] {
      assert a + b == b;
    } else {
      var q := Turned(p, a[..1]);
      assert (a + b)[0] == a[0] && (a + b)[1..] == a[1..] + b;
      FollowAppend(q, a[1..], b);
    }
  }

  lemma {:induction false} RunInTurn(s: State, run: seq<Step>, m: nat, p: Phase)
    requires Inv(s) && Run(s, run) && GuardedRun(s, run) && PhaseIs(s, m, p)
    ensures Follow(p, Trace(s, run, m)).Some? && PhaseIs(Last(s, run), m, Follow(p, Trace(s, run, m)).value)
    decreases |run|
  {
    if run != [] {
      var s1, marks := Next(s, run[0]), Marks(s, run[0], m);
      StepInTurn(s, run[0], m, p);
      StepInv(s, run[0]);
      RunInTurn(s1, run[1..], m, Turned(p, marks));
      FollowAppend(p, marks, Trace(s1, run[1..], m));
    }
  }

  /* Sections in turn: over every run, the tasks take and free the lock word of a mutex one after
     another, and none begins to take it before the last one has freed it. */
  lemma SectionsInTurn(n: nat, run: seq<Step>, m: nat)
    requires Run(Start(n), run) && GuardedRun(Start(n), run)
    ensures Follow(Free, Trace(Start(n), run, m)).Some?
    ensures PhaseIs(Last(Start(n), run), m, Follow(Free, Trace(Start(n), run, m)).value)
  {
    StartInv(n);
    RunInTurn(Start(n), run, m, Free);
  }

  lemma FinishBegins(s: State, owner: Owners, u: nat, m: nat, t: nat)
    requires InvWith(s, owner) && Enabled(s, Finish(u)) && AssertionHolds(s, Finish(u)) && t < |s.tasks|
    requires Marks(s, Finish(u), m) != []
    ensures t < |Next(s, Finish(u)).tasks|
    ensures s.tasks[t].pc != Acquiring(m) && Next(s, Finish(u)).tasks[t].pc == Acquiring(m)
            <==> t == LockOf(s, m).queue[0]
  {
    FinishIs(s, owner, u);
    FrontBlocked(s, owner, u);
  }

  /* A task is about to take the word of m from the step on that marks its beginning. */
  lemma BegunExact(s: State, a: Step, m: nat, t: nat)
    requires Inv(s) && Enabled(s, a) && AssertionHolds(s, a) && Guarded(s, a) && t < |s.tasks|
    ensures t < |Next(s, a).tasks|
    ensures s.tasks[t].pc != Acquiring(m) && Next(s, a).tasks[t].pc == Acquiring(m) <==> Marks(s, a, m) == [Begun(t)]
  {
    var owner :| InvWith(s, owner);
    if Marks(s, a, m) == [] {
      NoMarkAlike(s, owner, a, m);
      assert Alike(s, Next(s, a), m, t);
    } else if a.Finish? {
      FinishBegins(s, owner, a.t, m, t);
    } else {
      OwnBegins(s, a, m, t);
    }
  }

  lemma OwnBegins(s: State, a: Step, m: nat, t: nat)
    requires Enabled(s, a) && AssertionHolds(s, a) && t < |s.tasks| && Marks(s, a, m) != [] && !a.Finish?
    ensures t < |Next(s, a).tasks|
    ensures s.tasks[t].pc != Acquiring(m) && Next(s, a).tasks[t].pc == Acquiring(m) <==> Marks(s, a, m) == [Begun(t)]
  {
    assert Next(s, a).tasks[t] == s.tasks[t] || t == a.t;
  }
}
