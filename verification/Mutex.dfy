/**
 The hand-off mutex and condition variable of src/util/mutex.rs. A dropped `Sender` wakes the
 task that waits for it, so a queue of senders is a queue of task numbers here, and an operation
 returns whom it wakes.
 */
module Mutexes {
  import opened Wrappers

  datatype Lock = Lock(locked: bool, queue: seq<nat>)

  /* What `lock` does for task t: whether it owns the mutex at once. */
  function Locking(l: Lock, t: nat): (Lock, bool) {
    if l.locked then (Lock(true, l.queue + [t]), false) else (l.(locked := true), true)
  }

  function TryLocking(l: Lock): (Lock, bool) {
    if l.locked then (l, false) else (l.(locked := true), true)
  }

  /* `unlock` hands the mutex to the first task of the queue; it stays locked meanwhile. */
  function Unlocking(l: Lock): (Lock, Option<nat>)
    requires l.locked
  {
    if l.queue == [] then (l.(locked := false), None) else (l.(queue := l.queue[1..]), Some(l.queue[0]))
  }

  /* `notify_impl`: a waiter moves to the queue of its mutex, or wakes when that is not locked. */
  function Notifying(l: Lock, t: nat): (Lock, bool) {
    if l.locked then (l.(queue := l.queue + [t]), false) else (l, true)
  }

  class Mutex {
    var locked: bool
    var queue: seq<nat>

    ghost function Model(): Lock
      reads this
    {
      Lock(locked, queue)
    }

    constructor ()
      ensures Model() == Lock(false, [])
    {
      locked, queue := false, [];
    }

    method TryLock() returns (granted: bool)
      modifies this
      ensures granted <==> !old(locked)
      ensures locked && queue == old(queue)
      ensures (Model(), granted) == TryLocking(old(Model()))
    {
      if locked {
        granted := false;
      } else {
        locked := true;
        granted := true;
      }
    }

    method LockFor(task: nat) returns (granted: bool)
      modifies this
      ensures granted <==> !old(locked)
      ensures locked && queue == old(queue) + if granted then [] else [task]
      ensures (Model(), granted) == Locking(old(Model()), task)
    {
      if locked {
        queue := queue + [task];
        granted := false;
      } else {
        locked := true;
        granted := true;
      }
    }

    /* The source asserts that the mutex is locked. */
    method Unlock() returns (woken: Option<nat>)
      requires locked
      modifies this
      ensures locked <==> old(queue) != []
      ensures woken.Some? ==> old(queue) == [woken.value] + queue
      ensures woken.None? ==> old(queue) == queue == []
      ensures (Model(), woken) == Unlocking(old(Model()))
    {
      if queue == [] {
        locked := false;
        woken := None;
      } else {
        woken := Some(queue[0]);
        queue := queue[1..];
      }
    }

    method NotifyImpl(task: nat) returns (woken: bool)
      modifies this
      ensures (woken <==> !locked) && locked == old(locked)
      ensures queue == old(queue) + if woken then [] else [task]
      ensures (Model(), woken) == Notifying(old(Model()), task)
    {
      if locked {
        queue := queue + [task];
        woken := false;
      } else {
        woken := true;
      }
    }
  }

  // ---------------------------------------------------------------- condition variables

  /* Of the first n waiters, those of one mutex, in order. */
  function TasksOf(ws: seq<(Mutex, nat)>, n: nat, m: Mutex): seq<nat>
    requires n <= |ws|
  {
    if n == 0 then [] else TasksOf(ws, n - 1, m) + (if ws[n - 1].0 == m then [ws[n - 1].1] else [])
  }

  /* The queue of a mutex once the first n waiters have been notified. */
  ghost function Joined(l: Lock, ws: seq<(Mutex, nat)>, n: nat, m: Mutex): seq<nat>
    requires n <= |ws|
  {
    if l.locked then l.queue + TasksOf(ws, n, m) else l.queue
  }

  lemma JoinedNext(l: Lock, ws: seq<(Mutex, nat)>, i: nat, n: nat, m: Mutex)
    requires n == i + 1 <= |ws|
    ensures Joined(l, ws, n, m) ==
            if l.locked && ws[i].0 == m then Joined(l, ws, i, m) + [ws[i].1] else Joined(l, ws, i, m)
  {
    assert l.queue + (TasksOf(ws, i, m) + [ws[i].1]) == l.queue + TasksOf(ws, i, m) + [ws[i].1];
  }

  /* Of the first n waiters, those whose mutex is in a set, in order. */
  function TasksIn(ws: seq<(Mutex, nat)>, n: nat, ms: set<Mutex>): seq<nat>
    requires n <= |ws|
  {
    if n == 0 then [] else TasksIn(ws, n - 1, ms) + (if ws[n - 1].0 in ms then [ws[n - 1].1] else [])
  }

  /* The waiters that wake when one more is notified. */
  lemma TasksInNext(ws: seq<(Mutex, nat)>, i: nat, n: nat, ms: set<Mutex>)
    requires n == i + 1 <= |ws|
    ensures TasksIn(ws, n, ms) == if ws[i].0 in ms then TasksIn(ws, i, ms) + [ws[i].1] else TasksIn(ws, i, ms)
  {
  }

  /* The first n waiters notified one after another: the mutexes and who wakes. */
  function NotifiedFrom(ls: map<Mutex, Lock>, ws: seq<(Mutex, nat)>, n: nat): (r: (map<Mutex, Lock>, seq<nat>))
    requires n <= |ws| && forall i | 0 <= i < |ws| :: ws[i].0 in ls
    ensures r.0.Keys == ls.Keys
  {
    if n == 0 then (ls, [])
    else
      var (ls', woken) := NotifiedFrom(ls, ws, n - 1);
      var (m, t) := ws[n - 1];
      var (l, wakes) := Notifying(ls'[m], t);
      (ls'[m := l], if wakes then woken + [t] else woken)
  }

  lemma {:induction false} NotifiedQueue(ls: map<Mutex, Lock>, ws: seq<(Mutex, nat)>, n: nat, m: Mutex)
    requires n <= |ws| && (forall i | 0 <= i < |ws| :: ws[i].0 in ls) && m in ls
    ensures NotifiedFrom(ls, ws, n).0[m] == Lock(ls[m].locked, Joined(ls[m], ws, n, m))
  {
    if n > 0 {
      var i := n - 1;
      NotifiedQueue(ls, ws, i, m);
      JoinedNext(ls[m], ws, i, n, m);
    }
  }

  lemma {:induction false} NotifiedWoken(ls: map<Mutex, Lock>, ws: seq<(Mutex, nat)>, n: nat, free: set<Mutex>)
    requires n <= |ws| && forall i | 0 <= i < |ws| :: ws[i].0 in ls
    requires forall m | m in ls :: m in free <==> !ls[m].locked
    ensures NotifiedFrom(ls, ws, n).1 == TasksIn(ws, n, free)
  {
    if n > 0 {
      var i := n - 1;
      NotifiedWoken(ls, ws, i, free);
      NotifiedQueue(ls, ws, i, ws[i].0);
      TasksInNext(ws, i, n, free);
    }
  }

  /* `notify_impl` for one waiter after another. */
  method NotifyEach(ws: seq<(Mutex, nat)>, ghost before: map<Mutex, Lock>) returns (woken: seq<nat>)
    requires forall i | 0 <= i < |ws| :: ws[i].0 in before
    requires forall m | m in before :: m.Model() == before[m]
    modifies before.Keys
    ensures forall m | m in before :: m.Model() == NotifiedFrom(before, ws, |ws|).0[m]
    ensures woken == NotifiedFrom(before, ws, |ws|).1
  {
    woken := [];
    ghost var now := before;
    for i := 0 to |ws|
      invariant now.Keys == before.Keys && forall m | m in now :: m.Model() == now[m]
      invariant (now, woken) == NotifiedFrom(before, ws, i)
    {
      var (m, t) := ws[i];
      var wakes := m.NotifyImpl(t);
      now := now[m := m.Model()];
      if wakes { woken := woken + [t]; }
    }
  }

  class Condvar {
    var queue: seq<(Mutex, nat)>

    function Mutexes(): (ms: set<Mutex>)
      reads this
      ensures forall i | 0 <= i < |queue| :: queue[i].0 in ms
    {
      set i | 0 <= i < |queue| :: queue[i].0
    }

    constructor ()
      ensures queue == []
    {
      queue := [];
    }

    /* `wait`: unlock, then queue up. */
    method Wait(mutex: Mutex, task: nat) returns (woken: Option<nat>)
      requires mutex.locked
      modifies this, mutex
      ensures (mutex.Model(), woken) == Unlocking(old(mutex.Model()))
      ensures queue == old(queue) + [(mutex, task)]
    {
      woken := mutex.Unlock();
      queue := queue + [(mutex, task)];
    }

    method Notify() returns (woken: Option<nat>)
      modifies this, Mutexes()
      ensures old(queue) == [] ==> queue == [] && woken == None
      ensures old(queue) != [] ==>
                var (m, t) := old(queue[0]);
                && queue == old(queue)[1..]
                && (m.Model(), woken == Some(t)) == Notifying(old(m.Model()), t)
                && (woken.Some? ==> woken.value == t)
                && forall o: Mutex | o in old(Mutexes()) && o != m :: o.Model() == old(o.Model())
    {
      woken := None;
      if queue != [] {
        var (m, t) := queue[0];
        queue := queue[1..];
        var wakes := m.NotifyImpl(t);
        if wakes { woken := Some(t); }
      }
    }

    /* `notify_all`: every waiter of a locked mutex goes to the end of that mutex's queue, in order,
       and every other waiter wakes; nobody is lost and nobody is moved twice. */
    method NotifyAll() returns (woken: seq<nat>)
      modifies this, Mutexes()
      ensures queue == []
      ensures forall m: Mutex | m in old(Mutexes()) ::
                && m.locked == old(m.locked)
                && m.queue == Joined(old(m.Model()), old(queue), |old(queue)|, m)
      ensures woken == TasksIn(old(queue), |old(queue)|, set m | m in old(Mutexes()) && !old(m.locked))
    {
      var waiters := queue;
      ghost var before := map m | m in Mutexes() :: m.Model();
      ghost var free := set m | m in Mutexes() && !m.locked;
      queue := [];
      woken := NotifyEach(waiters, before);
      forall m | m in before { NotifiedQueue(before, waiters, |waiters|, m); }
      NotifiedWoken(before, waiters, |waiters|, free);
    }
  }
}
