/**
 What every run of the process keeps, for any number of threads and any choice of offered
 operations: release safety, the acquire barrier, coherence of one thread's accesses to the
 same bytes, and release/acquire synchronisation.
 */
module EngineOrder {
  import opened Wrappers
  import opened Values
  import opened FlatMemory
  import opened Engine
  import opened EngineRuns

  // ---------------------------------------------------------------- the history

  /* Wherever b stands in the history, a stands before it. */
  ghost predicate Precedes(log: seq<Event>, a: Event, b: Event) {
    forall y | 0 <= y < |log| && log[y] == b :: a in log[..y]
  }

  ghost predicate Valued(s: State, e: Event) {
    e.tid < |s.threads| && e.pos < |s.threads[e.tid].vals| && s.threads[e.tid].vals[e.pos].Some?
  }

  /* The history lists exactly the Ready thunks, each once. */
  ghost predicate LogExact(s: State) {
    && (forall e :: e in s.log <==> Valued(s, e))
    && (forall x, y | 0 <= x < y < |s.log| :: s.log[x] != s.log[y])
  }

  lemma FireLogExact(s: State, e: Event)
    requires CanFire(s, e) && LogExact(s)
    ensures LogExact(Fire(s, e))
  {
    var s' := Fire(s, e);
    forall d ensures d in s'.log <==> Valued(s', d) {
      assert d in s.log <==> Valued(s, d);
    }
    assert !Valued(s, e);
  }

  lemma ActLogExact(s: State, a: Act)
    requires StateOk(s) && ActOk(s, a) && LogExact(s)
    ensures LogExact(ActNext(s, a))
  {
    if a.Settle? {
      FireLogExact(s, a.e);
    } else {
      var s' := ActNext(s, a);
      forall e ensures e in s'.log <==> Valued(s', e) {
        assert e in s.log <==> Valued(s, e);
      }
    }
  }

  /* How a list of single actions is taken apart: the first action leads to a state with the
     same invariants, and the end of the list extends it. */
  lemma FirstAct(s: State, acts: seq<Act>)
    requires StateOk(s) && LogExact(s) && Legal(s, acts) && acts != []
    ensures var s1 := ActNext(s, acts[0]);
            && StateOk(s1) && LogExact(s1) && Legal(s1, acts[1..]) && Extends(s, s1)
            && Played(s1, acts[1..]) == Played(s, acts)
            && Extends(s1, Played(s, acts)) && Extends(s, Played(s, acts))
  {
    ActExtends(s, acts[0]);
    ActLogExact(s, acts[0]);
    PlayedExtends(ActNext(s, acts[0]), acts[1..]);
    PlayedExtends(s, acts);
  }

  lemma {:induction false} ActsLogExact(s: State, acts: seq<Act>)
    requires StateOk(s) && LogExact(s) && Legal(s, acts)
    ensures LogExact(Played(s, acts))
    decreases |acts|
  {
    if acts != [] {
      FirstAct(s, acts);
      ActsLogExact(ActNext(s, acts[0]), acts[1..]);
    }
  }

  lemma ActPrecedes(s: State, act: Act, a: Event, b: Event)
    requires ActOk(s, act) && Precedes(s.log, a, b)
    requires act.Settle? && act.e == b ==> a in s.log
    ensures Precedes(ActNext(s, act).log, a, b)
  {
    var log' := ActNext(s, act).log;
    forall y | 0 <= y < |log'| && log'[y] == b ensures a in log'[..y] {
      if y < |s.log| { assert log'[..y] == s.log[..y]; } else { assert log'[..y] == s.log; }
    }
  }

  /* The same for runs. */
  lemma RunTail(s: State, run: seq<Step>)
    requires StateOk(s) && LogExact(s) && Run(s, run) && run != []
    ensures var s1 := Next(s, run[0]);
            StateOk(s1) && LogExact(s1) && Extends(s, s1) && Extends(s1, After(s, run))
  {
    var acts := StepLegal(s, run[0]);
    PlayedExtends(s, acts);
    ActsLogExact(s, acts);
    var rest := RunLegal(Next(s, run[0]), run[1..]);
    PlayedExtends(Next(s, run[0]), rest);
  }

  // ---------------------------------------------------------------- when j must come before i

  ghost predicate ReleaseWaits(th: Thread, i: nat)
    requires i < |th.code|
  {
    th.code[i].Access? && th.code[i].order.Release?
  }

  /* Access j stops i, and nothing that hides j from the pass lets i through. */
  ghost predicate Blocks(th: Thread, j: nat, i: nat)
    requires j < i < |th.code|
  {
    th.code[j].Access? && Stops(th, j, i) && forall k :: !Bridges(th, k, j, i)
  }

  /* Read off the final state of the thread: i waits for j. */
  ghost predicate MustWait(th: Thread, j: nat, i: nat) {
    j < i < |th.code| && (ReleaseWaits(th, i) || Blocks(th, j, i))
  }

  lemma {:induction false} WaitsInActs(s: State, acts: seq<Act>, t: nat, j: nat, i: nat)
    requires StateOk(s) && LogExact(s) && Legal(s, acts)
    requires t < |Played(s, acts).threads| && MustWait(Played(s, acts).threads[t], j, i)
    requires Precedes(s.log, Event(t, j), Event(t, i))
    ensures Precedes(Played(s, acts).log, Event(t, j), Event(t, i))
    decreases |acts|
  {
    if acts != [] {
      FirstAct(s, acts);
      if acts[0].Settle? && acts[0].e == Event(t, i) {
        WaitsNow(s, Played(s, acts), t, j, i);
      }
      ActPrecedes(s, acts[0], Event(t, j), Event(t, i));
      WaitsInActs(ActNext(s, acts[0]), acts[1..], t, j, i);
    }
  }

  lemma WaitsNow(s: State, f: State, t: nat, j: nat, i: nat)
    requires StateOk(s) && LogExact(s) && Extends(s, f)
    requires t < |f.threads| && MustWait(f.threads[t], j, i) && MayFire(s, Event(t, i))
    ensures Event(t, j) in s.log
  {
    var th, thf := s.threads[t], f.threads[t];
    assert ThreadExtends(th, thf);
    if Unresolved(th, j) {
      assert MayOvertake(th, i, j);
      assert !ReleaseWaits(thf, i);
      SpanStable(th, thf, j);
      if th.code[i].Access? {
        assert Deps(th.code[i])[0] == th.code[i].address;
        SpanStable(th, thf, i);
      }
      var k: nat :| Bridges(th, k, j, i);
      SpanStable(th, thf, k);
      assert Bridges(thf, k, j, i);
      assert false;
    }
    assert Valued(s, Event(t, j));
  }

  /* In every run, and whatever other threads do, i becomes Ready only after j. */
  lemma WaitsInRun(mem: Flat, run: seq<Step>, t: nat, j: nat, i: nat)
    requires Run(Start(mem), run)
    requires t < |After(Start(mem), run).threads| && MustWait(After(Start(mem), run).threads[t], j, i)
    ensures Precedes(After(Start(mem), run).log, Event(t, j), Event(t, i))
  {
    var acts := RunLegal(Start(mem), run);
    WaitsInActs(Start(mem), acts, t, j, i);
  }

  // ---------------------------------------------------------------- the ordering theorems

  ghost predicate Reached(mem: Flat, run: seq<Step>, s: State) {
    Run(Start(mem), run) && After(Start(mem), run) == s
  }

  /* Release safety: a Release operation is resolved only after every earlier thunk of its
     thread, although `step_pure` only looks at whether anything was offered so far. */
  lemma ReleaseSafety(mem: Flat, run: seq<Step>, s: State, t: nat, j: nat, r: nat)
    requires Reached(mem, run, s) && t < |s.threads| && j < r < |s.threads[t].code|
    requires ReleaseWaits(s.threads[t], r)
    ensures Precedes(s.log, Event(t, j), Event(t, r))
  {
    WaitsInRun(mem, run, t, j, r);
  }

  /* An acquire that no earlier access of its thread, other than an acquire, overlaps. */
  ghost predicate AcquireHolds(th: Thread, a: nat)
    requires a < |th.code|
  {
    Acquiring(th.code[a]) && forall k :: !Aliases(th, k, a)
  }

  /* Nothing after such an acquire is resolved before it. */
  lemma AcquireFirst(mem: Flat, run: seq<Step>, s: State, t: nat, a: nat, k: nat)
    requires Reached(mem, run, s) && t < |s.threads| && a < k < |s.threads[t].code|
    requires AcquireHolds(s.threads[t], a)
    ensures Precedes(s.log, Event(t, a), Event(t, k))
  {
    assert forall x :: !Bridges(s.threads[t], x, a, k);
    WaitsInRun(mem, run, t, a, k);
  }

  /* Acquire barrier: an Acquire, AcqRel or SeqCst operation is resolved before everything after it,
     unless an earlier plain, Relaxed or Release access of its thread touches the same bytes. */
  lemma AcquireBarrier(mem: Flat, run: seq<Step>, s: State, t: nat, a: nat, k: nat)
    requires Reached(mem, run, s) && t < |s.threads| && a < k < |s.threads[t].code|
    requires s.threads[t].code[a].Access? && s.threads[t].code[a].order in {Acquire, AcqRel, SeqCst}
    requires forall x | 0 <= x < a && Known(s.threads[t], x) && Overlap(s.threads[t], x, a) ::
               s.threads[t].code[x].order in {Acquire, AcqRel, SeqCst}
    ensures Precedes(s.log, Event(t, a), Event(t, k))
  {
    AcquireFirst(mem, run, s, t, a, k);
  }

  /* Coherence: two accesses of one thread, the later of which covers the earlier, are resolved
     in program order, whatever their orderings and whatever else overlaps them. */
  lemma Coherence(mem: Flat, run: seq<Step>, s: State, t: nat, j: nat, i: nat)
    requires Reached(mem, run, s) && t < |s.threads| && j < i < |s.threads[t].code|
    requires Known(s.threads[t], j) && Known(s.threads[t], i)
    requires Span(s.threads[t], j) != {} && Span(s.threads[t], j) <= Span(s.threads[t], i)
    ensures Precedes(s.log, Event(t, j), Event(t, i))
  {
    var th := s.threads[t];
    assert Span(th, j) * Span(th, i) == Span(th, j);
    forall k ensures !Bridges(th, k, j, i) {
      if Aliases(th, k, j) {
        var c :| c in Span(th, k) * Span(th, j);
        assert c in Span(th, k) * Span(th, i);
      }
    }
    assert Blocks(th, j, i);
    WaitsInRun(mem, run, t, j, i);
  }

  /* With ranges that are pairwise disjoint or equal, every overlapping pair is in order. */
  lemma CoherenceDisjointOrEqual(mem: Flat, run: seq<Step>, s: State, t: nat, j: nat, i: nat)
    requires Reached(mem, run, s) && t < |s.threads| && j < i < |s.threads[t].code|
    requires forall x, y | 0 <= x < y < |s.threads[t].code| && Overlap(s.threads[t], x, y) ::
               Span(s.threads[t], x) == Span(s.threads[t], y)
    requires Overlap(s.threads[t], j, i)
    ensures Precedes(s.log, Event(t, j), Event(t, i))
  {
    Coherence(mem, run, s, t, j, i);
  }

  /* Release/acquire synchronisation: if a Release of one thread is resolved before an acquire of
     another, everything before the Release is resolved before everything after the acquire. */
  lemma Synchronises(mem: Flat, run: seq<Step>, s: State, t1: nat, j: nat, r: nat, t2: nat, a: nat, k: nat)
    requires Reached(mem, run, s)
    requires t1 < |s.threads| && j < r < |s.threads[t1].code| && ReleaseWaits(s.threads[t1], r)
    requires t2 < |s.threads| && a < k < |s.threads[t2].code| && AcquireHolds(s.threads[t2], a)
    requires Precedes(s.log, Event(t1, r), Event(t2, a))
    ensures Precedes(s.log, Event(t1, j), Event(t2, k))
  {
    ReleaseSafety(mem, run, s, t1, j, r);
    AcquireFirst(mem, run, s, t2, a, k);
    PrecedesTransitive(s.log, Event(t1, j), Event(t1, r), Event(t2, a));
    PrecedesTransitive(s.log, Event(t1, j), Event(t2, a), Event(t2, k));
  }

  lemma PrecedesTransitive(log: seq<Event>, a: Event, b: Event, c: Event)
    requires Precedes(log, a, b) && Precedes(log, b, c)
    ensures Precedes(log, a, c)
  {
    forall z | 0 <= z < |log| && log[z] == c ensures a in log[..z] {
      assert b in log[..z];
      var y :| 0 <= y < z && log[..z][y] == b;
      assert a in log[..y];
      var x :| 0 <= x < y && log[..y][x] == a;
      assert log[..z][x] == a;
    }
  }
}
