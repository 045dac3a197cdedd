/**
 Progress and termination of `Process::step` (src/process.rs:97-123) for a fixed decoded stream:
 the number of unresolved thunks goes down with every pass that reports progress and with every
 resolved operation, and until it is zero one of the two is possible.
 */
module EngineProgress {
  import opened Wrappers
  import opened Values
  import opened Engine
  import opened EngineRuns

  ghost function Missing(vals: Vals): nat {
    if vals == [] then 0 else (if vals[0].None? then 1 else 0) + Missing(vals[1..])
  }

  ghost function MissingIn(threads: seq<Thread>): nat {
    if threads == [] then 0 else Missing(threads[0].vals) + MissingIn(threads[1..])
  }

  /* The unresolved thunks of the whole process. */
  ghost function Left(s: State): nat { MissingIn(s.threads) }

  lemma {:induction false} MissingSet(vals: Vals, i: nat, v: Value)
    requires i < |vals| && vals[i].None?
    ensures Missing(vals[i := Some(v)]) == Missing(vals) - 1
  {
    if i > 0 {
      MissingSet(vals[1..], i - 1, v);
      assert vals[i := Some(v)][1..] == vals[1..][i - 1 := Some(v)];
    } else {
      assert vals[i := Some(v)][1..] == vals[1..];
    }
  }

  lemma {:induction false} MissingInSet(threads: seq<Thread>, t: nat, th: Thread)
    requires t < |threads|
    ensures MissingIn(threads[t := th]) == MissingIn(threads) - Missing(threads[t].vals) + Missing(th.vals)
  {
    if t > 0 {
      MissingInSet(threads[1..], t - 1, th);
      assert threads[t := th][1..] == threads[1..][t - 1 := th];
    } else {
      assert threads[t := th][1..] == threads[1..];
    }
  }

  lemma FireLeft(s: State, e: Event)
    requires CanFire(s, e)
    ensures Left(Fire(s, e)) == Left(s) - 1
  {
    var th, th' := s.threads[e.tid], Fire(s, e).threads[e.tid];
    MissingSet(th.vals, e.pos, th'.vals[e.pos].value);
    MissingInSet(s.threads, e.tid, th');
  }

  lemma {:induction false} ActsLeft(s: State, acts: seq<Act>)
    requires Legal(s, acts) && AllSettle(acts)
    ensures Left(Played(s, acts)) == Left(s) - |acts|
    decreases |acts|
  {
    if acts != [] {
      FireLeft(s, acts[0].e);
      ActsLeft(ActNext(s, acts[0]), acts[1..]);
    }
  }

  /* A pass that reports progress resolved something; one that does not changed nothing. */
  lemma SweepLeft(s: State)
    requires StateOk(s)
    ensures if PassAll(s).progress then Left(PassAll(s).st) < Left(s) else PassAll(s).st == s
  {
    var acts := PassAllLegal(s);
    ActsLeft(s, acts);
    if !PassAll(s).progress { PassAllQuiet(s); }
  }

  /* A turn of the loop with progress, or the resolution that ends the loop. */
  ghost predicate Works(s: State, a: Step) {
    Enabled(s, a) && (a.Resolve? || (a.Sweep? && PassAll(s).progress))
  }

  ghost predicate Busy(s: State, run: seq<Step>)
    decreases |run|
  {
    run == [] || (Works(s, run[0]) && Busy(Next(s, run[0]), run[1..]))
  }

  lemma WorksLeft(s: State, a: Step)
    requires StateOk(s) && Works(s, a)
    ensures StateOk(Next(s, a)) && Left(Next(s, a)) < Left(s)
  {
    var acts := StepLegal(s, a);
    PlayedExtends(s, acts);
    if a.Sweep? { SweepLeft(s); } else { FireLeft(s, a.e); }
  }

  lemma {:induction false} BusyRuns(s: State, run: seq<Step>)
    requires Busy(s, run)
    ensures Run(s, run)
    decreases |run|
  {
    if run != [] { BusyRuns(Next(s, run[0]), run[1..]); }
  }

  /* The whole run ends: without further decoding there are at most as many turns and resolutions
     as there are unresolved thunks. */
  lemma {:induction false} BusyBound(s: State, run: seq<Step>)
    requires StateOk(s) && Busy(s, run)
    ensures Run(s, run) && |run| + Left(After(s, run)) <= Left(s)
    decreases |run|
  {
    BusyRuns(s, run);
    if run != [] {
      WorksLeft(s, run[0]);
      BusyBound(Next(s, run[0]), run[1..]);
    }
  }

  /* The process never gets stuck: while a thunk is unresolved, the pass makes progress or the
     first offered operation can be resolved. */
  lemma NeverStuck(s: State)
    requires StateOk(s) && !Drained(s)
    ensures Works(s, Sweep) || (PassAll(s).offered != [] && Works(s, Resolve(PassAll(s).offered[0])))
  {
    if !PassAll(s).progress {
      PassAllQuiet(s);
      assert PassAll(s).offered[0] in PassAll(s).offered;
    }
  }

  /* Hence always taking the first offered operation drains every queue. */
  lemma {:induction false} Drains(s: State) returns (run: seq<Step>)
    requires StateOk(s)
    ensures Busy(s, run) && Run(s, run) && Drained(After(s, run))
    decreases Left(s)
  {
    run := [];
    if !Drained(s) {
      NeverStuck(s);
      var a := if Works(s, Sweep) then Sweep else Resolve(PassAll(s).offered[0]);
      WorksLeft(s, a);
      var rest := Drains(Next(s, a));
      run := [a] + rest;
      assert run[1..] == rest;
    }
  }
}
