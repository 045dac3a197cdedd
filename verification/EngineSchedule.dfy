/**
 The result of a single-threaded program does not depend on the scheduler: any two complete runs
 of the same program decode the same thunks and end with the same values and memory, although
 the decoder may wait for values before it decides what to decode next (src/interp.rs:87-113,
 src/interp.rs:206-226).
 */
module EngineSchedule {
  import opened Wrappers
  import opened Values
  import opened FlatMemory
  import opened Engine
  import opened EngineRuns
  import opened EngineOrder
  import opened EngineRefine

  /* What the decoder does next, given the thunks decoded so far and the values that are Ready:
     decode another thunk, or nothing (it is waiting for a value, or it has returned). */
  type Decoder = (seq<Thunk>, Vals) -> Option<Thunk>

  ghost predicate Below(a: Vals, b: Vals) {
    |a| == |b| && forall i | 0 <= i < |a| && a[i].Some? :: b[i] == a[i]
  }

  /* A decoder is sequential code: further values do not change a decision it could already make. */
  ghost predicate Sequential(dec: Decoder, code: seq<Thunk>) {
    forall n: nat, v, v' | n <= |code| && Below(v, v') && dec(code[..n], v).Some? ::
      dec(code[..n], v') == dec(code[..n], v)
  }

  /* A run of one thread in which every decoded thunk is one the decoder asked for. */
  ghost predicate Follows(s: State, run: seq<Step>, dec: Decoder)
    requires Run(s, run)
    decreases |run|
  {
    run == [] ||
    (&& (run[0].Decode? ==> run[0].tid == 0 && |s.threads| == 1 &&
                            dec(s.threads[0].code, s.threads[0].vals) == Some(run[0].thunk))
     && Follows(Next(s, run[0]), run[1..], dec))
  }

  /* The decoder's answers are the ones it gives on the in-order values. */
  ghost predicate Emitted(dec: Decoder, code: seq<Thunk>, mem0: Flat, n: nat)
    requires CodeOk(code) && n <= |code|
  {
    forall i | 0 <= i < n :: dec(code[..i], Ready(InOrderExec(code, mem0, i).vals)) == Some(code[i])
  }

  /* The values of a prefix of the reference thread. */
  lemma AgreesBelow(code: seq<Thunk>, mem0: Flat, th: Thread)
    requires CodeOk(code) && Agrees(Reference(code, mem0), th)
    ensures Below(th.vals, Ready(InOrderExec(code, mem0, |th.vals|).vals))
  {
    ValsPrefix(code, mem0, |th.vals|, |code|);
  }

  lemma DecodeEmits(th: Thread, thunk: Thunk, dec: Decoder, code: seq<Thunk>, mem0: Flat)
    requires CodeOk(code) && Sequential(dec, code) && th.code + [thunk] <= code
    requires Agrees(Reference(code, mem0), th) && Emitted(dec, code, mem0, |th.code|)
    requires dec(th.code, th.vals) == Some(thunk)
    ensures Emitted(dec, code, mem0, |th.code| + 1)
  {
    var n := |th.code|;
    assert th.code == code[..n] && thunk == code[n];
    AgreesBelow(code, mem0, th);
    assert dec(code[..n], Ready(InOrderExec(code, mem0, n).vals)) == Some(thunk);
  }

  lemma StepEmits(s: State, a: Step, dec: Decoder, code: seq<Thunk>, mem0: Flat)
    requires Enabled(s, a) && |s.threads| <= 1 && |Next(s, a).threads| <= 1
    requires a.Decode? ==> |s.threads| == 1 && a.tid == 0 && dec(s.threads[0].code, s.threads[0].vals) == Some(a.thunk)
    requires CodeOk(code) && Sequential(dec, code) && Only(Next(s, a)).code <= code && Only(s).code <= code
    requires Agrees(Reference(code, mem0), Only(s)) && Emitted(dec, code, mem0, |Only(s).code|)
    ensures Emitted(dec, code, mem0, |Only(Next(s, a)).code|)
  {
    match a
    case Sweep => AllShape(Pass(s, {}, [], false), 0);
    case Decode(_, thunk) => DecodeEmits(s.threads[0], thunk, dec, code, mem0);
    case Spawn =>
    case Resolve(_) =>
  }

  lemma {:induction false} RunEmits(s: State, run: seq<Step>, dec: Decoder, code: seq<Thunk>, mem0: Flat)
    requires StateOk(s) && LogExact(s) && Run(s, run) && Follows(s, run, dec)
    requires Hypotheses(code, mem0) && Sequential(dec, code)
    requires |After(s, run).threads| <= 1 && Only(After(s, run)).code <= code
    requires |s.threads| <= 1 && Refines(code, mem0, Only(s), s.mem) && Emitted(dec, code, mem0, |Only(s).code|)
    ensures Emitted(dec, code, mem0, |Only(After(s, run)).code|)
    decreases |run|
  {
    if run != [] {
      var s1 := Next(s, run[0]);
      RunTail(s, run);
      OnlyGrows(s, s1);
      OnlyGrows(s1, After(s, run));
      StepRefines(s, run[0], code, mem0);
      StepEmits(s, run[0], dec, code, mem0);
      RunEmits(s1, run[1..], dec, code, mem0);
    }
  }

  lemma OnlyGrows(s: State, s': State)
    requires Extends(s, s') && |s'.threads| <= 1
    ensures |s.threads| <= 1 && Only(s).code <= Only(s').code
  {
  }

  lemma StepRefines(s: State, a: Step, code: seq<Thunk>, mem0: Flat)
    requires StateOk(s) && LogExact(s) && Enabled(s, a) && Hypotheses(code, mem0)
    requires |Next(s, a).threads| <= 1 && Only(Next(s, a)).code <= code
    requires |s.threads| <= 1 && Refines(code, mem0, Only(s), s.mem)
    ensures Refines(code, mem0, Only(Next(s, a)), Next(s, a).mem)
  {
    var acts := StepLegal(s, a);
    ActsRefine(s, acts, code, mem0);
  }

  /* A run that has executed everything the decoder asked for, and the decoder asks for no more. */
  ghost predicate Complete(mem: Flat, run: seq<Step>, s: State, dec: Decoder) {
    && Reached(mem, run, s) && |s.threads| == 1
    && Follows(Start(mem), run, dec)
    && Drained(s)
    && dec(s.threads[0].code, s.threads[0].vals).None?
    && Hypotheses(s.threads[0].code, mem) && Sequential(dec, s.threads[0].code)
  }

  lemma CompleteEmits(mem: Flat, run: seq<Step>, s: State, dec: Decoder)
    requires Complete(mem, run, s, dec)
    ensures Emitted(dec, s.threads[0].code, mem, |s.threads[0].code|)
    ensures dec(s.threads[0].code, Ready(InOrderExec(s.threads[0].code, mem, |s.threads[0].code|).vals)).None?
  {
    StartRefines(s.threads[0].code, mem);
    RunEmits(Start(mem), run, dec, s.threads[0].code, mem);
    RunRefines(mem, run, s);
  }

  lemma {:induction false} ExecSamePrefix(c1: seq<Thunk>, c2: seq<Thunk>, mem: Flat, n: nat)
    requires CodeOk(c1) && CodeOk(c2) && n <= |c1| && n <= |c2| && c1[..n] == c2[..n]
    ensures InOrderExec(c1, mem, n) == InOrderExec(c2, mem, n)
  {
    if n > 0 {
      assert c1[..n - 1] == c1[..n][..n - 1] && c2[..n - 1] == c2[..n][..n - 1];
      ExecSamePrefix(c1, c2, mem, n - 1);
      assert c1[n - 1] == c1[..n][n - 1] && c2[n - 1] == c2[..n][n - 1];
    }
  }

  lemma EmittedNext(dec: Decoder, c1: seq<Thunk>, c2: seq<Thunk>, mem: Flat, n: nat)
    requires CodeOk(c1) && CodeOk(c2) && Emitted(dec, c1, mem, |c1|) && Emitted(dec, c2, mem, |c2|)
    requires n < |c1| && n < |c2| && c1[..n] == c2[..n]
    ensures c1[n] == c2[n]
  {
    ExecSamePrefix(c1, c2, mem, n);
    assert dec(c1[..n], Ready(InOrderExec(c1, mem, n).vals)) == Some(c1[n]);
    assert dec(c2[..n], Ready(InOrderExec(c2, mem, n).vals)) == Some(c2[n]);
  }

  /* Two lists of thunks that the decoder produced from in-order values agree as far as both go. */
  lemma {:induction false} EmittedUnique(dec: Decoder, c1: seq<Thunk>, c2: seq<Thunk>, mem: Flat, n: nat)
    requires CodeOk(c1) && CodeOk(c2) && Emitted(dec, c1, mem, |c1|) && Emitted(dec, c2, mem, |c2|)
    requires n <= |c1| && n <= |c2|
    ensures c1[..n] == c2[..n]
  {
    if n > 0 {
      var m := n - 1;
      EmittedUnique(dec, c1, c2, mem, m);
      EmittedNext(dec, c1, c2, mem, m);
      SnocEqual(c1, c2, m, n);
    }
  }

  lemma SnocEqual<T>(a: seq<T>, b: seq<T>, m: nat, n: nat)
    requires n == m + 1 <= |a| && n <= |b| && a[..m] == b[..m] && a[m] == b[m]
    ensures a[..n] == b[..n]
  {
    assert a[..n] == a[..m] + [a[m]] && b[..n] == b[..m] + [b[m]];
  }

  /* A complete list is never a proper prefix of another one. */
  lemma NotShorter(dec: Decoder, c1: seq<Thunk>, c2: seq<Thunk>, mem: Flat)
    requires CodeOk(c1) && CodeOk(c2) && Emitted(dec, c1, mem, |c1|) && Emitted(dec, c2, mem, |c2|)
    requires dec(c1, Ready(InOrderExec(c1, mem, |c1|).vals)).None?
    ensures |c1| >= |c2|
  {
    var n := |c1|;
    assert c1[..n] == c1;
    if n < |c2| {
      EmittedUnique(dec, c1, c2, mem, n);
      ExecSamePrefix(c1, c2, mem, n);
    }
  }

  lemma SameCode(mem: Flat, dec: Decoder, run1: seq<Step>, s1: State, run2: seq<Step>, s2: State)
    requires Complete(mem, run1, s1, dec) && Complete(mem, run2, s2, dec)
    ensures s1.threads[0].code == s2.threads[0].code
  {
    var c1, c2 := s1.threads[0].code, s2.threads[0].code;
    CompleteEmits(mem, run1, s1, dec);
    CompleteEmits(mem, run2, s2, dec);
    NotShorter(dec, c1, c2, mem);
    NotShorter(dec, c2, c1, mem);
    EmittedUnique(dec, c1, c2, mem, |c1|);
    assert c1[..|c1|] == c1 && c2[..|c1|] == c2;
  }

  /* Schedule independence. */
  lemma ScheduleIndependence(mem: Flat, dec: Decoder, run1: seq<Step>, s1: State, run2: seq<Step>, s2: State)
    requires Complete(mem, run1, s1, dec) && Complete(mem, run2, s2, dec)
    ensures s1.threads == s2.threads && s1.mem == s2.mem
  {
    SameCode(mem, dec, run1, s1, run2, s2);
    RunRefines(mem, run1, s1);
    RunRefines(mem, run2, s2);
  }
}
