/**
 What atomic operations of any number of threads guarantee: additions to a counter lose no update,
 and of equal compare-exchanges one wins. The tool is the history of a run: executed one thunk at a
 time from the initial memory, it gives every value and the memory.
 */
module EngineSerial {
  import opened Wrappers
  import opened Values
  import opened FlatMemory
  import opened Engine
  import opened EngineRuns
  import opened EngineOrder
  import opened EngineRefine
  import M = EngineMessage
  import Layouts
  import Bits

  ghost predicate Resolved(f: State, e: Event) {
    M.At(f, e) && Arity(M.Code(f, e)) && DepsReady(Deps(M.Code(f, e)), f.threads[e.tid].vals)
    && f.threads[e.tid].vals[e.pos].Some?
  }

  ghost predicate AllResolved(f: State, log: seq<Event>) {
    forall x | 0 <= x < |log| :: Resolved(f, log[x])
  }

  /* The memory after executing the first n thunks of the history, one at a time. */
  ghost function Serial(f: State, log: seq<Event>, mem: Flat, n: nat): Flat
    requires n <= |log| && AllResolved(f, log)
  {
    if n == 0 then mem
    else
      var e := log[n - 1];
      Perform(M.Code(f, e), M.ArgsIn(f, e), Serial(f, log, mem, n - 1)).1
  }

  /* The n-th thunk of the history has the value that it computes from that memory. */
  ghost predicate SerialValue(f: State, log: seq<Event>, mem: Flat, n: nat)
    requires n < |log| && AllResolved(f, log)
  {
    var e := log[n];
    f.threads[e.tid].vals[e.pos] == Some(Perform(M.Code(f, e), M.ArgsIn(f, e), Serial(f, log, mem, n)).0)
  }

  ghost predicate Explained(s: State, f: State, mem: Flat) {
    && AllResolved(f, s.log)
    && s.mem == Serial(f, s.log, mem, |s.log|)
    && forall n | 0 <= n < |s.log| :: SerialValue(f, s.log, mem, n)
  }

  lemma {:induction false} SerialPrefix(f: State, log: seq<Event>, e: Event, mem: Flat, n: nat)
    requires n <= |log| && AllResolved(f, log + [e])
    ensures AllResolved(f, log) && Serial(f, log + [e], mem, n) == Serial(f, log, mem, n)
  {
    assert forall x | 0 <= x < |log| :: (log + [e])[x] == log[x];
    if n > 0 { SerialPrefix(f, log, e, mem, n - 1); }
  }

  lemma ValueKept(f: State, log: seq<Event>, e: Event, mem: Flat, n: nat)
    requires n < |log| && AllResolved(f, log + [e]) && AllResolved(f, log) && SerialValue(f, log, mem, n)
    ensures SerialValue(f, log + [e], mem, n)
  {
    assert (log + [e])[n] == log[n];
    SerialPrefix(f, log, e, mem, n);
  }

  lemma NewResolved(f: State, log: seq<Event>, e: Event)
    requires AllResolved(f, log) && Resolved(f, e)
    ensures AllResolved(f, log + [e])
  {
  }

  /* The thunk that is resolved now is the next of the serial execution. */
  lemma NextSerial(f: State, log: seq<Event>, e: Event, mem: Flat, n: nat, next: nat)
    requires n == |log| && next == n + 1 && AllResolved(f, log) && Resolved(f, e)
    requires f.threads[e.tid].vals[e.pos] == Some(Perform(M.Code(f, e), M.ArgsIn(f, e), Serial(f, log, mem, n)).0)
    ensures AllResolved(f, log + [e]) && SerialValue(f, log + [e], mem, n)
    ensures Serial(f, log + [e], mem, next) == Perform(M.Code(f, e), M.ArgsIn(f, e), Serial(f, log, mem, n)).1
  {
    NewResolved(f, log, e);
    SerialPrefix(f, log, e, mem, n);
  }

  lemma FireExplained(s: State, f: State, mem: Flat, e: Event)
    requires StateOk(s) && StateOk(f) && MayFire(s, e) && Extends(Fire(s, e), f) && Explained(s, f, mem)
    ensures Explained(Fire(s, e), f, mem)
  {
    M.FiredAs(s, f, e);
    var s1, log, m := Fire(s, e), s.log, |s.log|;
    var log1, m1 := log + [e], m + 1;
    assert Resolved(f, e);
    NextSerial(f, log, e, mem, m, m1);
    assert s1.log == log1 && |log1| == m1;
    assert s1.mem == Serial(f, log1, mem, m1);
    AllValues(f, log, e, log1, mem, m);
  }

  lemma AllValues(f: State, log: seq<Event>, e: Event, log1: seq<Event>, mem: Flat, m: nat)
    requires log1 == log + [e] && m == |log| && AllResolved(f, log) && AllResolved(f, log1)
    requires forall n | 0 <= n < m :: SerialValue(f, log, mem, n)
    requires SerialValue(f, log1, mem, m)
    ensures forall n | 0 <= n < |log1| :: SerialValue(f, log1, mem, n)
  {
    forall n | 0 <= n < |log1| ensures SerialValue(f, log1, mem, n) {
      if n < m { ValueKept(f, log, e, mem, n); }
    }
  }

  lemma {:induction false} ActsExplained(s: State, acts: seq<Act>, mem: Flat)
    requires StateOk(s) && LogExact(s) && Legal(s, acts) && StateOk(Played(s, acts))
    requires Explained(s, Played(s, acts), mem)
    ensures Explained(Played(s, acts), Played(s, acts), mem)
    decreases |acts|
  {
    if acts != [] {
      FirstAct(s, acts);
      if acts[0].Settle? { FireExplained(s, Played(s, acts), mem, acts[0].e); }
      ActsExplained(ActNext(s, acts[0]), acts[1..], mem);
    }
  }

  /* Serial order, for any number of threads and any run: the history lists every Ready thunk once,
     and executing it in that order gives every value and the memory. */
  lemma SerialOrder(mem: Flat, run: seq<Step>, s: State)
    requires Reached(mem, run, s)
    ensures Explained(s, s, mem)
    ensures LogExact(s)
  {
    var acts := RunLegal(Start(mem), run);
    PlayedExtends(Start(mem), acts);
    ActsExplained(Start(mem), acts, mem);
    ActsLogExact(Start(mem), acts);
  }

  // ---------------------------------------------------------------- no update is lost

  /* A counter of n bytes at address a. */
  function Counter(mem: Flat, a: nat, n: nat): nat { LittleEndian(Read(mem, a, n)) }

  function Modulus(n: nat): (r: nat)
    ensures r > 0
  {
    if n == 0 then 1 else 256 * Modulus(n - 1)
  }

  /* A read-modify-write that adds to the counter. */
  ghost predicate IsAdd(f: State, e: Event, a: nat, n: nat)
    requires Resolved(f, e)
  {
    var t := M.Code(f, e);
    && t.Access? && t.op.AtomicRmw? && ByteLen(t.bits) == n && AsU64(M.ArgsIn(f, e)[0]) == a
    && forall current: Value | |current.imp| == n ::
         var r := t.op.oper(current, M.ArgsIn(f, e)[1]);
         && |r.imp| == n
         && LittleEndian(r.imp) == (LittleEndian(current.imp) + LittleEndian(M.ArgsIn(f, e)[1].imp)) % Modulus(n)
  }

  /* An operation that does not write to the counter. */
  ghost predicate Leaves(f: State, e: Event, a: nat, n: nat)
    requires Resolved(f, e)
  {
    var t := M.Code(f, e);
    M.Writer(t) ==> Typed(t, M.ArgsIn(f, e)) && Cells(AsU64(M.ArgsIn(f, e)[0]), ByteLen(t.bits)) * Cells(a, n) == {}
  }

  ghost predicate OnlyAdds(f: State, log: seq<Event>, a: nat, n: nat)
    requires AllResolved(f, log)
  {
    forall x | 0 <= x < |log| :: AddsOrLeaves(f, log[x], a, n)
  }

  ghost predicate AddsOrLeaves(f: State, e: Event, a: nat, n: nat)
    requires Resolved(f, e)
  {
    IsAdd(f, e, a, n) || Leaves(f, e, a, n)
  }

  ghost function Amount(f: State, e: Event, a: nat, n: nat): nat
    requires Resolved(f, e)
  {
    if IsAdd(f, e, a, n) then LittleEndian(M.ArgsIn(f, e)[1].imp) else 0
  }

  /* What the first m thunks of the history add. */
  ghost function Added(f: State, log: seq<Event>, a: nat, n: nat, m: nat): nat
    requires m <= |log| && AllResolved(f, log)
  {
    if m == 0 then 0
    else Added(f, log, a, n, m - 1) + Amount(f, log[m - 1], a, n)
  }

  lemma LeavesBytes(f: State, e: Event, a: nat, n: nat, mem: Flat)
    requires Resolved(f, e) && Leaves(f, e, a, n)
    ensures Read(Perform(M.Code(f, e), M.ArgsIn(f, e), mem).1, a, n) == Read(mem, a, n)
  {
    var t, args := M.Code(f, e), M.ArgsIn(f, e);
    var mem' := Perform(t, args, mem).1;
    if M.Writer(t) {
      forall k | 0 <= k < n ensures Read(mem', a, n)[k] == Read(mem, a, n)[k] {
        assert a + k in Cells(a, n);
        M.Apart(Cells(AsU64(args[0]), ByteLen(t.bits)), Cells(a, n), a + k);
        PerformLocal(t, args, mem, mem, a + k);
      }
    }
  }

  lemma AddsCounter(f: State, e: Event, a: nat, n: nat, mem: Flat)
    requires Resolved(f, e) && IsAdd(f, e, a, n)
    ensures Counter(Perform(M.Code(f, e), M.ArgsIn(f, e), mem).1, a, n) ==
            (Counter(mem, a, n) + LittleEndian(M.ArgsIn(f, e)[1].imp)) % Modulus(n)
  {
    var t, args := M.Code(f, e), M.ArgsIn(f, e);
    var current := LoadValue(mem, a, t.bits);
    var r := t.op.oper(current, args[1]);
    ReadWritten(mem, a, r.imp);
  }

  lemma ReadWritten(mem: Flat, a: nat, bs: seq<byte>)
    ensures Read(Write(mem, a, bs), a, |bs|) == bs
  {
  }

  lemma ModAdd(x: nat, y: nat, m: nat)
    requires m > 0
    ensures (x % m + y) % m == (x + y) % m
  {
    var q, r := Layouts.Parts(x, m);
    var q2, r2 := Layouts.Parts(r + y, m);
    Bits.ModIs(x, m, q, r);
    Bits.ModIs(r + y, m, q2, r2);
    assert x + y == (q + q2) * m + r2;
    Bits.ModIs(x + y, m, q + q2, r2);
  }

  lemma ModTwice(x: nat, m: nat)
    requires m > 0
    ensures x % m % m == x % m
  {
    var q, r := Layouts.Parts(x, m);
    Bits.ModIs(x, m, q, r);
    Bits.ModIs(r, m, 0, r);
  }

  lemma SameSum(x: nat, z: nat, y: nat, m: nat)
    requires m > 0 && x % m == z % m
    ensures (x + y) % m % m == (z + y) % m
  {
    ModAdd(x, y, m);
    ModAdd(z, y, m);
    ModTwice(x + y, m);
  }

  predicate Congruent(x: nat, y: nat, n: nat) { x % Modulus(n) == y % Modulus(n) }

  /* What the counter ought to hold after the first m thunks, if it were unbounded. */
  ghost function Total(f: State, log: seq<Event>, a: nat, n: nat, mem: Flat, m: nat): nat
    requires m <= |log| && AllResolved(f, log)
  {
    Counter(mem, a, n) + Added(f, log, a, n, m)
  }

  ghost predicate CountsAt(f: State, log: seq<Event>, a: nat, n: nat, mem: Flat, m: nat)
    requires m <= |log| && AllResolved(f, log)
  {
    Congruent(Counter(Serial(f, log, mem, m), a, n), Total(f, log, a, n, mem, m), n)
  }

  lemma CountsStep(f: State, log: seq<Event>, a: nat, n: nat, mem: Flat, k: nat, m: nat)
    requires m == k + 1 <= |log| && AllResolved(f, log) && AddsOrLeaves(f, log[k], a, n)
    requires CountsAt(f, log, a, n, mem, k)
    ensures CountsAt(f, log, a, n, mem, m)
  {
    var e, before := log[k], Serial(f, log, mem, k);
    var total, total' := Total(f, log, a, n, mem, k), Total(f, log, a, n, mem, m);
    StepSerial(f, log, mem, k, m);
    StepTotal(f, log, a, n, mem, k, m);
    CountOne(f, e, a, n, before, total, total');
  }

  lemma {:induction false} CountsAdded(f: State, log: seq<Event>, a: nat, n: nat, mem: Flat, m: nat)
    requires m <= |log| && AllResolved(f, log) && OnlyAdds(f, log, a, n)
    ensures CountsAt(f, log, a, n, mem, m)
  {
    if m > 0 {
      var k := m - 1;
      CountsAdded(f, log, a, n, mem, k);
      assert AddsOrLeaves(f, log[k], a, n);
      CountsStep(f, log, a, n, mem, k, m);
    }
  }

  lemma StepSerial(f: State, log: seq<Event>, mem: Flat, k: nat, m: nat)
    requires m == k + 1 <= |log| && AllResolved(f, log)
    ensures Serial(f, log, mem, m) == Perform(M.Code(f, log[k]), M.ArgsIn(f, log[k]), Serial(f, log, mem, k)).1
  {
    assert m - 1 == k;
  }

  lemma StepTotal(f: State, log: seq<Event>, a: nat, n: nat, mem: Flat, k: nat, m: nat)
    requires m == k + 1 <= |log| && AllResolved(f, log)
    ensures Total(f, log, a, n, mem, m) == Total(f, log, a, n, mem, k) + Amount(f, log[k], a, n)
  {
    assert m - 1 == k;
  }

  lemma CountOne(f: State, e: Event, a: nat, n: nat, before: Flat, total: nat, total': nat)
    requires Resolved(f, e) && AddsOrLeaves(f, e, a, n)
    requires Congruent(Counter(before, a, n), total, n) && total' == total + Amount(f, e, a, n)
    ensures Congruent(Counter(Perform(M.Code(f, e), M.ArgsIn(f, e), before).1, a, n), total', n)
  {
    if IsAdd(f, e, a, n) {
      AddsCounter(f, e, a, n, before);
      SameSum(Counter(before, a, n), total, LittleEndian(M.ArgsIn(f, e)[1].imp), Modulus(n));
    } else {
      LeavesBytes(f, e, a, n, before);
    }
  }

  /* No lost updates: when the counter is only ever changed by atomic additions, from however many
     threads, it holds the initial number plus everything added by the resolved ones, modulo its width. */
  lemma NoLostUpdates(mem: Flat, run: seq<Step>, s: State, a: nat, n: nat)
    requires Reached(mem, run, s)
    requires AllResolved(s, s.log) && OnlyAdds(s, s.log, a, n)
    ensures Congruent(Counter(s.mem, a, n), Total(s, s.log, a, n, mem, |s.log|), n)
  {
    SerialOrder(mem, run, s);
    CountsAdded(s, s.log, a, n, mem, |s.log|);
  }

  /* Each addition returns the number that its turn finds: the initial number plus what the earlier ones
     of the history have added, modulo the width. */
  lemma AddReturns(mem: Flat, run: seq<Step>, s: State, a: nat, n: nat, x: nat)
    requires Reached(mem, run, s) && AllResolved(s, s.log) && OnlyAdds(s, s.log, a, n)
    requires x < |s.log| && IsAdd(s, s.log[x], a, n)
    ensures var v := s.threads[s.log[x].tid].vals[s.log[x].pos].value;
            |v.imp| == n && Congruent(LittleEndian(v.imp), Total(s, s.log, a, n, mem, x), n)
  {
    SerialOrder(mem, run, s);
    CountsAdded(s, s.log, a, n, mem, x);
    assert SerialValue(s, s.log, mem, x);
  }

  // ---------------------------------------------------------------- one compare-exchange wins

  /* A compare-exchange of the n bytes at a from `expected` to `replacement`. */
  ghost predicate IsCas(f: State, e: Event, a: nat, n: nat, expected: Value, replacement: seq<byte>)
    requires Resolved(f, e)
  {
    var t := M.Code(f, e);
    && t.Access? && t.op.CmpXchg? && t.bits == expected.bits && ByteLen(t.bits) == n == |replacement|
    && AsU64(M.ArgsIn(f, e)[0]) == a && M.ArgsIn(f, e)[1] == expected && M.ArgsIn(f, e)[2].imp == replacement
  }

  ghost predicate OnlyCas(f: State, log: seq<Event>, a: nat, n: nat, expected: Value, replacement: seq<byte>)
    requires AllResolved(f, log)
  {
    forall x | 0 <= x < |log| :: IsCas(f, log[x], a, n, expected, replacement) || Leaves(f, log[x], a, n)
  }

  lemma CasFails(f: State, e: Event, a: nat, n: nat, expected: Value, replacement: seq<byte>, mem: Flat)
    requires Resolved(f, e) && IsCas(f, e, a, n, expected, replacement)
    requires Read(mem, a, n) == replacement != expected.imp
    ensures Perform(M.Code(f, e), M.ArgsIn(f, e), mem) ==
            (M.Code(f, e).op.pack(Value(replacement, expected.bits), false), mem)
  {
  }

  lemma CasWins(f: State, e: Event, a: nat, n: nat, expected: Value, replacement: seq<byte>, mem: Flat)
    requires Resolved(f, e) && IsCas(f, e, a, n, expected, replacement)
    requires Read(mem, a, n) == expected.imp
    ensures Perform(M.Code(f, e), M.ArgsIn(f, e), mem).0 == M.Code(f, e).op.pack(expected, true)
    ensures Read(Perform(M.Code(f, e), M.ArgsIn(f, e), mem).1, a, n) == replacement
  {
    assert Read(Write(mem, a, replacement), a, n) == replacement;
  }

  /* Once the bytes are replaced they stay so. */
  lemma {:induction false} CasStays(f: State, log: seq<Event>, mem: Flat, a: nat, n: nat,
      expected: Value, replacement: seq<byte>, k: nat, m: nat)
    requires k <= m <= |log| && AllResolved(f, log) && OnlyCas(f, log, a, n, expected, replacement)
    requires Read(Serial(f, log, mem, k), a, n) == replacement != expected.imp
    ensures Read(Serial(f, log, mem, m), a, n) == replacement
    decreases m - k
  {
    if k < m {
      var l := m - 1;
      CasStays(f, log, mem, a, n, expected, replacement, k, l);
      CasStep(f, log, mem, a, n, expected, replacement, l, m);
    }
  }

  lemma CasStep(f: State, log: seq<Event>, mem: Flat, a: nat, n: nat,
      expected: Value, replacement: seq<byte>, l: nat, m: nat)
    requires m == l + 1 <= |log| && AllResolved(f, log) && OnlyCas(f, log, a, n, expected, replacement)
    requires Read(Serial(f, log, mem, l), a, n) == replacement != expected.imp
    ensures Read(Serial(f, log, mem, m), a, n) == replacement
  {
    StepSerial(f, log, mem, l, m);
    CasKeeps(f, log[l], a, n, expected, replacement, Serial(f, log, mem, l));
  }

  lemma CasKeeps(f: State, e: Event, a: nat, n: nat, expected: Value, replacement: seq<byte>, mem: Flat)
    requires Resolved(f, e) && (IsCas(f, e, a, n, expected, replacement) || Leaves(f, e, a, n))
    requires Read(mem, a, n) == replacement != expected.imp
    ensures Read(Perform(M.Code(f, e), M.ArgsIn(f, e), mem).1, a, n) == replacement
  {
    if IsCas(f, e, a, n, expected, replacement) { CasFails(f, e, a, n, expected, replacement, mem); }
    else { LeavesBytes(f, e, a, n, mem); }
  }

  /* Of several compare-exchanges with the same arguments, from any threads, the first that finds the
     expected bytes returns success and every later one returns the replacement and failure. */
  lemma OneCasWins(mem: Flat, run: seq<Step>, s: State, a: nat, n: nat,
      expected: Value, replacement: seq<byte>, x: nat, y: nat)
    requires Reached(mem, run, s) && AllResolved(s, s.log) && OnlyCas(s, s.log, a, n, expected, replacement)
    requires x < y < |s.log| && replacement != expected.imp
    requires IsCas(s, s.log[x], a, n, expected, replacement) && IsCas(s, s.log[y], a, n, expected, replacement)
    requires Read(Serial(s, s.log, mem, x), a, n) == expected.imp
    ensures var (e, d) := (s.log[x], s.log[y]);
            && s.threads[e.tid].vals[e.pos] == Some(M.Code(s, e).op.pack(expected, true))
            && s.threads[d.tid].vals[d.pos] == Some(M.Code(s, d).op.pack(Value(replacement, expected.bits), false))
  {
    SerialOrder(mem, run, s);
    var next := x + 1;
    CasWins(s, s.log[x], a, n, expected, replacement, Serial(s, s.log, mem, x));
    StepSerial(s, s.log, mem, x, next);
    CasStays(s, s.log, mem, a, n, expected, replacement, next, y);
    CasFails(s, s.log[y], a, n, expected, replacement, Serial(s, s.log, mem, y));
    assert SerialValue(s, s.log, mem, x) && SerialValue(s, s.log, mem, y);
  }
}
