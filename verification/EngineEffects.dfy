/**
 What resolving a thunk does, byte by byte: src/data.rs:247-271 and src/flow.rs:148-221. First for one
 resolution in any state, then for every thunk of the history of a run.
 */
module EngineEffects {
  import opened Wrappers
  import opened Values
  import opened FlatMemory
  import opened Engine
  import opened EngineRuns
  import opened EngineOrder
  import opened EngineSerial
  import M = EngineMessage

  // ---------------------------------------------------------------- operands and bytes

  /* v is the operand: the constant, or the value of the earlier thunk. */
  predicate OperandIs(d: Dep, vals: Vals, v: Value) {
    match d
    case Const(c) => v == c
    case Ref(j) => j < |vals| && vals[j] == Some(v)
  }

  ghost predicate OperandsAre(ds: seq<Dep>, vals: Vals, args: seq<Value>) {
    |args| == |ds| && forall k | 0 <= k < |ds| :: OperandIs(ds[k], vals, args[k])
  }

  /* From address a on memory has these bytes; what was never stored is zero. */
  ghost predicate Has(m: Flat, a: nat, bs: seq<byte>) {
    forall k | 0 <= k < |bs| :: bs[k] == if a + k in m then m[a + k] else 0
  }

  /* m' is m with these bytes from address a on, and nothing else changed. */
  ghost predicate Overwritten(m: Flat, m': Flat, a: nat, bs: seq<byte>) {
    && (forall k | 0 <= k < |bs| :: a + k in m' && m'[a + k] == bs[k])
    && forall c: nat | c < a || a + |bs| <= c :: (c in m' <==> c in m) && (c in m ==> m'[c] == m[c])
  }

  /* What an access of so many bits finds at a. */
  ghost predicate Found(m: Flat, a: nat, bits: nat, v: Value) {
    v.bits == bits && 8 * |v.imp| >= bits && 8 * |v.imp| < bits + 8 && Has(m, a, v.imp)
  }

  lemma LoadFinds(m: Flat, a: nat, bits: nat)
    ensures Found(m, a, bits, LoadValue(m, a, bits))
    ensures forall v | Found(m, a, bits, v) :: v == LoadValue(m, a, bits)
  {
    var w := LoadValue(m, a, bits);
    forall v | Found(m, a, bits, v) ensures v == w {
      assert |v.imp| == |w.imp|;
      assert forall k | 0 <= k < |v.imp| :: v.imp[k] == w.imp[k];
    }
  }

  lemma WriteOverwrites(m: Flat, a: nat, bs: seq<byte>)
    ensures Overwritten(m, Write(m, a, bs), a, bs)
  {
  }

  // ---------------------------------------------------------------- the closures

  /* A compare-exchange that finds what it expects stores the replacement and reports success; one
     that finds anything else stores nothing and reports what it found. */
  ghost predicate CasDoes(t: Thunk, a: nat, expected: Value, replacement: Value, m: Flat, v: Value, m': Flat)
    requires t.Access? && t.op.CmpXchg?
  {
    exists found :: Found(m, a, t.bits, found) &&
      if found == expected then v == t.op.pack(expected, true) && Overwritten(m, m', a, replacement.imp)
      else v == t.op.pack(found, false) && m' == m
  }

  /* A read-modify-write returns what it found and stores the result of its operation. */
  ghost predicate RmwDoes(t: Thunk, a: nat, operand: Value, m: Flat, v: Value, m': Flat)
    requires t.Access? && t.op.AtomicRmw?
  {
    Found(m, a, t.bits, v) && Overwritten(m, m', a, t.op.oper(v, operand).imp)
  }

  lemma PerformCas(t: Thunk, args: seq<Value>, m: Flat)
    requires Arity(t) && |args| == |Deps(t)| && t.Access? && t.op.CmpXchg?
    ensures CasDoes(t, AsU64(args[0]), args[1], args[2], m, Perform(t, args, m).0, Perform(t, args, m).1)
  {
    var a := AsU64(args[0]);
    LoadFinds(m, a, t.bits);
    WriteOverwrites(m, a, args[2].imp);
    assert Found(m, a, t.bits, LoadValue(m, a, t.bits));
  }

  lemma PerformRmw(t: Thunk, args: seq<Value>, m: Flat)
    requires Arity(t) && |args| == |Deps(t)| && t.Access? && t.op.AtomicRmw?
    ensures RmwDoes(t, AsU64(args[0]), args[1], m, Perform(t, args, m).0, Perform(t, args, m).1)
  {
    var a := AsU64(args[0]);
    LoadFinds(m, a, t.bits);
    WriteOverwrites(m, a, t.op.oper(LoadValue(m, a, t.bits), args[1]).imp);
  }

  /* What running the closure of a thunk does to memory m, and its value. */
  ghost predicate Does(t: Thunk, args: seq<Value>, m: Flat, v: Value, m': Flat)
    requires Arity(t) && |args| == |Deps(t)|
  {
    match t
    case Pure(_, compute) => v == compute(args) && m' == m
    case Access(_, _, bits, _, op) =>
      var a := AsU64(args[0]);
      match op
      case Load => Found(m, a, bits, v) && m' == m
      case Store => v == Value([], 0) && Overwritten(m, m', a, args[1].imp)
      case CmpXchg(_) => CasDoes(t, a, args[1], args[2], m, v, m')
      case AtomicRmw(_) => RmwDoes(t, a, args[1], m, v, m')
  }

  lemma PerformDoes(t: Thunk, args: seq<Value>, m: Flat)
    requires Arity(t) && |args| == |Deps(t)|
    ensures Does(t, args, m, Perform(t, args, m).0, Perform(t, args, m).1)
  {
    match t
    case Pure(_, _) =>
    case Access(_, _, bits, _, op) =>
      match op
      case Load => LoadFinds(m, AsU64(args[0]), bits);
      case Store => WriteOverwrites(m, AsU64(args[0]), args[1].imp);
      case CmpXchg(_) => PerformCas(t, args, m);
      case AtomicRmw(_) => PerformRmw(t, args, m);
  }

  // ---------------------------------------------------------------- which accesses overlap

  /* The address range of an access. */
  predicate Touches(address: Value, bits: nat, c: nat) {
    AsU64(address) <= c < AsU64(address) + (bits + 7) / 8
  }

  ghost predicate Meet(a: Value, bitsA: nat, b: Value, bitsB: nat) {
    exists c: nat :: Touches(a, bitsA, c) && Touches(b, bitsB, c)
  }

  lemma SpanIs(th: Thread, i: nat, address: Value, c: nat)
    requires i < |th.code| && th.code[i].Access? && OperandIs(th.code[i].address, th.vals, address)
    ensures Known(th, i) && (c in Span(th, i) <==> Touches(address, th.code[i].bits, c))
  {
  }

  /* Two accesses are aliases exactly when their address ranges have a byte in common. */
  lemma OverlapExact(th: Thread, i: nat, j: nat, a: Value, b: Value)
    requires i < |th.code| && th.code[i].Access? && OperandIs(th.code[i].address, th.vals, a)
    requires j < |th.code| && th.code[j].Access? && OperandIs(th.code[j].address, th.vals, b)
    ensures Overlap(th, i, j) <==> Meet(a, th.code[i].bits, b, th.code[j].bits)
  {
    if Overlap(th, i, j) {
      var c :| c in Span(th, i) * Span(th, j);
      SpanIs(th, i, a, c);
      SpanIs(th, j, b, c);
    }
    if Meet(a, th.code[i].bits, b, th.code[j].bits) {
      var c: nat :| Touches(a, th.code[i].bits, c) && Touches(b, th.code[j].bits, c);
      SpanIs(th, i, a, c);
      SpanIs(th, j, b, c);
      assert c in Span(th, i) * Span(th, j);
    }
  }

  // ---------------------------------------------------------------- one resolution

  /* The value that e gets. */
  ghost function Result(s: State, e: Event): Value
    requires CanFire(s, e)
  {
    Fire(s, e).threads[e.tid].vals[e.pos].value
  }

  /* Only the thunk itself becomes Ready, and it is the last of the history. */
  lemma FireFrame(s: State, e: Event)
    requires CanFire(s, e)
    ensures var s' := Fire(s, e);
            && |s'.threads| == |s.threads| && s'.log == s.log + [e]
            && (forall u | 0 <= u < |s.threads| && u != e.tid :: s'.threads[u] == s.threads[u])
            && s'.threads[e.tid].code == s.threads[e.tid].code
            && s'.threads[e.tid].vals == s.threads[e.tid].vals[e.pos := Some(Result(s, e))]
  {
  }

  lemma ArgsAre(s: State, e: Event, args: seq<Value>)
    requires CanFire(s, e)
    requires OperandsAre(Deps(s.threads[e.tid].code[e.pos]), s.threads[e.tid].vals, args)
    ensures Args(Deps(s.threads[e.tid].code[e.pos]), s.threads[e.tid].vals) == args
  {
  }

  /* A thunk without memory access computes its value from its operands, in their order. */
  lemma FirePure(s: State, e: Event, args: seq<Value>)
    requires CanFire(s, e) && s.threads[e.tid].code[e.pos].Pure?
    requires OperandsAre(s.threads[e.tid].code[e.pos].deps, s.threads[e.tid].vals, args)
    ensures Result(s, e) == s.threads[e.tid].code[e.pos].compute(args) && Fire(s, e).mem == s.mem
  {
    ArgsAre(s, e, args);
  }

  /* The operands of an access. */
  ghost predicate AccessAt(s: State, e: Event, address: Value, args: seq<Value>)
    requires CanFire(s, e)
  {
    var t := s.threads[e.tid].code[e.pos];
    t.Access? && OperandIs(t.address, s.threads[e.tid].vals, address)
    && OperandsAre(t.operands, s.threads[e.tid].vals, args)
  }

  lemma AccessArgs(s: State, e: Event, address: Value, args: seq<Value>)
    requires CanFire(s, e) && AccessAt(s, e, address, args)
    ensures Args(Deps(s.threads[e.tid].code[e.pos]), s.threads[e.tid].vals) == [address] + args
  {
    var t, th := s.threads[e.tid].code[e.pos], s.threads[e.tid];
    var all := [address] + args;
    forall k | 0 <= k < |Deps(t)| ensures OperandIs(Deps(t)[k], th.vals, all[k]) {
      if k > 0 { assert OperandIs(t.operands[k - 1], th.vals, args[k - 1]); }
    }
    ArgsAre(s, e, all);
  }

  lemma FireLoad(s: State, e: Event, address: Value)
    requires CanFire(s, e) && AccessAt(s, e, address, []) && s.threads[e.tid].code[e.pos].op.Load?
    ensures Found(s.mem, AsU64(address), s.threads[e.tid].code[e.pos].bits, Result(s, e)) && Fire(s, e).mem == s.mem
  {
    AccessArgs(s, e, address, []);
    LoadFinds(s.mem, AsU64(address), s.threads[e.tid].code[e.pos].bits);
  }

  lemma FireStore(s: State, e: Event, address: Value, x: Value)
    requires CanFire(s, e) && AccessAt(s, e, address, [x]) && s.threads[e.tid].code[e.pos].op.Store?
    ensures Result(s, e) == Value([], 0) && Overwritten(s.mem, Fire(s, e).mem, AsU64(address), x.imp)
  {
    AccessArgs(s, e, address, [x]);
    WriteOverwrites(s.mem, AsU64(address), x.imp);
  }

  lemma FireCas(s: State, e: Event, address: Value, expected: Value, replacement: Value)
    requires CanFire(s, e) && AccessAt(s, e, address, [expected, replacement])
    requires s.threads[e.tid].code[e.pos].op.CmpXchg?
    ensures CasDoes(s.threads[e.tid].code[e.pos], AsU64(address), expected, replacement,
                    s.mem, Result(s, e), Fire(s, e).mem)
  {
    AccessArgs(s, e, address, [expected, replacement]);
    PerformCas(s.threads[e.tid].code[e.pos], [address] + [expected, replacement], s.mem);
  }

  lemma FireRmw(s: State, e: Event, address: Value, operand: Value)
    requires CanFire(s, e) && AccessAt(s, e, address, [operand]) && s.threads[e.tid].code[e.pos].op.AtomicRmw?
    ensures RmwDoes(s.threads[e.tid].code[e.pos], AsU64(address), operand, s.mem, Result(s, e), Fire(s, e).mem)
  {
    AccessArgs(s, e, address, [operand]);
    PerformRmw(s.threads[e.tid].code[e.pos], [address] + [operand], s.mem);
  }

  // ---------------------------------------------------------------- every thunk of the history

  /* The memory between two thunks of the history: the initial one before the first, the present one
     after the last. */
  lemma HistoryEnds(mem: Flat, run: seq<Step>, s: State)
    requires Reached(mem, run, s)
    ensures AllResolved(s, s.log) && Serial(s, s.log, mem, 0) == mem && Serial(s, s.log, mem, |s.log|) == s.mem
  {
    SerialOrder(mem, run, s);
  }

  ghost predicate OperandsIn(s: State, e: Event, args: seq<Value>) {
    M.At(s, e) && OperandsAre(Deps(M.Code(s, e)), s.threads[e.tid].vals, args)
  }

  lemma HistoryArgs(s: State, e: Event, args: seq<Value>)
    requires Resolved(s, e) && OperandsIn(s, e, args)
    ensures M.ArgsIn(s, e) == args
  {
  }

  /* In every run of any threads a compare-exchange compares with, and changes, the memory as it is
     when its turn in the history comes. */
  lemma HistoryCas(mem: Flat, run: seq<Step>, s: State, x: nat, n: nat,
      address: Value, expected: Value, replacement: Value)
    requires Reached(mem, run, s) && AllResolved(s, s.log) && x < |s.log| && n == x + 1
    requires OperandsIn(s, s.log[x], [address, expected, replacement])
    requires M.Code(s, s.log[x]).Access? && M.Code(s, s.log[x]).op.CmpXchg?
    ensures var e := s.log[x];
            CasDoes(M.Code(s, e), AsU64(address), expected, replacement, Serial(s, s.log, mem, x),
                    s.threads[e.tid].vals[e.pos].value, Serial(s, s.log, mem, n))
  {
    var e, args := s.log[x], [address, expected, replacement];
    SerialOrder(mem, run, s);
    StepSerial(s, s.log, mem, x, n);
    HistoryArgs(s, e, args);
    assert SerialValue(s, s.log, mem, x);
    PerformCas(M.Code(s, e), args, Serial(s, s.log, mem, x));
  }

  /* The same for a read-modify-write. */
  lemma HistoryRmw(mem: Flat, run: seq<Step>, s: State, x: nat, n: nat, address: Value, operand: Value)
    requires Reached(mem, run, s) && AllResolved(s, s.log) && x < |s.log| && n == x + 1
    requires OperandsIn(s, s.log[x], [address, operand])
    requires M.Code(s, s.log[x]).Access? && M.Code(s, s.log[x]).op.AtomicRmw?
    ensures var e := s.log[x];
            RmwDoes(M.Code(s, e), AsU64(address), operand, Serial(s, s.log, mem, x),
                    s.threads[e.tid].vals[e.pos].value, Serial(s, s.log, mem, n))
  {
    var e, args := s.log[x], [address, operand];
    SerialOrder(mem, run, s);
    StepSerial(s, s.log, mem, x, n);
    HistoryArgs(s, e, args);
    assert SerialValue(s, s.log, mem, x);
    PerformRmw(M.Code(s, e), args, Serial(s, s.log, mem, x));
  }
}
