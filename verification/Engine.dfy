/**
 The out-of-order engine as a step system: thunks (src/data.rs), the pass of one thread over
 its queue (`DataFlow::step_pure`) and the scheduler's choice (`Process::step`,
 src/process.rs:95-125). Everything here is a value; the classes in DataFlow.dfy are proved
 against these functions.
 */
module Engine {
  import opened Wrappers
  import opened Values
  import opened FlatMemory

  // ---------------------------------------------------------------- thunks

  /* The orderings of src/ordering.rs; `NotAtomic` is the source's `None`. */
  datatype Ordering = NotAtomic | Relaxed | Acquire | Release | AcqRel | SeqCst

  /* A dependency is a constant that is already Ready or an earlier thunk of the same thread. */
  datatype Dep = Const(v: Value) | Ref(pos: nat)

  /* The memory closures: src/data.rs:247-271 and src/flow.rs:148-221. */
  datatype Op =
    | Load
    | Store
    | CmpXchg(pack: (Value, bool) -> Value)
    | AtomicRmw(oper: (Value, Value) -> Value)

  datatype Thunk =
    | Pure(deps: seq<Dep>, compute: seq<Value> -> Value)
    | Access(address: Dep, operands: seq<Dep>, bits: nat, order: Ordering, op: Op)

  function Deps(t: Thunk): seq<Dep> {
    match t
    case Pure(deps, _) => deps
    case Access(address, operands, _, _, _) => [address] + operands
  }

  predicate Arity(t: Thunk) {
    t.Access? ==>
      |t.operands| == match t.op { case Load => 0 case Store => 1 case CmpXchg(_) => 2 case AtomicRmw(_) => 1 }
  }

  /* The acquire barrier of src/data.rs:322. */
  predicate Acquiring(t: Thunk) {
    t.Access? && (t.order.Acquire? || t.order.AcqRel? || t.order.SeqCst?)
  }

  /* What running the closure does: its value and the memory it leaves. */
  function Perform(t: Thunk, args: seq<Value>, mem: Flat): (Value, Flat)
    requires Arity(t) && |args| == |Deps(t)|
  {
    match t
    case Pure(_, compute) => (compute(args), mem)
    case Access(_, _, bits, _, op) =>
      var a := AsU64(args[0]);
      match op
      case Load => (LoadValue(mem, a, bits), mem)
      case Store => (UNIT, Write(mem, a, args[1].imp))
      case CmpXchg(pack) =>
        var current := LoadValue(mem, a, bits);
        var changed := current == args[1];
        (pack(current, changed), if changed then Write(mem, a, args[2].imp) else mem)
      case AtomicRmw(oper) =>
        var current := LoadValue(mem, a, bits);
        (current, Write(mem, a, oper(current, args[1]).imp))
  }

  function LoadValue(mem: Flat, a: nat, bits: nat): Value {
    Value(Read(mem, a, ByteLen(bits)), bits)
  }

  // ---------------------------------------------------------------- threads and states

  type Vals = seq<Option<Value>>

  /* A thread: every thunk decoded so far, and which of them are Ready with what value. */
  datatype Thread = Thread(code: seq<Thunk>, vals: Vals)

  /* One thunk of one thread; the history lists thunks in the order they became Ready. */
  datatype Event = Event(tid: nat, pos: nat)

  datatype State = State(threads: seq<Thread>, mem: Flat, log: seq<Event>)

  predicate RefsBelow(t: Thunk, n: nat) {
    forall k | 0 <= k < |Deps(t)| :: Deps(t)[k].Ref? ==> Deps(t)[k].pos < n
  }

  predicate ThunkOk(t: Thunk, n: nat) { Arity(t) && RefsBelow(t, n) }

  ghost predicate ThreadOk(th: Thread) {
    && |th.code| == |th.vals|
    && forall i | 0 <= i < |th.code| :: ThunkOk(th.code[i], i)
  }

  ghost predicate StateOk(s: State) {
    forall t | 0 <= t < |s.threads| :: ThreadOk(s.threads[t])
  }

  function DepVal(d: Dep, vals: Vals): Option<Value> {
    match d
    case Const(v) => Some(v)
    case Ref(j) => if j < |vals| then vals[j] else None
  }

  predicate DepsReady(ds: seq<Dep>, vals: Vals) {
    forall k | 0 <= k < |ds| :: DepVal(ds[k], vals).Some?
  }

  function Args(ds: seq<Dep>, vals: Vals): (r: seq<Value>)
    requires DepsReady(ds, vals)
    ensures |r| == |ds| && forall k | 0 <= k < |ds| :: r[k] == DepVal(ds[k], vals).value
  {
    seq(|ds|, k requires 0 <= k < |ds| => DepVal(ds[k], vals).value)
  }

  predicate Unresolved(th: Thread, i: nat) { i < |th.vals| && th.vals[i].None? }

  /* An access whose address is known. */
  predicate Known(th: Thread, i: nat) {
    i < |th.code| && th.code[i].Access? && DepVal(th.code[i].address, th.vals).Some?
  }

  function Base(th: Thread, i: nat): nat
    requires Known(th, i)
  {
    AsU64(DepVal(th.code[i].address, th.vals).value)
  }

  /* The bytes an access touches: nothing until its address is known. */
  function Span(th: Thread, i: nat): set<nat> {
    if Known(th, i) then Cells(Base(th, i), ByteLen(th.code[i].bits)) else {}
  }

  // ---------------------------------------------------------------- resolving one thunk

  predicate CanFire(s: State, e: Event) {
    && e.tid < |s.threads|
    && var th := s.threads[e.tid];
       && e.pos < |th.code| == |th.vals|
       && th.vals[e.pos].None?
       && Arity(th.code[e.pos])
       && DepsReady(Deps(th.code[e.pos]), th.vals)
  }

  /* `Thunk::step` when it returns true. */
  function Fire(s: State, e: Event): State
    requires CanFire(s, e)
  {
    var th := s.threads[e.tid];
    var t := th.code[e.pos];
    var (v, mem) := Perform(t, Args(Deps(t), th.vals), s.mem);
    State(s.threads[e.tid := th.(vals := th.vals[e.pos := Some(v)])], mem, s.log + [e])
  }

  // ---------------------------------------------------------------- one pass over a thread

  /* What `step_pure` accumulates: the bytes of the accesses it left pending, the offered
     operations of all threads so far, and whether anything was resolved. */
  datatype Pass = Pass(st: State, pending: set<nat>, offered: seq<Event>, progress: bool)

  /* `progress |= thunk.step()`. */
  function TryFire(p: Pass, e: Event): Pass {
    if CanFire(p.st, e) then p.(st := Fire(p.st, e), progress := true) else p
  }

  /* The loop of `step_pure` (src/data.rs:284-328) from queue position i of thread t on. */
  function Scan(p: Pass, t: nat, i: nat): Pass
    requires t < |p.st.threads|
    decreases |p.st.threads[t].code| - i
  {
    var th := p.st.threads[t];
    var e := Event(t, i);
    if i >= |th.code| then p
    else if !Unresolved(th, i) then Scan(p, t, i + 1)
    else match th.code[i]
      case Pure(_, _) => Scan(TryFire(p, e), t, i + 1)
      case Access(_, _, _, order, _) =>
        if !Known(th, i) then p
        else if Span(th, i) * p.pending != {} then Scan(p, t, i + 1)
        else
          var p1 := p.(pending := p.pending + Span(th, i));
          match order
          case NotAtomic => Scan(TryFire(p1, e), t, i + 1)
          case Relaxed => Scan(p1.(offered := p1.offered + [e]), t, i + 1)
          case Release =>
            Scan(if p1.offered == [] then p1.(offered := [e]) else p1, t, i + 1)
          case _ => p1.(offered := p1.offered + [e])
  }

  // ---------------------------------------------------------------- one turn of the loop

  /* `break` in `step_pure`. */
  predicate Halts(p: Pass, t: nat, i: nat)
    requires t < |p.st.threads| && i < |p.st.threads[t].code|
  {
    var th := p.st.threads[t];
    && Unresolved(th, i) && th.code[i].Access?
    && (!Known(th, i) || (Span(th, i) * p.pending == {} && Acquiring(th.code[i])))
  }

  /* What one queue position does to the accumulators. */
  function Turn(p: Pass, t: nat, i: nat): Pass
    requires t < |p.st.threads| && i < |p.st.threads[t].code|
  {
    var th := p.st.threads[t];
    var e := Event(t, i);
    if !Unresolved(th, i) then p
    else if th.code[i].Pure? then TryFire(p, e)
    else if !Known(th, i) || Span(th, i) * p.pending != {} then p
    else
      var p1 := p.(pending := p.pending + Span(th, i));
      match th.code[i].order
      case NotAtomic => TryFire(p1, e)
      case Release => if p1.offered == [] then p1.(offered := [e]) else p1
      case _ => p1.(offered := p1.offered + [e])
  }

  lemma ScanTurn(p: Pass, t: nat, i: nat)
    requires t < |p.st.threads| && i < |p.st.threads[t].code|
    ensures |Turn(p, t, i).st.threads| == |p.st.threads| && Turn(p, t, i).st.threads[t].code == p.st.threads[t].code
    ensures Scan(p, t, i) == if Halts(p, t, i) then Turn(p, t, i) else Scan(Turn(p, t, i), t, i + 1)
  {
  }

  /* A stretch of Ready thunks is passed over. */
  lemma {:induction false} ScanOver(p: Pass, t: nat, i: nat, n: nat)
    requires t < |p.st.threads| && i <= n <= |p.st.threads[t].code|
    requires forall x | i <= x < n :: !Unresolved(p.st.threads[t], x)
    ensures Scan(p, t, i) == Scan(p, t, n)
    decreases n - i
  {
    if i < n { ScanOver(p, t, i + 1, n); }
  }

  /* `for thread in threads { progress |= thread.step_pure(&mut resolvable) }`, from thread t on. */
  function ScanAll(p: Pass, t: nat): Pass
    decreases |p.st.threads| - t
  {
    if t >= |p.st.threads| then p
    else
      var p1 := Scan(p.(pending := {}), t, 0);
      ScanShape(p.(pending := {}), t, 0);
      ScanAll(p1, t + 1)
  }

  /* A pass keeps the threads and their code, never forgets progress and only adds offers. */
  ghost predicate Kept(p: Pass, q: Pass) {
    && |q.st.threads| == |p.st.threads|
    && (forall u | 0 <= u < |p.st.threads| :: q.st.threads[u].code == p.st.threads[u].code)
    && (p.progress ==> q.progress)
    && p.offered <= q.offered
  }

  lemma TurnShape(p: Pass, t: nat, i: nat)
    requires t < |p.st.threads| && i < |p.st.threads[t].code|
    ensures Kept(p, Turn(p, t, i))
  {
  }

  lemma {:induction false} ScanShape(p: Pass, t: nat, i: nat)
    requires t < |p.st.threads|
    ensures Kept(p, Scan(p, t, i))
    decreases |p.st.threads[t].code| - i
  {
    if i < |p.st.threads[t].code| {
      TurnShape(p, t, i);
      ScanTurn(p, t, i);
      if !Halts(p, t, i) { ScanShape(Turn(p, t, i), t, i + 1); }
    }
  }

  lemma {:induction false} AllShape(p: Pass, t: nat)
    ensures |ScanAll(p, t).st.threads| == |p.st.threads|
    ensures forall u | 0 <= u < |p.st.threads| :: ScanAll(p, t).st.threads[u].code == p.st.threads[u].code
    decreases |p.st.threads| - t
  {
    if t < |p.st.threads| {
      ScanShape(p.(pending := {}), t, 0);
      AllShape(Scan(p.(pending := {}), t, 0), t + 1);
    }
  }

  /* One turn of the loop in `Process::step`: `resolvable.clear()` and a pass of every thread. */
  function PassAll(s: State): Pass {
    ScanAll(Pass(s, {}, [], false), 0)
  }

  // ---------------------------------------------------------------- runs of the process

  /* Decoding appends a thunk (`thunk_impl`) or a thread; a pass moves every thread; when a pass
     made no progress one offered operation is resolved. The source picks any offered
     operation and asserts that it steps; here the choice is restricted to those that can. */
  datatype Step = Decode(tid: nat, thunk: Thunk) | Spawn | Sweep | Resolve(e: Event)

  ghost predicate Enabled(s: State, a: Step) {
    match a
    case Decode(t, thunk) => t < |s.threads| && ThunkOk(thunk, |s.threads[t].code|)
    case Spawn => true
    case Sweep => true
    case Resolve(e) => !PassAll(s).progress && e in PassAll(s).offered && CanFire(s, e)
  }

  ghost function Next(s: State, a: Step): State
    requires Enabled(s, a)
  {
    match a
    case Decode(t, thunk) => Decoded(s, t, thunk)
    case Spawn => s.(threads := s.threads + [Thread([], [])])
    case Sweep => PassAll(s).st
    case Resolve(e) => Fire(s, e)
  }

  function Decoded(s: State, t: nat, thunk: Thunk): State
    requires t < |s.threads|
  {
    var th := s.threads[t];
    s.(threads := s.threads[t := Thread(th.code + [thunk], th.vals + [None])])
  }

  ghost predicate Run(s: State, run: seq<Step>)
    decreases |run|
  {
    run == [] || (Enabled(s, run[0]) && Run(Next(s, run[0]), run[1..]))
  }

  ghost function After(s: State, run: seq<Step>): State
    requires Run(s, run)
    decreases |run|
  {
    if run == [] then s else After(Next(s, run[0]), run[1..])
  }

  lemma {:induction false} RunSnoc(s: State, run: seq<Step>, a: Step)
    requires Run(s, run) && Enabled(After(s, run), a)
    ensures Run(s, run + [a]) && After(s, run + [a]) == Next(After(s, run), a)
    decreases |run|
  {
    if run == [] {
      assert run + [a] == [a];
    } else {
      assert (run + [a])[1..] == run[1..] + [a];
      RunSnoc(Next(s, run[0]), run[1..], a);
    }
  }

  lemma {:induction false} RunAppend(s: State, a: seq<Step>, b: seq<Step>)
    requires Run(s, a) && Run(After(s, a), b)
    ensures Run(s, a + b) && After(s, a + b) == After(After(s, a), b)
    decreases |a|
  {
    if a == [] {
      assert a + b == b;
    } else {
      assert (a + b)[0] == a[0] && (a + b)[1..] == a[1..] + b;
      RunAppend(Next(s, a[0]), a[1..], b);
    }
  }

  /* A process before anything is decoded: no threads yet. */
  function Start(mem: Flat): State { State([], mem, []) }
}
