/**
 What the engine does not guarantee. Each lemma gives a program for which a stronger statement than
 those of EngineOrder.dfy, EngineRefine.dfy and EngineExact.dfy fails. Every constant in these
 programs is a value with as many bytes as its width needs.
 */
module EngineLimits {
  import opened Wrappers
  import opened Values
  import opened FlatMemory
  import opened Engine
  import opened EngineRuns
  import opened EngineOrder
  import opened EngineRefine
  import opened EngineHolders
  import opened EngineExact
  import M = EngineMessage

  // ---------------------------------------------------------------- small programs

  /* A constant 64-bit pointer to one of the first addresses. */
  function Address(a: byte): Dep { Const(Value([a, 0, 0, 0, 0, 0, 0, 0], 64)) }

  function Datum(bs: seq<byte>): Dep { Const(Value(bs, 8 * |bs|)) }

  function StoreAt(a: byte, bs: seq<byte>, order: Ordering): Thunk {
    Access(Address(a), [Datum(bs)], 8 * |bs|, order, Store)
  }

  function LoadAt(a: byte, n: nat, order: Ordering): Thunk { Access(Address(a), [], 8 * n, order, Load) }

  ghost predicate SizedConsts(t: Thunk) {
    forall k | 0 <= k < |Deps(t)| && Deps(t)[k].Const? :: WellSized(Deps(t)[k].v)
  }

  ghost predicate ConstsSized(code: seq<Thunk>) {
    forall i | 0 <= i < |code| :: SizedConsts(code[i])
  }

  lemma {:induction false} ZeroTail(bs: seq<byte>)
    requires forall k | 0 <= k < |bs| :: bs[k] == 0
    ensures LittleEndian(bs) == 0
  {
    if bs != [] { ZeroTail(bs[1..]); }
  }

  lemma AddressIs(a: byte)
    ensures AsU64(Value([a, 0, 0, 0, 0, 0, 0, 0], 64)) == a && WellSized(Value([a, 0, 0, 0, 0, 0, 0, 0], 64))
  {
    var bs: seq<byte> := [a, 0, 0, 0, 0, 0, 0, 0];
    ZeroTail(bs[1..]);
  }

  /* The access covers n bytes from address a on. */
  predicate Covers(t: Thunk, a: byte, n: nat) { t.Access? && t.address == Address(a) && t.bits == 8 * n && n > 0 }

  lemma CoversBytes(t: Thunk, a: byte, n: nat)
    requires Covers(t, a, n)
    ensures BytesOf(t) == Cells(a, n) && a in BytesOf(t)
  {
    AddressIs(a);
  }

  lemma StoreOk(code: seq<Thunk>, i: nat, a: byte, bs: seq<byte>, order: Ordering)
    requires i < |code| && code[i] == StoreAt(a, bs, order) && bs != []
    ensures Covers(code[i], a, |bs|) && SizedConsts(code[i]) && ConstThunk(code[i], i)
  {
    AddressIs(a);
  }

  lemma LoadOk(code: seq<Thunk>, i: nat, a: byte, n: nat, order: Ordering)
    requires i < |code| && code[i] == LoadAt(a, n, order) && n > 0
    ensures Covers(code[i], a, n) && SizedConsts(code[i]) && ConstThunk(code[i], i)
  {
    AddressIs(a);
  }

  /* Ranges touch when each starts before the other ends. */
  lemma TouchIs(a: Thunk, b: Thunk, x: byte, n: nat, y: byte, m: nat)
    requires Covers(a, x, n) && Covers(b, y, m)
    ensures Touch(a, b) <==> x < y + m && y < x + n
  {
    CoversBytes(a, x, n);
    CoversBytes(b, y, m);
    var c := if x < y then y else x;
    assert x < y + m && y < x + n ==> c in BytesOf(a) * BytesOf(b);
  }

  lemma ConstCodeOk(code: seq<Thunk>)
    requires ConstCode(code)
    ensures CodeOk(code)
  {
    forall i | 0 <= i < |code| ensures ThunkOk(code[i], i) { assert ConstThunk(code[i], i); }
  }

  function Loaded(code: seq<Thunk>): State { State([Thread(code, Nothing(|code|))], map[], []) }

  /* Everything decoded, then one more step. */
  lemma LoadedThen(code: seq<Thunk>, a: Step) returns (run: seq<Step>)
    requires CodeOk(code) && Enabled(Loaded(code), a)
    ensures Reached(map[], run, Next(Loaded(code), a))
  {
    run := LoadPrefix(map[], code, |code|);
    assert code[..|code|] == code;
    RunSnoc(Start(map[]), run, a);
    run := run + [a];
  }

  /* The pass over a loaded program once some accesses have been offered. */
  ghost function Passing(code: seq<Thunk>, pending: set<nat>, offered: seq<Event>): Pass {
    Pass(Loaded(code), pending, offered, false)
  }

  lemma PassingSingle(code: seq<Thunk>, pending: set<nat>, offered: seq<Event>)
    requires ConstCode(code)
    ensures Single(Passing(code, pending, offered), code)
    ensures forall x | 0 <= x < |code| :: Open(Passing(code, pending, offered), x)
  {
    forall i | 0 <= i < |code| ensures ThunkOk(code[i], i) { assert ConstThunk(code[i], i); }
    assert ThreadOk(Thread(code, Nothing(|code|)));
  }

  // ---------------------------------------------------------------- acquire

  /* A relaxed store to byte x, an acquire load of it, a plain load of byte y. */
  function AcquireProgram(x: byte, y: byte, b: byte): seq<Thunk> {
    [StoreAt(x, [b], Relaxed), LoadAt(x, 1, Acquire), LoadAt(y, 1, NotAtomic)]
  }

  lemma AcquireCode(x: byte, y: byte, b: byte, code: seq<Thunk>)
    requires x != y && code == AcquireProgram(x, y, b)
    ensures ConstCode(code) && ConstsSized(code) && LetsPass(code, 0, 1, 2)
  {
    StoreOk(code, 0, x, [b], Relaxed);
    LoadOk(code, 1, x, 1, Acquire);
    LoadOk(code, 2, y, 1, NotAtomic);
    TouchIs(code[0], code[1], x, 1, x, 1);
    TouchIs(code[0], code[2], x, 1, y, 1);
  }

  /* The alias test of src/data.rs:301 comes before the barrier of src/data.rs:322: an acquire that
     is aliased by an earlier access of its thread does not hold back what follows it. */
  lemma AcquireOvertaken(mem: Flat, x: byte, y: byte, b: byte, code: seq<Thunk>)
    requires x != y && code == AcquireProgram(x, y, b)
    ensures ConstsSized(code) && Acquiring(code[1]) && Overtaken(mem, code, 1, 2)
  {
    AcquireCode(x, y, b, code);
    HolderRun(mem, code, 0, 1, 2);
  }

  /* PassedRun for a later operation that no earlier Release concerns. */
  lemma HolderRun(mem: Flat, code: seq<Thunk>, h: nat, j: nat, i: nat)
    requires ConstCode(code) && LetsPass(code, h, j, i) && !IsRelease(code[i])
    requires forall r | 0 <= r < i :: !IsRelease(code[r])
    ensures Overtaken(mem, code, j, i)
  {
    PassedRun(mem, code, h, j, i);
  }

  // ---------------------------------------------------------------- sequential consistency

  /* A relaxed store to byte x and a store to byte y with some ordering. */
  function StrongProgram(x: byte, y: byte, b: byte, order: Ordering): seq<Thunk> {
    [StoreAt(x, [b], Relaxed), StoreAt(y, [b], order)]
  }

  lemma StrongCode(x: byte, y: byte, b: byte, order: Ordering, code: seq<Thunk>)
    requires x != y && code == StrongProgram(x, y, b, order)
    ensures ConstCode(code) && ConstsSized(code) && LetsPass(code, 0, 0, 1)
  {
    StoreOk(code, 0, x, [b], Relaxed);
    StoreOk(code, 1, y, [b], order);
    TouchIs(code[0], code[1], x, 1, y, 1);
  }

  /* An acquire-release or sequentially consistent store may be resolved before an earlier store of
     its thread: only `Release` itself looks at what is still pending (src/data.rs:316-326). */
  lemma StrongIsNoRelease(mem: Flat, x: byte, y: byte, b: byte, order: Ordering, code: seq<Thunk>)
    requires (order.AcqRel? || order.SeqCst?) && x != y && code == StrongProgram(x, y, b, order)
    ensures ConstsSized(code) && Overtaken(mem, code, 0, 1)
  {
    StrongCode(x, y, b, order, code);
    HolderRun(mem, code, 0, 0, 1);
  }

  // ---------------------------------------------------------------- which orderings are barriers

  /* A store to byte x with some ordering and a relaxed load of byte y. */
  function BarrierProgram(x: byte, y: byte, b: byte, order: Ordering): seq<Thunk> {
    [StoreAt(x, [b], order), LoadAt(y, 1, Relaxed)]
  }

  lemma BarrierCode(x: byte, y: byte, b: byte, order: Ordering, code: seq<Thunk>)
    requires x != y && code == BarrierProgram(x, y, b, order)
    ensures ConstCode(code) && ConstsSized(code) && !Touch(code[0], code[1])
  {
    StoreOk(code, 0, x, [b], order);
    LoadOk(code, 1, y, 1, Relaxed);
    TouchIs(code[0], code[1], x, 1, y, 1);
  }

  /* A later access of other bytes may go ahead of a relaxed access and of a Release, and of no other. */
  lemma BarrierExact(mem: Flat, x: byte, y: byte, b: byte, order: Ordering, code: seq<Thunk>)
    requires x != y && code == BarrierProgram(x, y, b, order)
    ensures ConstsSized(code) && (Overtaken(mem, code, 0, 1) <==> order.Relaxed? || order.Release?)
  {
    BarrierCode(x, y, b, order, code);
    OvertakenExactly(mem, code, 0, 1);
    if order.Relaxed? || order.Release? { assert LetsPass(code, 0, 0, 1); }
    if h :| LetsPass(code, h, 0, 1) { assert h == 0; }
  }

  // ---------------------------------------------------------------- partial overlap

  /* A store to byte x, a store to the bytes x and y after it, a load of byte y. */
  function OverlapProgram(x: byte, y: byte, b: byte, first: Ordering, second: Ordering, third: Ordering): seq<Thunk> {
    [StoreAt(x, [b], first), StoreAt(x, [b, b], second), LoadAt(y, 1, third)]
  }

  /* A program whose first access hides the second and lets the third pass. */
  ghost predicate Hiding(code: seq<Thunk>) {
    && |code| == 3 && ConstCode(code)
    && code[1].Access? && code[2].Access? && !Atomic(code[2])
    && Touch(code[0], code[1]) && !Touch(code[0], code[2])
  }

  lemma OverlapCode(x: byte, y: byte, b: byte, first: Ordering, second: Ordering, third: Ordering, code: seq<Thunk>)
    requires y == x + 1 && code == OverlapProgram(x, y, b, first, second, third)
    ensures ConstCode(code) && ConstsSized(code)
    ensures Touch(code[0], code[1]) && !Touch(code[0], code[2]) && Touch(code[1], code[2])
  {
    StoreOk(code, 0, x, [b], first);
    StoreOk(code, 1, x, [b, b], second);
    LoadOk(code, 2, y, 1, third);
    TouchIs(code[0], code[1], x, 1, x, 2);
    TouchIs(code[0], code[2], x, 1, y, 1);
    TouchIs(code[1], code[2], x, 2, y, 1);
  }

  lemma TouchApart(a: Thunk, b: Thunk)
    ensures Touch(a, b) <==> BytesOf(b) * BytesOf(a) != {}
  {
    assert BytesOf(b) * BytesOf(a) == BytesOf(a) * BytesOf(b);
  }

  /* The rest of a pass over a program whose first access is pending. */
  lemma HiddenPass(p: Pass, code: seq<Thunk>)
    requires Hiding(code) && Single(p, code) && p.pending == BytesOf(code[0]) && Open(p, 1) && Open(p, 2)
    ensures CanFire(p.st, Event(0, 2)) && Scan(p, 0, 1).st == Fire(p.st, Event(0, 2))
  {
    TouchApart(code[0], code[1]);
    TouchApart(code[0], code[2]);
    TurnSkips(p, code, 1);
    ScanTurn(p, 0, 1);
    TurnPlain(p, code, 2);
    ScanTurn(p, 0, 2);
  }

  /* A pass resolves the first and the third access when the first one is plain. */
  lemma PlainPass(code: seq<Thunk>)
    requires Hiding(code) && code[0].Access? && !Atomic(code[0])
    ensures PassAll(Loaded(code)).st.log == [Event(0, 0), Event(0, 2)]
  {
    var p := Passing(code, {}, []);
    PassingSingle(code, {}, []);
    PassAllOne(Loaded(code));
    TurnPlain(p, code, 0);
    FiredSingle(p, code, 0);
    ScanTurn(p, 0, 0);
    assert {} + BytesOf(code[0]) == BytesOf(code[0]);
    HiddenPass(Turn(p, 0, 0), code);
  }

  /* The program does what the theorem on overtaken operations asks for. */
  lemma OverlapLets(x: byte, y: byte, b: byte, second: Ordering, third: Ordering, code: seq<Thunk>)
    requires y == x + 1 && code == OverlapProgram(x, y, b, Relaxed, second, third)
    requires !second.Release? && !third.Release?
    ensures LetsPass(code, 0, 1, 2) && Unhindered(code, 2)
    ensures InClass(code, 2) <==> !second.NotAtomic? || !third.NotAtomic?
  {
    OverlapCode(x, y, b, Relaxed, second, third, code);
  }

  /* Some run resolves the load ahead of the store that covers it. If one of the two is atomic that is
     the theorem on overtaken operations. */
  lemma OverlapOvertaken(mem: Flat, x: byte, y: byte, b: byte, second: Ordering, third: Ordering, code: seq<Thunk>)
    requires y == x + 1 && code == OverlapProgram(x, y, b, Relaxed, second, third)
    requires !second.Release? && !third.Release?
    ensures Overtaken(mem, code, 1, 2)
  {
    OverlapCode(x, y, b, Relaxed, second, third, code);
    OverlapLets(x, y, b, second, third, code);
    if InClass(code, 2) { OvertakenExactly(mem, code, 1, 2); } else { PassedRun(mem, code, 0, 1, 2); }
  }

  /* An access with constants is typed. */
  lemma StoreTyped(th: Thread, i: nat, a: byte, bs: seq<byte>, order: Ordering)
    requires i < |th.code| && th.code[i] == StoreAt(a, bs, order) && DepsReady(Deps(th.code[i]), th.vals)
    ensures Typed(th.code[i], Args(Deps(th.code[i]), th.vals))
  {
    assert Deps(th.code[i])[1] == Datum(bs);
  }

  lemma OverlapTyped(x: byte, y: byte, b: byte, second: Ordering, third: Ordering, s: State)
    requires |s.threads| == 1 && s.threads[0].code == OverlapProgram(x, y, b, Relaxed, second, third)
    ensures M.TypedState(s)
  {
    var th := s.threads[0];
    forall i | 0 <= i < |th.code| && Arity(th.code[i]) && DepsReady(Deps(th.code[i]), th.vals)
      ensures Typed(th.code[i], Args(Deps(th.code[i]), th.vals))
    {
      if i == 0 { StoreTyped(th, 0, x, [b], Relaxed); }
      if i == 1 { StoreTyped(th, 1, x, [b, b], second); }
    }
  }

  /* The first store does not write what the load reads. */
  lemma OverlapSpares(code: seq<Thunk>, s: State)
    requires |code| == 3 && ConstCode(code) && code[0].Access? && code[2].Access? && !Touch(code[0], code[2])
    requires |s.threads| == 1 && s.threads[0].code == code && |s.threads[0].vals| == 3
    ensures M.Spares(s, Event(0, 0), M.SpanOf(s, Event(0, 2)))
  {
    ConstSpan(s.threads[0], 0);
    ConstSpan(s.threads[0], 2);
  }

  /* Nobody but the second store writes what the load reads. */
  lemma OverlapReads(x: byte, y: byte, b: byte, second: Ordering, third: Ordering, s: State)
    requires y == x + 1 && |s.threads| == 1 && |s.threads[0].vals| == 3
    requires s.threads[0].code == OverlapProgram(x, y, b, Relaxed, second, third)
    ensures M.ReadsFlag(s, Event(0, 1), Event(0, 2))
  {
    var th, code := s.threads[0], s.threads[0].code;
    OverlapCode(x, y, b, Relaxed, second, third, code);
    OverlapTyped(x, y, b, second, third, s);
    ConstSpan(th, 2);
    OverlapSpares(code, s);
    assert ConstThunk(code[2], 2);
    forall e | Valued(s, e) && M.At(s, e) && e != Event(0, 1) && e != Event(0, 2)
      ensures M.Spares(s, e, M.SpanOf(s, Event(0, 2)))
    {
      assert e == Event(0, 0);
    }
  }

  lemma LoadsInitial(mem: Flat, y: byte, third: Ordering, load: Thunk, vals: Vals)
    requires load == LoadAt(y, 1, third) && DepsReady(Deps(load), vals)
    ensures Perform(load, Args(Deps(load), vals), mem).0 == Value([ByteAt(mem, y)], 8)
  {
    AddressIs(y);
    assert Read(mem, y, 1) == [ByteAt(mem, y)];
  }

  /* Partially overlapping accesses of one thread are not resolved in program order: the skipped
     store of src/data.rs:301 leaves its own range out of the pending set, so the load goes ahead
     of it and misses what it writes; whatever the orderings, as long as neither is a Release. */
  lemma PartialOverlap(mem: Flat, x: byte, y: byte, b: byte, second: Ordering, third: Ordering, code: seq<Thunk>)
    returns (run: seq<Step>, s: State)
    requires y == x + 1 && code == OverlapProgram(x, y, b, Relaxed, second, third)
    requires !second.Release? && !third.Release?
    ensures CodeOk(code) && ConstsSized(code) && Touch(code[1], code[2])
    ensures Reached(mem, run, s) && |s.threads| == 1 && s.threads[0].code == code && |s.threads[0].vals| == 3
    ensures s.threads[0].vals[2] == Some(Value([ByteAt(mem, y)], 8))
    ensures Reference(code, mem).vals[2] == Some(Value([b], 8))
  {
    OverlapCode(x, y, b, Relaxed, second, third, code);
    ConstCodeOk(code);
    OverlapInOrder(mem, x, y, b, second, third, code);
    OverlapOvertaken(mem, x, y, b, second, third, code);
    run, s :| Reached(mem, run, s) && |s.threads| == 1 && s.threads[0].code == code
              && !Precedes(s.log, Event(0, 1), Event(0, 2));
    OvertakenMisses(mem, run, s, x, y, b, second, third);
  }

  lemma OvertakenMisses(mem: Flat, run: seq<Step>, s: State, x: byte, y: byte, b: byte,
      second: Ordering, third: Ordering)
    requires Reached(mem, run, s) && |s.threads| == 1 && y == x + 1
    requires s.threads[0].code == OverlapProgram(x, y, b, Relaxed, second, third)
    requires !Precedes(s.log, Event(0, 1), Event(0, 2))
    ensures |s.threads[0].vals| == 3 && s.threads[0].vals[2] == Some(Value([ByteAt(mem, y)], 8))
  {
    RunOk(Start(mem), run);
    assert ThreadOk(s.threads[0]);
    assert Valued(s, Event(0, 2));
    OverlapReads(x, y, b, second, third, s);
    LoadsInitial(mem, y, third, s.threads[0].code[2], s.threads[0].vals);
    if s.threads[0].vals[2].value != M.Unflagged(s, mem, Event(0, 1), Event(0, 2)) {
      M.SeesFlag(mem, run, s, Event(0, 1), Event(0, 2));
    }
  }

  lemma OverlapInOrder(mem: Flat, x: byte, y: byte, b: byte, second: Ordering, third: Ordering, code: seq<Thunk>)
    requires y == x + 1 && code == OverlapProgram(x, y, b, Relaxed, second, third) && CodeOk(code)
    ensures Reference(code, mem).vals[2] == Some(Value([b], 8))
  {
    var vals, before, after := Reference(code, mem).vals, MemAfter(code, mem, 1), MemAfter(code, mem, 2);
    ReferenceStep(code, mem, 1, 2);
    ReferenceStep(code, mem, 2, 3);
    StoredThenLoaded(x, y, b, code[1], code[2], before, after, vals);
  }

  lemma StoredThenLoaded(x: byte, y: byte, b: byte, store: Thunk, load: Thunk, mem: Flat, mem': Flat, vals: Vals)
    requires y == x + 1 && store.Access? && store == StoreAt(x, [b, b], store.order)
    requires load.Access? && load == LoadAt(y, 1, load.order)
    requires DepsReady(Deps(store), vals) && DepsReady(Deps(load), vals)
    requires mem' == Perform(store, Args(Deps(store), vals), mem).1
    ensures Perform(load, Args(Deps(load), vals), mem').0 == Value([b], 8)
  {
    AddressIs(x);
    AddressIs(y);
    assert mem' == Write(mem, x, [b, b]);
    assert Read(mem', y, 1) == [b];
  }

  // ---------------------------------------------------------------- plain and Release accesses

  /* The first access is plain, and the second touches the third. */
  lemma PlainNoHolder(code: seq<Thunk>)
    requires |code| == 3 && !Atomic(code[0]) && Touch(code[1], code[2])
    ensures forall h :: !LetsPass(code, h, 1, 2)
  {
  }

  /* A plain access hides what it aliases only in the pass that resolves it. That is enough for a
     plain load to go ahead in the same pass... */
  lemma PlainPasses(x: byte, y: byte, b: byte, code: seq<Thunk>) returns (run: seq<Step>, s: State)
    requires y == x + 1 && code == OverlapProgram(x, y, b, NotAtomic, Relaxed, NotAtomic)
    ensures ConstsSized(code) && forall h :: !LetsPass(code, h, 1, 2)
    ensures Reached(map[], run, s) && |s.threads| == 1 && s.threads[0].code == code
    ensures !Precedes(s.log, Event(0, 1), Event(0, 2))
  {
    OverlapCode(x, y, b, NotAtomic, Relaxed, NotAtomic, code);
    PlainNoHolder(code);
    ConstCodeOk(code);
    run := LoadedThen(code, Sweep);
    PlainPass(code);
    s := PassAll(Loaded(code)).st;
    AllShape(Pass(Loaded(code), {}, [], false), 0);
    assert s.log[1] == Event(0, 2) && s.log[..1] == [Event(0, 0)];
  }

  /* ...and not for an atomic one, which the scheduler resolves after a pass without progress. */
  lemma PlainStops(mem: Flat, x: byte, y: byte, b: byte, code: seq<Thunk>)
    requires y == x + 1 && code == OverlapProgram(x, y, b, NotAtomic, Relaxed, Relaxed)
    ensures ConstsSized(code) && !Overtaken(mem, code, 1, 2)
  {
    OverlapCode(x, y, b, NotAtomic, Relaxed, Relaxed, code);
    PlainNoHolder(code);
    OvertakenExactly(mem, code, 1, 2);
  }

  /* A relaxed store to byte x, a Release store to byte y after it, a relaxed store to both, a relaxed
     load of byte y. */
  function ReleaseProgram(x: byte, y: byte, b: byte): seq<Thunk> {
    [StoreAt(x, [b], Relaxed), StoreAt(y, [b], Release), StoreAt(x, [b, b], Relaxed), LoadAt(y, 1, Relaxed)]
  }

  /* The only access that lets the load pass the third store is the first one. */
  ghost predicate OneHolder(code: seq<Thunk>) {
    && |code| == 4 && ConstCode(code) && ConstsSized(code)
    && Holder(code[0]) && IsRelease(code[1])
    && Touch(code[0], code[2]) && Touch(code[1], code[3]) && Touch(code[2], code[3]) && !Touch(code[0], code[3])
    && BytesOf(code[1]) == BytesOf(code[3])
  }

  lemma ReleaseCode(x: byte, y: byte, b: byte, code: seq<Thunk>)
    requires y == x + 1 && code == ReleaseProgram(x, y, b)
    ensures OneHolder(code) && Atomic(code[3])
  {
    StoreOk(code, 0, x, [b], Relaxed);
    StoreOk(code, 1, y, [b], Release);
    StoreOk(code, 2, x, [b, b], Relaxed);
    LoadOk(code, 3, y, 1, Relaxed);
    CoversBytes(code[1], y, 1);
    CoversBytes(code[3], y, 1);
    TouchIs(code[0], code[2], x, 1, x, 2);
    TouchIs(code[0], code[3], x, 1, y, 1);
    TouchIs(code[1], code[3], y, 1, y, 1);
    TouchIs(code[2], code[3], x, 2, y, 1);
  }

  /* An operation that touches an earlier Release waits for it, and with it for what would let the
     operation pass. */
  lemma ReleaseStops(mem: Flat, x: byte, y: byte, b: byte, code: seq<Thunk>)
    requires y == x + 1 && code == ReleaseProgram(x, y, b)
    ensures ConstsSized(code) && LetsPass(code, 0, 2, 3) && !Overtaken(mem, code, 2, 3)
  {
    ReleaseCode(x, y, b, code);
    forall run, s | Reached(mem, run, s) && |s.threads| == 1 && s.threads[0].code == code
      ensures Precedes(s.log, Event(0, 2), Event(0, 3))
    {
      ReleaseStopsRun(mem, run, s);
    }
  }

  lemma OnlyFirst(code: seq<Thunk>, h: nat)
    requires OneHolder(code) && LetsPass(code, h, 2, 3)
    ensures h == 0
  {
    assert h == 0 || h == 1 || h == 2;
  }

  lemma ReleaseStopsRun(mem: Flat, run: seq<Step>, s: State)
    requires Reached(mem, run, s) && |s.threads| == 1 && OneHolder(s.threads[0].code) && Atomic(s.threads[0].code[3])
    ensures Precedes(s.log, Event(0, 2), Event(0, 3))
  {
    var th := s.threads[0];
    ConstSpan(th, 1);
    ConstSpan(th, 3);
    ReleaseSafety(mem, run, s, 0, 0, 1);
    Coherence(mem, run, s, 0, 1, 3);
    PrecedesTransitive(s.log, Event(0, 0), Event(0, 1), Event(0, 3));
    PassedHolder(mem, run, s, 2, 3);
    if Event(0, 3) in s.log && !Precedes(s.log, Event(0, 2), Event(0, 3)) {
      var h :| LetsPass(th.code, h, 2, 3) && !Precedes(s.log, Event(0, h), Event(0, 3));
      OnlyFirst(th.code, h);
    }
  }

  // ---------------------------------------------------------------- the scheduler's choice

  /* A relaxed load of byte x and a relaxed store of its value to byte y. */
  function CopyProgram(x: byte, y: byte): seq<Thunk> {
    [LoadAt(x, 1, Relaxed), Access(Address(y), [Ref(0)], 8, Relaxed, Store)]
  }

  /* A pass over two relaxed accesses that do not touch offers both. */
  lemma OffersBoth(code: seq<Thunk>)
    requires |code| == 2 && code[0].Access? && code[1].Access? && code[0].order.Relaxed? && code[1].order.Relaxed?
    requires Known(Thread(code, Nothing(2)), 0) && Known(Thread(code, Nothing(2)), 1)
    requires Span(Thread(code, Nothing(2)), 1) * Span(Thread(code, Nothing(2)), 0) == {}
    ensures !PassAll(Loaded(code)).progress && PassAll(Loaded(code)).offered == [Event(0, 0), Event(0, 1)]
  {
    var p := Passing(code, {}, []);
    PassAllOne(Loaded(code));
    ScanTurn(p, 0, 0);
    var q := Turn(p, 0, 0);
    assert q == p.(pending := {} + Span(p.st.threads[0], 0), offered := [] + [Event(0, 0)]);
    ScanTurn(q, 0, 1);
    assert [] + [Event(0, 0)] + [Event(0, 1)] == [Event(0, 0), Event(0, 1)];
  }

  lemma KnownCovers(th: Thread, i: nat, a: byte, n: nat)
    requires i < |th.code| && Covers(th.code[i], a, n)
    ensures Known(th, i) && Span(th, i) == Cells(a, n)
  {
    AddressIs(a);
  }

  lemma CopyCode(x: byte, y: byte, code: seq<Thunk>)
    requires code == CopyProgram(x, y)
    ensures CodeOk(code) && ConstsSized(code) && Covers(code[0], x, 1) && Covers(code[1], y, 1)
  {
    AddressIs(x);
    AddressIs(y);
  }

  lemma CopyApart(x: byte, y: byte, th: Thread)
    requires x != y && |th.code| == 2 && Covers(th.code[0], x, 1) && Covers(th.code[1], y, 1)
    ensures Known(th, 0) && Known(th, 1) && Span(th, 1) * Span(th, 0) == {}
  {
    KnownCovers(th, 0, x, 1);
    KnownCovers(th, 1, y, 1);
  }

  /* The assertion of src/process.rs:122 can fail: an offered operation other than the first may
     still wait for an operand. */
  lemma ChoiceMayFail(x: byte, y: byte, code: seq<Thunk>) returns (run: seq<Step>, s: State)
    requires x != y && code == CopyProgram(x, y)
    ensures ConstsSized(code) && Reached(map[], run, s) && s == Loaded(code)
    ensures !PassAll(s).progress && PassAll(s).offered == [Event(0, 0), Event(0, 1)]
    ensures CanFire(s, Event(0, 0)) && !CanFire(s, Event(0, 1))
  {
    CopyCode(x, y, code);
    CopyApart(x, y, Thread(code, Nothing(2)));
    OffersBoth(code);
    run := LoadPrefix(map[], code, 2);
    s := Loaded(code);
    assert code[..2] == code;
    PassAllQuiet(s);
    assert Deps(code[1])[1] == Ref(0);
  }

  /* An offered operation steps exactly when its operands are Ready, and the first one always does. */
  lemma ChoiceSteps(s: State, k: nat)
    requires StateOk(s) && !PassAll(s).progress && k < |PassAll(s).offered|
    ensures var e := PassAll(s).offered[k];
            && e.tid < |s.threads| && e.pos < |s.threads[e.tid].code| && s.threads[e.tid].code[e.pos].Access?
            && (CanFire(s, e) <==> DepsReady(s.threads[e.tid].code[e.pos].operands, s.threads[e.tid].vals))
    ensures CanFire(s, PassAll(s).offered[0])
  {
    PassAllQuiet(s);
    var e := PassAll(s).offered[k];
    assert OfferOk(s, e);
    var th := s.threads[e.tid];
    var t := th.code[e.pos];
    assert ThunkOk(t, e.pos);
    assert Deps(t)[1..] == t.operands;
    forall d | 0 <= d < |t.operands| ensures t.operands[d] == Deps(t)[d + 1] { }
    if DepsReady(t.operands, th.vals) {
      forall d | 0 <= d < |Deps(t)| ensures DepVal(Deps(t)[d], th.vals).Some? {
        if d > 0 { assert Deps(t)[d] == t.operands[d - 1]; }
      }
    }
  }
}
