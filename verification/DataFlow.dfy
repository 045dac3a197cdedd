/**
 The mutable engine: the queue of one thread (`DataFlow`, src/data.rs:70-330). Its methods are
 proved against the functions of Engine.dfy.
 */
module DataFlows {
  import opened Wrappers
  import opened Values
  import opened FlatMemory
  import opened RangeMaps
  import opened Memories
  import opened Engine
  import opened EngineRuns
  import F = EngineEffects

  // ---------------------------------------------------------------- the queue

  ghost predicate Ascending(q: seq<nat>) {
    forall a, b | 0 <= a < b < |q| :: q[a] < q[b]
  }

  /* Every unresolved thunk is in the queue, and the queue is in program order. */
  ghost predicate Queues(q: seq<nat>, th: Thread) {
    && Ascending(q)
    && (forall a | 0 <= a < |q| :: q[a] < |th.code|)
    && (forall i | 0 <= i < |th.code| && Unresolved(th, i) :: i in q)
  }

  /* Past position a of the queue, exactly the unresolved thunks from `from` on are left. */
  ghost predicate Remaining(q: seq<nat>, a: nat, th: Thread, from: nat) {
    && a <= |q| && from <= |th.code|
    && (forall b | a <= b < |q| :: from <= q[b] < |th.code| && Unresolved(th, q[b]))
    && (forall i | from <= i < |th.code| && Unresolved(th, i) :: i in q[a..])
  }

  /* The bytes marked in the interval map `pending`. */
  ghost predicate Marks(m: Entries<()>, bytes: set<nat>) {
    Valid(m) && forall k: nat :: At(m, k).Some? <==> k in bytes
  }

  lemma MarksInsert(m: Entries<()>, bytes: set<nat>, start: nat, end: nat, span: set<nat>)
    requires Marks(m, bytes) && forall k: nat :: k in span <==> start <= k < end
    ensures Marks(Inserted(m, start, end, ()), bytes + span)
  {
    InsertedValid(m, start, end, ());
    forall k: nat ensures At(Inserted(m, start, end, ()), k).Some? <==> k in bytes + span {
      InsertedAt(m, start, end, (), k);
    }
  }

  /* The alias test of the loop. */
  lemma MarksAlias(m: Entries<()>, bytes: set<nat>, start: nat, end: nat, span: set<nat>)
    requires Marks(m, bytes) && forall k: nat :: k in span <==> start <= k < end
    ensures Range(m, start, end) != [] <==> span * bytes != {}
  {
    RangeEmpty(m, start, end);
    if Range(m, start, end) != [] {
      var k :| start <= k < end && At(m, k) != None;
      assert k in span * bytes;
    } else {
      forall c | c in span ensures c !in bytes { assert At(m, c) == None; }
    }
  }

  // ---------------------------------------------------------------- closures on the real memory

  /* Runs the closure of a thunk: src/data.rs:247-271 and src/flow.rs:148-221. */
  method Compute(memory: Memory, t: Thunk, args: seq<Value>) returns (v: Value)
    requires memory.Valid() && Arity(t) && |args| == |Deps(t)|
    modifies memory, memory.cells
    ensures memory.Valid()
    ensures (v, memory.Bytes()) == Perform(t, args, old(memory.Bytes()))
    ensures F.Does(t, args, old(memory.Bytes()), v, memory.Bytes())
  {
    F.PerformDoes(t, args, memory.Bytes());
    match t
    case Pure(_, compute) =>
      v := compute(args);
    case Access(_, _, bits, _, op) =>
      var a := AsU64(args[0]);
      match op
      case Load =>
        v := memory.LoadImpl(a, bits);
      case Store =>
        memory.StoreImpl(a, args[1]);
        v := UNIT;
      case CmpXchg(pack) =>
        var current := memory.LoadImpl(a, bits);
        var changed := current == args[1];
        if changed {
          memory.StoreImpl(a, args[2]);
        }
        v := pack(current, changed);
      case AtomicRmw(oper) =>
        v := memory.LoadImpl(a, bits);
        memory.StoreImpl(a, oper(v, args[1]));
  }

  // ---------------------------------------------------------------- one thread

  lemma TurnPureIs(p: Pass, t: nat, i: nat)
    requires t < |p.st.threads| && i < |p.st.threads[t].code|
    requires Unresolved(p.st.threads[t], i) && p.st.threads[t].code[i].Pure?
    ensures Turn(p, t, i) == TryFire(p, Event(t, i)) && !Halts(p, t, i)
  {
  }

  /* What an access that is not aliased does to the pass. */
  lemma TurnAccessIs(p: Pass, t: nat, i: nat)
    requires t < |p.st.threads| && i < |p.st.threads[t].code| && Known(p.st.threads[t], i)
    requires Unresolved(p.st.threads[t], i) && Span(p.st.threads[t], i) * p.pending == {}
    ensures var p1 := p.(pending := p.pending + Span(p.st.threads[t], i));
            Turn(p, t, i) ==
              match p.st.threads[t].code[i].order {
                case NotAtomic => TryFire(p1, Event(t, i))
                case Release => if p1.offered == [] then p1.(offered := [Event(t, i)]) else p1
                case _ => p1.(offered := p1.offered + [Event(t, i)])
              }
    ensures Halts(p, t, i) <==> Acquiring(p.st.threads[t].code[i])
  {
  }

  class DataFlow {
    const tid: nat
    var code: seq<Thunk>
    var vals: Vals
    var thunks: seq<nat>

    ghost function Model(): Thread
      reads this
    {
      Thread(code, vals)
    }

    ghost predicate Valid()
      reads this
    {
      ThreadOk(Model()) && Queues(thunks, Model())
    }

    constructor (tid: nat)
      ensures Valid() && Model() == Thread([], []) && this.tid == tid
    {
      this.tid := tid;
      code, vals, thunks := [], [], [];
    }

    /* `thunk_impl`: the new thunk gets the next sequence number. */
    method ThunkImpl(t: Thunk) returns (seqno: nat)
      requires Valid() && ThunkOk(t, |code|)
      modifies this
      ensures Valid() && seqno == |old(code)|
      ensures Model() == Thread(old(code) + [t], old(vals) + [None])
    {
      seqno := |code|;
      code := code + [t];
      vals := vals + [None];
      thunks := thunks + [seqno];
      assert thunks[|thunks| - 1] == seqno;
      assert forall a | 0 <= a < |old(thunks)| :: thunks[a] == old(thunks)[a];
      forall i | 0 <= i < |code| && Unresolved(Model(), i) ensures i in thunks {
        if i < seqno { assert Unresolved(old(Model()), i); }
      }
    }

    /* `Thunk::step`. */
    method Step(memory: Memory, i: nat, ghost s: State) returns (stepped: bool)
      requires Valid() && memory.Valid() && i < |code|
      requires tid < |s.threads| && s.threads[tid] == Model() && s.mem == memory.Bytes()
      modifies this`vals, memory, memory.cells
      ensures Valid() && memory.Valid()
      ensures stepped <==> CanFire(s, Event(tid, i))
      ensures stepped ==> var s' := Fire(s, Event(tid, i)); Model() == s'.threads[tid] && memory.Bytes() == s'.mem
      ensures !stepped ==> Model() == old(Model()) && memory.Bytes() == old(memory.Bytes())
    {
      var t := code[i];
      if !DepsReady(Deps(t), vals) || vals[i].Some? {
        return false;
      }
      var v := Compute(memory, t, Args(Deps(t), vals));
      vals := vals[i := Some(v)];
      stepped := true;
    }

    /* `this.thunks.retain(|t| t.try_get().is_none())`. */
    method Retain()
      requires Valid()
      modifies this`thunks
      ensures Valid() && Remaining(thunks, 0, Model(), 0)
    {
      var kept: seq<nat> := [];
      for a := 0 to |thunks|
        invariant Ascending(kept)
        invariant forall b | 0 <= b < |kept| :: kept[b] < |code| && Unresolved(Model(), kept[b])
        invariant forall b, c | 0 <= b < |kept| && a <= c < |thunks| :: kept[b] < thunks[c]
        invariant forall b | 0 <= b < a && Unresolved(Model(), thunks[b]) :: thunks[b] in kept
      {
        if vals[thunks[a]].None? {
          kept := kept + [thunks[a]];
          assert kept[|kept| - 1] == thunks[a];
        }
      }
      thunks := kept;
    }

    /* The pass p has got as far as the queue, the memory and the marked bytes say. */
    ghost predicate Tracks(memory: Memory, pending: RangeMap<()>, p: Pass)
      reads this, memory, memory.cells, pending
      requires memory.Valid()
    {
      && tid < |p.st.threads| && p.st.threads[tid] == Model() && p.st.mem == memory.Bytes()
      && Marks(pending.entries, p.pending)
    }

    /* The body of the loop of `step_pure` for one unresolved thunk; `halt` stands for `break`. */
    method Visit(memory: Memory, pending: RangeMap<()>, offered: seq<Event>, i: nat, ghost p: Pass)
      returns (stepped: bool, offered': seq<Event>, halt: bool, ghost q: Pass)
      requires Valid() && memory.Valid() && i < |code| && Unresolved(Model(), i)
      requires Tracks(memory, pending, p) && p.offered == offered
      modifies this`vals, memory, memory.cells, pending
      ensures Valid() && memory.Valid() && Tracks(memory, pending, q)
      ensures |vals| == |old(vals)| && forall x | 0 <= x < |vals| && x != i :: vals[x] == old(vals)[x]
      ensures tid < |p.st.threads| && i < |p.st.threads[tid].code| && q == Turn(p, tid, i) && halt == Halts(p, tid, i)
      ensures q.offered == offered' && (q.progress <==> p.progress || stepped)
      ensures halt <==>
              && code[i].Access?
              && (!Known(p.st.threads[tid], i) ||
                  (Span(p.st.threads[tid], i) * p.pending == {} && code[i].order in {Acquire, AcqRel, SeqCst}))
    {
      var t := code[i];
      offered', q := offered, p;
      halt, stepped := false, false;
      match t
      case Pure(_, _) =>
        // A thunk without a memory access waits for its operands only.
        TurnPureIs(p, tid, i);
        q := TryFire(p, Event(tid, i));
        stepped := Step(memory, i, p.st);
      case Access(address, _, bits, order, _) =>
        var known := DepVal(address, vals);
        if known.None? {
          return false, offered, true, p;
        }
        var start := AsU64(known.value);
        var end := start + ByteLen(bits);
        ghost var span := Span(Model(), i);
        MarksAlias(pending.entries, p.pending, start, end, span);
        if Range(pending.entries, start, end) != [] {
          // Skipped; its own range does not become pending.
          return;
        }
        TurnAccessIs(p, tid, i);
        MarksInsert(pending.entries, p.pending, start, end, span);
        pending.Insert(start, end, ());
        q := p.(pending := p.pending + span);
        match order {
          case NotAtomic =>
            q := TryFire(q, Event(tid, i));
            stepped := Step(memory, i, p.st);
          case Relaxed =>
            offered' := offered + [Event(tid, i)];
            q := q.(offered := offered');
          case Release =>
            if offered == [] {
              offered' := [Event(tid, i)];
              q := q.(offered := offered');
            }
          case _ =>
            offered' := offered + [Event(tid, i)];
            q := q.(offered := offered');
            halt := true;
        }
    }

    /* `step_pure`: one pass over the queue. */
    method StepPure(memory: Memory, resolvable: seq<Event>, ghost s: State)
      returns (progress: bool, offered: seq<Event>, ghost q: Pass)
      requires Valid() && memory.Valid()
      requires tid < |s.threads| && s.threads[tid] == Model() && s.mem == memory.Bytes()
      modifies this, memory, memory.cells
      ensures Valid() && memory.Valid()
      ensures q == Scan(Pass(s, {}, resolvable, false), tid, 0)
      ensures |q.st.threads| == |s.threads| && q.st.threads[tid] == Model() && q.st.mem == memory.Bytes()
      ensures q.offered == offered && q.progress == progress
    {
      Retain();
      var pending := new RangeMap<()>();
      q := Pass(s, {}, resolvable, false);
      progress, offered := false, resolvable;
      ghost var from := 0;
      var a := 0;
      while a < |thunks|
        invariant Valid() && memory.Valid() && Remaining(thunks, a, Model(), from)
        invariant |q.st.threads| == |s.threads| && Tracks(memory, pending, q)
        invariant q.offered == offered && q.progress == progress
        invariant Scan(q, tid, from) == Scan(Pass(s, {}, resolvable, false), tid, 0)
      {
        var i := thunks[a];
        ghost var before, n := Model(), i + 1;
        ScanQueue(thunks, a, q, tid, from, i, n);
        var stepped, offered', halt, q' := Visit(memory, pending, offered, i, q);
        progress, offered, q := progress || stepped, offered', q';
        if halt {
          return;
        }
        RemainingNext(thunks, a, before, from, Model());
        from := n;
        a := a + 1;
      }
      ScanOver(q, tid, from, |code|);
    }
  }

  lemma RemainingOver(q: seq<nat>, a: nat, th: Thread, from: nat)
    requires Ascending(q) && Remaining(q, a, th, from) && a < |q|
    ensures forall i | from <= i < q[a] :: !Unresolved(th, i)
  {
    assert forall b | 0 <= b < |q[a..]| :: q[a..][b] == q[a + b] >= q[a];
  }

  /* The pass goes on with the thunk at the front of the queue. */
  lemma ScanQueue(q: seq<nat>, a: nat, p: Pass, t: nat, from: nat, i: nat, n: nat)
    requires t < |p.st.threads| && Ascending(q) && Remaining(q, a, p.st.threads[t], from) && a < |q|
    requires i == q[a] && n == i + 1
    ensures |Turn(p, t, i).st.threads| == |p.st.threads|
    ensures Scan(p, t, from) == if Halts(p, t, i) then Turn(p, t, i) else Scan(Turn(p, t, i), t, n)
  {
    RemainingOver(q, a, p.st.threads[t], from);
    ScanOver(p, t, from, i);
    ScanTurn(p, t, i);
  }

  lemma RemainingNext(q: seq<nat>, a: nat, th: Thread, from: nat, th': Thread)
    requires Ascending(q) && Remaining(q, a, th, from) && a < |q|
    requires th'.code == th.code && |th'.vals| == |th.vals|
    requires forall x | 0 <= x < |th.vals| && x != q[a] :: th'.vals[x] == th.vals[x]
    ensures Remaining(q, a + 1, th', q[a] + 1)
  {
    var b, n := a + 1, q[a] + 1;
    forall i | n <= i < |th.code| && Unresolved(th', i) ensures i in q[b..] {
      assert i in q[a..];
      assert q[a..] == [q[a]] + q[b..];
    }
  }
}
