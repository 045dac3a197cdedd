/**
 Out-of-order execution refines in-order execution: whatever operations the scheduler picks and
 whenever the thunks are decoded, a single thread computes the values and the memory of running
 its thunks one after another.
 */
module EngineRefine {
  import opened Wrappers
  import opened Values
  import opened FlatMemory
  import opened Engine
  import opened EngineRuns
  import opened EngineOrder

  // ---------------------------------------------------------------- in-order execution

  ghost predicate CodeOk(code: seq<Thunk>) {
    forall i | 0 <= i < |code| :: ThunkOk(code[i], i)
  }

  function Ready(vals: seq<Value>): Vals { seq(|vals|, i requires 0 <= i < |vals| => Some(vals[i])) }

  datatype Outcome = Outcome(vals: seq<Value>, mem: Flat)

  /* The first n thunks, executed in program order. */
  ghost function InOrderExec(code: seq<Thunk>, mem: Flat, n: nat): (r: Outcome)
    requires CodeOk(code) && n <= |code|
    ensures |r.vals| == n
  {
    if n == 0 then Outcome([], mem)
    else
      var before := InOrderExec(code, mem, n - 1);
      var t := code[n - 1];
      assert ThunkOk(t, n - 1);
      var (v, mem') := Perform(t, Args(Deps(t), Ready(before.vals)), before.mem);
      Outcome(before.vals + [v], mem')
  }

  /* The thread once everything has been executed in order. */
  ghost function Reference(code: seq<Thunk>, mem: Flat): Thread
    requires CodeOk(code)
  {
    Thread(code, Ready(InOrderExec(code, mem, |code|).vals))
  }

  ghost function MemAfter(code: seq<Thunk>, mem: Flat, n: nat): Flat
    requires CodeOk(code) && n <= |code|
  {
    InOrderExec(code, mem, n).mem
  }

  lemma NextVals(code: seq<Thunk>, mem: Flat, k: nat, n: nat)
    requires CodeOk(code) && n == k + 1 <= |code|
    ensures InOrderExec(code, mem, k).vals <= InOrderExec(code, mem, n).vals
  {
  }

  lemma PrefixChain(a: seq<Value>, b: seq<Value>, c: seq<Value>)
    requires a <= b && b <= c
    ensures a <= c
  {
  }

  lemma {:induction false} ValsPrefix(code: seq<Thunk>, mem: Flat, n: nat, m: nat)
    requires CodeOk(code) && n <= m <= |code|
    ensures InOrderExec(code, mem, n).vals <= InOrderExec(code, mem, m).vals
    decreases m - n
  {
    if n < m {
      var k := m - 1;
      ValsPrefix(code, mem, n, k);
      NextVals(code, mem, k, m);
      PrefixChain(InOrderExec(code, mem, n).vals, InOrderExec(code, mem, k).vals, InOrderExec(code, mem, m).vals);
    }
  }

  lemma ReadyPrefix(d: Dep, a: seq<Value>, b: seq<Value>)
    requires a <= b && (d.Ref? ==> d.pos < |a|)
    ensures DepVal(d, Ready(b)) == DepVal(d, Ready(a)) && DepVal(d, Ready(a)).Some?
  {
  }

  /* Thunk i sees the same arguments in the reference thread as when it is executed in order. */
  lemma ReferenceArgs(code: seq<Thunk>, mem: Flat, i: nat)
    requires CodeOk(code) && i < |code|
    ensures var ds := Deps(code[i]);
            var th := Reference(code, mem);
            var before := Ready(InOrderExec(code, mem, i).vals);
            DepsReady(ds, th.vals) && DepsReady(ds, before) && Args(ds, th.vals) == Args(ds, before)
  {
    var ds := Deps(code[i]);
    var a, b := InOrderExec(code, mem, i).vals, InOrderExec(code, mem, |code|).vals;
    ValsPrefix(code, mem, i, |code|);
    assert ThunkOk(code[i], i);
    forall k | 0 <= k < |ds|
      ensures DepVal(ds[k], Ready(b)) == DepVal(ds[k], Ready(a)) && DepVal(ds[k], Ready(a)).Some?
    {
      ReadyPrefix(ds[k], a, b);
    }
    assert Args(ds, Ready(b)) == Args(ds, Ready(a));
  }

  /* What executing thunk i in order adds. */
  lemma ExecStep(code: seq<Thunk>, mem: Flat, i: nat, n: nat, args: seq<Value>)
    requires CodeOk(code) && i < |code| && n == i + 1 && ThunkOk(code[i], i)
    requires args == Args(Deps(code[i]), Ready(InOrderExec(code, mem, i).vals))
    ensures |InOrderExec(code, mem, i).vals| == i
    ensures InOrderExec(code, mem, n).vals ==
            InOrderExec(code, mem, i).vals + [Perform(code[i], args, MemAfter(code, mem, i)).0]
    ensures MemAfter(code, mem, n) == Perform(code[i], args, MemAfter(code, mem, i)).1
  {
  }

  lemma ReferenceVal(code: seq<Thunk>, mem: Flat, i: nat, n: nat)
    requires CodeOk(code) && i < |code| && n == i + 1
    ensures |InOrderExec(code, mem, n).vals| == n
    ensures Reference(code, mem).vals[i] == Some(InOrderExec(code, mem, n).vals[i])
  {
    ValsPrefix(code, mem, n, |code|);
  }

  lemma ReferenceStep(code: seq<Thunk>, mem: Flat, i: nat, n: nat)
    requires CodeOk(code) && i < |code| && n == i + 1
    ensures DepsReady(Deps(code[i]), Reference(code, mem).vals)
    ensures var args := Args(Deps(code[i]), Reference(code, mem).vals);
            && Reference(code, mem).vals[i] == Some(Perform(code[i], args, MemAfter(code, mem, i)).0)
            && MemAfter(code, mem, n) == Perform(code[i], args, MemAfter(code, mem, i)).1
  {
    ReferenceArgs(code, mem, i);
    assert ThunkOk(code[i], i);
    ExecStep(code, mem, i, n, Args(Deps(code[i]), Reference(code, mem).vals));
    ReferenceVal(code, mem, i, n);
  }

  // ---------------------------------------------------------------- hypotheses

  /* What the type checker guarantees: an access writes as many bytes as its layout has. */
  ghost predicate Typed(t: Thunk, args: seq<Value>)
    requires Arity(t) && |args| == |Deps(t)|
  {
    t.Access? ==>
      match t.op
      case Load => true
      case Store => |args[1].imp| == ByteLen(t.bits)
      case CmpXchg(_) => |args[2].imp| == ByteLen(t.bits)
      case AtomicRmw(oper) =>
        forall current: Value | |current.imp| == ByteLen(t.bits) :: |oper(current, args[1]).imp| == ByteLen(t.bits)
  }

  ghost predicate AllTyped(th: Thread) {
    forall i | 0 <= i < |th.code| && Arity(th.code[i]) && DepsReady(Deps(th.code[i]), th.vals) ::
      Typed(th.code[i], Args(Deps(th.code[i]), th.vals))
  }

  /* Every overlapping pair of accesses is one where the later waits for the earlier: nothing
     that hides the earlier one from a pass lets the later one through. */
  ghost predicate NoBridge(th: Thread) {
    forall j, i | 0 <= j < i < |th.code| && Overlap(th, j, i) :: Blocks(th, j, i)
  }

  ghost predicate Same(a: Flat, b: Flat, c: nat) {
    (c in a <==> c in b) && (c in a ==> a[c] == b[c])
  }

  /* A thunk's effect depends on, and changes, only the bytes of its access. */
  lemma PerformLocal(t: Thunk, args: seq<Value>, m1: Flat, m2: Flat, c: nat)
    requires Arity(t) && |args| == |Deps(t)| && Typed(t, args)
    requires t.Access? ==> forall a | a in Cells(AsU64(args[0]), ByteLen(t.bits)) :: Same(m1, m2, a)
    ensures Perform(t, args, m1).0 == Perform(t, args, m2).0
    ensures t.Access? && c in Cells(AsU64(args[0]), ByteLen(t.bits)) ==>
              Same(Perform(t, args, m1).1, Perform(t, args, m2).1, c)
    ensures !(t.Access? && c in Cells(AsU64(args[0]), ByteLen(t.bits))) ==> Same(Perform(t, args, m1).1, m1, c)
  {
    if t.Access? {
      var a, n := AsU64(args[0]), ByteLen(t.bits);
      forall k | 0 <= k < n ensures Read(m1, a, n)[k] == Read(m2, a, n)[k] {
        assert Same(m1, m2, a + k);
      }
      assert Read(m1, a, n) == Read(m2, a, n);
    }
  }

  // ---------------------------------------------------------------- the invariant

  ghost predicate Outstanding(th: Thread, i: nat) { i < |th.vals| ==> th.vals[i].None? }

  /* The first access from i on that covers byte c and has not been resolved. */
  ghost function Front(ref: Thread, th: Thread, c: nat, i: nat): (r: nat)
    requires i <= |ref.code|
    ensures i <= r <= |ref.code|
    ensures forall j | i <= j < r :: !(Outstanding(th, j) && c in Span(ref, j))
    ensures r < |ref.code| ==> Outstanding(th, r) && c in Span(ref, r)
    decreases |ref.code| - i
  {
    if i == |ref.code| || (Outstanding(th, i) && c in Span(ref, i)) then i else Front(ref, th, c, i + 1)
  }

  /* Resolved values are the in-order ones; of two overlapping accesses the earlier is resolved
     first; and every byte is what in-order execution leaves up to the first unresolved access
     that covers it. */
  ghost predicate Agrees(ref: Thread, th: Thread) {
    && |th.code| == |th.vals| <= |ref.code| == |ref.vals|
    && (forall i | 0 <= i < |th.code| :: th.code[i] == ref.code[i])
    && (forall i | 0 <= i < |th.code| && th.vals[i].Some? :: th.vals[i] == ref.vals[i])
  }

  ghost predicate Closed(ref: Thread, th: Thread) {
    forall j, i | 0 <= j < i < |th.vals| && Outstanding(th, j) && Overlap(ref, j, i) :: Outstanding(th, i)
  }

  ghost predicate MemoryAt(code: seq<Thunk>, mem0: Flat, th: Thread, mem: Flat, c: nat)
    requires CodeOk(code)
  {
    Same(mem, MemAfter(code, mem0, Front(Reference(code, mem0), th, c, 0)), c)
  }

  ghost predicate Refines(code: seq<Thunk>, mem0: Flat, th: Thread, mem: Flat)
    requires CodeOk(code)
  {
    && Agrees(Reference(code, mem0), th)
    && Closed(Reference(code, mem0), th)
    && forall c: nat :: MemoryAt(code, mem0, th, mem, c)
  }

  /* The byte-wise effect of executing thunk i in order. */
  lemma StepUntouched(code: seq<Thunk>, mem0: Flat, i: nat, n: nat, c: nat)
    requires CodeOk(code) && i < |code| && n == i + 1 && AllTyped(Reference(code, mem0))
    requires c !in Span(Reference(code, mem0), i)
    ensures Same(MemAfter(code, mem0, i), MemAfter(code, mem0, n), c)
  {
    ReferenceStep(code, mem0, i, n);
    var ref := Reference(code, mem0);
    var args := Args(Deps(code[i]), ref.vals);
    assert ThunkOk(code[i], i);
    if code[i].Access? { assert args[0] == DepVal(code[i].address, ref.vals).value; }
    PerformLocal(code[i], args, MemAfter(code, mem0, i), MemAfter(code, mem0, i), c);
  }

  lemma SameChain(a: Flat, b: Flat, d: Flat, c: nat)
    requires Same(a, b, c) && Same(b, d, c)
    ensures Same(a, d, c)
  {
  }

  /* Byte c is not touched by thunks m to n - 1. */
  lemma {:induction false} MemUntouched(code: seq<Thunk>, mem0: Flat, m: nat, n: nat, c: nat)
    requires CodeOk(code) && m <= n <= |code| && AllTyped(Reference(code, mem0))
    requires forall j | m <= j < n :: c !in Span(Reference(code, mem0), j)
    ensures Same(MemAfter(code, mem0, m), MemAfter(code, mem0, n), c)
    decreases n - m
  {
    if m < n {
      var last := n - 1;
      MemUntouched(code, mem0, m, last, c);
      StepUntouched(code, mem0, last, n, c);
      SameChain(MemAfter(code, mem0, m), MemAfter(code, mem0, last), MemAfter(code, mem0, n), c);
    }
  }

  /* Nothing unresolved before i overlaps i when i is resolved. */
  lemma NothingBefore(code: seq<Thunk>, mem0: Flat, th: Thread, i: nat, j: nat)
    requires CodeOk(code) && NoBridge(Reference(code, mem0)) && Agrees(Reference(code, mem0), th)
    requires InOrder(th, i) && j < i && Unresolved(th, j)
    requires th.code[i].Access? ==> Known(th, i)
    ensures !Overlap(Reference(code, mem0), j, i)
  {
    var ref := Reference(code, mem0);
    assert ThreadExtends(th, ref);
    if Overlap(ref, j, i) {
      assert Blocks(ref, j, i);
      SpanStable(th, ref, i);
      assert MayOvertake(th, i, j);
      SpanStable(th, ref, j);
      var k: nat :| Bridges(th, k, j, i);
      SpanStable(th, ref, k);
      assert Bridges(ref, k, j, i);
      assert false;
    }
  }

  // ---------------------------------------------------------------- every act keeps it

  lemma FrontIs(ref: Thread, th: Thread, c: nat, i: nat, f: nat)
    requires i <= f < |ref.code| && Outstanding(th, f) && c in Span(ref, f)
    requires forall j | i <= j < f :: !(Outstanding(th, j) && c in Span(ref, j))
    ensures Front(ref, th, c, i) == f
  {
  }

  ghost function Settled(th: Thread, i: nat, v: Value): Thread
    requires i < |th.vals|
  {
    th.(vals := th.vals[i := Some(v)])
  }

  lemma NotBoth(th: Thread, j: nat, i: nat, c: nat)
    requires !Overlap(th, j, i)
    ensures !(c in Span(th, j) && c in Span(th, i))
  {
    assert c in Span(th, j) && c in Span(th, i) ==> c in Span(th, j) * Span(th, i);
  }

  /* A byte that thunk i touches is what in-order execution leaves up to it. */
  lemma FrontReads(code: seq<Thunk>, mem0: Flat, th: Thread, mem: Flat, i: nat, c: nat)
    requires CodeOk(code) && Refines(code, mem0, th, mem) && NoBridge(Reference(code, mem0))
    requires InOrder(th, i) && Unresolved(th, i) && (th.code[i].Access? ==> Known(th, i))
    requires c in Span(Reference(code, mem0), i)
    ensures Front(Reference(code, mem0), th, c, 0) == i && Same(mem, MemAfter(code, mem0, i), c)
  {
    var ref := Reference(code, mem0);
    forall j | 0 <= j < i ensures !(Outstanding(th, j) && c in Span(ref, j)) {
      if Outstanding(th, j) {
        NothingBefore(code, mem0, th, i, j);
        NotBoth(ref, j, i, c);
      }
    }
    FrontIs(ref, th, c, 0, i);
    assert MemoryAt(code, mem0, th, mem, c);
  }

  lemma SameArgs(ds: seq<Dep>, a: Vals, b: Vals)
    requires DepsReady(ds, a) && DepsReady(ds, b)
    requires |a| <= |b| && forall i | 0 <= i < |a| && a[i].Some? :: a[i] == b[i]
    ensures Args(ds, a) == Args(ds, b)
  {
    forall k | 0 <= k < |ds| ensures DepVal(ds[k], a) == DepVal(ds[k], b) { assert DepVal(ds[k], a).Some?; }
    assert Args(ds, a) == Args(ds, b);
  }

  /* The arguments and the bytes thunk i reads are the in-order ones, so its value is too. */
  lemma FireReads(code: seq<Thunk>, mem0: Flat, th: Thread, mem: Flat, i: nat)
    requires CodeOk(code) && Refines(code, mem0, th, mem)
    requires NoBridge(Reference(code, mem0)) && AllTyped(Reference(code, mem0))
    requires InOrder(th, i) && Unresolved(th, i) && DepsReady(Deps(th.code[i]), th.vals)
    ensures var ref := Reference(code, mem0);
            && Args(Deps(th.code[i]), th.vals) == Args(Deps(code[i]), ref.vals)
            && (code[i].Access? ==>
                  Span(ref, i) == Cells(AsU64(Args(Deps(code[i]), ref.vals)[0]), ByteLen(code[i].bits)))
            && (code[i].Access? ==> forall c | c in Span(ref, i) ::
                  Front(ref, th, c, 0) == i && Same(mem, MemAfter(code, mem0, i), c))
  {
    var ref := Reference(code, mem0);
    ReferenceArgs(code, mem0, i);
    SameArgs(Deps(code[i]), th.vals, ref.vals);
    if code[i].Access? {
      assert Deps(code[i])[0] == code[i].address;
      forall c | c in Span(ref, i) ensures Front(ref, th, c, 0) == i && Same(mem, MemAfter(code, mem0, i), c) {
        FrontReads(code, mem0, th, mem, i, c);
      }
    }
  }

  /* Thunk i has its in-order value, and every byte it touches is what in-order execution makes it. */
  lemma FireComputes(code: seq<Thunk>, mem0: Flat, th: Thread, mem: Flat, i: nat, n: nat, c: nat)
    requires CodeOk(code) && Refines(code, mem0, th, mem) && n == i + 1
    requires NoBridge(Reference(code, mem0)) && AllTyped(Reference(code, mem0))
    requires InOrder(th, i) && Unresolved(th, i) && Arity(th.code[i]) && DepsReady(Deps(th.code[i]), th.vals)
    ensures var ref := Reference(code, mem0);
            var (v, mem') := Perform(th.code[i], Args(Deps(th.code[i]), th.vals), mem);
            && ref.vals[i] == Some(v)
            && (c in Span(ref, i) ==> Front(ref, th, c, 0) == i && Same(mem', MemAfter(code, mem0, n), c))
            && (c !in Span(ref, i) ==> Same(mem', mem, c))
  {
    FireReads(code, mem0, th, mem, i);
    ReferenceStep(code, mem0, i, n);
    PerformLocal(code[i], Args(Deps(code[i]), Reference(code, mem0).vals), mem, MemAfter(code, mem0, i), c);
  }

  /* Resolving thunk i when it may fire keeps the invariant. */
  lemma FireRefines(code: seq<Thunk>, mem0: Flat, th: Thread, mem: Flat, i: nat)
    requires CodeOk(code) && Refines(code, mem0, th, mem)
    requires NoBridge(Reference(code, mem0)) && AllTyped(Reference(code, mem0))
    requires InOrder(th, i) && Unresolved(th, i) && Arity(th.code[i]) && DepsReady(Deps(th.code[i]), th.vals)
    ensures var (v, mem') := Perform(th.code[i], Args(Deps(th.code[i]), th.vals), mem);
            Refines(code, mem0, Settled(th, i, v), mem')
  {
    var ref, n := Reference(code, mem0), i + 1;
    var (v, mem') := Perform(th.code[i], Args(Deps(th.code[i]), th.vals), mem);
    var th' := Settled(th, i, v);
    FireClosed(code, mem0, th, mem, i, v);
    forall c: nat ensures ref.vals[i] == Some(v) && MemoryAt(code, mem0, th', mem', c) {
      FireComputes(code, mem0, th, mem, i, n, c);
      if c in Span(ref, i) {
        FrontMoves(code, mem0, th, i, n, v, c);
      } else {
        FrontStays(ref, th, i, v, c, 0);
        assert MemoryAt(code, mem0, th, mem, c);
      }
    }
    FireComputes(code, mem0, th, mem, i, n, 0);
    assert Agrees(ref, th');
  }

  lemma FireClosed(code: seq<Thunk>, mem0: Flat, th: Thread, mem: Flat, i: nat, v: Value)
    requires CodeOk(code) && Refines(code, mem0, th, mem)
    requires NoBridge(Reference(code, mem0))
    requires InOrder(th, i) && Unresolved(th, i) && DepsReady(Deps(th.code[i]), th.vals)
    ensures Closed(Reference(code, mem0), Settled(th, i, v))
  {
    var ref := Reference(code, mem0);
    var th' := Settled(th, i, v);
    if th.code[i].Access? { assert Deps(th.code[i])[0] == th.code[i].address; }
    forall j, k | 0 <= j < k < |th'.vals| && Outstanding(th', j) && Overlap(ref, j, k) ensures Outstanding(th', k) {
      assert Outstanding(th, j);
      if k == i { NothingBefore(code, mem0, th, i, j); }
    }
  }

  /* A byte that thunk i does not touch keeps its front. */
  lemma {:induction false} FrontStays(ref: Thread, th: Thread, i: nat, v: Value, c: nat, from: nat)
    requires i < |th.vals| && from <= |ref.code| && c !in Span(ref, i)
    ensures Front(ref, Settled(th, i, v), c, from) == Front(ref, th, c, from)
    decreases |ref.code| - from
  {
    if from < |ref.code| { FrontStays(ref, th, i, v, c, from + 1); }
  }

  /* For a byte that thunk i touches, in-order execution changes nothing between i and the next
     unresolved access. */
  lemma FrontMoves(code: seq<Thunk>, mem0: Flat, th: Thread, i: nat, n: nat, v: Value, c: nat)
    requires n == i + 1 && CodeOk(code) && Agrees(Reference(code, mem0), th) && Closed(Reference(code, mem0), th)
    requires AllTyped(Reference(code, mem0))
    requires i < |th.vals| && Outstanding(th, i) && c in Span(Reference(code, mem0), i)
    requires Front(Reference(code, mem0), th, c, 0) == i
    ensures var f := Front(Reference(code, mem0), Settled(th, i, v), c, 0);
            Same(MemAfter(code, mem0, n), MemAfter(code, mem0, f), c)
  {
    var ref := Reference(code, mem0);
    FrontPast(ref, th, i, v, c);
    MemUntouched(code, mem0, n, Front(ref, Settled(th, i, v), c, 0), c);
  }

  lemma FrontPast(ref: Thread, th: Thread, i: nat, v: Value, c: nat)
    requires Agrees(ref, th) && Closed(ref, th)
    requires i < |th.vals| && Outstanding(th, i) && c in Span(ref, i) && Front(ref, th, c, 0) == i
    ensures Front(ref, Settled(th, i, v), c, 0) > i
    ensures forall j | i < j < Front(ref, Settled(th, i, v), c, 0) :: c !in Span(ref, j)
  {
    var th' := Settled(th, i, v);
    var f := Front(ref, th', c, 0);
    assert f > i;
    forall j | i < j < f ensures c !in Span(ref, j) {
      assert !(Outstanding(th', j) && c in Span(ref, j));
      if !Overlap(ref, i, j) { NotBoth(ref, i, j, c); }
    }
  }

  // ---------------------------------------------------------------- whole runs

  /* The one thread of a single-threaded process; it may not have been started yet. */
  ghost function Only(s: State): Thread
    requires |s.threads| <= 1
  {
    if s.threads == [] then Thread([], []) else s.threads[0]
  }

  lemma StartRefines(code: seq<Thunk>, mem0: Flat)
    requires CodeOk(code) && AllTyped(Reference(code, mem0))
    ensures Refines(code, mem0, Thread([], []), mem0)
  {
    var th := Thread([], []);
    forall c: nat ensures MemoryAt(code, mem0, th, mem0, c) {
      MemUntouched(code, mem0, 0, Front(Reference(code, mem0), th, c, 0), c);
    }
  }

  ghost predicate Hypotheses(code: seq<Thunk>, mem0: Flat) {
    CodeOk(code) && NoBridge(Reference(code, mem0)) && AllTyped(Reference(code, mem0))
  }

  lemma GrowRefines(code: seq<Thunk>, mem0: Flat, th: Thread, th': Thread, mem: Flat)
    requires Hypotheses(code, mem0) && Refines(code, mem0, th, mem)
    requires th'.code <= code && |th'.code| == |th'.vals| && th'.vals == th.vals + [None]
    ensures Refines(code, mem0, th', mem)
  {
    var ref := Reference(code, mem0);
    GrowAgrees(ref, th, th');
    forall c: nat ensures MemoryAt(code, mem0, th', mem, c) {
      assert MemoryAt(code, mem0, th, mem, c);
      FrontGrows(ref, th, th', c, 0);
    }
  }

  lemma GrowAgrees(ref: Thread, th: Thread, th': Thread)
    requires Agrees(ref, th) && Closed(ref, th)
    requires th'.code <= ref.code && |th'.code| == |th'.vals| && th'.vals == th.vals + [None]
    ensures Agrees(ref, th') && Closed(ref, th')
  {
    forall j, i | 0 <= j < i < |th'.vals| && Outstanding(th', j) && Overlap(ref, j, i) ensures Outstanding(th', i) {
      assert Outstanding(th, j) && (i < |th.vals| ==> Outstanding(th, i));
    }
  }

  lemma ActRefines(s: State, a: Act, code: seq<Thunk>, mem0: Flat)
    requires StateOk(s) && ActOk(s, a) && Hypotheses(code, mem0)
    requires |ActNext(s, a).threads| <= 1 && Only(ActNext(s, a)).code <= code
    requires |s.threads| <= 1 && Refines(code, mem0, Only(s), s.mem)
    ensures Refines(code, mem0, Only(ActNext(s, a)), ActNext(s, a).mem)
  {
    match a
    case Settle(e, _) => FireRefines(code, mem0, s.threads[0], s.mem, e.pos);
    case Fork =>
    case Grow(t, thunk) => GrowRefines(code, mem0, s.threads[0], Only(ActNext(s, a)), s.mem);
  }

  lemma {:induction false} FrontGrows(ref: Thread, th: Thread, th': Thread, c: nat, i: nat)
    requires i <= |ref.code| && th'.vals == th.vals + [None]
    ensures Front(ref, th', c, i) == Front(ref, th, c, i)
    decreases |ref.code| - i
  {
    if i < |ref.code| { FrontGrows(ref, th, th', c, i + 1); }
  }

  lemma {:induction false} ActsRefine(s: State, acts: seq<Act>, code: seq<Thunk>, mem0: Flat)
    requires StateOk(s) && LogExact(s) && Legal(s, acts) && Hypotheses(code, mem0)
    requires |Played(s, acts).threads| <= 1 && Only(Played(s, acts)).code <= code
    requires |s.threads| <= 1 && Refines(code, mem0, Only(s), s.mem)
    ensures Refines(code, mem0, Only(Played(s, acts)), Played(s, acts).mem)
    decreases |acts|
  {
    if acts != [] {
      var s1 := ActNext(s, acts[0]);
      FirstAct(s, acts);
      assert Only(s1).code <= Only(Played(s, acts)).code;
      ActRefines(s, acts[0], code, mem0);
      ActsRefine(s1, acts[1..], code, mem0);
    }
  }

  /* In-order values: at every point of every run of one thread, every Ready thunk has the value
     it has when the decoded thunks are executed in program order, and once the queue is
     drained so does the whole memory. */
  lemma RunRefines(mem: Flat, run: seq<Step>, s: State)
    requires Reached(mem, run, s) && |s.threads| == 1
    requires Hypotheses(s.threads[0].code, mem)
    ensures var th := s.threads[0];
            && |th.vals| == |th.code|
            && (forall i | 0 <= i < |th.code| && th.vals[i].Some? :: th.vals[i] == Reference(th.code, mem).vals[i])
            && (Drained(s) ==> th == Reference(th.code, mem) && s.mem == MemAfter(th.code, mem, |th.code|))
  {
    var th := s.threads[0];
    var acts := RunLegal(Start(mem), run);
    StartRefines(th.code, mem);
    ActsRefine(Start(mem), acts, th.code, mem);
    if Drained(s) {
      assert ResolvedBefore(th, |th.code|);
      DrainedRefines(th, mem, s.mem);
    }
  }

  lemma DrainedRefines(th: Thread, mem0: Flat, mem: Flat)
    requires CodeOk(th.code) && Refines(th.code, mem0, th, mem)
    requires ResolvedBefore(th, |th.code|)
    ensures th == Reference(th.code, mem0) && mem == MemAfter(th.code, mem0, |th.code|)
  {
    var ref := Reference(th.code, mem0);
    forall i | 0 <= i < |th.code| ensures th.vals[i] == ref.vals[i] { assert !Unresolved(th, i); }
    var final := MemAfter(th.code, mem0, |th.code|);
    forall c: nat ensures Same(mem, final, c) {
      assert MemoryAt(th.code, mem0, th, mem, c);
      assert Front(ref, th, c, 0) == |th.code| by {
        forall j | 0 <= j < |th.code| ensures !Outstanding(th, j) { assert !Unresolved(th, j); }
      }
    }
    forall c ensures c in mem <==> c in final { assert Same(mem, final, c); }
    forall c | c in mem ensures mem[c] == final[c] { assert Same(mem, final, c); }
  }

  /* With access ranges that are pairwise disjoint or equal there is no bridge. */
  lemma DisjointOrEqual(th: Thread)
    requires forall j, i | 0 <= j < i < |th.code| && Overlap(th, j, i) :: Span(th, j) == Span(th, i)
    ensures NoBridge(th)
  {
    forall j, i | 0 <= j < i < |th.code| && Overlap(th, j, i) ensures Blocks(th, j, i) {
      forall k ensures !Bridges(th, k, j, i) {
        if Aliases(th, k, j) { assert Span(th, k) == Span(th, j); }
      }
    }
  }
}
