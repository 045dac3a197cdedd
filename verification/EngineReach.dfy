/**
 What a pass does not hold back: the loop of `step_pure` skips an access only for an alias and stops
 only at an acquire or an unknown address (src/data.rs:284-328), so whatever stands behind none of
 these is resolved or offered.
 */
module EngineReach {
  import opened Wrappers
  import opened Values
  import opened Engine
  import opened EngineRuns

  /* No earlier unresolved access of the thread has an unknown address, is a barrier or overlaps i. */
  ghost predicate Clear(th: Thread, i: nat) {
    && i < |th.code| && (th.code[i].Access? ==> Known(th, i))
    && forall j | 0 <= j < i && Unresolved(th, j) && th.code[j].Access? ::
         && Known(th, j) && th.code[j].order !in {Acquire, AcqRel, SeqCst}
         && (th.code[i].Access? ==> !Overlap(th, j, i))
  }

  /* Nothing that is Ready changes. */
  ghost predicate Grew(a: State, b: State) {
    && |b.threads| == |a.threads|
    && forall u | 0 <= u < |a.threads| ::
         b.threads[u].code == a.threads[u].code && ThreadExtends(a.threads[u], b.threads[u])
  }

  lemma GrewTransitive(a: State, b: State, c: State)
    requires Grew(a, b) && Grew(b, c)
    ensures Grew(a, c)
  {
    forall u | 0 <= u < |a.threads| ensures ThreadExtends(a.threads[u], c.threads[u]) {
      assert ThreadExtends(a.threads[u], b.threads[u]) && ThreadExtends(b.threads[u], c.threads[u]);
    }
  }

  lemma FireGrew(s: State, e: Event)
    requires CanFire(s, e)
    ensures Grew(s, Fire(s, e))
  {
  }

  lemma TryGrew(p: Pass, e: Event)
    ensures Grew(p.st, TryFire(p, e).st)
  {
    if CanFire(p.st, e) { FireGrew(p.st, e); }
  }

  lemma TurnGrew(p: Pass, t: nat, x: nat)
    requires t < |p.st.threads| && x < |p.st.threads[t].code|
    ensures Grew(p.st, Turn(p, t, x).st)
  {
    TryGrew(p, Event(t, x));
    TryGrew(p.(pending := p.pending + Span(p.st.threads[t], x)), Event(t, x));
  }

  lemma {:induction false} ScanGrew(p: Pass, t: nat, x: nat)
    requires t < |p.st.threads|
    ensures Grew(p.st, Scan(p, t, x).st)
    decreases |p.st.threads[t].code| - x
  {
    if x < |p.st.threads[t].code| {
      ScanTurn(p, t, x);
      TurnGrew(p, t, x);
      if !Halts(p, t, x) {
        ScanGrew(Turn(p, t, x), t, x + 1);
        GrewTransitive(p.st, Turn(p, t, x).st, Scan(p, t, x).st);
      }
    }
  }

  lemma {:induction false} AllGrew(p: Pass, t: nat)
    ensures Grew(p.st, ScanAll(p, t).st) && p.offered <= ScanAll(p, t).offered
    decreases |p.st.threads| - t
  {
    if t < |p.st.threads| {
      var p0 := p.(pending := {});
      var p1 := Scan(p0, t, 0);
      ScanGrew(p0, t, 0);
      ScanShape(p0, t, 0);
      AllGrew(p1, t + 1);
      GrewTransitive(p.st, p1.st, ScanAll(p1, t + 1).st);
    }
  }

  // ---------------------------------------------------------------- the pass on its way to i

  ghost predicate From(base: Thread, x: nat, c: nat) {
    exists j :: 0 <= j < x && Unresolved(base, j) && j < |base.code| && base.code[j].Access? && c in Span(base, j)
  }

  /* The pass over the thread has come to x; `base` is the thread at its beginning. */
  ghost predicate OnWay(p: Pass, t: nat, base: Thread, x: nat, i: nat) {
    && t < |p.st.threads| && p.st.threads[t].code == base.code && ThreadExtends(base, p.st.threads[t])
    && |p.st.threads[t].vals| == |base.vals| == |base.code|
    && (forall y | x <= y < |base.vals| :: p.st.threads[t].vals[y] == base.vals[y])
    && (forall c | c in p.pending :: From(base, x, c))
  }

  lemma WayTurn(p: Pass, t: nat, base: Thread, x: nat, i: nat, n: nat)
    requires OnWay(p, t, base, x, i) && Clear(base, i) && x < i && n == x + 1
    ensures !Halts(p, t, x) && OnWay(Turn(p, t, x), t, base, n, i)
  {
    var th, q := p.st.threads[t], Turn(p, t, x);
    TurnGrew(p, t, x);
    ThreadChain(base, th, q.st.threads[t]);
    if Unresolved(th, x) && th.code[x].Access? {
      assert Unresolved(base, x);
      SpanStable(base, th, x);
      WayPending(p, q, t, base, x, n);
    }
    forall c | c in q.pending ensures From(base, n, c) {
      if c in p.pending { assert From(base, x, c); }
    }
    WayOthers(p, t, x);
  }

  lemma ThreadChain(a: Thread, b: Thread, c: Thread)
    requires ThreadExtends(a, b) && ThreadExtends(b, c)
    ensures ThreadExtends(a, c)
  {
  }

  /* The turn of x touches no other thunk. */
  lemma WayOthers(p: Pass, t: nat, x: nat)
    requires t < |p.st.threads| && x < |p.st.threads[t].code|
    ensures |Turn(p, t, x).st.threads[t].vals| == |p.st.threads[t].vals|
    ensures forall y | 0 <= y < |p.st.threads[t].vals| && y != x ::
              Turn(p, t, x).st.threads[t].vals[y] == p.st.threads[t].vals[y]
  {
  }

  lemma WayPending(p: Pass, q: Pass, t: nat, base: Thread, x: nat, n: nat)
    requires t < |p.st.threads| && x < |p.st.threads[t].code| && n == x + 1 && q == Turn(p, t, x)
    requires Unresolved(base, x) && x < |base.code| && base.code[x].Access? && Span(p.st.threads[t], x) == Span(base, x)
    ensures forall c | c in q.pending :: c in p.pending || From(base, n, c)
  {
    assert forall c | c in q.pending :: c in p.pending || c in Span(base, x);
  }

  /* What the turn of i comes to. */
  ghost predicate Done(base: Thread, q: Pass, t: nat, i: nat)
    requires i < |base.code|
  {
    && |q.st.threads| > t
    && match base.code[i]
       case Pure(deps, _) => DepsReady(deps, base.vals) ==> !Unresolved(q.st.threads[t], i)
       case Access(_, _, _, order, _) =>
         match order
         case NotAtomic => DepsReady(Deps(base.code[i]), base.vals) ==> !Unresolved(q.st.threads[t], i)
         case Release => q.offered != []
         case Relaxed => Event(t, i) in q.offered
         case Acquire => Event(t, i) in q.offered
         case AcqRel => Event(t, i) in q.offered
         case SeqCst => Event(t, i) in q.offered
  }

  lemma StillReady(ds: seq<Dep>, a: Thread, b: Thread)
    requires ThreadExtends(a, b) && DepsReady(ds, a.vals)
    ensures DepsReady(ds, b.vals)
  {
    forall k | 0 <= k < |ds| ensures DepVal(ds[k], b.vals).Some? { assert DepVal(ds[k], a.vals).Some?; }
  }

  lemma FromElsewhere(base: Thread, i: nat, c: nat)
    requires From(base, i, c) && Clear(base, i) && base.code[i].Access?
    ensures c !in Span(base, i)
  {
    var j :| 0 <= j < i && Unresolved(base, j) && j < |base.code| && base.code[j].Access? && c in Span(base, j);
    InOne(Span(base, j), Span(base, i), c);
  }

  lemma InOne(a: set<nat>, b: set<nat>, c: nat)
    requires a * b == {} && c in a
    ensures c !in b
  {
    assert c in b ==> c in a * b;
  }

  lemma NotAliased(p: Pass, t: nat, base: Thread, i: nat)
    requires OnWay(p, t, base, i, i) && Clear(base, i) && base.code[i].Access?
    ensures Known(p.st.threads[t], i) && Span(p.st.threads[t], i) * p.pending == {}
  {
    SpanStable(base, p.st.threads[t], i);
    forall c | c in p.pending ensures c !in Span(base, i) { FromElsewhere(base, i, c); }
  }

  lemma DoneTurn(p: Pass, t: nat, base: Thread, i: nat)
    requires OnWay(p, t, base, i, i) && Clear(base, i) && ThreadOk(base) && Unresolved(base, i)
    ensures Done(base, Turn(p, t, i), t, i)
  {
    var th := p.st.threads[t];
    assert ThunkOk(base.code[i], i);
    if DepsReady(Deps(base.code[i]), base.vals) { StillReady(Deps(base.code[i]), base, th); }
    if base.code[i].Access? {
      NotAliased(p, t, base, i);
      var q := Turn(p, t, i);
      assert q.offered == p.offered + [Event(t, i)] ==> q.offered[|p.offered|] == Event(t, i);
    }
  }

  lemma DoneLater(base: Thread, p: Pass, q: Pass, t: nat, i: nat)
    requires i < |base.code| == |base.vals| && Done(base, p, t, i) && Grew(p.st, q.st) && p.offered <= q.offered
    requires |q.st.threads[t].vals| == |base.vals|
    requires |p.st.threads[t].vals| == |base.vals|
    ensures Done(base, q, t, i)
  {
    assert ThreadExtends(p.st.threads[t], q.st.threads[t]);
  }

  lemma {:induction false} ScanLength(p: Pass, t: nat, x: nat, u: nat)
    requires t < |p.st.threads| && u < |p.st.threads|
    ensures |Scan(p, t, x).st.threads| == |p.st.threads|
    ensures |Scan(p, t, x).st.threads[u].vals| == |p.st.threads[u].vals|
    decreases |p.st.threads[t].code| - x
  {
    if x < |p.st.threads[t].code| {
      ScanTurn(p, t, x);
      if !Halts(p, t, x) { ScanLength(Turn(p, t, x), t, x + 1, u); }
    }
  }

  lemma {:induction false} ScanReaches(p: Pass, t: nat, base: Thread, x: nat, i: nat)
    requires OnWay(p, t, base, x, i) && Clear(base, i) && ThreadOk(base) && Unresolved(base, i) && x <= i
    ensures Done(base, Scan(p, t, x), t, i)
    decreases i - x
  {
    ScanTurn(p, t, x);
    var q := Turn(p, t, x);
    if x < i {
      var n := x + 1;
      WayTurn(p, t, base, x, i, n);
      ScanReaches(q, t, base, n, i);
    } else {
      DoneTurn(p, t, base, i);
      WayOthers(p, t, i);
      if !Halts(p, t, i) {
        ScanGrew(q, t, i + 1);
        ScanShape(q, t, i + 1);
        ScanLength(q, t, i + 1, t);
        DoneLater(base, q, Scan(q, t, i + 1), t, i);
      }
    }
  }

  lemma {:induction false} AllLength(p: Pass, t: nat, u: nat)
    requires u < |p.st.threads|
    ensures |ScanAll(p, t).st.threads| == |p.st.threads|
    ensures |ScanAll(p, t).st.threads[u].vals| == |p.st.threads[u].vals|
    decreases |p.st.threads| - t
  {
    if t < |p.st.threads| {
      ScanLength(p.(pending := {}), t, 0, u);
      AllLength(Scan(p.(pending := {}), t, 0), t + 1, u);
    }
  }

  lemma {:induction false} AllReaches(p: Pass, u: nat, t: nat, i: nat)
    requires u <= t < |p.st.threads| && ThreadOk(p.st.threads[t])
    requires Unresolved(p.st.threads[t], i) && Clear(p.st.threads[t], i)
    ensures Done(p.st.threads[t], ScanAll(p, u), t, i)
    decreases t - u
  {
    var p0, base := p.(pending := {}), p.st.threads[t];
    var p1, n := Scan(p0, u, 0), u + 1;
    ScanLength(p0, u, 0, t);
    if u < t {
      ScanOthers(p0, u, 0);
      AllReaches(p1, n, t, i);
    } else {
      ScanReaches(p0, t, base, 0, i);
      AllGrew(p1, n);
      AllLength(p1, n, t);
      DoneLater(base, p1, ScanAll(p1, n), t, i);
    }
  }

  /* A pass holds nothing back without reason. A thunk whose own address is known and behind no
     unresolved access of its thread that has an unknown address, is an Acquire, AcqRel or SeqCst
     operation or touches the same bytes, is resolved if it is plain or pure and its operands are
     Ready, offered if it is atomic, and, if it is a Release, held back by offers only. */
  lemma PassReaches(s: State, t: nat, i: nat)
    requires StateOk(s) && t < |s.threads| && Unresolved(s.threads[t], i) && Clear(s.threads[t], i)
    ensures Done(s.threads[t], PassAll(s), t, i)
  {
    assert ThreadOk(s.threads[t]);
    AllReaches(Pass(s, {}, [], false), 0, t, i);
  }

  // ---------------------------------------------------------------- a Release is offered first

  predicate Releases(s: State, e: Event) {
    && e.tid < |s.threads| && e.pos < |s.threads[e.tid].code|
    && s.threads[e.tid].code[e.pos].Access? && s.threads[e.tid].code[e.pos].order.Release?
  }

  ghost predicate OnlyFirst(s: State, offered: seq<Event>) {
    forall k | 0 < k < |offered| :: !Releases(s, offered[k])
  }

  lemma SameReleases(a: State, b: State, e: Event)
    requires Grew(a, b)
    ensures Releases(a, e) <==> Releases(b, e)
  {
  }

  lemma TurnOnlyFirst(p: Pass, t: nat, x: nat)
    requires t < |p.st.threads| && x < |p.st.threads[t].code| && OnlyFirst(p.st, p.offered)
    ensures OnlyFirst(Turn(p, t, x).st, Turn(p, t, x).offered)
  {
    var q := Turn(p, t, x);
    TurnGrew(p, t, x);
    forall k | 0 < k < |q.offered| ensures !Releases(q.st, q.offered[k]) {
      SameReleases(p.st, q.st, q.offered[k]);
      if k < |p.offered| { assert !Releases(p.st, p.offered[k]); }
    }
  }

  lemma {:induction false} ScanOnlyFirst(p: Pass, t: nat, x: nat)
    requires t < |p.st.threads| && OnlyFirst(p.st, p.offered)
    ensures OnlyFirst(Scan(p, t, x).st, Scan(p, t, x).offered)
    decreases |p.st.threads[t].code| - x
  {
    if x < |p.st.threads[t].code| {
      ScanTurn(p, t, x);
      TurnOnlyFirst(p, t, x);
      if !Halts(p, t, x) { ScanOnlyFirst(Turn(p, t, x), t, x + 1); }
    }
  }

  lemma {:induction false} AllOnlyFirst(p: Pass, t: nat)
    requires OnlyFirst(p.st, p.offered)
    ensures OnlyFirst(ScanAll(p, t).st, ScanAll(p, t).offered)
    decreases |p.st.threads| - t
  {
    if t < |p.st.threads| {
      var p0 := p.(pending := {});
      ScanOnlyFirst(p0, t, 0);
      ScanShape(p0, t, 0);
      AllOnlyFirst(Scan(p0, t, 0), t + 1);
    }
  }

  /* A Release is offered only when no operation of any thread was offered before it. */
  lemma ReleaseFirst(s: State, k: nat)
    requires k < |PassAll(s).offered| && Releases(s, PassAll(s).offered[k])
    ensures k == 0
  {
    var p := Pass(s, {}, [], false);
    AllOnlyFirst(p, 0);
    AllGrew(p, 0);
    SameReleases(s, PassAll(s).st, PassAll(s).offered[k]);
  }
}
