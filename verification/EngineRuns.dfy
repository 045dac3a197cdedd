/**
 From process runs to single resolutions. Every pass and every scheduler choice is a list of
 single resolutions, each of which respects what the pending set and the barriers of
 `step_pure` enforce (`MayFire`). The theorems about whole runs are proved on these lists.
 */
module EngineRuns {
  import opened Wrappers
  import opened Values
  import opened FlatMemory
  import opened Engine

  ghost predicate Overlap(th: Thread, i: nat, j: nat) { Span(th, i) * Span(th, j) != {} }

  /* An earlier access that is not an acquire and touches the bytes of j: while it is in the
     pending set, j is skipped as aliased. */
  ghost predicate Aliases(th: Thread, k: nat, j: nat) {
    k < j && Known(th, k) && !Acquiring(th.code[k]) && Overlap(th, k, j)
  }

  /* Access j stops thunk i: it is an acquire, or both touch the same bytes. */
  ghost predicate Stops(th: Thread, j: nat, i: nat)
    requires j < |th.code| && i < |th.code|
  {
    Acquiring(th.code[j]) || (th.code[i].Access? && Overlap(th, j, i))
  }

  /* While k is pending, access j is skipped as aliased, and i is not. */
  ghost predicate Bridges(th: Thread, k: nat, j: nat, i: nat)
    requires i < |th.code|
  {
    Aliases(th, k, j) && (th.code[i].Access? ==> !Overlap(th, k, i))
  }

  /* What holds of an unresolved thunk j that a later thunk i overtakes. */
  ghost predicate MayOvertake(th: Thread, i: nat, j: nat)
    requires j < i < |th.code|
  {
    th.code[j].Access? ==>
      Known(th, j) && (Stops(th, j, i) ==> exists k :: Bridges(th, k, j, i))
  }

  ghost predicate InOrder(th: Thread, i: nat) {
    && i < |th.code|
    && (forall j | 0 <= j < i && Unresolved(th, j) :: MayOvertake(th, i, j))
    && (th.code[i].Access? && th.code[i].order.Release? ==> forall j | 0 <= j < i :: !Unresolved(th, j))
  }

  ghost predicate MayFire(s: State, e: Event) {
    CanFire(s, e) && InOrder(s.threads[e.tid], e.pos)
  }

  /* What lets e overtake is among the thunks of its thread in `open`. */
  ghost predicate Lets(th: Thread, open: set<nat>, i: nat, j: nat)
    requires j < i < |th.code|
  {
    th.code[j].Access? && Stops(th, j, i) ==> exists k :: k in open && Bridges(th, k, j, i)
  }

  ghost predicate PassesOpen(th: Thread, open: set<nat>, i: nat) {
    i < |th.code| && forall j | 0 <= j < i && Unresolved(th, j) :: Lets(th, open, i, j)
  }

  // ---------------------------------------------------------------- lists of single actions

  /* `open` holds the thunks of the thread that were unresolved when the step began of which the
     resolution is part. */
  datatype Act = Grow(tid: nat, thunk: Thunk) | Fork | Settle(e: Event, open: set<nat>)

  ghost predicate ActOk(s: State, a: Act) {
    match a
    case Grow(t, thunk) => t < |s.threads| && ThunkOk(thunk, |s.threads[t].code|)
    case Fork => true
    case Settle(e, open) => MayFire(s, e) && PassesOpen(s.threads[e.tid], open, e.pos)
  }

  ghost function ActNext(s: State, a: Act): State
    requires ActOk(s, a)
  {
    match a
    case Grow(t, thunk) => Decoded(s, t, thunk)
    case Fork => s.(threads := s.threads + [Thread([], [])])
    case Settle(e, _) => Fire(s, e)
  }

  ghost predicate Legal(s: State, acts: seq<Act>)
    decreases |acts|
  {
    acts == [] || (ActOk(s, acts[0]) && Legal(ActNext(s, acts[0]), acts[1..]))
  }

  ghost function Played(s: State, acts: seq<Act>): State
    requires Legal(s, acts)
    decreases |acts|
  {
    if acts == [] then s else Played(ActNext(s, acts[0]), acts[1..])
  }

  lemma {:induction false} PlayedAppend(s: State, a: seq<Act>, b: seq<Act>)
    requires Legal(s, a) && Legal(Played(s, a), b)
    ensures Legal(s, a + b) && Played(s, a + b) == Played(Played(s, a), b)
    decreases |a|
  {
    if a == [] {
      assert a + b == b;
    } else {
      assert (a + b)[0] == a[0] && (a + b)[1..] == a[1..] + b;
      PlayedAppend(ActNext(s, a[0]), a[1..], b);
    }
  }

  ghost predicate AllSettle(acts: seq<Act>) {
    forall k | 0 <= k < |acts| :: acts[k].Settle?
  }

  /* The unresolved thunks of a thread. */
  ghost function OpenIn(th: Thread): set<nat> {
    set i | 0 <= i < |th.vals| && th.vals[i].None?
  }

  ghost predicate OpenFrom(s: State, a: Act) {
    a.Settle? && a.e.tid < |s.threads| && a.open == OpenIn(s.threads[a.e.tid])
  }

  /* Single resolutions that are part of one step from s. */
  ghost predicate AllFrom(s: State, acts: seq<Act>) {
    forall k | 0 <= k < |acts| :: OpenFrom(s, acts[k])
  }

  // ---------------------------------------------------------------- what never changes

  ghost predicate ThreadExtends(a: Thread, b: Thread) {
    && |a.code| <= |b.code| && |a.vals| <= |b.vals|
    && (forall i | 0 <= i < |a.code| :: b.code[i] == a.code[i])
    && (forall i | 0 <= i < |a.vals| && a.vals[i].Some? :: b.vals[i] == a.vals[i])
  }

  /* Decoded thunks stay, resolved values stay, and the history only grows. */
  ghost predicate Extends(s: State, s': State) {
    && |s.threads| <= |s'.threads|
    && (forall t | 0 <= t < |s.threads| :: ThreadExtends(s.threads[t], s'.threads[t]))
    && |s.log| <= |s'.log| && s'.log[..|s.log|] == s.log
  }

  lemma ActExtends(s: State, a: Act)
    requires StateOk(s) && ActOk(s, a)
    ensures StateOk(ActNext(s, a)) && Extends(s, ActNext(s, a))
  {
  }

  lemma ExtendsTransitive(a: State, b: State, c: State)
    requires Extends(a, b) && Extends(b, c)
    ensures Extends(a, c)
  {
    forall t | 0 <= t < |a.threads| ensures ThreadExtends(a.threads[t], c.threads[t]) {
      assert ThreadExtends(a.threads[t], b.threads[t]) && ThreadExtends(b.threads[t], c.threads[t]);
    }
    assert c.log[..|a.log|] == c.log[..|b.log|][..|a.log|];
  }

  lemma {:induction false} PlayedExtends(s: State, acts: seq<Act>)
    requires StateOk(s) && Legal(s, acts)
    ensures StateOk(Played(s, acts)) && Extends(s, Played(s, acts))
    decreases |acts|
  {
    if acts != [] {
      var s1 := ActNext(s, acts[0]);
      ActExtends(s, acts[0]);
      PlayedExtends(s1, acts[1..]);
      ExtendsTransitive(s, s1, Played(s, acts));
    }
  }

  lemma SpanStable(a: Thread, b: Thread, i: nat)
    requires ThreadExtends(a, b) && Known(a, i)
    ensures Known(b, i) && Span(b, i) == Span(a, i) && Base(b, i) == Base(a, i)
  {
  }

  // ---------------------------------------------------------------- a pass is such a list

  /* Access k went into the pending set and did not stop the pass. */
  ghost predicate Held(th: Thread, open: set<nat>, pending: set<nat>, k: nat) {
    Known(th, k) && !Acquiring(th.code[k]) && Span(th, k) <= pending && k in open
  }

  ghost predicate Blocked(th: Thread, open: set<nat>, pending: set<nat>, j: nat) {
    && Known(th, j)
    && (Held(th, open, pending, j) || exists k :: Held(th, open, pending, k) && Aliases(th, k, j))
  }

  ghost predicate HeldByte(th: Thread, open: set<nat>, pending: set<nat>, i: nat, c: nat) {
    exists k: nat :: Held(th, open, pending, k) && k < i && c in Span(th, k)
  }

  /* The pending set is made of whole accesses that are not acquires... */
  ghost predicate WholeAccesses(th: Thread, open: set<nat>, pending: set<nat>, i: nat) {
    forall c | c in pending :: HeldByte(th, open, pending, i, c)
  }

  /* ...and every unresolved access passed so far is in it or is aliased by one that is. */
  ghost predicate AllBlocked(th: Thread, open: set<nat>, pending: set<nat>, i: nat) {
    forall j | 0 <= j < i && j < |th.code| && Unresolved(th, j) && th.code[j].Access? :: Blocked(th, open, pending, j)
  }

  ghost predicate Tracked(th: Thread, open: set<nat>, pending: set<nat>, i: nat) {
    WholeAccesses(th, open, pending, i) && AllBlocked(th, open, pending, i)
  }

  lemma HeldExtends(a: Thread, b: Thread, open: set<nat>, pending: set<nat>, k: nat)
    requires ThreadExtends(a, b) && Held(a, open, pending, k)
    ensures Held(b, open, pending, k) && Span(b, k) == Span(a, k)
  {
    SpanStable(a, b, k);
  }

  lemma BlockedExtends(a: Thread, b: Thread, open: set<nat>, pending: set<nat>, j: nat)
    requires ThreadExtends(a, b) && Blocked(a, open, pending, j)
    ensures Blocked(b, open, pending, j)
  {
    SpanStable(a, b, j);
    if Held(a, open, pending, j) {
      HeldExtends(a, b, open, pending, j);
    } else {
      var k: nat :| Held(a, open, pending, k) && Aliases(a, k, j);
      HeldExtends(a, b, open, pending, k);
      assert Aliases(b, k, j);
    }
  }

  lemma TrackedExtends(a: Thread, b: Thread, open: set<nat>, pending: set<nat>, i: nat)
    requires ThreadExtends(a, b) && |a.code| == |b.code| == |a.vals| == |b.vals| && Tracked(a, open, pending, i)
    ensures Tracked(b, open, pending, i)
  {
    forall c | c in pending ensures HeldByte(b, open, pending, i, c) {
      assert HeldByte(a, open, pending, i, c);
      var k: nat :| Held(a, open, pending, k) && k < i && c in Span(a, k);
      HeldExtends(a, b, open, pending, k);
    }
    forall j | 0 <= j < i && j < |b.code| && Unresolved(b, j) && b.code[j].Access?
      ensures Blocked(b, open, pending, j)
    {
      assert Unresolved(a, j);
      BlockedExtends(a, b, open, pending, j);
    }
  }

  /* An access that the pending set does not touch may go ahead of everything it overtakes. */
  lemma TrackedInOrder(th: Thread, open: set<nat>, pending: set<nat>, i: nat)
    requires AllBlocked(th, open, pending, i) && i < |th.code|
    requires th.code[i].Access? ==> Span(th, i) * pending == {} && !th.code[i].order.Release?
    ensures InOrder(th, i) && PassesOpen(th, open, i)
  {
    forall j | 0 <= j < i && Unresolved(th, j) ensures MayOvertake(th, i, j) && Lets(th, open, i, j) {
      if th.code[j].Access? {
        BlockedOvertake(th, open, pending, i, j);
      }
    }
  }

  lemma BlockedOvertake(th: Thread, open: set<nat>, pending: set<nat>, i: nat, j: nat)
    requires j < i < |th.code| && Blocked(th, open, pending, j)
    requires th.code[i].Access? ==> Span(th, i) * pending == {}
    ensures MayOvertake(th, i, j) && Lets(th, open, i, j)
  {
    if !Held(th, open, pending, j) {
      var k: nat :| Held(th, open, pending, k) && Aliases(th, k, j);
      assert Bridges(th, k, j, i);
    }
  }

  lemma SkipBlocked(th: Thread, open: set<nat>, pending: set<nat>, i: nat)
    requires WholeAccesses(th, open, pending, i) && Known(th, i) && Span(th, i) * pending != {}
    ensures Blocked(th, open, pending, i)
  {
    var c :| c in Span(th, i) * pending;
    assert HeldByte(th, open, pending, i, c);
    var k: nat :| Held(th, open, pending, k) && k < i && c in Span(th, k);
    assert c in Span(th, k) * Span(th, i);
    assert Aliases(th, k, i);
  }

  lemma WholeNext(th: Thread, open: set<nat>, pending: set<nat>, i: nat, n: nat)
    requires n == i + 1 && WholeAccesses(th, open, pending, i)
    ensures WholeAccesses(th, open, pending, n)
  {
    forall c | c in pending ensures HeldByte(th, open, pending, n, c) {
      assert HeldByte(th, open, pending, i, c);
      var k: nat :| Held(th, open, pending, k) && k < i && c in Span(th, k);
      assert k < n;
    }
  }

  lemma TrackedNext(th: Thread, open: set<nat>, pending: set<nat>, i: nat, n: nat)
    requires n == i + 1 && Tracked(th, open, pending, i)
    requires i < |th.code| && Unresolved(th, i) && th.code[i].Access? ==> Blocked(th, open, pending, i)
    ensures Tracked(th, open, pending, n)
  {
    WholeNext(th, open, pending, i, n);
    forall j | 0 <= j < n && j < |th.code| && Unresolved(th, j) && th.code[j].Access?
      ensures Blocked(th, open, pending, j)
    {
      if j == i { assert Blocked(th, open, pending, i); }
    }
  }

  lemma TrackedSkip(th: Thread, open: set<nat>, pending: set<nat>, i: nat, n: nat)
    requires n == i + 1 && Tracked(th, open, pending, i) && Known(th, i) && Span(th, i) * pending != {}
    ensures Tracked(th, open, pending, n)
  {
    SkipBlocked(th, open, pending, i);
    TrackedNext(th, open, pending, i, n);
  }

  lemma InsertHeld(th: Thread, open: set<nat>, pending: set<nat>, i: nat)
    requires Known(th, i) && !Acquiring(th.code[i]) && i in open
    ensures Held(th, open, pending + Span(th, i), i)
    ensures forall k | Held(th, open, pending, k) :: Held(th, open, pending + Span(th, i), k)
  {
  }

  lemma InsertWhole(th: Thread, open: set<nat>, pending: set<nat>, pending': set<nat>, i: nat, n: nat)
    requires n == i + 1 && WholeAccesses(th, open, pending, i) && pending' == pending + Span(th, i)
    requires Held(th, open, pending', i) && forall k | Held(th, open, pending, k) :: Held(th, open, pending', k)
    ensures WholeAccesses(th, open, pending', n)
  {
    forall c | c in pending' ensures HeldByte(th, open, pending', n, c) {
      if c in pending {
        assert HeldByte(th, open, pending, i, c);
        var k: nat :| Held(th, open, pending, k) && k < i && c in Span(th, k);
        assert Held(th, open, pending', k);
      }
    }
  }

  lemma InsertBlocked(th: Thread, open: set<nat>, pending: set<nat>, pending': set<nat>, i: nat, n: nat)
    requires n == i + 1 && AllBlocked(th, open, pending, i) && pending <= pending' && Held(th, open, pending', i)
    ensures AllBlocked(th, open, pending', n)
  {
    forall j | 0 <= j < n && j < |th.code| && Unresolved(th, j) && th.code[j].Access?
      ensures Blocked(th, open, pending', j)
    {
      if j < i { BlockedGrows(th, open, pending, pending', j); }
    }
  }

  lemma TrackedInsert(th: Thread, open: set<nat>, pending: set<nat>, i: nat, n: nat)
    requires n == i + 1 && Tracked(th, open, pending, i) && Known(th, i) && !Acquiring(th.code[i]) && i in open
    ensures Tracked(th, open, pending + Span(th, i), n)
  {
    var pending' := pending + Span(th, i);
    InsertHeld(th, open, pending, i);
    InsertWhole(th, open, pending, pending', i, n);
    InsertBlocked(th, open, pending, pending', i, n);
  }

  lemma BlockedGrows(th: Thread, open: set<nat>, pending: set<nat>, pending': set<nat>, j: nat)
    requires pending <= pending' && Blocked(th, open, pending, j)
    ensures Blocked(th, open, pending', j)
  {
    if !Held(th, open, pending, j) {
      var k: nat :| Held(th, open, pending, k) && Aliases(th, k, j);
      assert Held(th, open, pending', k);
    }
  }

  /* Thread t of the state a pass has reached, against the state `base` in which the pass began. */
  ghost predicate Since(base: State, s: State, t: nat) {
    && t < |base.threads| == |s.threads|
    && |base.threads[t].vals| == |s.threads[t].vals|
    && forall i | 0 <= i < |s.threads[t].vals| && s.threads[t].vals[i].None? :: base.threads[t].vals[i].None?
  }

  ghost predicate Underway(base: State, p: Pass, t: nat, i: nat) {
    && StateOk(p.st) && Since(base, p.st, t)
    && Tracked(p.st.threads[t], OpenIn(base.threads[t]), p.pending, i)
  }

  lemma {:induction false} ScanLegal(base: State, p: Pass, t: nat, i: nat) returns (acts: seq<Act>)
    requires Underway(base, p, t, i)
    ensures Legal(p.st, acts) && Played(p.st, acts) == Scan(p, t, i).st
    ensures AllSettle(acts) && AllFrom(base, acts)
    ensures Scan(p, t, i).progress <==> p.progress || acts != []
    decreases |p.st.threads[t].code| - i, 2
  {
    var th := p.st.threads[t];
    acts := [];
    if i < |th.code| {
      if !Unresolved(th, i) {
        var n := i + 1;
        TrackedNext(th, OpenIn(base.threads[t]), p.pending, i, n);
        acts := ScanLegal(base, p, t, n);
      } else if th.code[i].Pure? {
        var n := i + 1;
        TrackedInOrder(th, OpenIn(base.threads[t]), p.pending, i);
        TrackedNext(th, OpenIn(base.threads[t]), p.pending, i, n);
        acts := ScanFire(base, p, t, i, n);
      } else if Known(th, i) {
        acts := ScanAccess(base, p, t, i);
      }
    }
  }

  lemma {:induction false} ScanAccess(base: State, p: Pass, t: nat, i: nat) returns (acts: seq<Act>)
    requires Underway(base, p, t, i)
    requires Unresolved(p.st.threads[t], i) && Known(p.st.threads[t], i)
    ensures Legal(p.st, acts) && Played(p.st, acts) == Scan(p, t, i).st
    ensures AllSettle(acts) && AllFrom(base, acts)
    ensures Scan(p, t, i).progress <==> p.progress || acts != []
    decreases |p.st.threads[t].code| - i, 1
  {
    var th := p.st.threads[t];
    if Span(th, i) * p.pending != {} {
      var n := i + 1;
      TrackedSkip(th, OpenIn(base.threads[t]), p.pending, i, n);
      ScanSkips(p, t, i, n);
      acts := ScanLegal(base, p, t, n);
    } else if Acquiring(th.code[i]) {
      acts := [];
    } else {
      acts := ScanInsert(base, p, t, i);
    }
  }

  /* An aliased access is passed over. */
  lemma ScanSkips(p: Pass, t: nat, i: nat, n: nat)
    requires t < |p.st.threads| && n == i + 1 && Known(p.st.threads[t], i) && Span(p.st.threads[t], i) * p.pending != {}
    ensures Scan(p, t, i) == Scan(p, t, n)
  {
  }

  lemma {:induction false} ScanInsert(base: State, p: Pass, t: nat, i: nat) returns (acts: seq<Act>)
    requires Underway(base, p, t, i)
    requires Unresolved(p.st.threads[t], i) && Known(p.st.threads[t], i) && !Acquiring(p.st.threads[t].code[i])
    requires Span(p.st.threads[t], i) * p.pending == {}
    ensures Legal(p.st, acts) && Played(p.st, acts) == Scan(p, t, i).st
    ensures AllSettle(acts) && AllFrom(base, acts)
    ensures Scan(p, t, i).progress <==> p.progress || acts != []
    decreases |p.st.threads[t].code| - i, 0
  {
    var th, n := p.st.threads[t], i + 1;
    var e := Event(t, i);
    var p1 := p.(pending := p.pending + Span(th, i));
    TrackedInsert(th, OpenIn(base.threads[t]), p.pending, i, n);
    match th.code[i].order
    case NotAtomic =>
      TrackedInOrder(th, OpenIn(base.threads[t]), p.pending, i);
      acts := ScanFire(base, p1, t, i, n);
    case Relaxed => acts := ScanLegal(base, p1.(offered := p1.offered + [e]), t, n);
    case Release => acts := ScanLegal(base, if p1.offered == [] then p1.(offered := [e]) else p1, t, n);
  }

  /* The turn that resolves thunk i on the spot. */
  lemma {:induction false} ScanFire(base: State, p: Pass, t: nat, i: nat, n: nat) returns (acts: seq<Act>)
    requires n == i + 1 && Underway(base, p, t, n) && i < |p.st.threads[t].code|
    requires InOrder(p.st.threads[t], i) && PassesOpen(p.st.threads[t], OpenIn(base.threads[t]), i)
    ensures var q := TryFire(p, Event(t, i));
            && |q.st.threads| == |p.st.threads| && q.st.threads[t].code == p.st.threads[t].code
            && Legal(p.st, acts) && Played(p.st, acts) == Scan(q, t, n).st
            && AllSettle(acts) && AllFrom(base, acts)
            && (Scan(q, t, n).progress <==> p.progress || acts != [])
    decreases |p.st.threads[t].code| - n, 3
  {
    var e, open := Event(t, i), OpenIn(base.threads[t]);
    var q := TryFire(p, e);
    if CanFire(p.st, e) {
      ActExtends(p.st, Settle(e, open));
      TrackedExtends(p.st.threads[t], q.st.threads[t], open, p.pending, n);
      var rest := ScanLegal(base, q, t, n);
      acts := [Settle(e, open)] + rest;
      assert acts[1..] == rest;
    } else {
      acts := ScanLegal(base, p, t, n);
    }
  }

  lemma TrackedStart(th: Thread, open: set<nat>)
    ensures Tracked(th, open, {}, 0)
  {
  }

  /* The pass over thread t leaves the other threads alone. */
  lemma {:induction false} ScanOthers(p: Pass, t: nat, i: nat)
    requires t < |p.st.threads|
    ensures |Scan(p, t, i).st.threads| == |p.st.threads|
    ensures forall u | 0 <= u < |p.st.threads| && u != t :: Scan(p, t, i).st.threads[u] == p.st.threads[u]
    decreases |p.st.threads[t].code| - i
  {
    if i < |p.st.threads[t].code| {
      ScanTurn(p, t, i);
      if !Halts(p, t, i) { ScanOthers(Turn(p, t, i), t, i + 1); }
    }
  }

  lemma SinceOthers(base: State, p: Pass, t: nat, n: nat)
    requires t < |p.st.threads| && n == t + 1 && forall u | t <= u < |p.st.threads| :: Since(base, p.st, u)
    ensures |Scan(p, t, 0).st.threads| == |p.st.threads|
    ensures forall u | n <= u < |p.st.threads| :: Since(base, Scan(p, t, 0).st, u)
  {
    ScanOthers(p, t, 0);
    forall u | n <= u < |p.st.threads| ensures Since(base, Scan(p, t, 0).st, u) { assert Since(base, p.st, u); }
  }

  lemma {:induction false} ScanAllLegal(base: State, p: Pass, t: nat) returns (acts: seq<Act>)
    requires StateOk(p.st) && forall u | t <= u < |p.st.threads| :: Since(base, p.st, u)
    ensures Legal(p.st, acts) && Played(p.st, acts) == ScanAll(p, t).st
    ensures AllSettle(acts) && AllFrom(base, acts)
    ensures ScanAll(p, t).progress <==> p.progress || acts != []
    decreases |p.st.threads| - t
  {
    acts := [];
    if t < |p.st.threads| {
      var p0, n := p.(pending := {}), t + 1;
      assert Since(base, p.st, t);
      TrackedStart(p.st.threads[t], OpenIn(base.threads[t]));
      acts := ScanLegal(base, p0, t, 0);
      PlayedExtends(p.st, acts);
      var p1 := Scan(p0, t, 0);
      SinceOthers(base, p0, t, n);
      var rest := ScanAllLegal(base, p1, n);
      PlayedAppend(p.st, acts, rest);
      acts := acts + rest;
    }
  }

  lemma PassAllLegal(s: State) returns (acts: seq<Act>)
    requires StateOk(s)
    ensures Legal(s, acts) && Played(s, acts) == PassAll(s).st
    ensures AllSettle(acts) && AllFrom(s, acts)
    ensures PassAll(s).progress <==> acts != []
  {
    acts := ScanAllLegal(s, Pass(s, {}, [], false), 0);
  }

  // ---------------------------------------------------------------- a pass without progress

  lemma {:induction false} AllProgressStays(p: Pass, t: nat)
    requires p.progress
    ensures ScanAll(p, t).progress
    decreases |p.st.threads| - t
  {
    if t < |p.st.threads| {
      ScanShape(p.(pending := {}), t, 0);
      AllProgressStays(Scan(p.(pending := {}), t, 0), t + 1);
    }
  }

  /* An offered operation may be resolved as soon as its operands are Ready. */
  ghost predicate OfferOk(s: State, e: Event) {
    && e.tid < |s.threads|
    && var th := s.threads[e.tid];
       && Unresolved(th, e.pos) && Known(th, e.pos)
       && InOrder(th, e.pos) && PassesOpen(th, OpenIn(th), e.pos)
  }

  ghost predicate OffersOk(p: Pass) {
    && (forall k | 0 <= k < |p.offered| :: OfferOk(p.st, p.offered[k]))
    && (p.offered != [] ==> CanFire(p.st, p.offered[0]))
  }

  ghost predicate ResolvedBefore(th: Thread, i: nat) {
    forall j | 0 <= j < i :: !Unresolved(th, j)
  }

  /* The earliest unresolved thunk of a thread has every dependency Ready. */
  lemma EarliestCanFire(s: State, t: nat, i: nat)
    requires StateOk(s) && t < |s.threads| && Unresolved(s.threads[t], i) && ResolvedBefore(s.threads[t], i)
    ensures CanFire(s, Event(t, i))
    ensures s.threads[t].code[i].Access? ==> Known(s.threads[t], i)
  {
    var th := s.threads[t];
    assert ThunkOk(th.code[i], i);
    forall k | 0 <= k < |Deps(th.code[i])| ensures DepVal(Deps(th.code[i])[k], th.vals).Some? {
      assert Deps(th.code[i])[k].Ref? ==> !Unresolved(th, Deps(th.code[i])[k].pos);
    }
    if th.code[i].Access? { assert Deps(th.code[i])[0] == th.code[i].address; }
  }

  ghost predicate Quiet(p: Pass, t: nat, i: nat) {
    && StateOk(p.st) && t < |p.st.threads|
    && Tracked(p.st.threads[t], OpenIn(p.st.threads[t]), p.pending, i)
    && OffersOk(p)
    && (p.offered == [] ==> p.pending == {} && ResolvedBefore(p.st.threads[t], i))
  }

  /* Without progress nothing changed, every offered operation is in order, the first one can
     step, and a thread with an unresolved thunk never leaves the list empty. */
  lemma {:induction false} ScanQuiet(p: Pass, t: nat, i: nat)
    requires Quiet(p, t, i) && !Scan(p, t, i).progress
    ensures Scan(p, t, i).st == p.st && OffersOk(Scan(p, t, i))
    ensures Scan(p, t, i).offered == [] ==> ResolvedBefore(p.st.threads[t], |p.st.threads[t].code|)
    decreases |p.st.threads[t].code| - i, 1
  {
    var th := p.st.threads[t];
    var e := Event(t, i);
    if i < |th.code| {
      if !Unresolved(th, i) {
        var n := i + 1;
        TrackedNext(th, OpenIn(th), p.pending, i, n);
        ScanQuiet(p, t, n);
      } else {
        if p.offered == [] { EarliestCanFire(p.st, t, i); }
        if th.code[i].Pure? {
          if CanFire(p.st, e) { ScanShape(TryFire(p, e), t, i + 1); }
          var n := i + 1;
          TrackedNext(th, OpenIn(th), p.pending, i, n);
          ScanQuiet(p, t, n);
        } else if Known(th, i) {
          ScanQuietAccess(p, t, i);
        }
      }
    }
  }

  lemma {:induction false} ScanQuietAccess(p: Pass, t: nat, i: nat)
    requires Quiet(p, t, i) && !Scan(p, t, i).progress
    requires Unresolved(p.st.threads[t], i) && Known(p.st.threads[t], i)
    requires p.offered == [] ==> CanFire(p.st, Event(t, i))
    ensures Scan(p, t, i).st == p.st && OffersOk(Scan(p, t, i))
    ensures Scan(p, t, i).offered == [] ==> ResolvedBefore(p.st.threads[t], |p.st.threads[t].code|)
    decreases |p.st.threads[t].code| - i, 0
  {
    var th := p.st.threads[t];
    var e := Event(t, i);
    if Span(th, i) * p.pending != {} {
      var n := i + 1;
      TrackedSkip(th, OpenIn(th), p.pending, i, n);
      ScanSkips(p, t, i, n);
      ScanQuiet(p, t, n);
    } else {
      OfferInOrder(p, t, i);
      if Acquiring(th.code[i]) {
        assert Scan(p, t, i) == p.(pending := p.pending + Span(th, i), offered := p.offered + [e]);
      } else {
        var p1 := p.(pending := p.pending + Span(th, i));
        var n := i + 1;
        TrackedInsert(th, OpenIn(th), p.pending, i, n);
        if th.code[i].order.NotAtomic? && CanFire(p.st, e) {
          ScanShape(TryFire(p1, e), t, i + 1);
        } else {
          var p2 := if th.code[i].order.NotAtomic? || (th.code[i].order.Release? && p.offered != []) then p1
                    else p1.(offered := p.offered + [e]);
          assert p.offered == [] ==> p.offered + [e] == [e];
          assert Scan(p, t, i) == Scan(p2, t, i + 1);
          ScanQuiet(p2, t, i + 1);
        }
      }
    }
  }

  lemma OfferInOrder(p: Pass, t: nat, i: nat)
    requires Quiet(p, t, i)
    requires Unresolved(p.st.threads[t], i) && Known(p.st.threads[t], i)
    requires Span(p.st.threads[t], i) * p.pending == {}
    ensures !p.st.threads[t].code[i].order.Release? || p.offered == [] ==> OfferOk(p.st, Event(t, i))
  {
    var th := p.st.threads[t];
    if !th.code[i].order.Release? { TrackedInOrder(th, OpenIn(th), p.pending, i); }
  }

  lemma {:induction false} ScanAllQuiet(p: Pass, t: nat)
    requires StateOk(p.st) && OffersOk(p) && !ScanAll(p, t).progress
    ensures ScanAll(p, t).st == p.st && OffersOk(ScanAll(p, t))
    ensures p.offered <= ScanAll(p, t).offered
    ensures ScanAll(p, t).offered == [] ==>
              forall u | t <= u < |p.st.threads| :: ResolvedBefore(p.st.threads[u], |p.st.threads[u].code|)
    decreases |p.st.threads| - t
  {
    if t < |p.st.threads| {
      var p0 := p.(pending := {});
      ScanShape(p0, t, 0);
      if Scan(p0, t, 0).progress { AllProgressStays(Scan(p0, t, 0), t + 1); }
      TrackedStart(p.st.threads[t], OpenIn(p.st.threads[t]));
      ScanQuiet(p0, t, 0);
      ScanAllQuiet(Scan(p0, t, 0), t + 1);
    }
  }

  /* What the assertions of `Process::step` need (src/process.rs:111-116): a pass without
     progress leaves the state alone; if it offers nothing every thunk of every thread is
     Ready; otherwise the first offered operation can step. */
  lemma PassAllQuiet(s: State)
    requires StateOk(s) && !PassAll(s).progress
    ensures PassAll(s).st == s
    ensures PassAll(s).offered == [] <==> Drained(s)
    ensures PassAll(s).offered != [] ==> CanFire(s, PassAll(s).offered[0])
    ensures forall k | 0 <= k < |PassAll(s).offered| :: OfferOk(s, PassAll(s).offered[k])
  {
    ScanAllQuiet(Pass(s, {}, [], false), 0);
    if PassAll(s).offered != [] { assert OfferOk(s, PassAll(s).offered[0]); }
  }

  ghost predicate Drained(s: State) {
    forall t | 0 <= t < |s.threads| :: ResolvedBefore(s.threads[t], |s.threads[t].code|)
  }

  // ---------------------------------------------------------------- a run is such a list

  lemma StepLegal(s: State, a: Step) returns (acts: seq<Act>)
    requires StateOk(s) && Enabled(s, a)
    ensures Legal(s, acts) && Played(s, acts) == Next(s, a)
    ensures a.Sweep? || a.Resolve? ==> AllFrom(s, acts)
  {
    match a
    case Decode(t, thunk) => acts := [Grow(t, thunk)];
    case Spawn => acts := [Fork];
    case Sweep => acts := PassAllLegal(s);
    case Resolve(e) =>
      PassAllQuiet(s);
      assert OfferOk(s, e);
      acts := [Settle(e, OpenIn(s.threads[e.tid]))];
  }

  lemma {:induction false} RunLegal(s: State, run: seq<Step>) returns (acts: seq<Act>)
    requires StateOk(s) && Run(s, run)
    ensures Legal(s, acts) && Played(s, acts) == After(s, run)
    decreases |run|
  {
    acts := [];
    if run != [] {
      acts := StepLegal(s, run[0]);
      PlayedExtends(s, acts);
      var rest := RunLegal(Next(s, run[0]), run[1..]);
      PlayedAppend(s, acts, rest);
      acts := acts + rest;
    }
  }
}
