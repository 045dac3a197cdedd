/**
 Exactly when some run resolves an operation ahead of an earlier one of its thread: the access that
 EngineHolders.dfy shows to be necessary is also sufficient, by a run that keeps it pending.
 */
module EngineExact {
  import opened Wrappers
  import opened Values
  import opened FlatMemory
  import opened Engine
  import opened EngineRuns
  import opened EngineOrder
  import opened EngineProgress
  import opened EngineHolders

  // ---------------------------------------------------------------- sufficient

  /* Every thunk before h is Ready, and h and j are not. */
  ghost predicate Holding(s: State, code: seq<Thunk>, h: nat, j: nat) {
    && StateOk(s) && LogExact(s) && |s.threads| == 1 && s.threads[0].code == code
    && ResolvedBefore(s.threads[0], h)
    && Unresolved(s.threads[0], h) && Unresolved(s.threads[0], j)
  }

  /* What h has to be for j to stay behind it. */
  ghost predicate Holds(code: seq<Thunk>, h: nat, j: nat) {
    h <= j < |code| && ConstCode(code) && Holder(code[h]) && (h == j || Touch(code[h], code[j]))
  }

  /* The pass has gone past h: from now on neither h nor j is resolved. */
  ghost predicate Past(p: Pass, code: seq<Thunk>, h: nat, j: nat) {
    Single(p, code) && Holds(code, h, j) && BytesOf(code[h]) <= p.pending && Open(p, h) && Open(p, j)
  }

  lemma AliasedBy(p: Pass, code: seq<Thunk>, h: nat, j: nat)
    requires Past(p, code, h, j) && h != j
    ensures code[j].Access? && BytesOf(code[j]) * p.pending != {}
  {
    var c :| c in BytesOf(code[h]) * BytesOf(code[j]);
    assert c in BytesOf(code[j]) * p.pending;
  }

  lemma TurnGrows(p: Pass, t: nat, x: nat)
    requires t < |p.st.threads| && x < |p.st.threads[t].code|
    ensures p.pending <= Turn(p, t, x).pending
  {
  }

  lemma TurnPast(p: Pass, code: seq<Thunk>, h: nat, j: nat, x: nat)
    requires Past(p, code, h, j) && h < x < |code|
    ensures Past(Turn(p, 0, x), code, h, j)
  {
    TurnState(p, code, x);
    TurnGrows(p, 0, x);
    if x == j {
      AliasedBy(p, code, h, j);
      TurnSkips(p, code, j);
    }
  }

  lemma {:induction false} ScanPast(p: Pass, code: seq<Thunk>, h: nat, j: nat, x: nat)
    requires Past(p, code, h, j) && h < x
    ensures Past(Scan(p, 0, x), code, h, j)
    decreases |code| - x
  {
    if x < |code| {
      var n := x + 1;
      ScanTurn(p, 0, x);
      TurnPast(p, code, h, j, x);
      if !Halts(p, 0, x) { ScanPast(Turn(p, 0, x), code, h, j, n); }
    }
  }

  /* The pass over a state that holds h, once it has gone past h. */
  ghost function AtHolder(s: State, code: seq<Thunk>, h: nat): Pass
    requires h < |code|
  {
    Pass(s, BytesOf(code[h]), [Event(0, h)], false)
  }

  lemma PassHolds(s: State, code: seq<Thunk>, h: nat, j: nat, n: nat)
    requires Holding(s, code, h, j) && Holds(code, h, j) && n == h + 1
    ensures PassAll(s) == Scan(AtHolder(s, code, h), 0, n) && Past(AtHolder(s, code, h), code, h, j)
  {
    var p := Pass(s, {}, [], false);
    PassAllOne(s);
    ScanOver(p, 0, 0, h);
    ScanTurn(p, 0, h);
    TurnAtomic(p, code, h);
    assert {} + BytesOf(code[h]) == BytesOf(code[h]) && [] + [Event(0, h)] == [Event(0, h)];
    assert Turn(p, 0, h) == AtHolder(s, code, h);
  }

  /* A pass keeps what is Ready, and the history exact. */
  lemma SweepKeeps(s: State)
    requires StateOk(s) && LogExact(s)
    ensures StateOk(PassAll(s).st) && LogExact(PassAll(s).st) && Extends(s, PassAll(s).st)
  {
    var acts := PassAllLegal(s);
    PlayedExtends(s, acts);
    ActsLogExact(s, acts);
  }

  lemma StillReady(a: Thread, b: Thread, h: nat)
    requires ThreadExtends(a, b) && ThreadOk(a) && ThreadOk(b) && h <= |a.code| && ResolvedBefore(a, h)
    ensures ResolvedBefore(b, h)
  {
    forall y | 0 <= y < h ensures !Unresolved(b, y) { assert !Unresolved(a, y); }
  }

  /* A sweep keeps h and j unresolved. */
  lemma SweepHolding(s: State, code: seq<Thunk>, h: nat, j: nat)
    requires Holding(s, code, h, j) && Holds(code, h, j)
    ensures Holding(PassAll(s).st, code, h, j)
  {
    var n, s' := h + 1, PassAll(s).st;
    PassHolds(s, code, h, j, n);
    ScanPast(AtHolder(s, code, h), code, h, j, n);
    SweepKeeps(s);
    assert ThreadOk(s.threads[0]) && ThreadOk(s'.threads[0]) && ThreadExtends(s.threads[0], s'.threads[0]);
    StillReady(s.threads[0], s'.threads[0], h);
  }

  /* i is stopped by nothing but h: it is no Release and touches none that stands before it. */
  ghost predicate Unhindered(code: seq<Thunk>, i: nat) {
    i < |code| && !IsRelease(code[i]) && forall r | 0 <= r < i && IsRelease(code[r]) :: !Touch(code[r], code[i])
  }

  /* Only h and Release operations are pending. */
  ghost predicate OnlyStuck(p: Pass, code: seq<Thunk>, h: nat, x: nat)
    requires h < |code|
  {
    forall c | c in p.pending ::
      c in BytesOf(code[h]) || exists r :: 0 <= r < x && r < |code| && IsRelease(code[r]) && c in BytesOf(code[r])
  }

  /* The offer that a quiet pass makes between h and i. */
  ghost predicate OfferIn(e: Event, h: nat, j: nat, i: nat) {
    e.tid == 0 && h < e.pos <= i && e.pos != j
  }

  lemma Untouched(a: Thunk, b: Thunk, c: nat)
    requires !Touch(a, b) && c in BytesOf(b)
    ensures c !in BytesOf(a)
  {
    assert c in BytesOf(a) ==> c in BytesOf(a) * BytesOf(b);
  }

  lemma NotAliasedAt(p: Pass, code: seq<Thunk>, h: nat, j: nat, i: nat)
    requires LetsPass(code, h, j, i) && Unhindered(code, i) && OnlyStuck(p, code, h, i)
    ensures BytesOf(code[i]) * p.pending == {}
  {
    forall c | c in BytesOf(code[i]) ensures c !in p.pending {
      Untouched(code[h], code[i], c);
      forall r | 0 <= r < i && IsRelease(code[r]) ensures c !in BytesOf(code[r]) {
        Untouched(code[r], code[i], c);
      }
    }
  }

  lemma StuckMore(p: Pass, q: Pass, code: seq<Thunk>, h: nat, x: nat, n: nat)
    requires h < |code| && x < |code| && n == x + 1 && OnlyStuck(p, code, h, x)
    requires q.pending == p.pending || (q.pending == p.pending + BytesOf(code[x]) && IsRelease(code[x]))
    ensures OnlyStuck(q, code, h, n)
  {
  }

  /* Until i has been resolved, a quiet pass offers something between h and i. */
  lemma {:induction false} QuietOffer(p: Pass, code: seq<Thunk>, h: nat, j: nat, i: nat, x: nat) returns (e: Event)
    requires Past(p, code, h, j) && LetsPass(code, h, j, i) && Unhindered(code, i) && h < x <= i
    requires OnlyStuck(p, code, h, x) && p.offered != [] && Open(p, i) && !Scan(p, 0, x).progress
    ensures e in Scan(p, 0, x).offered && OfferIn(e, h, j, i)
    decreases i - x
  {
    QuietTurn(p, code, x);
    ScanTurn(p, 0, x);
    if x == i { NotAliasedAt(p, code, h, j, i); }
    if x == j && h != j { AliasedBy(p, code, h, j); }
    if Open(p, x) && BytesOf(code[x]) * p.pending == {} && !IsRelease(code[x]) {
      e := Event(0, x);
      OffersNow(p, code, x);
    } else {
      var n := x + 1;
      StuckTurn(p, code, x);
      StuckMore(p, Turn(p, 0, x), code, h, x, n);
      TurnPast(p, code, h, j, x);
      e := QuietOffer(Turn(p, 0, x), code, h, j, i, n);
    }
  }

  lemma OffersNow(p: Pass, code: seq<Thunk>, x: nat)
    requires Single(p, code) && x < |code| && Open(p, x) && Atomic(code[x]) && !IsRelease(code[x])
    requires BytesOf(code[x]) * p.pending == {}
    ensures Event(0, x) in Scan(p, 0, x).offered
  {
    TurnAtomic(p, code, x);
    ScanTurn(p, 0, x);
    var q := Turn(p, 0, x);
    assert q.offered[|p.offered|] == Event(0, x);
    if !Halts(p, 0, x) { ScanShape(q, 0, x + 1); }
  }

  lemma StuckTurn(p: Pass, code: seq<Thunk>, x: nat)
    requires Single(p, code) && x < |code| && p.offered != []
    requires !Open(p, x) || (code[x].Access? && (BytesOf(code[x]) * p.pending != {} || IsRelease(code[x])))
    ensures !Halts(p, 0, x) && Turn(p, 0, x).offered != [] && Turn(p, 0, x).st == p.st
    ensures var q := Turn(p, 0, x);
            q.pending == p.pending || (q.pending == p.pending + BytesOf(code[x]) && IsRelease(code[x]))
  {
    if Open(p, x) && BytesOf(code[x]) * p.pending == {} { TurnAtomic(p, code, x); } else { TurnSkips(p, code, x); }
  }

  lemma FireHolding(s: State, code: seq<Thunk>, h: nat, j: nat, e: Event)
    requires Holding(s, code, h, j) && CanFire(s, e) && e.tid == 0 && e.pos != h && e.pos != j
    ensures Holding(Fire(s, e), code, h, j)
  {
    FireLogExact(s, e);
    var th, th' := s.threads[0], Fire(s, e).threads[0];
    assert ThreadOk(th) && ThreadOk(th') && ThreadExtends(th, th');
    StillReady(th, th', h);
  }

  /* As long as i is unresolved, a sweep makes progress or something other than h and j can be
     resolved. */
  lemma NextMove(s: State, code: seq<Thunk>, h: nat, j: nat, i: nat) returns (a: Step)
    requires Holding(s, code, h, j) && Holds(code, h, j) && LetsPass(code, h, j, i) && Unhindered(code, i)
    requires Unresolved(s.threads[0], i)
    ensures Works(s, a) && Holding(Next(s, a), code, h, j)
  {
    if PassAll(s).progress {
      a := Sweep;
      SweepHolding(s, code, h, j);
    } else {
      var n, p := h + 1, AtHolder(s, code, h);
      PassHolds(s, code, h, j, n);
      var e := QuietOffer(p, code, h, j, i, n);
      PassAllQuiet(s);
      var k :| 0 <= k < |PassAll(s).offered| && PassAll(s).offered[k] == e;
      assert OfferOk(s, e);
      ConstFires(p, code, e.pos);
      FireHolding(s, code, h, j, e);
      a := Resolve(e);
    }
  }

  /* Hence i can be resolved while h and j are not. */
  lemma {:induction false} Passes(s: State, code: seq<Thunk>, h: nat, j: nat, i: nat) returns (run: seq<Step>)
    requires Holding(s, code, h, j) && Holds(code, h, j) && LetsPass(code, h, j, i) && Unhindered(code, i)
    ensures Run(s, run) && Holding(After(s, run), code, h, j) && !Unresolved(After(s, run).threads[0], i)
    decreases Left(s)
  {
    run := [];
    if Unresolved(s.threads[0], i) {
      var a := NextMove(s, code, h, j, i);
      WorksLeft(s, a);
      var rest := Passes(Next(s, a), code, h, j, i);
      run := [a] + rest;
      assert run[1..] == rest;
    }
  }

  // ---------------------------------------------------------------- setting the stage

  function Nothing(n: nat): Vals { seq(n, i => None) }

  /* One thread that has decoded n thunks of a program decodes up to m of them. */
  lemma {:induction false} DecodeTo(s: State, code: seq<Thunk>, n: nat, m: nat) returns (run: seq<Step>)
    requires n <= m <= |code| && forall i | 0 <= i < |code| :: ThunkOk(code[i], i)
    requires |s.threads| == 1 && s.threads[0].code == code[..n]
    ensures Run(s, run)
    ensures After(s, run) == State([Thread(code[..m], s.threads[0].vals + Nothing(m - n))], s.mem, s.log)
    decreases m - n
  {
    if n == m {
      run := [];
      assert s.threads == [s.threads[0]] && s.threads[0].vals + Nothing(0) == s.threads[0].vals;
    } else {
      var next := n + 1;
      var a := Decode(0, code[n]);
      assert ThunkOk(code[n], n) && Enabled(s, a);
      assert code[..n] + [code[n]] == code[..next];
      var rest := DecodeTo(Next(s, a), code, next, m);
      assert (s.threads[0].vals + [None]) + Nothing(m - next) == s.threads[0].vals + Nothing(m - n);
      run := [a] + rest;
      assert run[1..] == rest;
    }
  }

  /* A run that has decoded a prefix of a program. */
  lemma LoadPrefix(mem: Flat, code: seq<Thunk>, n: nat) returns (run: seq<Step>)
    requires n <= |code| && forall i | 0 <= i < |code| :: ThunkOk(code[i], i)
    ensures Reached(mem, run, State([Thread(code[..n], Nothing(n))], mem, []))
  {
    var s := Next(Start(mem), Spawn);
    assert s == State([Thread([], [])], mem, []) && code[..0] == [];
    var rest := DecodeTo(s, code, 0, n);
    assert [] + Nothing(n) == Nothing(n);
    run := [Spawn] + rest;
    assert run[1..] == rest;
  }

  lemma RunOk(s: State, run: seq<Step>)
    requires StateOk(s) && LogExact(s) && Run(s, run)
    ensures StateOk(After(s, run)) && LogExact(After(s, run)) && Extends(s, After(s, run))
  {
    var acts := RunLegal(s, run);
    PlayedExtends(s, acts);
    ActsLogExact(s, acts);
  }

  /* Busy runs decode nothing. */
  lemma {:induction false} BusyCode(s: State, run: seq<Step>)
    requires Busy(s, run) && Run(s, run)
    ensures |After(s, run).threads| == |s.threads|
    ensures forall t | 0 <= t < |s.threads| :: After(s, run).threads[t].code == s.threads[t].code
    decreases |run|
  {
    if run != [] {
      if run[0].Sweep? { AllShape(Pass(s, {}, [], false), 0); }
      BusyCode(Next(s, run[0]), run[1..]);
    }
  }

  /* A run that has decoded and resolved a prefix of a program. */
  lemma DrainedPrefix(mem: Flat, code: seq<Thunk>, h: nat) returns (run: seq<Step>, s: State)
    requires h <= |code| && ConstCode(code)
    ensures Reached(mem, run, s) && StateOk(s) && LogExact(s) && Drained(s)
    ensures |s.threads| == 1 && s.threads[0].code == code[..h]
  {
    forall i | 0 <= i < |code| ensures ThunkOk(code[i], i) { assert ConstThunk(code[i], i); }
    var s0 := State([Thread(code[..h], Nothing(h))], mem, []);
    var load := LoadPrefix(mem, code, h);
    RunOk(Start(mem), load);
    var drain := Drains(s0);
    RunAppend(Start(mem), load, drain);
    BusyCode(s0, drain);
    RunOk(s0, drain);
    run, s := load + drain, After(s0, drain);
  }

  /* A state in which everything before h is Ready and nothing else. */
  lemma Staged(mem: Flat, code: seq<Thunk>, h: nat, j: nat) returns (run: seq<Step>, s: State)
    requires Holds(code, h, j)
    ensures Reached(mem, run, s) && Holding(s, code, h, j)
  {
    forall i | 0 <= i < |code| ensures ThunkOk(code[i], i) { assert ConstThunk(code[i], i); }
    var first, s1 := DrainedPrefix(mem, code, h);
    var more := DecodeTo(s1, code, h, |code|);
    RunAppend(Start(mem), first, more);
    RunOk(s1, more);
    run, s := first + more, After(s1, more);
    StagedHolds(s1, s, code, h, j);
  }

  lemma StagedHolds(s1: State, s: State, code: seq<Thunk>, h: nat, j: nat)
    requires Holds(code, h, j) && StateOk(s1) && Drained(s1) && StateOk(s) && LogExact(s)
    requires |s1.threads| == 1 && s1.threads[0].code == code[..h]
    requires s == State([Thread(code[..|code|], s1.threads[0].vals + Nothing(|code| - h))], s1.mem, s1.log)
    ensures Holding(s, code, h, j)
  {
    var th := s1.threads[0];
    assert ThreadOk(th) && ResolvedBefore(th, h) && |th.vals| == h;
    assert code[..|code|] == code;
    var open := Nothing(|code| - h);
    assert open[0] == None && open[j - h] == None;
    assert s.threads[0].vals[h] == open[0] && s.threads[0].vals[j] == open[j - h];
    assert ThreadExtends(th, s.threads[0]) && ThreadOk(s.threads[0]);
    StillReady(th, s.threads[0], h);
  }

  // ---------------------------------------------------------------- exactly when

  /* Some run of the program by one thread resolves i while j is unresolved. */
  ghost predicate Overtaken(mem: Flat, code: seq<Thunk>, j: nat, i: nat) {
    exists run, s ::
      && Reached(mem, run, s) && |s.threads| == 1 && s.threads[0].code == code
      && !Precedes(s.log, Event(0, j), Event(0, i))
  }

  lemma PassedRun(mem: Flat, code: seq<Thunk>, h: nat, j: nat, i: nat)
    requires ConstCode(code) && LetsPass(code, h, j, i) && Unhindered(code, i)
    ensures Overtaken(mem, code, j, i)
  {
    var run, s := Staged(mem, code, h, j);
    var more := Passes(s, code, h, j, i);
    RunAppend(Start(mem), run, more);
    var f := After(s, more);
    assert ThreadOk(f.threads[0]);
    assert Valued(f, Event(0, i)) && !Valued(f, Event(0, j));
    var y :| 0 <= y < |f.log| && f.log[y] == Event(0, i);
    assert Event(0, j) !in f.log[..y];
    assert Reached(mem, run + more, f);
  }

  /* Exactly when an operation is resolved ahead of an earlier thunk of its thread in some run. The
     operation has constant operands like the rest of the program, is no Release, touches no earlier
     Release, and is atomic or stands behind no plain access. Then it is when some atomic access
     that is no acquire lets it pass: the earlier thunk itself or one that the earlier one touches,
     and that it does not touch itself. */
  lemma OvertakenExactly(mem: Flat, code: seq<Thunk>, j: nat, i: nat)
    requires ConstCode(code) && j < i && InClass(code, i) && Unhindered(code, i)
    ensures Overtaken(mem, code, j, i) <==> exists h :: LetsPass(code, h, j, i)
  {
    if h :| LetsPass(code, h, j, i) { PassedRun(mem, code, h, j, i); }
    if Overtaken(mem, code, j, i) {
      var run, s :| Reached(mem, run, s) && |s.threads| == 1 && s.threads[0].code == code
                    && !Precedes(s.log, Event(0, j), Event(0, i));
      PassedHolder(mem, run, s, j, i);
      assert Event(0, i) in s.log;
    }
  }

  /* When every access before i is atomic and none is a Release, that is when j does not block i. */
  lemma OvertakenUnlessBlocked(mem: Flat, code: seq<Thunk>, j: nat, i: nat)
    requires ConstCode(code) && j < i < |code| && code[j].Access? && !IsRelease(code[i])
    requires forall x | 0 <= x < i && code[x].Access? :: Atomic(code[x]) && !IsRelease(code[x])
    ensures Overtaken(mem, code, j, i) <==> !Blocks(Thread(code, Nothing(|code|)), j, i)
  {
    OvertakenExactly(mem, code, j, i);
    LetsOrBlocks(code, Thread(code, Nothing(|code|)), j, i);
  }

  lemma LetsOrBlocks(code: seq<Thunk>, th: Thread, j: nat, i: nat)
    requires ConstCode(code) && th.code == code && j < i < |code| && code[j].Access?
    requires forall x | 0 <= x < i && code[x].Access? :: Atomic(code[x]) && !IsRelease(code[x])
    ensures (exists h :: LetsPass(code, h, j, i)) <==> !Blocks(th, j, i)
  {
    if h :| LetsPass(code, h, j, i) { LetsUnblocks(code, th, h, j, i); }
    if !Blocks(th, j, i) {
      if k: nat :| Bridges(th, k, j, i) {
        BridgeLets(code, th, k, j, i);
      } else {
        ConstSpan(th, j);
        ConstSpan(th, i);
        assert LetsPass(code, j, j, i);
      }
    }
  }

  lemma LetsUnblocks(code: seq<Thunk>, th: Thread, h: nat, j: nat, i: nat)
    requires ConstCode(code) && th.code == code && LetsPass(code, h, j, i) && code[j].Access?
    ensures !Blocks(th, j, i)
  {
    ConstSpan(th, h);
    ConstSpan(th, j);
    ConstSpan(th, i);
    if h != j { assert Bridges(th, h, j, i); } else { assert !Stops(th, j, i); }
  }

  lemma BridgeLets(code: seq<Thunk>, th: Thread, k: nat, j: nat, i: nat)
    requires ConstCode(code) && th.code == code && j < i < |code| && Bridges(th, k, j, i)
    requires forall x | 0 <= x < i && code[x].Access? :: Atomic(code[x]) && !IsRelease(code[x])
    ensures LetsPass(code, k, j, i)
  {
    ConstSpan(th, k);
    ConstSpan(th, j);
    ConstSpan(th, i);
  }
}
