/**
 What has to be pending for an operation to be resolved ahead of an earlier one of its thread, in
 programs with constant operands: one access, the earlier operation itself or one that hides it
 from the pass as aliased, that does not touch what the later one touches.
 */
module EngineHolders {
  import opened Wrappers
  import opened Values
  import opened FlatMemory
  import opened Engine
  import opened EngineRuns
  import opened EngineOrder

  // ---------------------------------------------------------------- programs with constant operands

  ghost predicate ConstDeps(t: Thunk) { forall k | 0 <= k < |Deps(t)| :: Deps(t)[k].Const? }

  ghost predicate ConstThunk(t: Thunk, i: nat) { ThunkOk(t, i) && ConstDeps(t) }

  ghost predicate ConstCode(code: seq<Thunk>) {
    forall i | 0 <= i < |code| :: ConstThunk(code[i], i)
  }

  /* The bytes of an access with a constant address. */
  function BytesOf(t: Thunk): set<nat> {
    if t.Access? && t.address.Const? then Cells(AsU64(t.address.v), ByteLen(t.bits)) else {}
  }

  predicate Touch(a: Thunk, b: Thunk) { BytesOf(a) * BytesOf(b) != {} }

  predicate Atomic(t: Thunk) { t.Access? && !t.order.NotAtomic? }

  predicate IsRelease(t: Thunk) { t.Access? && t.order.Release? }

  /* An access that stays pending until the scheduler picks it, and lets the pass go on. */
  predicate Holder(t: Thunk) { Atomic(t) && !Acquiring(t) }

  /* While h is pending, j is not resolved and i is not stopped. */
  predicate LetsPass(code: seq<Thunk>, h: nat, j: nat, i: nat) {
    && h <= j < i < |code|
    && Holder(code[h])
    && (h == j || Touch(code[h], code[j]))
    && !Touch(code[h], code[i])
  }

  lemma ConstSpan(th: Thread, i: nat)
    requires i < |th.code| && ConstThunk(th.code[i], i)
    ensures Span(th, i) == BytesOf(th.code[i]) && (Known(th, i) <==> th.code[i].Access?)
  {
    if th.code[i].Access? { assert Deps(th.code[i])[0] == th.code[i].address; }
  }

  // ---------------------------------------------------------------- one turn of the pass

  /* A pass over the only thread, with program `code`. */
  ghost predicate Single(p: Pass, code: seq<Thunk>) {
    StateOk(p.st) && |p.st.threads| == 1 && p.st.threads[0].code == code && ConstCode(code)
  }

  ghost predicate Open(p: Pass, i: nat)
    requires |p.st.threads| == 1
  {
    Unresolved(p.st.threads[0], i)
  }

  lemma ConstFires(p: Pass, code: seq<Thunk>, x: nat)
    requires Single(p, code) && x < |code| && Open(p, x)
    ensures CanFire(p.st, Event(0, x))
  {
    assert ThreadOk(p.st.threads[0]);
    assert ConstThunk(code[x], x);
  }

  ghost function Fired(p: Pass, e: Event): Pass
    requires CanFire(p.st, e)
  {
    p.(st := Fire(p.st, e), progress := true)
  }

  lemma FiredSingle(p: Pass, code: seq<Thunk>, x: nat)
    requires Single(p, code) && x < |code| && Open(p, x)
    ensures CanFire(p.st, Event(0, x)) && Single(Fired(p, Event(0, x)), code)
    ensures forall y :: Open(Fired(p, Event(0, x)), y) <==> Open(p, y) && y != x
  {
    ConstFires(p, code, x);
    assert ThreadOk(p.st.threads[0]);
  }

  /* Thunks that are Ready or aliased are passed over. */
  lemma TurnSkips(p: Pass, code: seq<Thunk>, x: nat)
    requires Single(p, code) && x < |code|
    requires Open(p, x) ==> code[x].Access? && BytesOf(code[x]) * p.pending != {}
    ensures Turn(p, 0, x) == p && !Halts(p, 0, x)
  {
    ConstSpan(p.st.threads[0], x);
  }

  lemma TurnPure(p: Pass, code: seq<Thunk>, x: nat)
    requires Single(p, code) && x < |code| && Open(p, x) && code[x].Pure?
    ensures CanFire(p.st, Event(0, x)) && Turn(p, 0, x) == Fired(p, Event(0, x)) && !Halts(p, 0, x)
  {
    ConstFires(p, code, x);
  }

  /* A plain access that is not aliased is resolved on the spot. */
  lemma TurnPlain(p: Pass, code: seq<Thunk>, x: nat)
    requires Single(p, code) && x < |code| && Open(p, x) && code[x].Access? && !Atomic(code[x])
    requires BytesOf(code[x]) * p.pending == {}
    ensures CanFire(p.st, Event(0, x)) && !Halts(p, 0, x)
    ensures Turn(p, 0, x) == Fired(p, Event(0, x)).(pending := p.pending + BytesOf(code[x]))
  {
    ConstFires(p, code, x);
    ConstSpan(p.st.threads[0], x);
  }

  /* An atomic access that is not aliased becomes pending; only a Release may not be offered. */
  lemma TurnAtomic(p: Pass, code: seq<Thunk>, x: nat)
    requires Single(p, code) && x < |code| && Open(p, x) && Atomic(code[x])
    requires BytesOf(code[x]) * p.pending == {}
    ensures Halts(p, 0, x) <==> Acquiring(code[x])
    ensures Turn(p, 0, x) == p.(pending := p.pending + BytesOf(code[x]), offered := Turn(p, 0, x).offered)
    ensures Turn(p, 0, x).offered == p.offered + [Event(0, x)]
            || (IsRelease(code[x]) && Turn(p, 0, x).offered == p.offered)
    ensures p.offered == [] || !IsRelease(code[x]) ==> Turn(p, 0, x).offered == p.offered + [Event(0, x)]
  {
    ConstSpan(p.st.threads[0], x);
    assert p.offered == [] ==> p.offered + [Event(0, x)] == [Event(0, x)];
  }

  // ---------------------------------------------------------------- what is pending, and why

  /* Access k went into the pending set of this pass and let it go on: an atomic one is still
     unresolved, a plain one has been resolved by the pass. */
  ghost predicate InsOk(p: Pass, code: seq<Thunk>, x: nat, k: nat)
    requires Single(p, code)
  {
    && k < x && k < |code| && code[k].Access? && !Acquiring(code[k])
    && BytesOf(code[k]) <= p.pending
    && (if Atomic(code[k]) then Open(p, k) else !Open(p, k) && p.progress)
  }

  ghost predicate ByteFrom(code: seq<Thunk>, ins: set<nat>, c: nat) {
    exists k :: k in ins && k < |code| && c in BytesOf(code[k])
  }

  ghost predicate HiddenBy(code: seq<Thunk>, ins: set<nat>, y: nat)
    requires y < |code|
  {
    exists k :: k in ins && k < y && Touch(code[k], code[y])
  }

  /* A thunk that the pass has left unresolved went into the pending set or was hidden. */
  ghost predicate LeftBehind(code: seq<Thunk>, ins: set<nat>, y: nat)
    requires y < |code|
  {
    y in ins || HiddenBy(code, ins, y)
  }

  ghost predicate Inserted(p: Pass, code: seq<Thunk>, x: nat, ins: set<nat>) {
    && Single(p, code)
    && (forall k | k in ins :: InsOk(p, code, x, k))
    && (forall c | c in p.pending :: ByteFrom(code, ins, c))
    && (forall y | 0 <= y < x && y < |code| && Open(p, y) :: LeftBehind(code, ins, y))
  }

  lemma HiddenMore(code: seq<Thunk>, ins: set<nat>, more: set<nat>, y: nat)
    requires y < |code| && LeftBehind(code, ins, y)
    ensures LeftBehind(code, ins + more, y)
  {
    if y !in ins {
      var k :| k in ins && k < y && Touch(code[k], code[y]);
      assert k in ins + more;
    }
  }

  lemma AliasHides(p: Pass, code: seq<Thunk>, x: nat, ins: set<nat>)
    requires Inserted(p, code, x, ins) && x < |code| && BytesOf(code[x]) * p.pending != {}
    ensures HiddenBy(code, ins, x)
  {
    var c :| c in BytesOf(code[x]) * p.pending;
    assert ByteFrom(code, ins, c);
    var k :| k in ins && k < |code| && c in BytesOf(code[k]);
    assert InsOk(p, code, x, k);
    assert c in BytesOf(code[k]) * BytesOf(code[x]);
  }

  /* The pass skips thunk x. */
  lemma InsertedSkip(p: Pass, code: seq<Thunk>, x: nat, ins: set<nat>, n: nat)
    requires Inserted(p, code, x, ins) && x < |code| && n == x + 1
    requires Open(p, x) ==> BytesOf(code[x]) * p.pending != {}
    ensures Inserted(p, code, n, ins)
  {
    forall k | k in ins ensures InsOk(p, code, n, k) { assert InsOk(p, code, x, k); }
    forall y | 0 <= y < n && y < |code| && Open(p, y) ensures LeftBehind(code, ins, y) {
      if y == x { AliasHides(p, code, x, ins); }
    }
  }

  lemma ByteMore(code: seq<Thunk>, ins: set<nat>, more: set<nat>, c: nat)
    requires ByteFrom(code, ins, c)
    ensures ByteFrom(code, ins + more, c)
  {
    var k :| k in ins && k < |code| && c in BytesOf(code[k]);
    assert k in ins + more;
  }

  /* The bytes of x join the pending ones. */
  lemma BytesMore(p: Pass, code: seq<Thunk>, x: nat, ins: set<nat>, more: set<nat>)
    requires Inserted(p, code, x, ins) && x < |code| && (BytesOf(code[x]) != {} ==> x in more)
    ensures forall c | c in p.pending + BytesOf(code[x]) :: ByteFrom(code, ins + more, c)
  {
    forall c | c in p.pending + BytesOf(code[x]) ensures ByteFrom(code, ins + more, c) {
      if c in p.pending {
        assert ByteFrom(code, ins, c);
        ByteMore(code, ins, more, c);
      } else {
        assert x in ins + more;
      }
    }
  }

  lemma BehindMore(p: Pass, code: seq<Thunk>, x: nat, ins: set<nat>, more: set<nat>)
    requires Inserted(p, code, x, ins)
    ensures forall y | 0 <= y < x && y < |code| && Open(p, y) :: LeftBehind(code, ins + more, y)
  {
    forall y | 0 <= y < x && y < |code| && Open(p, y) ensures LeftBehind(code, ins + more, y) {
      HiddenMore(code, ins, more, y);
    }
  }

  /* The pass resolves thunk x. */
  lemma InsertedFire(p: Pass, code: seq<Thunk>, x: nat, ins: set<nat>, n: nat, bytes: set<nat>, more: set<nat>)
    requires Inserted(p, code, x, ins) && x < |code| && n == x + 1 && Open(p, x) && !Atomic(code[x])
    requires more == if code[x].Access? then {x} else {}
    requires bytes == BytesOf(code[x])
    ensures CanFire(p.st, Event(0, x))
    ensures Inserted(Fired(p, Event(0, x)).(pending := p.pending + bytes), code, n, ins + more)
  {
    FiredSingle(p, code, x);
    var q := Fired(p, Event(0, x)).(pending := p.pending + bytes);
    forall k | k in ins + more ensures InsOk(q, code, n, k) {
      if k in ins { assert InsOk(p, code, x, k); }
    }
    BytesMore(p, code, x, ins, more);
    BehindMore(p, code, x, ins, more);
  }

  /* Thunk x stays pending. */
  lemma InsertedHold(p: Pass, code: seq<Thunk>, x: nat, ins: set<nat>, n: nat, offered: seq<Event>)
    requires Inserted(p, code, x, ins) && x < |code| && n == x + 1 && Open(p, x) && Holder(code[x])
    ensures Inserted(p.(pending := p.pending + BytesOf(code[x]), offered := offered), code, n, ins + {x})
  {
    var q := p.(pending := p.pending + BytesOf(code[x]), offered := offered);
    forall k | k in ins + {x} ensures InsOk(q, code, n, k) {
      if k in ins { assert InsOk(p, code, x, k); }
    }
    BytesMore(p, code, x, ins, {x});
    BehindMore(p, code, x, ins, {x});
    assert LeftBehind(code, ins + {x}, x);
  }

  lemma TurnInserted(p: Pass, code: seq<Thunk>, x: nat, ins: set<nat>, n: nat) returns (ins': set<nat>)
    requires Inserted(p, code, x, ins) && x < |code| && n == x + 1 && !Halts(p, 0, x)
    ensures Inserted(Turn(p, 0, x), code, n, ins')
  {
    if !Open(p, x) || (code[x].Access? && BytesOf(code[x]) * p.pending != {}) {
      TurnSkips(p, code, x);
      InsertedSkip(p, code, x, ins, n);
      ins' := ins;
    } else if code[x].Pure? {
      TurnPure(p, code, x);
      InsertedFire(p, code, x, ins, n, {}, {});
      assert p.pending + {} == p.pending;
      ins' := ins + {};
    } else if !Atomic(code[x]) {
      TurnPlain(p, code, x);
      InsertedFire(p, code, x, ins, n, BytesOf(code[x]), {x});
      ins' := ins + {x};
    } else {
      TurnAtomic(p, code, x);
      InsertedHold(p, code, x, ins, n, Turn(p, 0, x).offered);
      ins' := ins + {x};
    }
  }

  // ---------------------------------------------------------------- necessary

  /* Every access before i is atomic. */
  predicate NoPlainBefore(code: seq<Thunk>, i: nat) {
    forall x | 0 <= x < i && x < |code| && code[x].Access? :: Atomic(code[x])
  }

  lemma BehindBy(code: seq<Thunk>, ins: set<nat>, j: nat) returns (h: nat)
    requires j < |code| && LeftBehind(code, ins, j)
    ensures h in ins && h <= j && (h == j || Touch(code[h], code[j]))
  {
    if j in ins {
      h := j;
    } else {
      var k :| k in ins && k < j && Touch(code[k], code[j]);
      h := k;
    }
  }

  lemma ApartFrom(a: set<nat>, b: set<nat>, pending: set<nat>)
    requires a <= pending && b * pending == {}
    ensures a * b == {}
  {
    assert a * b <= b * pending;
  }

  /* When i is not aliased and j was left behind, some pending access lets i pass. */
  lemma HolderNow(p: Pass, code: seq<Thunk>, ins: set<nat>, j: nat, i: nat) returns (h: nat)
    requires Inserted(p, code, i, ins) && j < i < |code| && Open(p, j)
    requires BytesOf(code[i]) * p.pending == {}
    requires NoPlainBefore(code, i) || !p.progress
    ensures LetsPass(code, h, j, i) && Open(p, h)
  {
    assert LeftBehind(code, ins, j);
    h := BehindBy(code, ins, j);
    assert InsOk(p, code, i, h);
    ApartFrom(BytesOf(code[h]), BytesOf(code[i]), p.pending);
  }

  /* In this history i comes after j, or after neither j nor some access that lets it pass. */
  ghost predicate Fine(log: seq<Event>, code: seq<Thunk>, j: nat, i: nat) {
    Event(0, i) in log ==>
      Precedes(log, Event(0, j), Event(0, i)) ||
      exists h :: LetsPass(code, h, j, i) && !Precedes(log, Event(0, h), Event(0, i))
  }

  lemma PrecedesSnoc(log: seq<Event>, e: Event, a: Event, b: Event)
    requires b in log && b != e
    ensures Precedes(log + [e], a, b) <==> Precedes(log, a, b)
  {
    assert forall y | 0 <= y < |log| :: (log + [e])[y] == log[y] && (log + [e])[..y] == log[..y];
    if Precedes(log + [e], a, b) {
      forall y | 0 <= y < |log| && log[y] == b ensures a in log[..y] {
        assert (log + [e])[y] == b;
      }
    }
  }

  lemma PrecedesLast(log: seq<Event>, a: Event, b: Event)
    requires b !in log
    ensures Precedes(log + [b], a, b) <==> a in log
  {
    assert (log + [b])[|log|] == b && (log + [b])[..|log|] == log;
    if a in log {
      forall y | 0 <= y < |log + [b]| && (log + [b])[y] == b ensures a in (log + [b])[..y] { assert y == |log|; }
    }
  }

  lemma FineOther(log: seq<Event>, code: seq<Thunk>, j: nat, i: nat, e: Event)
    requires Fine(log, code, j, i) && e != Event(0, i)
    ensures Fine(log + [e], code, j, i)
  {
    if Event(0, i) in log {
      PrecedesSnoc(log, e, Event(0, j), Event(0, i));
      if !Precedes(log, Event(0, j), Event(0, i)) {
        var h :| LetsPass(code, h, j, i) && !Precedes(log, Event(0, h), Event(0, i));
        PrecedesSnoc(log, e, Event(0, h), Event(0, i));
      }
    }
  }

  lemma FineNow(s: State, code: seq<Thunk>, j: nat, i: nat, h: nat)
    requires LogExact(s) && StateOk(s) && |s.threads| == 1 && s.threads[0].code == code && j < i < |code|
    requires Unresolved(s.threads[0], i)
    requires Unresolved(s.threads[0], j) ==> LetsPass(code, h, j, i) && Unresolved(s.threads[0], h)
    ensures Fine(s.log + [Event(0, i)], code, j, i)
  {
    assert ThreadOk(s.threads[0]);
    assert !Valued(s, Event(0, i));
    if Unresolved(s.threads[0], j) {
      assert !Valued(s, Event(0, h));
      PrecedesLast(s.log, Event(0, h), Event(0, i));
    } else {
      assert Valued(s, Event(0, j));
      PrecedesLast(s.log, Event(0, j), Event(0, i));
    }
  }

  /* The turn of x resolves x or leaves the state alone. */
  lemma TurnState(p: Pass, code: seq<Thunk>, x: nat)
    requires Single(p, code) && x < |code|
    ensures Single(Turn(p, 0, x), code)
    ensures Turn(p, 0, x).st == p.st || (CanFire(p.st, Event(0, x)) && Turn(p, 0, x).st == Fire(p.st, Event(0, x)))
    ensures Turn(p, 0, x).st != p.st ==> Open(p, x) && !Atomic(code[x]) && BytesOf(code[x]) * p.pending == {}
    ensures Turn(p, 0, x).st != p.st ==> Turn(p, 0, x).progress
    ensures forall y | y != x :: Open(Turn(p, 0, x), y) <==> Open(p, y)
    ensures Atomic(code[x]) ==> (Open(Turn(p, 0, x), x) <==> Open(p, x))
  {
    if !Open(p, x) || (code[x].Access? && BytesOf(code[x]) * p.pending != {}) {
      TurnSkips(p, code, x);
    } else if Atomic(code[x]) {
      TurnAtomic(p, code, x);
    } else {
      FiredSingle(p, code, x);
      if code[x].Pure? { TurnPure(p, code, x); } else { TurnPlain(p, code, x); }
    }
  }

  lemma TurnFine(p: Pass, code: seq<Thunk>, x: nat, ins: set<nat>, j: nat, i: nat)
    requires Single(p, code) && x < |code| && j < i < |code| && (x <= i ==> Inserted(p, code, x, ins))
    requires LogExact(p.st) && Fine(p.st.log, code, j, i)
    requires Atomic(code[i]) || NoPlainBefore(code, i)
    ensures LogExact(Turn(p, 0, x).st) && Fine(Turn(p, 0, x).st.log, code, j, i)
  {
    TurnState(p, code, x);
    if Turn(p, 0, x).st != p.st {
      FireLogExact(p.st, Event(0, x));
      if x == i {
        var h := 0;
        if Open(p, j) { h := HolderNow(p, code, ins, j, i); }
        FineNow(p.st, code, j, i, h);
      } else {
        FineOther(p.st.log, code, j, i, Event(0, x));
      }
    }
  }

  lemma {:induction false} ScanFine(p: Pass, code: seq<Thunk>, x: nat, ins: set<nat>, j: nat, i: nat)
    requires Single(p, code) && j < i < |code| && (x <= i ==> Inserted(p, code, x, ins))
    requires LogExact(p.st) && Fine(p.st.log, code, j, i)
    requires Atomic(code[i]) || NoPlainBefore(code, i)
    ensures Fine(Scan(p, 0, x).st.log, code, j, i)
    decreases |code| - x
  {
    if x < |code| {
      var n := x + 1;
      ScanTurn(p, 0, x);
      TurnFine(p, code, x, ins, j, i);
      TurnState(p, code, x);
      if !Halts(p, 0, x) {
        var ins' := ins;
        if x < i { ins' := TurnInserted(p, code, x, ins, n); }
        ScanFine(Turn(p, 0, x), code, n, ins', j, i);
      }
    }
  }

  /* A pass that was quiet from its start was quiet at every turn, and changed nothing. */
  lemma QuietTurn(p: Pass, code: seq<Thunk>, x: nat)
    requires Single(p, code) && x < |code| && !Scan(p, 0, x).progress
    ensures !p.progress && !Turn(p, 0, x).progress && Turn(p, 0, x).st == p.st
    ensures !Open(p, x) || (code[x].Access? && (Atomic(code[x]) || BytesOf(code[x]) * p.pending != {}))
  {
    ScanTurn(p, 0, x);
    TurnState(p, code, x);
    if !Halts(p, 0, x) { ScanShape(Turn(p, 0, x), 0, x + 1); }
    if Open(p, x) && code[x].Pure? { TurnPure(p, code, x); }
    if Open(p, x) && code[x].Access? && !Atomic(code[x]) && BytesOf(code[x]) * p.pending == {} {
      TurnPlain(p, code, x);
    }
  }

  /* The turn of x offers only x. */
  lemma TurnOffers(p: Pass, code: seq<Thunk>, x: nat)
    requires Single(p, code) && x < |code|
    ensures forall e | e in Turn(p, 0, x).offered :: e in p.offered || e == Event(0, x)
    ensures p.offered <= Turn(p, 0, x).offered
  {
  }

  lemma NotOfferedLater(p: Pass, code: seq<Thunk>, i: nat)
    requires Single(p, code) && i < |code| && Event(0, i) !in p.offered && Turn(p, 0, i) == p && !Halts(p, 0, i)
    ensures Event(0, i) !in Scan(p, 0, i).offered
  {
    ScanTurn(p, 0, i);
    OffersAbove(p, code, i + 1);
  }

  /* From position x on, only positions from x on are offered. */
  lemma {:induction false} OffersAbove(p: Pass, code: seq<Thunk>, x: nat)
    requires Single(p, code)
    ensures forall e | e in Scan(p, 0, x).offered :: e in p.offered || (e.tid == 0 && e.pos >= x)
    decreases |code| - x
  {
    if x < |code| {
      ScanTurn(p, 0, x);
      TurnOffers(p, code, x);
      TurnState(p, code, x);
      if !Halts(p, 0, x) { OffersAbove(Turn(p, 0, x), code, x + 1); }
    }
  }

  lemma OfferedUnaliased(p: Pass, code: seq<Thunk>, i: nat)
    requires Single(p, code) && i < |code| && !Scan(p, 0, i).progress
    requires Event(0, i) !in p.offered && Event(0, i) in Scan(p, 0, i).offered
    ensures BytesOf(code[i]) * p.pending == {}
  {
    QuietTurn(p, code, i);
    if BytesOf(code[i]) * p.pending != {} {
      TurnSkips(p, code, i);
      NotOfferedLater(p, code, i);
    }
  }

  lemma OfferedAfter(p: Pass, code: seq<Thunk>, x: nat, i: nat)
    requires Single(p, code) && x < i < |code|
    requires Event(0, i) !in p.offered && Event(0, i) in Scan(p, 0, x).offered
    ensures !Halts(p, 0, x) && Event(0, i) !in Turn(p, 0, x).offered
  {
    ScanTurn(p, 0, x);
    TurnOffers(p, code, x);
  }

  /* A quiet pass goes on to what it offers later. */
  lemma OfferNext(p: Pass, code: seq<Thunk>, x: nat, ins: set<nat>, i: nat, n: nat) returns (q: Pass, more: set<nat>)
    requires Inserted(p, code, x, ins) && x < i < |code| && n == x + 1
    requires !Scan(p, 0, x).progress && Event(0, i) !in p.offered && Event(0, i) in Scan(p, 0, x).offered
    ensures q.st == p.st && Inserted(q, code, n, more)
    ensures !Scan(q, 0, n).progress && Event(0, i) !in q.offered && Event(0, i) in Scan(q, 0, n).offered
  {
    QuietTurn(p, code, x);
    ScanTurn(p, 0, x);
    OfferedAfter(p, code, x, i);
    q := Turn(p, 0, x);
    more := TurnInserted(p, code, x, ins, n);
  }

  /* What a quiet pass offers may go ahead of j only past a pending access. */
  lemma {:induction false} OfferHolder(p: Pass, code: seq<Thunk>, x: nat, ins: set<nat>, j: nat, i: nat)
    returns (h: nat)
    requires Inserted(p, code, x, ins) && x <= i && j < i < |code| && Open(p, j)
    requires !Scan(p, 0, x).progress && Event(0, i) !in p.offered && Event(0, i) in Scan(p, 0, x).offered
    ensures LetsPass(code, h, j, i) && Open(p, h)
    decreases i - x
  {
    if x == i {
      QuietTurn(p, code, i);
      OfferedUnaliased(p, code, i);
      h := HolderNow(p, code, ins, j, i);
    } else {
      var n := x + 1;
      var q, more := OfferNext(p, code, x, ins, i, n);
      h := OfferHolder(q, code, n, more, j, i);
    }
  }

  // ---------------------------------------------------------------- over whole runs

  ghost predicate InClass(code: seq<Thunk>, i: nat) {
    i < |code| && (Atomic(code[i]) || NoPlainBefore(code, i))
  }

  lemma SweepFine(s: State, code: seq<Thunk>, j: nat, i: nat)
    requires StateOk(s) && LogExact(s) && |s.threads| == 1 && s.threads[0].code == code && ConstCode(code)
    requires j < i && InClass(code, i) && Fine(s.log, code, j, i)
    ensures Fine(PassAll(s).st.log, code, j, i)
  {
    var p := Pass(s, {}, [], false);
    PassAllOne(s);
    ScanFine(p, code, 0, {}, j, i);
  }

  /* With one thread a pass over all threads is a pass over that one. */
  lemma PassAllOne(s: State)
    requires |s.threads| == 1
    ensures PassAll(s) == Scan(Pass(s, {}, [], false), 0, 0)
  {
    var p := Pass(s, {}, [], false);
    ScanShape(p, 0, 0);
    assert ScanAll(Scan(p, 0, 0), 1) == Scan(p, 0, 0);
  }

  lemma ResolveFine(s: State, code: seq<Thunk>, j: nat, i: nat, e: Event)
    requires StateOk(s) && LogExact(s) && |s.threads| == 1 && s.threads[0].code == code && ConstCode(code)
    requires j < i && InClass(code, i) && Fine(s.log, code, j, i) && Enabled(s, Resolve(e))
    ensures Fine(Fire(s, e).log, code, j, i)
  {
    if e != Event(0, i) {
      FineOther(s.log, code, j, i, e);
    } else {
      var p := Pass(s, {}, [], false);
      PassAllOne(s);
      var h := 0;
      if Unresolved(s.threads[0], j) { h := OfferHolder(p, code, 0, {}, j, i); }
      FineNow(s, code, j, i, h);
    }
  }

  lemma StepFine(s: State, a: Step, code: seq<Thunk>, j: nat, i: nat)
    requires StateOk(s) && LogExact(s) && Enabled(s, a)
    requires |s.threads| == 1 && s.threads[0].code == code && ConstCode(code)
    requires j < i && InClass(code, i) && Fine(s.log, code, j, i)
    ensures Fine(Next(s, a).log, code, j, i)
  {
    match a
    case Sweep => SweepFine(s, code, j, i);
    case Resolve(e) => ResolveFine(s, code, j, i, e);
    case Decode(_, _) =>
    case Spawn =>
  }

  /* What lets i pass in a program lets it pass in a longer one. */
  lemma FinePrefix(log: seq<Event>, code: seq<Thunk>, more: seq<Thunk>, j: nat, i: nat)
    requires code <= more && i < |code| && Fine(log, code, j, i)
    ensures Fine(log, more, j, i)
  {
    if Event(0, i) in log && !Precedes(log, Event(0, j), Event(0, i)) {
      var h :| LetsPass(code, h, j, i) && !Precedes(log, Event(0, h), Event(0, i));
      assert LetsPass(more, h, j, i);
    }
  }

  lemma FineShorter(log: seq<Event>, code: seq<Thunk>, more: seq<Thunk>, j: nat, i: nat)
    requires code <= more && i < |code| && Fine(log, more, j, i)
    ensures Fine(log, code, j, i)
  {
    if Event(0, i) in log && !Precedes(log, Event(0, j), Event(0, i)) {
      var h :| LetsPass(more, h, j, i) && !Precedes(log, Event(0, h), Event(0, i));
      assert LetsPass(code, h, j, i);
    }
  }

  /* One step of a run whose thread ends up with the program `code`. */
  lemma RunStepFine(s: State, a: Step, code: seq<Thunk>, j: nat, i: nat)
    requires StateOk(s) && LogExact(s) && Enabled(s, a) && LogExact(Next(s, a))
    requires |s.threads| <= 1 && (|s.threads| == 1 ==> s.threads[0].code <= code)
    requires |Next(s, a).threads| <= 1 && (|Next(s, a).threads| == 1 ==> Next(s, a).threads[0].code <= code)
    requires Extends(s, Next(s, a)) && StateOk(Next(s, a))
    requires ConstCode(code) && j < i && InClass(code, i) && Fine(s.log, code, j, i)
    ensures Fine(Next(s, a).log, code, j, i)
  {
    var s1 := Next(s, a);
    if |s.threads| == 1 && i < |s.threads[0].code| {
      var c := s.threads[0].code;
      assert ConstCode(c) by { forall x | 0 <= x < |c| ensures ConstThunk(c[x], x) { assert ConstThunk(code[x], x); } }
      FineShorter(s.log, c, code, j, i);
      StepFine(s, a, c, j, i);
      FinePrefix(s1.log, c, code, j, i);
    } else {
      NotYet(s, a, i);
    }
  }

  /* A thunk that is not decoded yet is not resolved. */
  lemma NotYet(s: State, a: Step, i: nat)
    requires StateOk(s) && LogExact(s) && Enabled(s, a) && |s.threads| <= 1 && |Next(s, a).threads| <= 1
    requires |s.threads| == 1 ==> |s.threads[0].code| <= i
    requires LogExact(Next(s, a)) && StateOk(Next(s, a))
    ensures Event(0, i) !in Next(s, a).log
  {
    var s1 := Next(s, a);
    if a.Sweep? { AllShape(Pass(s, {}, [], false), 0); }
    if |s1.threads| == 1 { assert ThreadOk(s1.threads[0]); }
    assert !Valued(s1, Event(0, i));
  }

  lemma {:induction false} RunFine(s: State, run: seq<Step>, code: seq<Thunk>, j: nat, i: nat)
    requires StateOk(s) && LogExact(s) && Run(s, run)
    requires |After(s, run).threads| == 1 && After(s, run).threads[0].code == code
    requires |s.threads| <= 1 && (|s.threads| == 1 ==> s.threads[0].code <= code)
    requires ConstCode(code) && j < i && InClass(code, i) && Fine(s.log, code, j, i)
    ensures Fine(After(s, run).log, code, j, i)
    decreases |run|
  {
    if run != [] {
      var s1 := Next(s, run[0]);
      RunTail(s, run);
      CodeGrows(s1, After(s, run));
      RunStepFine(s, run[0], code, j, i);
      RunFine(s1, run[1..], code, j, i);
    }
  }

  lemma CodeGrows(s: State, s': State)
    requires Extends(s, s') && |s'.threads| == 1
    ensures |s.threads| <= 1 && (|s.threads| == 1 ==> s.threads[0].code <= s'.threads[0].code)
  {
  }

  /* In every run, i is resolved after j, or before some access that lets it pass. */
  lemma PassedHolder(mem: Flat, run: seq<Step>, s: State, j: nat, i: nat)
    requires Reached(mem, run, s) && |s.threads| == 1 && ConstCode(s.threads[0].code)
    requires j < i && InClass(s.threads[0].code, i)
    ensures Fine(s.log, s.threads[0].code, j, i)
  {
    RunFine(Start(mem), run, s.threads[0].code, j, i);
  }
}
