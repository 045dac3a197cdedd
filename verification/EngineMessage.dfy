/**
 What a load sees across threads: message passing through a Release and an acquire, the litmus
 of tests/src/main.rs:82-91.
 */
module EngineMessage {
  import opened Wrappers
  import opened Values
  import opened FlatMemory
  import opened Engine
  import opened EngineRuns
  import opened EngineOrder
  import opened EngineRefine

  ghost predicate At(s: State, e: Event) {
    e.tid < |s.threads| && e.pos < |s.threads[e.tid].code| == |s.threads[e.tid].vals|
  }

  function Code(s: State, e: Event): Thunk
    requires At(s, e)
  {
    s.threads[e.tid].code[e.pos]
  }

  function SpanOf(s: State, e: Event): set<nat>
    requires At(s, e)
  {
    Span(s.threads[e.tid], e.pos)
  }

  predicate Writer(t: Thunk) { t.Access? && !t.op.Load? }

  /* The operation does not write to the bytes. */
  ghost predicate Spares(s: State, e: Event, bytes: set<nat>)
    requires At(s, e)
  {
    Writer(Code(s, e)) ==> SpanOf(s, e) * bytes == {}
  }

  /* Nobody but w has written to the bytes. */
  ghost predicate SoleWriter(s: State, w: Event, bytes: set<nat>) {
    forall e | Valued(s, e) && At(s, e) && e != w :: Spares(s, e, bytes)
  }

  ghost predicate TypedState(s: State) {
    forall t | 0 <= t < |s.threads| :: AllTyped(s.threads[t])
  }

  lemma ArgsStable(a: Thread, b: Thread, ds: seq<Dep>)
    requires ThreadExtends(a, b) && DepsReady(ds, a.vals)
    ensures DepsReady(ds, b.vals) && Args(ds, b.vals) == Args(ds, a.vals)
  {
    forall k | 0 <= k < |ds| ensures DepVal(ds[k], b.vals) == DepVal(ds[k], a.vals) { }
    assert DepsReady(ds, b.vals) by {
      forall k | 0 <= k < |ds| ensures DepVal(ds[k], b.vals).Some? {
        assert DepVal(ds[k], a.vals).Some?;
      }
    }
    assert Args(ds, b.vals) == Args(ds, a.vals);
  }

  /* The arguments of a resolved operation, read off a later state. */
  ghost function ArgsIn(f: State, e: Event): seq<Value>
    requires At(f, e) && DepsReady(Deps(Code(f, e)), f.threads[e.tid].vals)
  {
    Args(Deps(Code(f, e)), f.threads[e.tid].vals)
  }

  /* What an operation computed, in terms of a later state. */
  lemma FiredAs(s: State, f: State, e: Event)
    requires StateOk(s) && StateOk(f) && MayFire(s, e) && Extends(Fire(s, e), f)
    ensures At(s, e) && At(f, e) && Code(f, e) == Code(s, e) && Arity(Code(f, e))
    ensures DepsReady(Deps(Code(f, e)), f.threads[e.tid].vals)
    ensures f.threads[e.tid].vals[e.pos] == Some(Perform(Code(f, e), ArgsIn(f, e), s.mem).0)
    ensures Fire(s, e).threads[e.tid].vals[e.pos] == f.threads[e.tid].vals[e.pos]
    ensures Fire(s, e).mem == Perform(Code(f, e), ArgsIn(f, e), s.mem).1
    ensures Code(f, e).Access? ==>
              Known(f.threads[e.tid], e.pos) && AsU64(ArgsIn(f, e)[0]) == Base(f.threads[e.tid], e.pos)
  {
    var th, thf := s.threads[e.tid], f.threads[e.tid];
    assert ThreadExtends(Fire(s, e).threads[e.tid], thf);
    assert ThreadExtends(th, thf);
    ArgsStable(th, thf, Deps(th.code[e.pos]));
    if th.code[e.pos].Access? { assert Deps(th.code[e.pos])[0] == th.code[e.pos].address; }
  }

  lemma Apart(a: set<nat>, b: set<nat>, c: nat)
    requires a * b == {} && c in b
    ensures c !in a
  {
    assert c in a ==> c in a * b;
  }

  /* Resolving an operation that does not write to the bytes leaves them alone. */
  lemma OthersKeep(s: State, f: State, e: Event, c: nat, bytes: set<nat>)
    requires StateOk(s) && StateOk(f) && MayFire(s, e) && c in bytes
    requires Extends(Fire(s, e), f) && TypedState(f) && At(f, e) && Spares(f, e, bytes)
    ensures Same(Fire(s, e).mem, s.mem, c)
  {
    FiredAs(s, f, e);
    var t := Code(f, e);
    if Writer(t) {
      assert Typed(t, ArgsIn(f, e));
      Apart(SpanOf(f, e), bytes, c);
      PerformLocal(t, ArgsIn(f, e), s.mem, s.mem, c);
    }
  }

  /* What has just been resolved is resolved later on. */
  lemma FiredValued(s: State, f: State, e: Event)
    requires StateOk(s) && StateOk(f) && MayFire(s, e) && Extends(Fire(s, e), f)
    ensures At(f, e) && Valued(f, e)
  {
    FiredAs(s, f, e);
  }

  // ---------------------------------------------------------------- a store that nobody overwrites

  ghost predicate IsStore(s: State, e: Event) {
    At(s, e) && Known(s.threads[e.tid], e.pos) && Code(s, e).op.Store? && ThunkOk(Code(s, e), e.pos)
    && DepVal(Code(s, e).operands[0], s.threads[e.tid].vals).Some?
  }

  /* The bytes a store wrote. */
  ghost function Data(s: State, e: Event): seq<byte>
    requires IsStore(s, e)
  {
    DepVal(Code(s, e).operands[0], s.threads[e.tid].vals).value.imp
  }

  /* Whoever else wrote to the bytes of w was resolved before w or after k. */
  ghost predicate LastWriter(f: State, w: Event, k: Event)
    requires At(f, w)
  {
    forall e | Valued(f, e) && At(f, e) && e != w ::
      Spares(f, e, SpanOf(f, w)) || Precedes(f.log, e, w) || Precedes(f.log, k, e)
  }

  /* From the resolution of the store to that of the load its bytes are in memory. */
  ghost predicate HoldsData(s: State, f: State, w: Event, k: Event)
    requires IsStore(f, w)
  {
    w in s.log && k !in s.log ==>
      forall c | c in SpanOf(f, w) && c - Base(f.threads[w.tid], w.pos) < |Data(f, w)| ::
        c in s.mem && s.mem[c] == Data(f, w)[c - Base(f.threads[w.tid], w.pos)]
  }

  /* What a load of part of those bytes returned. */
  ghost predicate SawData(s: State, f: State, w: Event, k: Event)
    requires IsStore(f, w) && At(f, k) && Known(f.threads[k.tid], k.pos)
  {
    var base, from := Base(f.threads[w.tid], w.pos), Base(f.threads[k.tid], k.pos);
    Valued(s, k) ==>
      var v := s.threads[k.tid].vals[k.pos].value;
      && |v.imp| == ByteLen(Code(f, k).bits)
      && forall x | 0 <= x < |v.imp| && 0 <= from + x - base < |Data(f, w)| :: v.imp[x] == Data(f, w)[from + x - base]
  }

  ghost predicate LoadsFrom(f: State, w: Event, k: Event) {
    && IsStore(f, w) && |Data(f, w)| == ByteLen(Code(f, w).bits)
    && At(f, k) && Known(f.threads[k.tid], k.pos) && Code(f, k).op.Load?
    && SpanOf(f, k) <= SpanOf(f, w)
    && TypedState(f)
  }

  lemma ActData(s: State, a: Act, f: State, w: Event, k: Event)
    requires StateOk(s) && LogExact(s) && ActOk(s, a) && StateOk(f) && Extends(ActNext(s, a), f)
    requires LoadsFrom(f, w, k) && LastWriter(f, w, k) && HoldsData(s, f, w, k) && SawData(s, f, w, k)
    requires a.Settle? && a.e == k ==> w in s.log
    ensures HoldsData(ActNext(s, a), f, w, k) && SawData(ActNext(s, a), f, w, k)
  {
    if a.Settle? { SettleData(s, a.e, f, w, k); }
  }

  lemma SettleData(s: State, e: Event, f: State, w: Event, k: Event)
    requires StateOk(s) && LogExact(s) && MayFire(s, e) && StateOk(f) && Extends(Fire(s, e), f)
    requires LoadsFrom(f, w, k) && LastWriter(f, w, k) && HoldsData(s, f, w, k) && SawData(s, f, w, k)
    requires e == k ==> w in s.log
    ensures HoldsData(Fire(s, e), f, w, k) && SawData(Fire(s, e), f, w, k)
  {
    if e == w { StoreWrites(s, f, w, k); } else { DataStays(s, e, f, w, k); }
    if e == k {
      assert !Valued(s, k);
      LoadReads(s, f, w, k);
    }
  }

  /* What is resolved between w and k comes neither before w nor after k. */
  lemma Meanwhile(s: State, f: State, e: Event, w: Event, k: Event)
    requires LogExact(s) && MayFire(s, e) && Extends(Fire(s, e), f) && w in s.log && k !in s.log && e != k
    ensures !Precedes(f.log, e, w) && !Precedes(f.log, k, e)
  {
    var x, n := |s.log|, |Fire(s, e).log|;
    assert f.log[x] == f.log[..n][x] == e && f.log[..x] == f.log[..n][..x] == s.log;
    assert !Valued(s, e);
    var y :| 0 <= y < x && s.log[y] == w;
    assert f.log[y] == w && f.log[..y] == s.log[..y];
  }

  lemma DataStays(s: State, e: Event, f: State, w: Event, k: Event)
    requires StateOk(s) && LogExact(s) && MayFire(s, e) && StateOk(f) && Extends(Fire(s, e), f) && e != w
    requires IsStore(f, w) && LastWriter(f, w, k) && TypedState(f) && HoldsData(s, f, w, k)
    ensures HoldsData(Fire(s, e), f, w, k)
  {
    var s1 := Fire(s, e);
    if w in s1.log && k !in s1.log {
      assert s1.log == s.log + [e] && w in s.log && k !in s.log && k != e;
      FiredValued(s, f, e);
      Meanwhile(s, f, e, w, k);
      assert Spares(f, e, SpanOf(f, w));
      forall c | c in SpanOf(f, w) ensures Same(s1.mem, s.mem, c) {
        OthersKeep(s, f, e, c, SpanOf(f, w));
      }
    }
  }

  lemma StoreWrites(s: State, f: State, w: Event, k: Event)
    requires StateOk(s) && StateOk(f) && MayFire(s, w) && Extends(Fire(s, w), f) && IsStore(f, w)
    ensures HoldsData(Fire(s, w), f, w, k)
  {
    FiredAs(s, f, w);
    StoredBytes(s.mem, f, w);
  }

  lemma StoredBytes(mem: Flat, f: State, w: Event)
    requires IsStore(f, w) && DepsReady(Deps(Code(f, w)), f.threads[w.tid].vals)
    ensures var mem' := Perform(Code(f, w), ArgsIn(f, w), mem).1;
            var base := Base(f.threads[w.tid], w.pos);
            forall c | c in SpanOf(f, w) && c - base < |Data(f, w)| :: c in mem' && mem'[c] == Data(f, w)[c - base]
  {
    var args := ArgsIn(f, w);
    assert Deps(Code(f, w))[0] == Code(f, w).address && Deps(Code(f, w))[1] == Code(f, w).operands[0];
    assert args[1].imp == Data(f, w) && AsU64(args[0]) == Base(f.threads[w.tid], w.pos);
    forall c | c in SpanOf(f, w) && c - Base(f.threads[w.tid], w.pos) < |Data(f, w)| {
      WriteHolds(mem, Base(f.threads[w.tid], w.pos), Data(f, w), c);
    }
  }

  lemma WriteHolds(mem: Flat, a: nat, bs: seq<byte>, c: nat)
    requires a <= c < a + |bs|
    ensures c in Write(mem, a, bs) && Write(mem, a, bs)[c] == bs[c - a]
  {
  }

  lemma LoadReads(s: State, f: State, w: Event, k: Event)
    requires StateOk(s) && MayFire(s, k) && Extends(Fire(s, k), f) && StateOk(f)
    requires LoadsFrom(f, w, k) && HoldsData(s, f, w, k) && w in s.log && k !in s.log
    ensures SawData(Fire(s, k), f, w, k)
  {
    FiredAs(s, f, k);
    BytesSeen(s.mem, f, w, k);
  }

  lemma BytesSeen(mem: Flat, f: State, w: Event, k: Event)
    requires LoadsFrom(f, w, k)
    requires forall c | c in SpanOf(f, w) && c - Base(f.threads[w.tid], w.pos) < |Data(f, w)| ::
               c in mem && mem[c] == Data(f, w)[c - Base(f.threads[w.tid], w.pos)]
    ensures var base, from := Base(f.threads[w.tid], w.pos), Base(f.threads[k.tid], k.pos);
            var v := LoadValue(mem, from, Code(f, k).bits);
            forall x | 0 <= x < |v.imp| && 0 <= from + x - base < |Data(f, w)| ::
              v.imp[x] == Data(f, w)[from + x - base]
  {
    var base, from := Base(f.threads[w.tid], w.pos), Base(f.threads[k.tid], k.pos);
    var v := LoadValue(mem, from, Code(f, k).bits);
    forall x | 0 <= x < |v.imp| && 0 <= from + x - base < |Data(f, w)|
      ensures v.imp[x] == Data(f, w)[from + x - base]
    {
      assert from + x in SpanOf(f, k);
    }
  }

  /* What precedes b at the end of the list is there when b is resolved. */
  lemma FirstPrecedes(s: State, acts: seq<Act>, a: Event, b: Event)
    requires Legal(s, acts) && acts != []
    requires Extends(ActNext(s, acts[0]), Played(s, acts))
    requires Precedes(Played(s, acts).log, a, b)
    ensures acts[0].Settle? && acts[0].e == b ==> a in s.log
  {
    if acts[0].Settle? && acts[0].e == b {
      var log1, log := ActNext(s, acts[0]).log, Played(s, acts).log;
      assert log[|s.log|] == log[..|log1|][|s.log|] == b;
      assert log[..|s.log|] == log[..|log1|][..|s.log|] == s.log;
    }
  }

  lemma {:induction false} ActsData(s: State, acts: seq<Act>, w: Event, k: Event)
    requires StateOk(s) && LogExact(s) && Legal(s, acts) && StateOk(Played(s, acts))
    requires LoadsFrom(Played(s, acts), w, k) && LastWriter(Played(s, acts), w, k)
    requires Precedes(Played(s, acts).log, w, k)
    requires HoldsData(s, Played(s, acts), w, k) && SawData(s, Played(s, acts), w, k)
    ensures SawData(Played(s, acts), Played(s, acts), w, k)
    decreases |acts|
  {
    if acts != [] {
      FirstAct(s, acts);
      FirstPrecedes(s, acts, w, k);
      ActData(s, acts[0], Played(s, acts), w, k);
      ActsData(ActNext(s, acts[0]), acts[1..], w, k);
    }
  }

  /* The load returned the part of the stored bytes that it covers. */
  ghost predicate ReadsBack(s: State, w: Event, k: Event)
    requires LoadsFrom(s, w, k) && Valued(s, k)
  {
    var v := s.threads[k.tid].vals[k.pos].value.imp;
    var offset := Base(s.threads[k.tid], k.pos) - Base(s.threads[w.tid], w.pos);
    && |v| == ByteLen(Code(s, k).bits)
    && (v != [] ==> 0 <= offset && offset + |v| <= |Data(s, w)| && v == Data(s, w)[offset..offset + |v|])
  }

  lemma SameAt(v: seq<byte>, data: seq<byte>, offset: int)
    requires 0 <= offset && offset + |v| <= |data|
    requires forall x | 0 <= x < |v| && 0 <= offset + x < |data| :: v[x] == data[offset + x]
    ensures v == data[offset..offset + |v|]
  {
  }

  lemma SawAll(s: State, w: Event, k: Event)
    requires LoadsFrom(s, w, k) && Valued(s, k) && SawData(s, s, w, k)
    ensures ReadsBack(s, w, k)
  {
    var from := Base(s.threads[k.tid], k.pos);
    var v := s.threads[k.tid].vals[k.pos].value.imp;
    if v != [] {
      var base, last := Base(s.threads[w.tid], w.pos), from + |v| - 1;
      assert from in SpanOf(s, k) && last in SpanOf(s, k);
      assert from in SpanOf(s, w) && last in SpanOf(s, w);
      SameAt(v, Data(s, w), from - base);
    }
  }

  /* A load resolved after a store to its bytes returns what the store wrote, when nobody else
     writes there in between. */
  lemma LoadSeesStore(mem: Flat, run: seq<Step>, s: State, w: Event, k: Event)
    requires Reached(mem, run, s) && LoadsFrom(s, w, k) && LastWriter(s, w, k) && Valued(s, k)
    requires Precedes(s.log, w, k)
    ensures ReadsBack(s, w, k)
  {
    var acts := RunLegal(Start(mem), run);
    PlayedExtends(Start(mem), acts);
    ActsData(Start(mem), acts, w, k);
    SawAll(s, w, k);
  }

  // ---------------------------------------------------------------- a flag that one Release sets

  /* The operation a reads a flag that nobody but r and a itself writes. It may be a load, a
     compare-exchange or a read-modify-write. */
  ghost predicate ReadsFlag(f: State, r: Event, a: Event) {
    && At(f, a) && Known(f.threads[a.tid], a.pos) && Arity(Code(f, a))
    && DepsReady(Deps(Code(f, a)), f.threads[a.tid].vals)
    && (forall e | Valued(f, e) && At(f, e) && e != r && e != a :: Spares(f, e, SpanOf(f, a)))
    && TypedState(f)
  }

  /* What a computes from the initial memory. */
  ghost function Unflagged(f: State, mem: Flat, r: Event, a: Event): Value
    requires ReadsFlag(f, r, a)
  {
    Perform(Code(f, a), ArgsIn(f, a), mem).0
  }

  ghost predicate Untouched(s: State, mem: Flat, r: Event, a: Event, bytes: set<nat>) {
    r !in s.log && a !in s.log ==> forall c | c in bytes :: Same(s.mem, mem, c)
  }

  /* Either the Release came first or a computed what it does from the initial memory. */
  ghost predicate Initial(s: State, f: State, mem: Flat, r: Event, a: Event)
    requires ReadsFlag(f, r, a)
  {
    Valued(s, a) ==>
      Precedes(s.log, r, a) || s.threads[a.tid].vals[a.pos] == Some(Unflagged(f, mem, r, a))
  }

  lemma ActUntouched(s: State, act: Act, f: State, mem: Flat, r: Event, a: Event)
    requires StateOk(s) && ActOk(s, act) && StateOk(f) && Extends(ActNext(s, act), f)
    requires ReadsFlag(f, r, a) && Untouched(s, mem, r, a, SpanOf(f, a))
    ensures Untouched(ActNext(s, act), mem, r, a, SpanOf(f, a))
  {
    var s1 := ActNext(s, act);
    if act.Settle? && act.e != r && act.e != a {
      FiredValued(s, f, act.e);
      forall c | c in SpanOf(f, a) ensures Same(s1.mem, s.mem, c) {
        OthersKeep(s, f, act.e, c, SpanOf(f, a));
      }
    }
  }

  lemma ActFlag(s: State, act: Act, f: State, mem: Flat, r: Event, a: Event)
    requires StateOk(s) && LogExact(s) && ActOk(s, act) && StateOk(f) && Extends(ActNext(s, act), f)
    requires ReadsFlag(f, r, a) && r != a
    requires Untouched(s, mem, r, a, SpanOf(f, a)) && Initial(s, f, mem, r, a)
    ensures Initial(ActNext(s, act), f, mem, r, a)
  {
    if act.Settle? && act.e == a {
      FlagReads(s, f, mem, r, a);
    } else if Precedes(s.log, r, a) {
      ActPrecedes(s, act, r, a);
    }
  }

  lemma FlagReads(s: State, f: State, mem: Flat, r: Event, a: Event)
    requires StateOk(s) && LogExact(s) && MayFire(s, a) && Extends(Fire(s, a), f) && StateOk(f)
    requires ReadsFlag(f, r, a) && Untouched(s, mem, r, a, SpanOf(f, a))
    ensures Initial(Fire(s, a), f, mem, r, a)
  {
    FiredAs(s, f, a);
    assert !Valued(s, a);
    if r in s.log {
      PrecedesNow(s.log, r, a);
    } else {
      assert Typed(Code(f, a), ArgsIn(f, a));
      PerformLocal(Code(f, a), ArgsIn(f, a), s.mem, mem, 0);
    }
  }

  lemma PrecedesNow(log: seq<Event>, r: Event, a: Event)
    requires r in log && a !in log
    ensures Precedes(log + [a], r, a)
  {
    forall y | 0 <= y < |log + [a]| && (log + [a])[y] == a ensures r in (log + [a])[..y] {
      assert y == |log| && (log + [a])[..y] == log;
    }
  }

  lemma {:induction false} ActsFlag(s: State, acts: seq<Act>, mem: Flat, r: Event, a: Event)
    requires StateOk(s) && LogExact(s) && Legal(s, acts) && StateOk(Played(s, acts))
    requires ReadsFlag(Played(s, acts), r, a) && r != a
    requires Untouched(s, mem, r, a, SpanOf(Played(s, acts), a)) && Initial(s, Played(s, acts), mem, r, a)
    ensures Initial(Played(s, acts), Played(s, acts), mem, r, a)
    decreases |acts|
  {
    if acts != [] {
      FirstAct(s, acts);
      ActUntouched(s, acts[0], Played(s, acts), mem, r, a);
      ActFlag(s, acts[0], Played(s, acts), mem, r, a);
      ActsFlag(ActNext(s, acts[0]), acts[1..], mem, r, a);
    }
  }

  /* An operation whose value is not the one it computes from the initial memory was resolved after
     the only other operation that writes what it reads. */
  lemma SeesFlag(mem: Flat, run: seq<Step>, s: State, r: Event, a: Event)
    requires Reached(mem, run, s) && ReadsFlag(s, r, a) && r != a && Valued(s, a)
    requires s.threads[a.tid].vals[a.pos].value != Unflagged(s, mem, r, a)
    ensures Precedes(s.log, r, a)
  {
    var acts := RunLegal(Start(mem), run);
    PlayedExtends(Start(mem), acts);
    ActsFlag(Start(mem), acts, mem, r, a);
  }

  /* Message passing. Thread t1 stores data and then a Release to a flag; thread t2 reads the flag
     with an acquire, by a load, a compare-exchange or a read-modify-write, and then loads the data.
     If the acquire does not compute what it does from the flag's initial bytes, the later load
     returns the stored data, in every run, whatever the scheduler chooses. */
  lemma MessagePassing(mem: Flat, run: seq<Step>, s: State, t1: nat, w: nat, r: nat, t2: nat, a: nat, k: nat)
    requires Reached(mem, run, s) && t1 != t2
    requires t1 < |s.threads| && w < r < |s.threads[t1].code| && ReleaseWaits(s.threads[t1], r)
    requires t2 < |s.threads| && a < k < |s.threads[t2].code| && AcquireHolds(s.threads[t2], a)
    requires ReadsFlag(s, Event(t1, r), Event(t2, a)) && LoadsFrom(s, Event(t1, w), Event(t2, k))
    requires SoleWriter(s, Event(t1, w), SpanOf(s, Event(t1, w)))
    requires Valued(s, Event(t2, a)) && Valued(s, Event(t2, k))
    requires s.threads[t2].vals[a].value != Unflagged(s, mem, Event(t1, r), Event(t2, a))
    ensures ReadsBack(s, Event(t1, w), Event(t2, k))
  {
    SeesFlag(mem, run, s, Event(t1, r), Event(t2, a));
    Synchronises(mem, run, s, t1, w, r, t2, a, k);
    LoadSeesStore(mem, run, s, Event(t1, w), Event(t2, k));
  }
}
