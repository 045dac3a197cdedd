/**
 Data that a lock word protects. The word is taken by an Acquire compare-exchange and given back by
 a Release one, as src/native/pthread.rs:17-33 does. When the mutex is handed on from section to
 section, as Sections.dfy shows that the wrapper does, all of them succeed; when all of them succeed,
 critical sections do not interleave, and what the next holder loads is what the last holder stored.
 */
module EngineMutex {
  import opened Wrappers
  import opened Values
  import opened FlatMemory
  import opened Engine
  import opened EngineRuns
  import opened EngineOrder
  import opened EngineRefine
  import opened EngineMessage
  import opened EngineSerial

  // ---------------------------------------------------------------- operations whose result is awaited

  /* Once d is decoded, e is Ready. */
  ghost predicate ReadyFirst(s: State, e: Event, d: Event) {
    d.tid < |s.threads| && d.pos < |s.threads[d.tid].code| ==> Valued(s, e)
  }

  /* The result of e is awaited before d is decoded. */
  ghost predicate Awaits(s: State, run: seq<Step>, e: Event, d: Event)
    requires Run(s, run)
    decreases |run|
  {
    ReadyFirst(s, e, d) && (run == [] || Awaits(Next(s, run[0]), run[1..], e, d))
  }

  /* Access j stops i, and the result of whatever could let i pass is awaited before j. */
  ghost predicate BlocksAwaited(f: Thread, s: State, run: seq<Step>, t: nat, j: nat, i: nat)
    requires Run(s, run)
  {
    && j < i < |f.code| && f.code[j].Access? && Stops(f, j, i)
    && forall k | Bridges(f, k, j, i) :: Awaits(s, run, Event(t, k), Event(t, j))
  }

  /* What lets i pass in an early state does so in a later one. */
  lemma BridgeStays(th: Thread, f: Thread, open: set<nat>, j: nat, i: nat) returns (k: nat)
    requires ThreadOk(th) && ThreadExtends(th, f) && j < i < |th.code| && th.code[j].Access? && Stops(f, j, i)
    requires MayOvertake(th, i, j) && Lets(th, open, i, j) && (th.code[i].Access? ==> Known(th, i))
    ensures k in open && Bridges(f, k, j, i)
  {
    SpanStable(th, f, j);
    if th.code[i].Access? { SpanStable(th, f, i); }
    k :| k in open && Bridges(th, k, j, i);
    SpanStable(th, f, k);
  }

  /* A resolution of i in a step from `base` finds j resolved. */
  lemma AwaitedNow(base: State, s: State, f: State, t: nat, j: nat, i: nat, open: set<nat>)
    requires StateOk(base) && StateOk(s) && LogExact(s) && Extends(s, f)
    requires t < |base.threads| && t < |s.threads| <= |f.threads|
    requires MayFire(s, Event(t, i)) && PassesOpen(s.threads[t], open, i) && open == OpenIn(base.threads[t])
    requires j < i < |f.threads[t].code| && f.threads[t].code[j].Access? && Stops(f.threads[t], j, i)
    requires j < |base.threads[t].code|
    requires forall k | Bridges(f.threads[t], k, j, i) :: ReadyFirst(base, Event(t, k), Event(t, j))
    ensures Event(t, j) in s.log
  {
    var th, thf := s.threads[t], f.threads[t];
    assert ThreadOk(th) && ThreadExtends(th, thf);
    if Unresolved(th, j) {
      assert MayOvertake(th, i, j) && Lets(th, open, i, j);
      if th.code[i].Access? { assert Deps(th.code[i])[0] == th.code[i].address; }
      var k := BridgeStays(th, thf, open, j, i);
      assert ReadyFirst(base, Event(t, k), Event(t, j));
      NotOpen(base, t, k);
      assert false;
    }
    assert Valued(s, Event(t, j));
  }

  lemma NotOpen(s: State, t: nat, k: nat)
    requires t < |s.threads| && k in OpenIn(s.threads[t])
    ensures !Valued(s, Event(t, k))
  {
  }

  lemma {:induction false} AwaitedActs(base: State, s: State, acts: seq<Act>, f: State, t: nat, j: nat, i: nat)
    requires StateOk(base) && StateOk(s) && LogExact(s)
    requires Legal(s, acts) && AllFrom(base, acts) && Extends(Played(s, acts), f)
    requires t < |base.threads| && t < |s.threads| && s.threads[t].code == base.threads[t].code && t < |f.threads|
    requires j < i < |f.threads[t].code| && f.threads[t].code[j].Access? && Stops(f.threads[t], j, i)
    requires forall k | Bridges(f.threads[t], k, j, i) :: ReadyFirst(base, Event(t, k), Event(t, j))
    requires Precedes(s.log, Event(t, j), Event(t, i))
    ensures Precedes(Played(s, acts).log, Event(t, j), Event(t, i))
    decreases |acts|
  {
    if acts != [] {
      var a, s1 := acts[0], ActNext(s, acts[0]);
      FirstAct(s, acts);
      assert OpenFrom(base, a);
      if a.e == Event(t, i) {
        ExtendsTransitive(s, Played(s, acts), f);
        AwaitedNow(base, s, f, t, j, i, a.open);
      }
      ActPrecedes(s, a, Event(t, j), Event(t, i));
      LaterFrom(base, acts);
      AwaitedActs(base, s1, acts[1..], f, t, j, i);
    }
  }

  lemma LaterFrom(base: State, acts: seq<Act>)
    requires AllFrom(base, acts) && acts != []
    ensures AllFrom(base, acts[1..])
  {
    forall k | 0 <= k < |acts[1..]| ensures OpenFrom(base, acts[1..][k]) { assert OpenFrom(base, acts[k + 1]); }
  }

  /* A thread that does not exist yet has resolved nothing. */
  lemma NoneYet(s: State, t: nat, j: nat, i: nat)
    requires LogExact(s) && t >= |s.threads|
    ensures Precedes(s.log, Event(t, j), Event(t, i))
  {
    assert !Valued(s, Event(t, i));
  }

  lemma AwaitedStep(s: State, a: Step, f: State, t: nat, j: nat, i: nat)
    requires StateOk(s) && LogExact(s) && Enabled(s, a) && Extends(Next(s, a), f) && LogExact(Next(s, a))
    requires t < |f.threads| && j < i < |f.threads[t].code| && f.threads[t].code[j].Access? && Stops(f.threads[t], j, i)
    requires forall k | Bridges(f.threads[t], k, j, i) :: ReadyFirst(s, Event(t, k), Event(t, j))
    requires Precedes(s.log, Event(t, j), Event(t, i))
    ensures Precedes(Next(s, a).log, Event(t, j), Event(t, i))
  {
    var acts := StepLegal(s, a);
    if t >= |Next(s, a).threads| {
      NoneYet(Next(s, a), t, j, i);
    } else if a.Sweep? || a.Resolve? {
      if a.Sweep? { AllShape(Pass(s, {}, [], false), 0); }
      AwaitedActs(s, s, acts, f, t, j, i);
    }
  }

  lemma {:induction false} AwaitedRun(s: State, run: seq<Step>, t: nat, j: nat, i: nat)
    requires StateOk(s) && LogExact(s) && Run(s, run) && t < |After(s, run).threads|
    requires BlocksAwaited(After(s, run).threads[t], s, run, t, j, i)
    requires Precedes(s.log, Event(t, j), Event(t, i))
    ensures Precedes(After(s, run).log, Event(t, j), Event(t, i))
    decreases |run|
  {
    if run != [] {
      var f := After(s, run);
      RunTail(s, run);
      forall k | Bridges(f.threads[t], k, j, i) ensures ReadyFirst(s, Event(t, k), Event(t, j)) {
        assert Awaits(s, run, Event(t, k), Event(t, j));
      }
      AwaitedStep(s, run[0], f, t, j, i);
      AwaitedTail(s, run, t, j, i);
      AwaitedRun(Next(s, run[0]), run[1..], t, j, i);
    }
  }

  lemma AwaitedTail(s: State, run: seq<Step>, t: nat, j: nat, i: nat)
    requires Run(s, run) && run != [] && t < |After(s, run).threads|
    requires BlocksAwaited(After(s, run).threads[t], s, run, t, j, i)
    ensures BlocksAwaited(After(s, run).threads[t], Next(s, run[0]), run[1..], t, j, i)
  {
    forall k | Bridges(After(s, run).threads[t], k, j, i)
      ensures Awaits(Next(s, run[0]), run[1..], Event(t, k), Event(t, j))
    {
      assert Awaits(s, run, Event(t, k), Event(t, j));
    }
  }

  /* An access that stops i is resolved before it also when something could let i pass, provided
     that the thread awaits the result of that before it decodes the access. */
  lemma WaitsAwaited(mem: Flat, run: seq<Step>, s: State, t: nat, j: nat, i: nat)
    requires Reached(mem, run, s) && t < |s.threads| && BlocksAwaited(s.threads[t], Start(mem), run, t, j, i)
    ensures Precedes(s.log, Event(t, j), Event(t, i))
  {
    AwaitedRun(Start(mem), run, t, j, i);
  }

  lemma LongerPrecedes(log: seq<Event>, log1: seq<Event>, e: Event, d: Event)
    requires |log| <= |log1| && log1[..|log|] == log && Precedes(log, e, d) && (d in log1 ==> e in log)
    ensures Precedes(log1, e, d)
  {
    forall y | 0 <= y < |log1| && log1[y] == d ensures e in log1[..y] {
      if y < |log| {
        assert log[y] == d && log[..y] == log1[..y];
      } else {
        assert log1[..y] == log + log1[|log|..y];
      }
    }
  }

  /* What is awaited comes first. */
  lemma AwaitedFirst(s: State, a: Step, e: Event, d: Event)
    requires StateOk(s) && LogExact(s) && Enabled(s, a)
    requires StateOk(Next(s, a)) && LogExact(Next(s, a)) && Extends(s, Next(s, a))
    requires ReadyFirst(s, e, d) && Precedes(s.log, e, d)
    ensures Precedes(Next(s, a).log, e, d)
  {
    if a.Sweep? || a.Resolve? {
      if d in Next(s, a).log {
        assert Valued(Next(s, a), d);
        DecodedReady(s, a, e, d);
      }
      LongerPrecedes(s.log, Next(s, a).log, e, d);
    }
  }

  /* A thunk that becomes Ready in a pass was decoded before. */
  lemma DecodedReady(s: State, a: Step, e: Event, d: Event)
    requires StateOk(s) && LogExact(s) && Enabled(s, a) && (a.Sweep? || a.Resolve?) && StateOk(Next(s, a))
    requires ReadyFirst(s, e, d) && Valued(Next(s, a), d)
    ensures e in s.log
  {
    if a.Sweep? { AllShape(Pass(s, {}, [], false), 0); }
    assert ThreadOk(Next(s, a).threads[d.tid]);
    assert Valued(s, e);
  }

  lemma {:induction false} AwaitsPrecedes(s: State, run: seq<Step>, e: Event, d: Event)
    requires StateOk(s) && LogExact(s) && Run(s, run) && Awaits(s, run, e, d) && Precedes(s.log, e, d)
    ensures Precedes(After(s, run).log, e, d)
    decreases |run|
  {
    if run != [] {
      RunTail(s, run);
      AwaitedFirst(s, run[0], e, d);
      AwaitsPrecedes(Next(s, run[0]), run[1..], e, d);
    }
  }

  // ---------------------------------------------------------------- critical sections

  /* From an acquire to the next Release of one thread; the Release may not be decoded yet. */
  datatype Section = Section(tid: nat, acq: nat, rel: nat)

  function Acq(c: Section): Event { Event(c.tid, c.acq) }

  function Rel(c: Section): Event { Event(c.tid, c.rel) }

  predicate Inside(e: Event, c: Section) { e.tid == c.tid && c.acq < e.pos < c.rel }

  /* The section begins with an acquire and ends with a Release, and the thread awaits what overlaps
     the acquire before it decodes it. */
  ghost predicate SectionOk(mem: Flat, run: seq<Step>, s: State, c: Section)
    requires Run(Start(mem), run)
  {
    && c.tid < |s.threads| && c.acq < c.rel
    && c.acq < |s.threads[c.tid].code| && Acquiring(s.threads[c.tid].code[c.acq])
    && (c.rel < |s.threads[c.tid].code| ==> ReleaseWaits(s.threads[c.tid], c.rel))
    && forall k | Aliases(s.threads[c.tid], k, c.acq) :: Awaits(Start(mem), run, Event(c.tid, k), Acq(c))
  }

  /* Nothing after the acquire of a section is resolved before it. */
  lemma SectionBarrier(mem: Flat, run: seq<Step>, s: State, c: Section, i: nat)
    requires Reached(mem, run, s) && SectionOk(mem, run, s, c) && c.acq < i
    ensures Precedes(s.log, Acq(c), Event(c.tid, i))
  {
    if i < |s.threads[c.tid].code| {
      WaitsAwaited(mem, run, s, c.tid, c.acq, i);
    } else {
      RunLogExact(mem, run, s);
      assert !Valued(s, Event(c.tid, i));
    }
  }

  lemma RunLogExact(mem: Flat, run: seq<Step>, s: State)
    requires Reached(mem, run, s)
    ensures StateOk(s) && LogExact(s)
  {
    var acts := RunLegal(Start(mem), run);
    PlayedExtends(Start(mem), acts);
    ActsLogExact(Start(mem), acts);
  }

  /* What is resolved was preceded by whatever must come first. */
  lemma PrecededIn(log: seq<Event>, a: Event, b: Event)
    requires Precedes(log, a, b) && b in log
    ensures a in log
  {
    var y :| 0 <= y < |log| && log[y] == b;
    assert a in log[..y];
  }

  /* A section that ends before another begins is resolved before it. */
  lemma SectionsOrdered(mem: Flat, run: seq<Step>, s: State, c: Section, p: nat, d: Section, q: nat)
    requires Reached(mem, run, s) && SectionOk(mem, run, s, c) && SectionOk(mem, run, s, d)
    requires Precedes(s.log, Rel(c), Acq(d)) && p < c.rel && d.acq < q
    ensures Precedes(s.log, Event(c.tid, p), Event(d.tid, q))
  {
    var x, y := Event(c.tid, p), Event(d.tid, q);
    SectionBarrier(mem, run, s, d, q);
    if y in s.log {
      PrecededIn(s.log, Acq(d), y);
      PrecededIn(s.log, Rel(c), Acq(d));
      RunLogExact(mem, run, s);
      assert Valued(s, Rel(c)) && ThreadOk(s.threads[c.tid]);
      ReleaseSafety(mem, run, s, c.tid, p, c.rel);
      PrecedesTransitive(s.log, x, Rel(c), Acq(d));
      PrecedesTransitive(s.log, x, Acq(d), y);
    }
  }

  // ---------------------------------------------------------------- the lock word

  /* n bytes at address a that hold one of two values. */
  datatype Word = Word(a: nat, n: nat, free: Value, taken: Value)

  predicate WordOk(w: Word) { w.n > 0 && w.free.imp != w.taken.imp }

  /* A compare-exchange of the lock word. */
  ghost predicate Tries(f: State, e: Event, w: Word, from: Value, to: Value) {
    Resolved(f, e) && IsCas(f, e, w.a, w.n, from, to.imp)
  }

  /* Its result is that of success. */
  ghost predicate Won(f: State, e: Event, from: Value)
    requires Resolved(f, e)
  {
    var t := Code(f, e);
    t.Access? && t.op.CmpXchg? && f.threads[e.tid].vals[e.pos] == Some(t.op.pack(from, true))
  }

  /* Its result tells success from failure. */
  ghost predicate Tells(f: State, e: Event, from: Value)
    requires Resolved(f, e)
  {
    var t := Code(f, e);
    t.Access? && t.op.CmpXchg? && forall current: Value :: t.op.pack(current, false) != t.op.pack(from, true)
  }

  ghost predicate Bounds(e: Event, cs: seq<Section>) {
    exists i :: 0 <= i < |cs| && (e == Acq(cs[i]) || e == Rel(cs[i]))
  }

  /* The sections take and free the word, and nobody else writes to it from place z of the history
     on. */
  ghost predicate OnlySections(f: State, log: seq<Event>, w: Word, cs: seq<Section>, z: nat)
    requires AllResolved(f, log)
  {
    && (forall i | 0 <= i < |cs| && Acq(cs[i]) in log :: Tries(f, Acq(cs[i]), w, w.free, w.taken))
    && (forall i | 0 <= i < |cs| && Rel(cs[i]) in log :: Tries(f, Rel(cs[i]), w, w.taken, w.free))
    && (forall x | z <= x < |log| :: Bounds(log[x], cs) || Leaves(f, log[x], w.a, w.n))
  }

  /* Each compare-exchange that has been resolved succeeded. */
  ghost predicate AllWon(f: State, log: seq<Event>, w: Word, cs: seq<Section>)
    requires AllResolved(f, log)
  {
    && (forall i | 0 <= i < |cs| && Acq(cs[i]) in log :: Won(f, Acq(cs[i]), w.free))
    && (forall i | 0 <= i < |cs| && Rel(cs[i]) in log :: Won(f, Rel(cs[i]), w.taken))
  }

  ghost predicate AllTell(f: State, log: seq<Event>, w: Word, cs: seq<Section>)
    requires AllResolved(f, log)
  {
    && (forall i | 0 <= i < |cs| && Acq(cs[i]) in log :: Tells(f, Acq(cs[i]), w.free))
    && (forall i | 0 <= i < |cs| && Rel(cs[i]) in log :: Tells(f, Rel(cs[i]), w.taken))
  }

  /* Each section has ended before a later one begins. */
  ghost predicate InTurn(log: seq<Event>, cs: seq<Section>) {
    forall i, j | 0 <= i < j < |cs| :: Precedes(log, Rel(cs[i]), Acq(cs[j]))
  }

  ghost predicate DistinctSections(cs: seq<Section>) {
    forall i, j | 0 <= i < j < |cs| :: Acq(cs[i]) != Acq(cs[j]) && Rel(cs[i]) != Rel(cs[j])
  }

  /* After the first m thunks of the history the section has begun and not ended. */
  ghost predicate Underway(log: seq<Event>, c: Section, m: nat)
    requires m <= |log|
  {
    Acq(c) in log[..m] && Rel(c) !in log[..m]
  }

  /* The section that is under way is the one that has the word. */
  ghost predicate HolderIs(f: State, log: seq<Event>, mem: Flat, w: Word, cs: seq<Section>, m: nat, who: Option<nat>)
    requires m <= |log| && AllResolved(f, log)
  {
    && Read(Serial(f, log, mem, m), w.a, w.n) == (if who.Some? then w.taken.imp else w.free.imp)
    && (who.Some? ==> who.value < |cs|)
    && forall i | 0 <= i < |cs| :: Underway(log, cs[i], m) <==> who == Some(i)
  }

  /* A compare-exchange succeeded only if it found what it expected... */
  lemma WonFrom(f: State, log: seq<Event>, mem: Flat, w: Word, k: nat, from: Value, to: Value)
    requires k < |log| && AllResolved(f, log) && SerialValue(f, log, mem, k)
    requires Tries(f, log[k], w, from, to) && Won(f, log[k], from) && Tells(f, log[k], from)
    ensures Read(Serial(f, log, mem, k), w.a, w.n) == from.imp
  {
    assert LoadValue(Serial(f, log, mem, k), w.a, from.bits) == from;
  }

  /* ...and if it does, it succeeds. */
  lemma FoundWins(f: State, log: seq<Event>, mem: Flat, w: Word, k: nat, m: nat, from: Value, to: Value)
    requires m == k + 1 <= |log| && AllResolved(f, log) && SerialValue(f, log, mem, k)
    requires Tries(f, log[k], w, from, to) && Read(Serial(f, log, mem, k), w.a, w.n) == from.imp
    ensures Won(f, log[k], from) && Read(Serial(f, log, mem, m), w.a, w.n) == to.imp
  {
    StepSerial(f, log, mem, k, m);
    CasWins(f, log[k], w.a, w.n, from, to.imp, Serial(f, log, mem, k));
  }

  ghost predicate NoRepeats(log: seq<Event>) { forall x, y | 0 <= x < y < |log| :: log[x] != log[y] }

  lemma NotBefore(log: seq<Event>, k: nat)
    requires k < |log| && NoRepeats(log)
    ensures log[k] !in log[..k]
  {
  }

  /* The prefix that ends with thunk k. */
  lemma OneMore(log: seq<Event>, k: nat, m: nat, e: Event)
    requires m == k + 1 <= |log|
    ensures e in log[..m] <==> e in log[..k] || e == log[k]
  {
    assert log[..m] == log[..k] + [log[k]];
  }

  lemma BegunFirst(log: seq<Event>, c: Section, k: nat)
    requires k < |log| && Precedes(log, Acq(c), Rel(c))
    ensures Rel(c) in log[..k] || log[k] == Rel(c) ==> Acq(c) in log[..k]
  {
    if Rel(c) in log[..k] {
      var y :| 0 <= y < k && log[..k][y] == Rel(c);
      assert log[y] == Rel(c);
      assert Acq(c) in log[..y] && log[..k][..y] == log[..y];
    }
  }

  lemma UnderwayNext(log: seq<Event>, c: Section, k: nat, m: nat)
    requires m == k + 1 <= |log| && NoRepeats(log) && Precedes(log, Acq(c), Rel(c)) && Acq(c) != Rel(c)
    ensures log[k] == Acq(c) ==> Underway(log, c, m) && !Underway(log, c, k)
    ensures log[k] == Rel(c) ==> !Underway(log, c, m) && Underway(log, c, k)
    ensures log[k] != Acq(c) && log[k] != Rel(c) ==> (Underway(log, c, m) <==> Underway(log, c, k))
  {
    OneMore(log, k, m, Acq(c));
    OneMore(log, k, m, Rel(c));
    NotBefore(log, k);
    BegunFirst(log, c, k);
  }

  ghost predicate Ends(log: seq<Event>, cs: seq<Section>) {
    forall i | 0 <= i < |cs| :: cs[i].acq < cs[i].rel && Precedes(log, Acq(cs[i]), Rel(cs[i]))
  }

  lemma OneWay(f: State, e: Event, w: Word)
    requires WordOk(w) && Tries(f, e, w, w.free, w.taken)
    ensures !Tries(f, e, w, w.taken, w.free)
  {
  }

  /* A thunk does not both take and free the word. */
  lemma OneKind(f: State, log: seq<Event>, w: Word, cs: seq<Section>, z: nat, e: Event, i: nat, x: nat)
    requires AllResolved(f, log) && OnlySections(f, log, w, cs, z) && WordOk(w) && e in log
    requires i < |cs| && x < |cs| && e == Acq(cs[i])
    ensures Rel(cs[x]) != e
  {
    OneWay(f, e, w);
  }

  lemma SectionsDiffer(cs: seq<Section>, i: nat, j: nat)
    requires DistinctSections(cs) && i < |cs| && j < |cs| && i != j
    ensures Acq(cs[i]) != Acq(cs[j])
  {
  }

  /* What a thunk of the history does to every section. */
  ghost predicate Advanced(log: seq<Event>, cs: seq<Section>, k: nat, m: nat)
    requires m == k + 1 <= |log|
  {
    forall i | 0 <= i < |cs| ::
      && (log[k] == Acq(cs[i]) ==> Underway(log, cs[i], m) && !Underway(log, cs[i], k))
      && (log[k] == Rel(cs[i]) ==> !Underway(log, cs[i], m) && Underway(log, cs[i], k))
      && (log[k] != Acq(cs[i]) && log[k] != Rel(cs[i]) ==> (Underway(log, cs[i], m) <==> Underway(log, cs[i], k)))
  }

  /* What thunk k of the history finds in the word is what it expects there. */
  ghost predicate Finds(f: State, log: seq<Event>, mem: Flat, w: Word, cs: seq<Section>, k: nat)
    requires k < |log| && AllResolved(f, log)
  {
    var found := Read(Serial(f, log, mem, k), w.a, w.n);
    && (forall i | 0 <= i < |cs| && log[k] == Acq(cs[i]) :: found == w.free.imp)
    && (forall i | 0 <= i < |cs| && log[k] == Rel(cs[i]) :: found == w.taken.imp)
  }

  lemma WonFinds(f: State, log: seq<Event>, mem: Flat, w: Word, cs: seq<Section>, z: nat, k: nat)
    requires k < |log| && AllResolved(f, log) && SerialValue(f, log, mem, k)
    requires OnlySections(f, log, w, cs, z) && AllWon(f, log, w, cs) && AllTell(f, log, w, cs)
    ensures Finds(f, log, mem, w, cs, k)
  {
    forall i | 0 <= i < |cs| && log[k] == Acq(cs[i]) ensures Read(Serial(f, log, mem, k), w.a, w.n) == w.free.imp {
      WonFrom(f, log, mem, w, k, w.free, w.taken);
    }
    forall i | 0 <= i < |cs| && log[k] == Rel(cs[i]) ensures Read(Serial(f, log, mem, k), w.a, w.n) == w.taken.imp {
      WonFrom(f, log, mem, w, k, w.taken, w.free);
    }
  }

  /* When sections take turns, none is under way when one begins. */
  lemma NoneUnderway(log: seq<Event>, cs: seq<Section>, k: nat, i: nat, h: nat)
    requires k < |log| && NoRepeats(log) && Ends(log, cs) && InTurn(log, cs)
    requires i < |cs| && h < |cs| && log[k] == Acq(cs[i])
    ensures !Underway(log, cs[h], k)
  {
    NotBefore(log, k);
    if i < h && Acq(cs[h]) in log[..k] {
      EarlierThan(log, Acq(cs[h]), Rel(cs[i]), k);
      BegunFirst(log, cs[i], k);
    }
  }

  /* What precedes something in the prefix is in the prefix. */
  lemma EarlierThan(log: seq<Event>, b: Event, a: Event, k: nat)
    requires k < |log| && b in log[..k] && Precedes(log, a, b)
    ensures a in log[..k]
  {
    var y :| 0 <= y < k && log[..k][y] == b;
    assert log[y] == b && log[..y] == log[..k][..y];
    assert a in log[..y];
  }

  lemma TurnFinds(f: State, log: seq<Event>, mem: Flat, w: Word, cs: seq<Section>, k: nat, who: Option<nat>)
    requires k < |log| && AllResolved(f, log) && NoRepeats(log) && Ends(log, cs) && InTurn(log, cs)
    requires HolderIs(f, log, mem, w, cs, k, who)
    ensures Finds(f, log, mem, w, cs, k)
  {
    forall i, h | 0 <= i < |cs| && 0 <= h < |cs| && log[k] == Acq(cs[i]) ensures !Underway(log, cs[h], k) {
      NoneUnderway(log, cs, k, i, h);
    }
    forall i | 0 <= i < |cs| && log[k] == Rel(cs[i]) ensures Underway(log, cs[i], k) {
      BegunFirst(log, cs[i], k);
      NotBefore(log, k);
    }
  }

  lemma HolderTakes(f: State, log: seq<Event>, mem: Flat, w: Word, cs: seq<Section>, z: nat, k: nat, m: nat,
      who: Option<nat>, i: nat)
    requires m == k + 1 <= |log| && AllResolved(f, log) && SerialValue(f, log, mem, k) && WordOk(w)
    requires OnlySections(f, log, w, cs, z) && DistinctSections(cs) && Advanced(log, cs, k, m)
    requires HolderIs(f, log, mem, w, cs, k, who) && Finds(f, log, mem, w, cs, k) && i < |cs| && log[k] == Acq(cs[i])
    ensures HolderIs(f, log, mem, w, cs, m, Some(i))
  {
    FoundWins(f, log, mem, w, k, m, w.free, w.taken);
    forall x | 0 <= x < |cs| ensures Underway(log, cs[x], m) <==> x == i {
      OneKind(f, log, w, cs, z, log[k], i, x);
      if x != i { SectionsDiffer(cs, i, x); }
    }
  }

  lemma HolderFrees(f: State, log: seq<Event>, mem: Flat, w: Word, cs: seq<Section>, z: nat, k: nat, m: nat,
      who: Option<nat>, i: nat)
    requires m == k + 1 <= |log| && AllResolved(f, log) && SerialValue(f, log, mem, k) && WordOk(w)
    requires OnlySections(f, log, w, cs, z) && DistinctSections(cs) && Advanced(log, cs, k, m)
    requires HolderIs(f, log, mem, w, cs, k, who) && Finds(f, log, mem, w, cs, k) && i < |cs| && log[k] == Rel(cs[i])
    requires forall x | 0 <= x < |cs| :: Acq(cs[x]) != log[k]
    ensures HolderIs(f, log, mem, w, cs, m, None)
  {
    FoundWins(f, log, mem, w, k, m, w.taken, w.free);
    assert Underway(log, cs[i], k) && who == Some(i);
  }

  lemma HolderStays(f: State, log: seq<Event>, mem: Flat, w: Word, cs: seq<Section>, k: nat, m: nat, who: Option<nat>)
    requires m == k + 1 <= |log| && AllResolved(f, log) && Leaves(f, log[k], w.a, w.n)
    requires Advanced(log, cs, k, m) && HolderIs(f, log, mem, w, cs, k, who)
    requires !Bounds(log[k], cs)
    ensures HolderIs(f, log, mem, w, cs, m, who)
  {
    StepSerial(f, log, mem, k, m);
    LeavesBytes(f, log[k], w.a, w.n, Serial(f, log, mem, k));
  }

  /* One more thunk of the history. */
  lemma HolderNext(f: State, log: seq<Event>, mem: Flat, w: Word, cs: seq<Section>, z: nat, k: nat, m: nat,
      who: Option<nat>) returns (next: Option<nat>)
    requires z <= k < m == k + 1 <= |log| && AllResolved(f, log) && SerialValue(f, log, mem, k)
    requires NoRepeats(log) && WordOk(w) && OnlySections(f, log, w, cs, z) && DistinctSections(cs) && Ends(log, cs)
    requires HolderIs(f, log, mem, w, cs, k, who) && Finds(f, log, mem, w, cs, k)
    ensures HolderIs(f, log, mem, w, cs, m, next)
  {
    assert Advanced(log, cs, k, m) by {
      forall i | 0 <= i < |cs| { UnderwayNext(log, cs[i], k, m); }
    }
    if i :| 0 <= i < |cs| && log[k] == Acq(cs[i]) {
      HolderTakes(f, log, mem, w, cs, z, k, m, who, i);
      next := Some(i);
    } else if i :| 0 <= i < |cs| && log[k] == Rel(cs[i]) {
      HolderFrees(f, log, mem, w, cs, z, k, m, who, i);
      next := None;
    } else {
      HolderStays(f, log, mem, w, cs, k, m, who);
      next := who;
    }
  }

  /* At place z of the history the word is free and no section has begun. */
  ghost predicate FreeAt(f: State, log: seq<Event>, mem: Flat, w: Word, cs: seq<Section>, z: nat)
    requires AllResolved(f, log)
  {
    && z <= |log| && Read(Serial(f, log, mem, z), w.a, w.n) == w.free.imp
    && forall i | 0 <= i < |cs| :: Acq(cs[i]) !in log[..z]
  }

  lemma HolderFirst(f: State, log: seq<Event>, mem: Flat, w: Word, cs: seq<Section>, z: nat)
    requires AllResolved(f, log) && FreeAt(f, log, mem, w, cs, z)
    ensures HolderIs(f, log, mem, w, cs, z, None)
  {
  }

  /* Why the compare-exchanges find what they expect: their results say so, or the sections take
     turns. */
  ghost predicate Orderly(f: State, log: seq<Event>, w: Word, cs: seq<Section>)
    requires AllResolved(f, log)
  {
    (AllWon(f, log, w, cs) && AllTell(f, log, w, cs)) || InTurn(log, cs)
  }

  lemma {:induction false} HolderAt(f: State, log: seq<Event>, mem: Flat, w: Word, cs: seq<Section>, z: nat, m: nat)
    returns (who: Option<nat>)
    requires z <= m <= |log| && AllResolved(f, log) && (forall n | 0 <= n < |log| :: SerialValue(f, log, mem, n))
    requires NoRepeats(log) && WordOk(w) && FreeAt(f, log, mem, w, cs, z)
    requires OnlySections(f, log, w, cs, z) && DistinctSections(cs) && Ends(log, cs) && Orderly(f, log, w, cs)
    ensures HolderIs(f, log, mem, w, cs, m, who)
    ensures m < |log| ==> Finds(f, log, mem, w, cs, m)
  {
    who := None;
    if m == z {
      HolderFirst(f, log, mem, w, cs, z);
    } else {
      var k := m - 1;
      var before := HolderAt(f, log, mem, w, cs, z, k);
      who := HolderNext(f, log, mem, w, cs, z, k, m, before);
    }
    if m < |log| {
      if InTurn(log, cs) { TurnFinds(f, log, mem, w, cs, m, who); } else { WonFinds(f, log, mem, w, cs, z, m); }
    }
  }

  // ---------------------------------------------------------------- whole runs

  /* The mutex is handed on from section to section: the next acquire is decoded when the last Release
     is Ready. */
  ghost predicate HandedOn(mem: Flat, run: seq<Step>, cs: seq<Section>)
    requires Run(Start(mem), run)
  {
    forall i, j | 0 <= i && i + 1 == j < |cs| :: Awaits(Start(mem), run, Rel(cs[i]), Acq(cs[j]))
  }

  /* A run in which sections take and free a lock word that is free before the first one begins: at
     first, or after a store that initialises it. Nobody else writes to the word. */
  ghost predicate Sectioned(mem: Flat, run: seq<Step>, s: State, w: Word, cs: seq<Section>, z: nat) {
    && Reached(mem, run, s) && WordOk(w)
    && (forall i | 0 <= i < |cs| :: SectionOk(mem, run, s, cs[i]))
    && DistinctSections(cs)
    && AllResolved(s, s.log) && OnlySections(s, s.log, w, cs, z) && FreeAt(s, s.log, mem, w, cs, z)
  }

  /* Either the mutex is handed on from section to section, or each compare-exchange that has been
     resolved succeeded. */
  ghost predicate Locking(mem: Flat, run: seq<Step>, s: State, w: Word, cs: seq<Section>, z: nat) {
    && Sectioned(mem, run, s, w, cs, z)
    && (HandedOn(mem, run, cs) || (AllWon(s, s.log, w, cs) && AllTell(s, s.log, w, cs)))
  }

  lemma {:induction false} HandedInTurn(mem: Flat, run: seq<Step>, s: State, cs: seq<Section>, i: nat, j: nat)
    requires Reached(mem, run, s) && HandedOn(mem, run, cs) && i < j < |cs|
    requires forall x | 0 <= x < |cs| :: SectionOk(mem, run, s, cs[x])
    ensures Precedes(s.log, Rel(cs[i]), Acq(cs[j]))
    decreases j
  {
    var k := j - 1;
    assert Awaits(Start(mem), run, Rel(cs[k]), Acq(cs[j]));
    AwaitsPrecedes(Start(mem), run, Rel(cs[k]), Acq(cs[j]));
    if i < k {
      HandedInTurn(mem, run, s, cs, i, k);
      assert SectionOk(mem, run, s, cs[k]);
      SectionBarrier(mem, run, s, cs[k], cs[k].rel);
      PrecedesTransitive(s.log, Rel(cs[i]), Acq(cs[k]), Rel(cs[k]));
      PrecedesTransitive(s.log, Rel(cs[i]), Rel(cs[k]), Acq(cs[j]));
    }
  }

  lemma LockingOrderly(mem: Flat, run: seq<Step>, s: State, w: Word, cs: seq<Section>, z: nat)
    requires Locking(mem, run, s, w, cs, z)
    ensures Orderly(s, s.log, w, cs)
  {
    if HandedOn(mem, run, cs) {
      forall i, j | 0 <= i < j < |cs| ensures Precedes(s.log, Rel(cs[i]), Acq(cs[j])) {
        HandedInTurn(mem, run, s, cs, i, j);
      }
    }
  }

  lemma SectionsEnd(mem: Flat, run: seq<Step>, s: State, w: Word, cs: seq<Section>, z: nat)
    requires Locking(mem, run, s, w, cs, z)
    ensures Ends(s.log, cs)
  {
    forall i | 0 <= i < |cs| ensures cs[i].acq < cs[i].rel && Precedes(s.log, Acq(cs[i]), Rel(cs[i])) {
      assert SectionOk(mem, run, s, cs[i]);
      SectionBarrier(mem, run, s, cs[i], cs[i].rel);
    }
  }

  lemma Early(log: seq<Event>, x: nat, z: nat)
    requires x < z <= |log|
    ensures log[x] in log[..z]
  {
    assert log[..z][x] == log[x];
  }

  /* A section that begins has begun after the word was free. */
  lemma BegunAfter(log: seq<Event>, c: Section, z: nat, x: nat)
    requires z <= |log| && x < |log| && Acq(c) !in log[..z] && Precedes(log, Acq(c), Rel(c))
    requires log[x] == Acq(c) || log[x] == Rel(c)
    ensures z <= x
  {
    if x < z {
      if log[x] == Acq(c) { Early(log, x, z); } else { BegunBefore(log, c, z, x); }
    }
  }

  lemma BegunBefore(log: seq<Event>, c: Section, z: nat, x: nat)
    requires x < z <= |log| && log[x] == Rel(c) && Precedes(log, Acq(c), Rel(c))
    ensures Acq(c) in log[..z]
  {
    assert Acq(c) in log[..x] && log[..x] == log[..z][..x];
  }

  lemma SucceedsAt(mem: Flat, run: seq<Step>, s: State, w: Word, cs: seq<Section>, z: nat, i: nat, x: nat)
    requires Locking(mem, run, s, w, cs, z) && i < |cs| && x < |s.log|
    ensures s.log[x] == Acq(cs[i]) ==> Won(s, s.log[x], w.free)
    ensures s.log[x] == Rel(cs[i]) ==> Won(s, s.log[x], w.taken)
  {
    if s.log[x] == Acq(cs[i]) || s.log[x] == Rel(cs[i]) {
      SerialOrder(mem, run, s);
      SectionsEnd(mem, run, s, w, cs, z);
      LockingOrderly(mem, run, s, w, cs, z);
      BegunAfter(s.log, cs[i], z, x);
      var who := HolderAt(s, s.log, mem, w, cs, z, x);
      var n := x + 1;
      if s.log[x] == Acq(cs[i]) { FoundWins(s, s.log, mem, w, x, n, w.free, w.taken); }
      if s.log[x] == Rel(cs[i]) { FoundWins(s, s.log, mem, w, x, n, w.taken, w.free); }
    }
  }

  /* When the mutex is handed on, every compare-exchange of the lock word succeeds: the assertions of
     src/native/pthread.rs:18 and :27 hold of what the engine computes. */
  lemma HandOffSucceeds(mem: Flat, run: seq<Step>, s: State, w: Word, cs: seq<Section>, z: nat)
    requires Sectioned(mem, run, s, w, cs, z) && HandedOn(mem, run, cs)
    ensures AllWon(s, s.log, w, cs)
  {
    forall i | 0 <= i < |cs| && Acq(cs[i]) in s.log ensures Won(s, Acq(cs[i]), w.free) {
      var x :| 0 <= x < |s.log| && s.log[x] == Acq(cs[i]);
      SucceedsAt(mem, run, s, w, cs, z, i, x);
    }
    forall i | 0 <= i < |cs| && Rel(cs[i]) in s.log ensures Won(s, Rel(cs[i]), w.taken) {
      var x :| 0 <= x < |s.log| && s.log[x] == Rel(cs[i]);
      SucceedsAt(mem, run, s, w, cs, z, i, x);
    }
  }

  /* When a section begins, every section that began before it has ended. */
  lemma BeginsFree(mem: Flat, run: seq<Step>, s: State, w: Word, cs: seq<Section>, z: nat, i: nat, j: nat, x: nat)
    requires Locking(mem, run, s, w, cs, z) && i < |cs| && j < |cs| && x < |s.log| && s.log[x] == Acq(cs[j])
    requires Acq(cs[i]) in s.log[..x]
    ensures Precedes(s.log, Rel(cs[i]), Acq(cs[j]))
  {
    SerialOrder(mem, run, s);
    SectionsEnd(mem, run, s, w, cs, z);
    LockingOrderly(mem, run, s, w, cs, z);
    BegunAfter(s.log, cs[j], z, x);
    var who := HolderAt(s, s.log, mem, w, cs, z, x);
    assert who.None?;
    assert !Underway(s.log, cs[i], x);
    forall y | 0 <= y < |s.log| && s.log[y] == Acq(cs[j]) ensures Rel(cs[i]) in s.log[..y] { assert y == x; }
  }

  lemma WhichFirst(log: seq<Event>, a: Event, b: Event) returns (x: nat, y: nat, n: nat)
    requires a in log && b in log && a != b
    ensures n < |log| && if x < y then log[n] == b && a in log[..n] else log[n] == a && b in log[..n]
  {
    x :| 0 <= x < |log| && log[x] == a;
    y :| 0 <= y < |log| && log[y] == b;
    n := if x < y then y else x;
    assert log[..n][if x < y then x else y] == if x < y then a else b;
  }

  /* Mutual exclusion by the lock word alone: of two sections one has ended, in the order in which
     everything was resolved, before the other begins. */
  lemma SectionsApart(mem: Flat, run: seq<Step>, s: State, w: Word, cs: seq<Section>, z: nat, i: nat, j: nat)
    requires Locking(mem, run, s, w, cs, z) && i < |cs| && j < |cs| && i != j
    ensures Precedes(s.log, Rel(cs[i]), Acq(cs[j])) || Precedes(s.log, Rel(cs[j]), Acq(cs[i]))
  {
    if Acq(cs[i]) in s.log && Acq(cs[j]) in s.log {
      SectionsDiffer(cs, i, j);
      var x, y, n := WhichFirst(s.log, Acq(cs[i]), Acq(cs[j]));
      if x < y { BeginsFree(mem, run, s, w, cs, z, i, j, n); } else { BeginsFree(mem, run, s, w, cs, z, j, i, n); }
    }
  }

  // ---------------------------------------------------------------- protected data

  /* Section b is between sections i and j. */
  ghost predicate SectionBetween(s: State, cs: seq<Section>, i: nat, b: nat, j: nat)
    requires i < |cs| && b < |cs| && j < |cs|
  {
    Precedes(s.log, Rel(cs[i]), Acq(cs[b])) && Precedes(s.log, Rel(cs[b]), Acq(cs[j]))
  }

  /* e is in a section, other than i and j, that is not between them. */
  ghost predicate Elsewhere(s: State, cs: seq<Section>, i: nat, j: nat, e: Event)
    requires i < |cs| && j < |cs|
  {
    exists b :: 0 <= b < |cs| && b != i && b != j && Inside(e, cs[b]) && !SectionBetween(s, cs, i, b, j)
  }

  /* Section i stores with w, section j loads with k, and whoever else writes to the bytes does so
     under the lock: before w or after k in those sections, or in sections that are not between. */
  ghost predicate Protected(s: State, cs: seq<Section>, i: nat, w: Event, j: nat, k: Event)
    requires i < |cs| && j < |cs| && At(s, w)
  {
    && Inside(w, cs[i]) && Inside(k, cs[j])
    && forall e | Valued(s, e) && At(s, e) && e != w ::
         || Spares(s, e, SpanOf(s, w))
         || Precedes(s.log, e, w) || Precedes(s.log, k, e)
         || Elsewhere(s, cs, i, j, e)
  }

  lemma ElsewhereApart(mem: Flat, run: seq<Step>, s: State, lock: Word, cs: seq<Section>, z: nat,
      i: nat, w: Event, j: nat, k: Event, e: Event)
    requires Locking(mem, run, s, lock, cs, z) && i < |cs| && j < |cs|
    requires Inside(w, cs[i]) && Inside(k, cs[j]) && Elsewhere(s, cs, i, j, e)
    ensures Precedes(s.log, e, w) || Precedes(s.log, k, e)
  {
    var b :| 0 <= b < |cs| && b != i && b != j && Inside(e, cs[b]) && !SectionBetween(s, cs, i, b, j);
    assert SectionOk(mem, run, s, cs[i]) && SectionOk(mem, run, s, cs[j]) && SectionOk(mem, run, s, cs[b]);
    SectionsApart(mem, run, s, lock, cs, z, i, b);
    SectionsApart(mem, run, s, lock, cs, z, j, b);
    if Precedes(s.log, Rel(cs[b]), Acq(cs[i])) {
      SectionsOrdered(mem, run, s, cs[b], e.pos, cs[i], w.pos);
    } else {
      SectionsOrdered(mem, run, s, cs[j], k.pos, cs[b], e.pos);
    }
  }

  /* Data protected by a mutex: a load by a later holder of the lock returns what an earlier holder
     stored, when no holder in between stores there; in every run, whatever the scheduler chooses. */
  lemma ProtectedLoad(mem: Flat, run: seq<Step>, s: State, lock: Word, cs: seq<Section>, z: nat,
      i: nat, w: Event, j: nat, k: Event)
    requires Locking(mem, run, s, lock, cs, z) && i < |cs| && j < |cs|
    requires Precedes(s.log, Rel(cs[i]), Acq(cs[j])) && LoadsFrom(s, w, k) && Valued(s, k)
    requires Protected(s, cs, i, w, j, k)
    ensures ReadsBack(s, w, k)
  {
    assert SectionOk(mem, run, s, cs[i]) && SectionOk(mem, run, s, cs[j]);
    SectionsOrdered(mem, run, s, cs[i], w.pos, cs[j], k.pos);
    forall e | Valued(s, e) && At(s, e) && e != w
      ensures Spares(s, e, SpanOf(s, w)) || Precedes(s.log, e, w) || Precedes(s.log, k, e)
    {
      if Elsewhere(s, cs, i, j, e) { ElsewhereApart(mem, run, s, lock, cs, z, i, w, j, k, e); }
    }
    LoadSeesStore(mem, run, s, w, k);
  }
}
