/**
 The mutable process: `Process::step` (src/process.rs:95-125) over the threads of DataFlow.dfy.
 Every call is a run of the step system of Engine.dfy, so what is proved about all runs holds of
 it; and calling it until it returns false executes the whole program.
 */
module Processes {
  import opened Wrappers
  import opened Values
  import opened FlatMemory
  import opened Memories
  import opened Engine
  import opened EngineRuns
  import opened EngineOrder
  import opened EngineProgress
  import opened EngineRefine
  import opened DataFlows

  // ---------------------------------------------------------------- what is still to be decoded

  function Codes(s: State): seq<seq<Thunk>> {
    seq(|s.threads|, t requires 0 <= t < |s.threads| => s.threads[t].code)
  }

  /* The stream can be decoded, in order, by threads that have decoded `codes`. */
  ghost predicate Decodable(codes: seq<seq<Thunk>>, stream: seq<Step>)
    decreases |stream|
  {
    stream == [] ||
    match stream[0]
    case Decode(t, thunk) =>
      t < |codes| && ThunkOk(thunk, |codes[t]|) && Decodable(codes[t := codes[t] + [thunk]], stream[1..])
    case Spawn => Decodable(codes + [[]], stream[1..])
    case _ => false
  }

  /* The programs the threads will have decoded in the end. */
  ghost function Program(codes: seq<seq<Thunk>>, stream: seq<Step>): seq<seq<Thunk>>
    requires Decodable(codes, stream)
    decreases |stream|
  {
    if stream == [] then codes
    else match stream[0]
      case Decode(t, thunk) => Program(codes[t := codes[t] + [thunk]], stream[1..])
      case Spawn => Program(codes + [[]], stream[1..])
  }

  lemma {:induction false} MissingSnoc(vals: Vals)
    ensures Missing(vals + [None]) == Missing(vals) + 1
  {
    if vals != [] {
      assert (vals + [None])[1..] == vals[1..] + [None];
      MissingSnoc(vals[1..]);
    } else {
      assert (vals + [None])[1..] == [];
    }
  }

  lemma {:induction false} MissingInSnoc(threads: seq<Thread>)
    ensures MissingIn(threads + [Thread([], [])]) == MissingIn(threads)
  {
    if threads != [] {
      assert (threads + [Thread([], [])])[1..] == threads[1..] + [Thread([], [])];
      MissingInSnoc(threads[1..]);
    } else {
      assert (threads + [Thread([], [])])[1..] == [];
    }
  }

  /* Decoding one more thunk leaves one more to resolve. */
  lemma DecodeLeft(s: State, a: Step)
    requires Enabled(s, a) && (a.Decode? || a.Spawn?)
    ensures Left(Next(s, a)) == Left(s) + if a.Decode? then 1 else 0
  {
    match a
    case Spawn => MissingInSnoc(s.threads);
    case Decode(t, thunk) =>
      MissingInSet(s.threads, t, Next(s, a).threads[t]);
      MissingSnoc(s.threads[t].vals);
  }

  /* One decoded thunk or spawned thread leads to the same programs. */
  lemma DecodableNext(s: State, stream: seq<Step>)
    requires Decodable(Codes(s), stream) && stream != []
    ensures Enabled(s, stream[0]) && (stream[0].Decode? || stream[0].Spawn?)
    ensures Decodable(Codes(Next(s, stream[0])), stream[1..])
    ensures Program(Codes(Next(s, stream[0])), stream[1..]) == Program(Codes(s), stream)
  {
    match stream[0]
    case Decode(t, thunk) => assert Codes(Next(s, stream[0])) == Codes(s)[t := Codes(s)[t] + [thunk]];
    case Spawn => assert Codes(Next(s, stream[0])) == Codes(s) + [[]];
  }

  /* The progress flag is only ever or-ed into. */
  lemma {:induction false} ScanProgress(p: Pass, t: nat, i: nat)
    requires t < |p.st.threads|
    ensures var q := Scan(p.(progress := false), t, i);
            Scan(p, t, i) == q.(progress := p.progress || q.progress)
    decreases |p.st.threads[t].code| - i
  {
    if i < |p.st.threads[t].code| {
      var p0 := p.(progress := false);
      ScanTurn(p, t, i);
      ScanTurn(p0, t, i);
      if !Halts(p, t, i) {
        ScanProgress(Turn(p, t, i), t, i + 1);
        ScanProgress(Turn(p0, t, i), t, i + 1);
        assert Turn(p, t, i).(progress := false) == Turn(p0, t, i).(progress := false);
      }
    }
  }

  lemma ThreadsSet(before: seq<Thread>, t: nat, th: Thread, after: seq<Thread>)
    requires t < |before| == |after| && after[t] == th
    requires forall u | 0 <= u < |before| && u != t :: after[u] == before[u]
    ensures after == before[t := th]
  {
  }

  // ---------------------------------------------------------------- the process

  class Process {
    const memory: Memory
    /* Whether the futures may wait for something other than a thunk: a mutex, a condition variable
       or the end of a thread. */
    const blocking: bool
    var threads: seq<DataFlow>
    var stream: seq<Step>
    ghost var log: seq<Event>

    ghost function Model(): State
      reads this, threads, memory
    {
      var models := seq(|threads|, t requires 0 <= t < |threads| reads this, threads => threads[t].Model());
      State(models, memory.Bytes(), log)
    }

    ghost predicate Running()
      reads this, threads, memory, memory.cells
    {
      memory.Valid() && forall t | 0 <= t < |threads| :: threads[t].tid == t && threads[t].Valid()
    }

    ghost predicate Valid()
      reads this, threads, memory, memory.cells
    {
      Running() && Decodable(Codes(Model()), stream)
    }

    /* A measure for whole runs: what is still to be decoded or resolved. */
    ghost function Total(): nat
      reads this, threads, memory
    {
      2 * |stream| + Left(Model())
    }

    constructor (stream: seq<Step>, blocking: bool)
      requires Decodable([], stream)
      ensures Valid() && Model() == Start(map[]) && this.stream == stream && this.blocking == blocking
      ensures fresh(memory) && fresh(memory.cells) && threads == []
    {
      memory := new Memory();
      threads, log := [], [];
      this.stream, this.blocking := stream, blocking;
      new;
      assert Model() == Start(map[]) && Codes(Model()) == [];
    }

    /* One step of the futures that decode: a new thread, or the next thunk of a thread. */
    method DecodeOne()
      requires Valid() && stream != []
      modifies this, threads
      ensures Valid() && stream == old(stream[1..])
      ensures old(Enabled(Model(), stream[0])) && Model() == old(Next(Model(), stream[0]))
      ensures old(Decodable(Codes(Model()), stream))
      ensures forall t | 0 <= t < |threads| :: threads[t] in old(threads) || fresh(threads[t])
    {
      ghost var s := Model();
      DecodableNext(s, stream);
      var next := stream[0];
      stream := stream[1..];
      match next {
        case Decode(t, thunk) =>
          var _ := threads[t].ThunkImpl(thunk);
        case Spawn =>
          var d := new DataFlow(|threads|);
          threads := threads + [d];
      }
      assert Model() == Next(s, next);
    }

    /* Whether some thunk is unresolved: what a stalled decoder may be waiting for. */
    method Waiting() returns (waiting: bool)
      requires Valid()
      ensures waiting <==> !Drained(Model())
    {
      for t := 0 to |threads|
        invariant forall u | 0 <= u < t :: ResolvedBefore(Model().threads[u], |Model().threads[u].code|)
      {
        var vals := threads[t].vals;
        for i := 0 to |vals|
          invariant forall j | 0 <= j < i :: vals[j].Some?
        {
          if vals[i].None? {
            assert Unresolved(Model().threads[t], i);
            return true;
          }
        }
      }
      return false;
    }

    /* `run_until_stalled`: the futures decode until each of them has returned or waits, for an
       unresolved thunk or for something else if they can. How far that is depends on the program and
       is left open here. */
    method RunUntilStalled() returns (ghost run: seq<Step>)
      requires Valid()
      modifies this, threads
      ensures Valid() && Run(old(Model()), run) && After(old(Model()), run) == Model()
      ensures Drained(Model()) ==> stream == [] || blocking
      ensures Total() <= old(Total())
      ensures Program(Codes(Model()), stream) == old(Program(Codes(Model()), stream))
      ensures forall t | 0 <= t < |threads| :: threads[t] in old(threads) || fresh(threads[t])
    {
      run := [];
      while stream != []
        invariant Valid() && Run(old(Model()), run) && After(old(Model()), run) == Model()
        invariant Total() <= old(Total())
        invariant Program(Codes(Model()), stream) == old(Program(Codes(Model()), stream))
        invariant forall t | 0 <= t < |threads| :: threads[t] in old(threads) || fresh(threads[t])
        decreases |stream|
      {
        var waiting := Waiting();
        var stalled := false;
        if * { stalled := waiting || blocking; }
        if stalled {
          return;
        }
        ghost var s, a := Model(), stream[0];
        DecodableNext(s, stream);
        DecodeLeft(s, a);
        RunSnoc(old(Model()), run, a);
        DecodeOne();
        run := run + [a];
      }
    }

    /* `progress |= thread.step_pure(&mut resolvable)` for thread t. */
    method StepThread(t: nat, resolvable: seq<Event>, ghost q: Pass) returns (more: bool, offered: seq<Event>)
      requires Running() && t < |threads| && q.st == Model() && q.offered == resolvable
      modifies this`log, threads[t], memory, memory.cells
      ensures Running()
      ensures var q' := Scan(q.(pending := {}), t, 0);
              Model() == q'.st && (q'.progress <==> q.progress || more) && offered == q'.offered
    {
      ghost var p, s := q.(pending := {}), q.st;
      ScanOthers(p, t, 0);
      ScanProgress(p, t, 0);
      ghost var r;
      more, offered, r := threads[t].StepPure(memory, resolvable, s);
      log := r.st.log;
      ThreadsSet(s.threads, t, threads[t].Model(), r.st.threads);
      assert Model().threads == s.threads[t := threads[t].Model()];
    }

    /* `for thread in threads { progress |= thread.step_pure(&mut resolvable) }` */
    method Sweep() returns (progress: bool, resolvable: seq<Event>)
      requires Valid()
      modifies this`log, threads, memory, memory.cells
      ensures Valid() && Codes(Model()) == old(Codes(Model()))
      ensures var q := PassAll(old(Model()));
              Model() == q.st && progress == q.progress && resolvable == q.offered
    {
      progress, resolvable := false, [];
      ghost var s := Model();
      ghost var q := Pass(s, {}, [], false);
      for t := 0 to |threads|
        invariant Running() && Model() == q.st
        invariant progress == q.progress && resolvable == q.offered
        invariant ScanAll(q, t) == PassAll(s)
      {
        ghost var p := q.(pending := {});
        ScanShape(p, t, 0);
        var more, offered := StepThread(t, resolvable, q);
        q := Scan(p, t, 0);
        progress, resolvable := progress || more, offered;
      }
      AllShape(Pass(s, {}, [], false), 0);
      assert Codes(Model()) == Codes(s);
    }

    /* Whether an offered operation would step: its operands are Ready. */
    predicate Steps(e: Event)
      reads this, threads
    {
      && e.tid < |threads|
      && var d := threads[e.tid];
         e.pos < |d.code| == |d.vals| && d.vals[e.pos].None? && DepsReady(Deps(d.code[e.pos]), d.vals)
    }

    /* `resolvable[k].step()`. */
    method Resolve(e: Event) returns (stepped: bool)
      requires Valid() && Steps(e)
      modifies this`log, threads[e.tid], memory, memory.cells
      ensures Valid() && Codes(Model()) == old(Codes(Model()))
      ensures stepped && CanFire(old(Model()), e) && Model() == Fire(old(Model()), e)
      ensures Total() < old(Total())
    {
      ghost var s := Model();
      FireLeft(s, e);
      stepped := threads[e.tid].Step(memory, e.pos, s);
      log := log + [e];
      assert Model().threads == Fire(s, e).threads;
      assert Codes(Model()) == Codes(s);
    }

    /* One turn of the loop in `step`: decode, then pass over every thread. */
    method Turn() returns (progress: bool, resolvable: seq<Event>, ghost run: seq<Step>)
      requires Valid()
      modifies this, threads, memory, memory.cells
      ensures Valid() && StateOk(Model())
      ensures Run(old(Model()), run) && After(old(Model()), run) == Model()
      ensures Program(Codes(Model()), stream) == old(Program(Codes(Model()), stream))
      ensures forall t | 0 <= t < |threads| :: threads[t] in old(threads) || fresh(threads[t])
      ensures progress ==> Total() < old(Total())
      ensures !progress ==> && Total() <= old(Total()) && !PassAll(Model()).progress
                            && PassAll(Model()).offered == resolvable && (resolvable == [] ==> stream == [] || blocking)
    {
      run := RunUntilStalled();
      ghost var s := Model();
      progress, resolvable := Sweep();
      RunSnoc(old(Model()), run, Engine.Sweep);
      run := run + [Engine.Sweep];
      SweepLeft(s);
      if !progress { PassAllQuiet(s); }
    }

    /* The loop of `Process::step`: turns until one makes no progress. */
    method TurnUntilQuiet() returns (resolvable: seq<Event>, ghost run: seq<Engine.Step>)
      requires Valid()
      modifies this, threads, memory, memory.cells
      ensures Valid() && StateOk(Model())
      ensures Run(old(Model()), run) && After(old(Model()), run) == Model()
      ensures Program(Codes(Model()), stream) == old(Program(Codes(Model()), stream))
      ensures forall t | 0 <= t < |threads| :: threads[t] in old(threads) || fresh(threads[t])
      ensures Total() <= old(Total()) && !PassAll(Model()).progress
      ensures PassAll(Model()).offered == resolvable && (resolvable == [] ==> stream == [] || blocking)
    {
      run, resolvable := [], [];
      var progress := true;
      while progress
        invariant Valid() && (!progress ==> StateOk(Model()))
        invariant Run(old(Model()), run) && After(old(Model()), run) == Model()
        invariant Program(Codes(Model()), stream) == old(Program(Codes(Model()), stream))
        invariant forall t | 0 <= t < |threads| :: threads[t] in old(threads) || fresh(threads[t])
        invariant Total() <= old(Total())
        invariant !progress ==> && !PassAll(Model()).progress && PassAll(Model()).offered == resolvable
                                && (resolvable == [] ==> stream == [] || blocking)
        decreases Total(), progress
      {
        ghost var turn;
        progress, resolvable, turn := Turn();
        RunAppend(old(Model()), run, turn);
        run := run + turn;
      }
    }

    /* `resolvable.iter().choose(rng)`, among those that step. */
    method Choose(resolvable: seq<Event>) returns (e: Event)
      requires Valid() && StateOk(Model()) && resolvable != []
      requires !PassAll(Model()).progress && PassAll(Model()).offered == resolvable
      ensures e in resolvable && Steps(e) && Enabled(Model(), Engine.Resolve(e))
    {
      PassAllQuiet(Model());
      assert Steps(resolvable[0]);
      var k :| 0 <= k < |resolvable| && Steps(resolvable[k]);
      e := resolvable[k];
    }

    /* The end of `step`: the chosen operation steps. */
    method ResolveOne(resolvable: seq<Event>) returns (e: Event)
      requires Valid() && StateOk(Model()) && resolvable != []
      requires !PassAll(Model()).progress && PassAll(Model()).offered == resolvable
      modifies this`log, threads, memory, memory.cells
      ensures Valid() && Enabled(old(Model()), Engine.Resolve(e)) && Model() == Next(old(Model()), Engine.Resolve(e))
      ensures Program(Codes(Model()), stream) == old(Program(Codes(Model()), stream))
      ensures Total() < old(Total())
    {
      e := Choose(resolvable);
      var stepped := Resolve(e);
      assert stepped;
    }

    /* `Process::step`: turns until one makes no progress, then one offered operation. The assertions
       of src/process.rs:115 and :122 are checked here; the second is met by choosing among the
       operations whose operands are Ready. The one at :112 fails exactly when `deadlock` is returned:
       everything decoded is resolved, and the futures wait for something else. */
    method Step() returns (more: bool, deadlock: bool, ghost run: seq<Engine.Step>)
      requires Valid()
      modifies this, threads, memory, memory.cells
      ensures Valid()
      ensures Run(old(Model()), run) && After(old(Model()), run) == Model()
      ensures Program(Codes(Model()), stream) == old(Program(Codes(Model()), stream))
      ensures forall t | 0 <= t < |threads| :: threads[t] in old(threads) || fresh(threads[t])
      ensures Total() <= old(Total()) && (more ==> Total() < old(Total()))
      ensures !more ==> Drained(Model())
      ensures (deadlock <==> !more && stream != []) && (deadlock ==> blocking)
    {
      var resolvable;
      resolvable, run := TurnUntilQuiet();
      if |resolvable| == 0 {
        assert Drained(Model()) by { PassAllQuiet(Model()); }
        return false, stream != [], run;
      }
      ghost var before := run;
      var e := ResolveOne(resolvable);
      RunSnoc(old(Model()), before, Engine.Resolve(e));
      run := before + [Engine.Resolve(e)];
      more, deadlock := true, false;
    }

    /* `loop { if !process.step() { break; } }` (src/main.rs:95-100). */
    method RunToEnd() returns (deadlock: bool, ghost run: seq<Engine.Step>)
      requires Valid()
      modifies this, threads, memory, memory.cells
      ensures Valid() && Drained(Model())
      ensures Run(old(Model()), run) && After(old(Model()), run) == Model()
      ensures (deadlock <==> stream != []) && (deadlock ==> blocking)
      ensures !deadlock ==> Codes(Model()) == old(Program(Codes(Model()), stream))
    {
      run, deadlock := [], false;
      var more := true;
      while more
        invariant Valid() && (!more ==> Drained(Model()))
        invariant (deadlock <==> !more && stream != []) && (deadlock ==> blocking)
        invariant Run(old(Model()), run) && After(old(Model()), run) == Model()
        invariant Program(Codes(Model()), stream) == old(Program(Codes(Model()), stream))
        invariant forall t | 0 <= t < |threads| :: threads[t] in old(threads) || fresh(threads[t])
        decreases Total(), more
      {
        ghost var part;
        more, deadlock, part := Step();
        RunAppend(old(Model()), run, part);
        run := run + part;
      }
    }
  }

  // ---------------------------------------------------------------- a whole program

  function DecodeFrom(code: seq<Thunk>, n: nat): seq<Step>
    requires n <= |code|
    decreases |code| - n
  {
    if n == |code| then [] else [Decode(0, code[n])] + DecodeFrom(code, n + 1)
  }

  /* The stream of one thread that decodes `code`. */
  function StreamOf(code: seq<Thunk>): seq<Step> { [Spawn] + DecodeFrom(code, 0) }

  lemma {:induction false} DecodeFromIs(code: seq<Thunk>, n: nat)
    requires CodeOk(code) && n <= |code|
    ensures Decodable([code[..n]], DecodeFrom(code, n)) && Program([code[..n]], DecodeFrom(code, n)) == [code]
    decreases |code| - n
  {
    var rest := DecodeFrom(code, n);
    if n == |code| {
      assert code[..n] == code;
    } else {
      var m := n + 1;
      DecodeFromIs(code, m);
      assert rest[0] == Decode(0, code[n]) && rest[1..] == DecodeFrom(code, m);
      assert ThunkOk(code[n], n);
      var before, after := code[..n], code[..m];
      assert before + [code[n]] == after;
      assert [before][0 := after] == [after];
    }
  }

  lemma StreamIs(code: seq<Thunk>)
    requires CodeOk(code)
    ensures Decodable([], StreamOf(code)) && Program([], StreamOf(code)) == [code]
  {
    DecodeFromIs(code, 0);
    assert StreamOf(code)[1..] == DecodeFrom(code, 0);
    assert [] + [[]] == [code[..0]];
  }

  /* Running a single-threaded program to the end, whatever the scheduler and the decoder do on the
     way, leaves the values and the memory of executing its thunks in program order, unless the
     program ends in a deadlock; and it does not when it waits for thunks only. */
  method RunProgram(code: seq<Thunk>, blocking: bool) returns (deadlock: bool, vals: Vals, memory: Memory)
    requires Hypotheses(code, map[])
    ensures deadlock ==> blocking
    ensures !deadlock ==> vals == Reference(code, map[]).vals && memory.Bytes() == MemAfter(code, map[], |code|)
    ensures fresh(memory) && memory.Valid()
  {
    StreamIs(code);
    var p := new Process(StreamOf(code), blocking);
    assert Codes(p.Model()) == [] && Program(Codes(p.Model()), p.stream) == [code];
    ghost var run;
    deadlock, run := p.RunToEnd();
    vals, memory := [], p.memory;
    if !deadlock {
      ghost var s := p.Model();
      assert Codes(s) == [code];
      assert |s.threads| == |Codes(s)|;
      assert s.threads[0].code == Codes(s)[0];
      RunRefines(map[], run, s);
      vals := p.threads[0].vals;
    }
  }
}
