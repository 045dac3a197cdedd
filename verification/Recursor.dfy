/**
 The trampoline of src/util/recursor.rs: recursive computations run on an explicit stack of
 frames. A frame's future is a deterministic state machine; what the trampoline has to agree with
 is direct recursion, given by `Evals`.
 */
module Recursors {
  import opened Wrappers

  // ---------------------------------------------------------------- computations

  /* What a future does next: return, spawn a child (which gives a handle), await a child's handle,
     or await something outside the recursor. */
  datatype Action<S, !V> =
    | Finish(v: V)
    | Spawn(child: S, next: nat -> S)
    | Await(h: nat, resume: V -> S)
    | Input(i: nat, got: V -> S)

  /* The program shared by all futures, and the values that come from outside. */
  datatype Program<!S, !V> = Program(step: S -> Action<S, V>, input: nat -> V)

  datatype Proof<V> = Return | Called(child: Proof<V>, w: V, rest: Proof<V>) | Then(rest: Proof<V>)

  /* Direct recursion: from state s, with the results `env` of the children that were spawned and
     not awaited yet, the computation returns v. A child is computed by a recursive call; a future
     awaits only its own children, and all of them before it returns. Handles mean nothing to a
     future, so what it does next does not depend on which one it gets. */
  ghost predicate Evals<S(!new), V(!new)>(g: Program<S, V>, s: S, env: map<nat, V>, p: Proof<V>, v: V)
    decreases p
  {
    match g.step(s)
    case Finish(x) => p.Return? && env == map[] && x == v
    case Spawn(c, next) =>
      && p.Called? && Evals(g, c, map[], p.child, p.w)
      && forall h | h !in env :: Evals(g, next(h), env[h := p.w], p.rest, v)
    case Await(h, resume) => p.Then? && h in env && Evals(g, resume(env[h]), env - {h}, p.rest, v)
    case Input(i, got) => p.Then? && Evals(g, got(g.input(i)), env, p.rest, v)
  }

  lemma {:induction false} Fresh(env: set<nat>) returns (h: nat)
    ensures h !in env && forall x | x in env :: x < h
  {
    if env == {} {
      h := 0;
    } else {
      var x :| x in env;
      var rest := env - {x};
      var h0 := Fresh(rest);
      assert env == rest + {x};
      h := if h0 <= x then x + 1 else h0;
    }
  }

  /* The result of direct recursion is unique. */
  lemma {:induction false} EvalsUnique<S(!new), V(!new)>(g: Program<S, V>, s: S, env: map<nat, V>,
      p: Proof<V>, v: V, p': Proof<V>, v': V)
    requires Evals(g, s, env, p, v) && Evals(g, s, env, p', v')
    ensures v == v'
    decreases p
  {
    match g.step(s)
    case Finish(_) =>
    case Spawn(c, next) =>
      EvalsUnique(g, c, map[], p.child, p.w, p'.child, p'.w);
      var h := Fresh(env.Keys);
      assert h !in env;
      EvalsUnique(g, next(h), env[h := p.w], p.rest, v, p'.rest, v');
    case Await(h, resume) => EvalsUnique(g, resume(env[h]), env - {h}, p.rest, v, p'.rest, v');
    case Input(i, got) => EvalsUnique(g, got(g.input(i)), env, p.rest, v, p'.rest, v');
  }

  ghost function Size<V>(p: Proof<V>): nat {
    match p
    case Return => 1
    case Called(c, _, rest) => 1 + Size(c) + Size(rest)
    case Then(rest) => 1 + Size(rest)
  }

  // ---------------------------------------------------------------- the machine

  datatype Frame<S, V> = Frame(future: S, output: Option<V>)

  /* Frames are numbered in the order in which they are spawned; the stack holds frame numbers. */
  datatype Machine<S, V> = Machine(frames: seq<Frame<S, V>>, stack: seq<nat>)

  /* What a frame still has to do: the results its children will have, and its own. */
  datatype Note<V> = Note(env: map<nat, V>, p: Proof<V>, v: V)

  ghost predicate FrameOk<S(!new), V(!new)>(g: Program<S, V>, f: Frame<S, V>, n: Note<V>) {
    f.output.None? && Evals(g, f.future, n.env, n.p, n.v)
  }

  ghost predicate StackOk<S, V>(m: Machine<S, V>) {
    && (forall j | 0 <= j < |m.stack| :: m.stack[j] < |m.frames|)
    && (forall i, j | 0 <= i < j < |m.stack| :: m.stack[i] != m.stack[j])
  }

  /* A child's result is either there, or the child is further up the stack and will return it. */
  ghost predicate ChildOk<S, V>(m: Machine<S, V>, notes: seq<Note<V>>, i: nat, h: nat)
    requires i < |m.stack| && StackOk(m) && |notes| == |m.frames| && h in notes[m.stack[i]].env
  {
    && 0 < h < |m.frames|
    && if h in m.stack then h in m.stack[i + 1..] && notes[h].v == notes[m.stack[i]].env[h]
       else m.frames[h].output == Some(notes[m.stack[i]].env[h])
  }

  ghost predicate ChildrenOk<S, V>(m: Machine<S, V>, notes: seq<Note<V>>)
    requires StackOk(m) && |notes| == |m.frames|
  {
    && (forall i, h | 0 <= i < |m.stack| && h in notes[m.stack[i]].env :: ChildOk(m, notes, i, h))
    && (forall i, j, h | 0 <= i < j < |m.stack| && h in notes[m.stack[i]].env :: h !in notes[m.stack[j]].env)
  }

  /* The root has not returned yet, or its output is the result. */
  ghost predicate RootOk<S, V>(m: Machine<S, V>, notes: seq<Note<V>>, v: V)
    requires |notes| == |m.frames| > 0
  {
    if 0 in m.stack then notes[0].v == v else m.frames[0].output == Some(v)
  }

  ghost predicate Inv<S(!new), V(!new)>(g: Program<S, V>, m: Machine<S, V>, notes: seq<Note<V>>, v: V) {
    && |notes| == |m.frames| > 0
    && StackOk(m)
    && (forall j | 0 <= j < |m.stack| :: FrameOk(g, m.frames[m.stack[j]], notes[m.stack[j]]))
    && ChildrenOk(m, notes)
    && RootOk(m, notes, v)
  }

  /* The frame at position c is being polled: everything above it is its own children. */
  ghost predicate Polling<S, V>(m: Machine<S, V>, notes: seq<Note<V>>, c: nat)
    requires StackOk(m) && |notes| == |m.frames|
  {
    c < |m.stack| && forall j | c < j < |m.stack| :: m.stack[j] in notes[m.stack[c]].env
  }

  // ---------------------------------------------------------------- one action of the polled frame

  function SetFuture<S, V>(m: Machine<S, V>, id: nat, s: S): Machine<S, V>
    requires id < |m.frames|
  {
    m.(frames := m.frames[id := m.frames[id].(future := s)])
  }

  function Spawned<S, V>(m: Machine<S, V>, id: nat, child: S, s: S): Machine<S, V>
    requires id < |m.frames|
  {
    Machine(SetFuture(m, id, s).frames + [Frame(child, None)], m.stack + [|m.frames|])
  }

  /* `FrameWaiter::poll` takes the output out of the child's frame. */
  function Taken<S, V>(m: Machine<S, V>, id: nat, h: nat, s: S): Machine<S, V>
    requires id < |m.frames| && h < |m.frames|
  {
    var m1 := m.(frames := m.frames[h := m.frames[h].(output := None)]);
    SetFuture(m1, id, s)
  }

  function Returned<S, V>(m: Machine<S, V>, id: nat, v: V): Machine<S, V>
    requires id < |m.frames| && |m.stack| > 0
  {
    Machine(m.frames[id := m.frames[id].(output := Some(v))], m.stack[..|m.stack| - 1])
  }

  // ---------------------------------------------------------------- what is left to do

  /* The sizes of the derivations of all frames on the stack. */
  ghost function Sizes<V>(stack: seq<nat>, notes: seq<Note<V>>): nat
    requires forall j | 0 <= j < |stack| :: stack[j] < |notes|
  {
    if stack == [] then 0 else Size(notes[stack[|stack| - 1]].p) + Sizes(stack[..|stack| - 1], notes)
  }

  lemma {:induction false} SizesSame<V>(stack: seq<nat>, notes: seq<Note<V>>, notes': seq<Note<V>>)
    requires forall j | 0 <= j < |stack| ::
               stack[j] < |notes| && stack[j] < |notes'| && notes'[stack[j]].p == notes[stack[j]].p
    ensures Sizes(stack, notes') == Sizes(stack, notes)
  {
    if stack != [] { SizesSame(stack[..|stack| - 1], notes, notes'); }
  }

  lemma {:induction false} SizesSet<V>(stack: seq<nat>, notes: seq<Note<V>>, notes': seq<Note<V>>, c: nat)
    requires c < |stack| && (forall i, j | 0 <= i < j < |stack| :: stack[i] != stack[j])
    requires forall j | 0 <= j < |stack| :: stack[j] < |notes| && stack[j] < |notes'|
    requires forall j | 0 <= j < |stack| && j != c :: notes'[stack[j]].p == notes[stack[j]].p
    ensures Sizes(stack, notes') + Size(notes[stack[c]].p) == Sizes(stack, notes) + Size(notes'[stack[c]].p)
  {
    var init := stack[..|stack| - 1];
    if c == |stack| - 1 { SizesSame(init, notes, notes'); } else { SizesSet(init, notes, notes', c); }
  }

  // ---------------------------------------------------------------- spawning a child

  ghost function SpawnNotes<V>(notes: seq<Note<V>>, id: nat, child: nat): seq<Note<V>>
    requires id < |notes| && notes[id].p.Called?
  {
    var n := notes[id];
    notes[id := Note(n.env[child := n.p.w], n.p.rest, n.v)] + [Note(map[], n.p.child, n.p.w)]
  }

  lemma EnvBelow<S, V>(m: Machine<S, V>, notes: seq<Note<V>>, i: nat, h: nat)
    requires StackOk(m) && |notes| == |m.frames| && ChildrenOk(m, notes) && i < |m.stack|
    ensures h in notes[m.stack[i]].env ==> 0 < h < |m.frames|
  {
    assert h in notes[m.stack[i]].env ==> ChildOk(m, notes, i, h);
  }

  lemma SpawnChild<S, V>(m: Machine<S, V>, notes: seq<Note<V>>, c: nat, child: S, s: S, i: nat, h: nat)
    requires StackOk(m) && |notes| == |m.frames| > 0 && ChildrenOk(m, notes) && c < |m.stack|
    requires notes[m.stack[c]].p.Called?
    requires var m', notes' := Spawned(m, m.stack[c], child, s), SpawnNotes(notes, m.stack[c], |m.frames|);
             StackOk(m') && i < |m'.stack| && h in notes'[m'.stack[i]].env
    ensures ChildOk(Spawned(m, m.stack[c], child, s), SpawnNotes(notes, m.stack[c], |m.frames|), i, h)
  {
    var id, h0 := m.stack[c], |m.frames|;
    var m', notes' := Spawned(m, id, child, s), SpawnNotes(notes, id, h0);
    if i < |m.stack| && h != h0 {
      assert ChildOk(m, notes, i, h);
      assert m'.stack[i + 1..] == m.stack[i + 1..] + [h0];
    } else if h == h0 {
      assert m'.stack[i + 1..][|m.stack| - i - 1] == h0;
    }
  }

  lemma SpawnChildren<S, V>(m: Machine<S, V>, notes: seq<Note<V>>, c: nat, child: S, s: S)
    requires StackOk(m) && |notes| == |m.frames| > 0 && ChildrenOk(m, notes) && c < |m.stack|
    requires notes[m.stack[c]].p.Called?
    ensures var id := m.stack[c];
            var m', notes' := Spawned(m, id, child, s), SpawnNotes(notes, id, |m.frames|);
            StackOk(m') && ChildrenOk(m', notes')
  {
    var id, h0 := m.stack[c], |m.frames|;
    var m', notes' := Spawned(m, id, child, s), SpawnNotes(notes, id, h0);
    forall i, h | 0 <= i < |m'.stack| && h in notes'[m'.stack[i]].env ensures ChildOk(m', notes', i, h) {
      SpawnChild(m, notes, c, child, s, i, h);
    }
    forall i, j, h | 0 <= i < j < |m'.stack| && h in notes'[m'.stack[i]].env ensures h !in notes'[m'.stack[j]].env {
      if j < |m.stack| { EnvBelow(m, notes, j, h0); }
      EnvBelow(m, notes, i, h0);
    }
  }

  lemma SpawnInv<S(!new), V(!new)>(g: Program<S, V>, m: Machine<S, V>, notes: seq<Note<V>>, v: V, c: nat)
    returns (notes': seq<Note<V>>)
    requires Inv(g, m, notes, v) && Polling(m, notes, c)
    requires g.step(m.frames[m.stack[c]].future).Spawn?
    ensures var a := g.step(m.frames[m.stack[c]].future);
            var m' := Spawned(m, m.stack[c], a.child, a.next(|m.frames|));
            && Inv(g, m', notes', v) && Polling(m', notes', c) && Sizes(m'.stack, notes') < Sizes(m.stack, notes)
  {
    var id, h0 := m.stack[c], |m.frames|;
    var a := g.step(m.frames[id].future);
    var m' := Spawned(m, id, a.child, a.next(h0));
    assert FrameOk(g, m.frames[id], notes[id]);
    notes' := SpawnNotes(notes, id, h0);
    SpawnChildren(m, notes, c, a.child, a.next(h0));
    EnvBelow(m, notes, c, h0);
    forall j | 0 <= j < |m'.stack| ensures FrameOk(g, m'.frames[m'.stack[j]], notes'[m'.stack[j]]) {
      if j < |m.stack| { assert FrameOk(g, m.frames[m.stack[j]], notes[m.stack[j]]); }
    }
    SizesSet(m.stack, notes, notes', c);
    assert m'.stack[..|m'.stack| - 1] == m.stack;
  }

  // ---------------------------------------------------------------- awaiting a child

  /* What the polled frame knows about the child it awaits. */
  lemma AwaitedChild<S(!new), V(!new)>(g: Program<S, V>, m: Machine<S, V>, notes: seq<Note<V>>, v: V, c: nat)
    requires Inv(g, m, notes, v) && c < |m.stack|
    requires g.step(m.frames[m.stack[c]].future).Await?
    ensures var h := g.step(m.frames[m.stack[c]].future).h;
            var n := notes[m.stack[c]];
            && 0 < h < |m.frames| && n.p.Then? && h in n.env
            && (m.frames[h].output.Some? ==> h !in m.stack && m.frames[h].output.value == n.env[h])
            && (m.frames[h].output.None? ==> c < |m.stack| - 1)
  {
    var h := g.step(m.frames[m.stack[c]].future).h;
    assert FrameOk(g, m.frames[m.stack[c]], notes[m.stack[c]]);
    assert ChildOk(m, notes, c, h);
    if h in m.stack {
      var j :| 0 <= j < |m.stack| && m.stack[j] == h;
      assert FrameOk(g, m.frames[m.stack[j]], notes[m.stack[j]]);
    }
  }

  ghost function TakeNotes<V>(notes: seq<Note<V>>, id: nat, h: nat): seq<Note<V>>
    requires id < |notes| && notes[id].p.Then?
  {
    notes[id := Note(notes[id].env - {h}, notes[id].p.rest, notes[id].v)]
  }

  lemma TakeChildren<S, V>(m: Machine<S, V>, notes: seq<Note<V>>, c: nat, h: nat, s: S)
    requires StackOk(m) && |notes| == |m.frames| > 0 && ChildrenOk(m, notes) && c < |m.stack|
    requires notes[m.stack[c]].p.Then? && h in notes[m.stack[c]].env && h < |m.frames| && h !in m.stack
    ensures var id := m.stack[c];
            var m', notes' := Taken(m, id, h, s), TakeNotes(notes, id, h);
            StackOk(m') && ChildrenOk(m', notes')
  {
    var id := m.stack[c];
    var m', notes' := Taken(m, id, h, s), TakeNotes(notes, id, h);
    forall i, x | 0 <= i < |m'.stack| && x in notes'[m'.stack[i]].env ensures ChildOk(m', notes', i, x) {
      assert ChildOk(m, notes, i, x);
      assert i != c ==> x != h;
    }
  }

  lemma TakeInv<S(!new), V(!new)>(g: Program<S, V>, m: Machine<S, V>, notes: seq<Note<V>>, v: V, c: nat)
    returns (notes': seq<Note<V>>)
    requires Inv(g, m, notes, v) && Polling(m, notes, c)
    requires g.step(m.frames[m.stack[c]].future).Await?
    requires g.step(m.frames[m.stack[c]].future).h < |m.frames|
    requires m.frames[g.step(m.frames[m.stack[c]].future).h].output.Some?
    ensures var a := g.step(m.frames[m.stack[c]].future);
            var m' := Taken(m, m.stack[c], a.h, a.resume(m.frames[a.h].output.value));
            && Inv(g, m', notes', v) && Polling(m', notes', c) && Sizes(m'.stack, notes') < Sizes(m.stack, notes)
  {
    var id := m.stack[c];
    var a := g.step(m.frames[id].future);
    AwaitedChild(g, m, notes, v, c);
    var s := a.resume(m.frames[a.h].output.value);
    var m' := Taken(m, id, a.h, s);
    assert FrameOk(g, m.frames[id], notes[id]);
    notes' := TakeNotes(notes, id, a.h);
    TakeChildren(m, notes, c, a.h, s);
    forall j | 0 <= j < |m'.stack| ensures FrameOk(g, m'.frames[m'.stack[j]], notes'[m'.stack[j]]) {
      assert FrameOk(g, m.frames[m.stack[j]], notes[m.stack[j]]);
    }
    SizesSet(m.stack, notes, notes', c);
  }

  lemma InputInv<S(!new), V(!new)>(g: Program<S, V>, m: Machine<S, V>, notes: seq<Note<V>>, v: V, c: nat)
    returns (notes': seq<Note<V>>)
    requires Inv(g, m, notes, v) && Polling(m, notes, c)
    requires g.step(m.frames[m.stack[c]].future).Input?
    ensures var a := g.step(m.frames[m.stack[c]].future);
            var m' := SetFuture(m, m.stack[c], a.got(g.input(a.i)));
            && Inv(g, m', notes', v) && Polling(m', notes', c) && Sizes(m'.stack, notes') < Sizes(m.stack, notes)
  {
    var id := m.stack[c];
    var a := g.step(m.frames[id].future);
    var m' := SetFuture(m, id, a.got(g.input(a.i)));
    assert FrameOk(g, m.frames[id], notes[id]);
    notes' := notes[id := Note(notes[id].env, notes[id].p.rest, notes[id].v)];
    forall j | 0 <= j < |m'.stack| ensures FrameOk(g, m'.frames[m'.stack[j]], notes'[m'.stack[j]]) {
      assert FrameOk(g, m.frames[m.stack[j]], notes[m.stack[j]]);
    }
    InputChildren(m, m', notes, notes');
    SizesSet(m.stack, notes, notes', c);
  }

  /* Neither outputs nor what children will return has changed. */
  lemma InputChildren<S, V>(m: Machine<S, V>, m': Machine<S, V>, notes: seq<Note<V>>, notes': seq<Note<V>>)
    requires StackOk(m) && |notes| == |m.frames| && ChildrenOk(m, notes)
    requires m'.stack == m.stack && |m'.frames| == |m.frames| == |notes'|
    requires forall x | 0 <= x < |m.frames| ::
               m'.frames[x].output == m.frames[x].output && notes'[x].env == notes[x].env && notes'[x].v == notes[x].v
    ensures ChildrenOk(m', notes')
  {
    forall i, h | 0 <= i < |m'.stack| && h in notes'[m'.stack[i]].env ensures ChildOk(m', notes', i, h) {
      assert ChildOk(m, notes, i, h);
    }
  }

  // ---------------------------------------------------------------- returning

  /* A frame that returns is the top of the stack: the popped frame is the one just polled. */
  lemma ReturnsOnTop<S(!new), V(!new)>(g: Program<S, V>, m: Machine<S, V>, notes: seq<Note<V>>, v: V, c: nat)
    requires Inv(g, m, notes, v) && Polling(m, notes, c)
    requires g.step(m.frames[m.stack[c]].future).Finish?
    ensures c == |m.stack| - 1
    ensures g.step(m.frames[m.stack[c]].future).v == notes[m.stack[c]].v
  {
    AboveIsChild(m, notes, c);
    assert FrameOk(g, m.frames[m.stack[c]], notes[m.stack[c]]);
  }

  lemma AboveIsChild<S, V>(m: Machine<S, V>, notes: seq<Note<V>>, c: nat)
    requires StackOk(m) && |notes| == |m.frames| && Polling(m, notes, c)
    ensures c + 1 < |m.stack| ==> m.stack[c + 1] in notes[m.stack[c]].env
  {
  }

  lemma ReturnChild<S, V>(m: Machine<S, V>, notes: seq<Note<V>>, id: nat, v: V, i: nat, h: nat)
    requires StackOk(m) && |notes| == |m.frames| && ChildrenOk(m, notes)
    requires m.stack != [] && id == m.stack[|m.stack| - 1] && v == notes[id].v && StackOk(Returned(m, id, v))
    requires i < |m.stack| - 1 && h in notes[m.stack[i]].env
    ensures ChildOk(Returned(m, id, v), notes, i, h)
  {
    var m' := Returned(m, id, v);
    assert m.stack == m'.stack + [id];
    assert ChildOk(m, notes, i, h);
    assert m.stack[i + 1..] == m'.stack[i + 1..] + [id];
    if h != id && h in m.stack { assert h in m'.stack[i + 1..]; }
  }

  lemma ReturnChildren<S, V>(m: Machine<S, V>, notes: seq<Note<V>>, id: nat, v: V)
    requires StackOk(m) && |notes| == |m.frames| && ChildrenOk(m, notes)
    requires m.stack != [] && id == m.stack[|m.stack| - 1] && v == notes[id].v
    ensures StackOk(Returned(m, id, v)) && ChildrenOk(Returned(m, id, v), notes)
  {
    var m' := Returned(m, id, v);
    assert m.stack == m'.stack + [id];
    forall i, h | 0 <= i < |m'.stack| && h in notes[m'.stack[i]].env ensures ChildOk(m', notes, i, h) {
      ReturnChild(m, notes, id, v, i, h);
    }
  }

  lemma ReturnInv<S(!new), V(!new)>(g: Program<S, V>, m: Machine<S, V>, notes: seq<Note<V>>, v: V, c: nat)
    requires Inv(g, m, notes, v) && Polling(m, notes, c)
    requires g.step(m.frames[m.stack[c]].future).Finish?
    ensures c == |m.stack| - 1
    ensures var a := g.step(m.frames[m.stack[c]].future);
            var m' := Returned(m, m.stack[c], a.v);
            && Inv(g, m', notes, v) && Sizes(m'.stack, notes) < Sizes(m.stack, notes)
  {
    var id := m.stack[c];
    ReturnsOnTop(g, m, notes, v, c);
    var m' := Returned(m, id, notes[id].v);
    assert m.stack == m'.stack + [id];
    forall j | 0 <= j < |m'.stack| ensures FrameOk(g, m'.frames[m'.stack[j]], notes[m'.stack[j]]) {
      assert FrameOk(g, m.frames[m.stack[j]], notes[m.stack[j]]);
    }
    ReturnChildren(m, notes, id, notes[id].v);
    assert Size(notes[id].p) > 0;
  }

  // ---------------------------------------------------------------- the trampoline

  /* The frame at position c waits for an outside value that is not there. */
  predicate Stalled<S, V>(g: Program<S, V>, m: Machine<S, V>, c: nat, avail: set<nat>) {
    && c < |m.stack| && m.stack[c] < |m.frames|
    && var a := g.step(m.frames[m.stack[c]].future);
       a.Input? && a.i !in avail
  }

  ghost predicate SameUpTo(a: seq<nat>, b: seq<nat>, c: nat) {
    c < |a| <= |b| && forall j | 0 <= j <= c :: b[j] == a[j]
  }

  lemma SameTop<S, V>(m: Machine<S, V>, c: nat)
    requires StackOk(m) && c < |m.stack| && m.stack[|m.stack| - 1] == m.stack[c]
    ensures |m.stack| == c + 1
  {
  }

  class Recursor<S(!new), V(!new)> {
    var frames: seq<Frame<S, V>>
    var stack: seq<nat>

    ghost function Model(): Machine<S, V>
      reads this
    {
      Machine(frames, stack)
    }

    /* `Recursor::new` and one `spawn`. */
    constructor (root: S)
      ensures Model() == Machine([Frame(root, None)], [0])
    {
      frames, stack := [Frame(root, None)], [0];
    }

    /* One action of the frame that is being polled, and whether it goes on. */
    method Advance(g: Program<S, V>, avail: set<nat>, c: nat, ghost notes: seq<Note<V>>, ghost v: V)
      returns (more: bool, ghost notes': seq<Note<V>>)
      requires Inv(g, Model(), notes, v) && Polling(Model(), notes, c)
      requires !g.step(frames[stack[c]].future).Finish?
      modifies this
      ensures more ==>
                && Inv(g, Model(), notes', v) && Polling(Model(), notes', c)
                && Sizes(stack, notes') < Sizes(old(stack), notes)
                && SameUpTo(old(stack), stack, c)
      ensures !more ==> Model() == old(Model()) && notes' == notes
      ensures !more && |stack| == c + 1 ==> Stalled(g, Model(), c, avail)
    {
      var id := stack[c];
      notes' := notes;
      ghost var m := Model();
      match g.step(frames[id].future) {
        case Finish(_) =>
        case Spawn(child, next) =>
          notes' := SpawnInv(g, m, notes, v, c);
          var h := |frames|;
          frames := frames[id := frames[id].(future := next(h))] + [Frame(child, None)];
          stack := stack + [h];
          assert Model() == Spawned(m, id, child, next(h));
        case Await(h, resume) =>
          AwaitedChild(g, m, notes, v, c);
          if frames[h].output.None? {
            return false, notes;
          }
          notes' := TakeInv(g, m, notes, v, c);
          var w := frames[h].output.value;
          frames := frames[h := frames[h].(output := None)];
          frames := frames[id := frames[id].(future := resume(w))];
          assert Model() == Taken(m, id, h, resume(w));
        case Input(i, got) =>
          if i !in avail {
            return false, notes;
          }
          notes' := InputInv(g, m, notes, v, c);
          frames := frames[id := frames[id].(future := got(g.input(i)))];
          assert Model() == SetFuture(m, id, got(g.input(i)));
      }
      more := true;
    }

    /* `Frame::poll` of the frame on top: its future runs until it returns, which fills its output,
       or until it has to wait. `avail` are the outside values that are there. */
    method PollFrame(g: Program<S, V>, avail: set<nat>, c: nat, ghost notes: seq<Note<V>>, ghost v: V)
      returns (ready: bool, ghost notes': seq<Note<V>>)
      requires Inv(g, Model(), notes, v) && c == |stack| - 1
      modifies this
      ensures ready ==> && stack == old(stack) && |notes'| == |frames| && Inv(g, Machine(frames, stack[..c]), notes', v)
                        && Sizes(stack[..c], notes') < Sizes(stack, notes)
      ensures !ready ==> && Inv(g, Model(), notes', v) && Sizes(stack, notes') <= Sizes(old(stack), notes)
                         && |stack| > c && stack[c] == old(stack[c])
      ensures !ready && |stack| == c + 1 ==> Stalled(g, Model(), c, avail)
      ensures !ready && |stack| > c + 1 ==> Sizes(stack, notes') < Sizes(old(stack), notes)
    {
      notes' := notes;
      while !g.step(frames[stack[c]].future).Finish?
        invariant Inv(g, Model(), notes', v) && Polling(Model(), notes', c)
        invariant Sizes(stack, notes') <= Sizes(old(stack), notes)
        invariant SameUpTo(old(stack), stack, c)
        invariant |stack| > c + 1 ==> Sizes(stack, notes') < Sizes(old(stack), notes)
        decreases Sizes(stack, notes')
      {
        var more;
        more, notes' := Advance(g, avail, c, notes', v);
        if !more {
          return false, notes';
        }
      }
      var id, x := stack[c], g.step(frames[stack[c]].future).v;
      ReturnInv(g, Model(), notes', v, c);
      assert stack == old(stack) && |stack| - 1 == c;
      assert Returned(Model(), id, x).stack == stack[..c];
      frames := frames[id := frames[id].(output := Some(x))];
      ready := true;
    }

    /* `Recursor::poll`. When it returns Ready the root has the result of direct recursion; when it
       returns Pending, the frame on top waits for an outside value that is not there. */
    method Poll(g: Program<S, V>, avail: set<nat>, ghost notes: seq<Note<V>>, ghost v: V)
      returns (ready: bool, ghost notes': seq<Note<V>>)
      requires Inv(g, Model(), notes, v)
      modifies this
      ensures Inv(g, Model(), notes', v)
      ensures ready ==> stack == [] && frames[0].output == Some(v)
      ensures !ready ==> stack != [] && Stalled(g, Model(), |stack| - 1, avail)
    {
      notes' := notes;
      while |stack| > 0
        invariant Inv(g, Model(), notes', v)
        decreases Sizes(stack, notes')
      {
        var c := |stack| - 1;
        var top, done := stack[c], false;
        done, notes' := PollFrame(g, avail, c, notes', v);
        var top2 := stack[|stack| - 1];
        if done {
          assert top == top2;
          stack := stack[..c];
        } else if top == top2 {
          SameTop(Model(), c);
          return false, notes';
        }
      }
      ready := true;
    }
  }

  /* The recursor with one spawned computation, when direct recursion gives v. */
  lemma StartInv<S(!new), V(!new)>(g: Program<S, V>, root: S, p: Proof<V>, v: V)
    requires Evals(g, root, map[], p, v)
    ensures Inv(g, Machine([Frame(root, None)], [0]), [Note(map[], p, v)], v)
  {
    var m, notes := Machine([Frame(root, None)], [0]), [Note(map[], p, v)];
    assert FrameOk(g, m.frames[0], notes[0]);
  }

  /* Everything that a future may await from outside is there. */
  ghost predicate Supplied<S(!new), V(!new)>(g: Program<S, V>, avail: set<nat>) {
    forall s :: g.step(s).Input? ==> g.step(s).i in avail
  }

  /* Trampolining computes what direct recursion computes: however often the recursor is polled and
     whatever is there at each poll, the result is that of direct recursion once it is Ready, and it
     is Ready when nothing is missing. */
  method Trampoline<S(!new), V(!new)>(g: Program<S, V>, root: S, polls: seq<set<nat>>, ghost p: Proof<V>, ghost v: V)
    returns (result: Option<V>)
    requires Evals(g, root, map[], p, v)
    ensures result.Some? ==> result.value == v
    ensures polls != [] && Supplied(g, polls[|polls| - 1]) ==> result.Some?
  {
    StartInv(g, root, p, v);
    var r := new Recursor(root);
    ghost var notes := [Note(map[], p, v)];
    for i := 0 to |polls|
      invariant Inv(g, r.Model(), notes, v)
      invariant i > 0 ==> !Supplied(g, polls[i - 1])
    {
      var ready;
      ready, notes := r.Poll(g, polls[i], notes, v);
      if ready {
        return r.frames[0].output;
      }
    }
    result := None;
  }

  // ---------------------------------------------------------------- the Fibonacci test

  function Fib(n: nat): nat { if n < 2 then n else Fib(n - 1) + Fib(n - 2) }

  /* The async block of `fibonacci_rec` (src/util/recursor.rs:110-120), cut at its awaits. */
  datatype FibState =
    | Begin(n: nat)
    | First(n: nat, h: nat)
    | Second(n: nat, a: nat)
    | Sum(a: nat, h: nat)
    | Value(v: nat)

  function FibStep(s: FibState): Action<FibState, nat> {
    match s
    case Begin(n) => if n < 2 then Finish(n) else Spawn(Begin(n - 1), h => First(n, h))
    case First(n, h) => Await(h, a => Second(n, a))
    case Second(n, a) => if n < 2 then Finish(a) else Spawn(Begin(n - 2), h => Sum(a, h))
    case Sum(a, h) => Await(h, b => Value(a + b))
    case Value(v) => Finish(v)
  }

  function FibProgram(): Program<FibState, nat> { Program(FibStep, i => 0) }

  lemma SumEvals(a: nat, b: nat, h: nat)
    ensures Evals(FibProgram(), Sum(a, h), map[][h := b], Then(Return), a + b)
  {
    assert map[][h := b] - {h} == map[];
    assert Evals(FibProgram(), Value(a + b), map[], Return, a + b);
  }

  lemma SecondEvals(n: nat, a: nat, b: nat, v: nat, p: Proof<nat>) returns (q: Proof<nat>)
    requires n >= 2 && v == a + b && Evals(FibProgram(), Begin(n - 2), map[], p, b)
    ensures Evals(FibProgram(), Second(n, a), map[], q, v)
  {
    q := Called(p, b, Then(Return));
    forall h: nat { SumEvals(a, b, h); }
  }

  lemma FirstEvals(n: nat, a: nat, v: nat, rest: Proof<nat>, h: nat)
    requires n >= 2 && Evals(FibProgram(), Second(n, a), map[], rest, v)
    ensures Evals(FibProgram(), First(n, h), map[][h := a], Then(rest), v)
  {
    assert map[][h := a] - {h} == map[];
  }

  lemma BeginEvals(n: nat, a: nat, v: nat, p: Proof<nat>, rest: Proof<nat>) returns (q: Proof<nat>)
    requires n >= 2 && Evals(FibProgram(), Begin(n - 1), map[], p, a)
    requires Evals(FibProgram(), Second(n, a), map[], rest, v)
    ensures Evals(FibProgram(), Begin(n), map[], q, v)
  {
    q := Called(p, a, Then(rest));
    forall h: nat { FirstEvals(n, a, v, rest, h); }
  }

  lemma {:induction false} FibEvals(n: nat) returns (p: Proof<nat>)
    ensures Evals(FibProgram(), Begin(n), map[], p, Fib(n))
  {
    if n < 2 {
      p := Return;
    } else {
      var p1 := FibEvals(n - 1);
      var p2 := FibEvals(n - 2);
      var a, b, v := Fib(n - 1), Fib(n - 2), Fib(n);
      assert v == a + b;
      var rest := SecondEvals(n, a, b, v, p2);
      p := BeginEvals(n, a, v, p1, rest);
    }
  }

  /* `block_on(recursor)` gives the Fibonacci number. */
  method FibTrampoline(n: nat) returns (result: nat)
    ensures result == Fib(n)
  {
    ghost var p := FibEvals(n);
    var r := Trampoline(FibProgram(), Begin(n), [{}], p, Fib(n));
    result := r.value;
  }
}
