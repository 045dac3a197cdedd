/**
 The reference-counted free list of src/util/freelist.rs. Blocks are numbered instead of
 addressed. What the rest of the program holds, its live `Frc` handles, is part of the state, so
 that the counts can be compared with it; a handle remembers the `alloc` call it comes from and
 the value it was given there.
 */
module FreeLists {
  import opened Wrappers

  datatype Block<T> = Block(refcount: nat, value: T)

  datatype Handle<T> = Handle(block: nat, birth: nat, value: T)

  datatype Pool<T> = Pool(free: seq<nat>, blocks: seq<Block<T>>)

  /* `FreeList::alloc`: the last freed block is used again, with the refcount it was left with. */
  function Allocated<T>(p: Pool<T>, v: T): (Pool<T>, nat)
    requires forall i | 0 <= i < |p.free| :: p.free[i] < |p.blocks|
  {
    if p.free == [] then (p.(blocks := p.blocks + [Block(0, v)]), |p.blocks|)
    else
      var b := p.free[|p.free| - 1];
      (Pool(p.free[..|p.free| - 1], p.blocks[b := p.blocks[b].(value := v)]), b)
  }

  /* `Frc::clone`. */
  function Cloned<T>(p: Pool<T>, b: nat): Pool<T>
    requires b < |p.blocks|
  {
    p.(blocks := p.blocks[b := p.blocks[b].(refcount := p.blocks[b].refcount + 1)])
  }

  /* `Frc::drop`. */
  function Dropped<T>(p: Pool<T>, b: nat): Pool<T>
    requires b < |p.blocks|
  {
    if p.blocks[b].refcount > 0 then p.(blocks := p.blocks[b := p.blocks[b].(refcount := p.blocks[b].refcount - 1)])
    else p.(free := p.free + [b])
  }

  // ---------------------------------------------------------------- programs that use the list

  datatype State<T> = State(pool: Pool<T>, handles: seq<Handle<T>>, births: nat)

  datatype Op<T> = Alloc(v: T) | Clone(i: nat) | Drop(i: nat)

  function HandlesOf<T>(hs: seq<Handle<T>>, b: nat): nat {
    if hs == [] then 0 else HandlesOf(hs[..|hs| - 1], b) + if hs[|hs| - 1].block == b then 1 else 0
  }

  predicate Contains(q: seq<nat>, b: nat) { exists i :: 0 <= i < |q| && q[i] == b }

  /* A block with live handles counts all but one of them and is not on the free list; a block
     without handles is on the free list once. */
  predicate BlockOk<T>(s: State<T>, b: nat)
    requires b < |s.pool.blocks|
  {
    var n := HandlesOf(s.handles, b);
    if n == 0 then s.pool.blocks[b].refcount == 0 && Contains(s.pool.free, b)
    else s.pool.blocks[b].refcount == n - 1 && !Contains(s.pool.free, b)
  }

  predicate HandleOk<T(==)>(s: State<T>, h: Handle<T>) {
    h.block < |s.pool.blocks| && h.birth < s.births && s.pool.blocks[h.block].value == h.value
  }

  ghost predicate Inv<T>(s: State<T>) {
    && Distinct(s.pool.free)
    && (forall i | 0 <= i < |s.pool.free| :: s.pool.free[i] < |s.pool.blocks|)
    && (forall b | 0 <= b < |s.pool.blocks| :: BlockOk(s, b))
    && (forall i | 0 <= i < |s.handles| :: HandleOk(s, s.handles[i]))
    && (forall i, j | 0 <= i < |s.handles| && 0 <= j < |s.handles| ::
          s.handles[i].block == s.handles[j].block <==> s.handles[i].birth == s.handles[j].birth)
  }

  /* A program can clone and drop the handles it holds. */
  predicate Possible<T>(s: State<T>, op: Op<T>) {
    match op
    case Alloc(_) => true
    case Clone(i) => i < |s.handles|
    case Drop(i) => i < |s.handles|
  }

  ghost function Next<T>(s: State<T>, op: Op<T>): State<T>
    requires Inv(s) && Possible(s, op)
  {
    match op
    case Alloc(v) =>
      var (p, b) := Allocated(s.pool, v);
      State(p, s.handles + [Handle(b, s.births, v)], s.births + 1)
    case Clone(i) =>
      assert HandleOk(s, s.handles[i]);
      s.(pool := Cloned(s.pool, s.handles[i].block), handles := s.handles + [s.handles[i]])
    case Drop(i) =>
      assert HandleOk(s, s.handles[i]);
      s.(pool := Dropped(s.pool, s.handles[i].block), handles := s.handles[..i] + s.handles[i + 1..])
  }

  // ---------------------------------------------------------------- counting handles

  lemma HandlesPush<T>(hs: seq<Handle<T>>, h: Handle<T>, b: nat)
    ensures HandlesOf(hs + [h], b) == HandlesOf(hs, b) + if h.block == b then 1 else 0
  {
    assert (hs + [h])[..|hs|] == hs;
  }

  lemma {:induction false} HandlesAppend<T>(a: seq<Handle<T>>, c: seq<Handle<T>>, b: nat)
    ensures HandlesOf(a + c, b) == HandlesOf(a, b) + HandlesOf(c, b)
  {
    if c == [] {
      assert a + c == a;
    } else {
      assert (a + c)[..|a + c| - 1] == a + c[..|c| - 1];
      HandlesAppend(a, c[..|c| - 1], b);
    }
  }

  lemma HandlesRemove<T>(hs: seq<Handle<T>>, i: nat, b: nat)
    requires i < |hs|
    ensures HandlesOf(hs, b) == HandlesOf(hs[..i] + hs[i + 1..], b) + if hs[i].block == b then 1 else 0
  {
    assert hs == (hs[..i] + [hs[i]]) + hs[i + 1..];
    HandlesPush(hs[..i], hs[i], b);
    HandlesAppend(hs[..i] + [hs[i]], hs[i + 1..], b);
    HandlesAppend(hs[..i], hs[i + 1..], b);
  }

  lemma {:induction false} HandlesSome<T>(hs: seq<Handle<T>>, b: nat)
    ensures HandlesOf(hs, b) > 0 <==> exists i :: 0 <= i < |hs| && hs[i].block == b
  {
    if hs != [] {
      HandlesSome(hs[..|hs| - 1], b);
      if i :| 0 <= i < |hs| && hs[i].block == b && i < |hs| - 1 { assert hs[..|hs| - 1][i].block == b; }
    }
  }

  // ---------------------------------------------------------------- every operation keeps it

  /* `alloc` never returns a block that some handle still refers to. */
  lemma AllocFresh<T>(s: State<T>, v: T)
    requires Inv(s)
    ensures var b := Allocated(s.pool, v).1;
            HandlesOf(s.handles, b) == 0 && forall i | 0 <= i < |s.handles| :: s.handles[i].block != b
  {
    var b := Allocated(s.pool, v).1;
    HandlesSome(s.handles, b);
    if s.pool.free == [] {
      forall i | 0 <= i < |s.handles| ensures s.handles[i].block != b { assert HandleOk(s, s.handles[i]); }
    } else {
      assert BlockOk(s, b);
    }
  }

  lemma AllocBlock<T>(s: State<T>, v: T, x: nat)
    requires Inv(s) && x < |Next(s, Alloc(v)).pool.blocks|
    ensures BlockOk(Next(s, Alloc(v)), x)
  {
    var s', b := Next(s, Alloc(v)), Allocated(s.pool, v).1;
    AllocFresh(s, v);
    HandlesPush(s.handles, s'.handles[|s.handles|], x);
    if x < |s.pool.blocks| {
      assert BlockOk(s, x);
      if x != b && Contains(s.pool.free, x) {
        var i :| 0 <= i < |s.pool.free| && s.pool.free[i] == x;
        if s.pool.free != [] { assert i < |s.pool.free| - 1 && s'.pool.free[i] == x; }
      }
    }
  }

  lemma AllocInv<T>(s: State<T>, v: T)
    requires Inv(s)
    ensures Inv(Next(s, Alloc(v)))
  {
    var s', b := Next(s, Alloc(v)), Allocated(s.pool, v).1;
    AllocFresh(s, v);
    forall x | 0 <= x < |s'.pool.blocks| ensures BlockOk(s', x) { AllocBlock(s, v, x); }
    forall i | 0 <= i < |s'.handles| ensures HandleOk(s', s'.handles[i]) {
      if i < |s.handles| { assert HandleOk(s, s.handles[i]); }
    }
    forall i | 0 <= i < |s.handles| ensures s.handles[i].birth != s.births { assert HandleOk(s, s.handles[i]); }
  }

  lemma CloneInv<T>(s: State<T>, i: nat)
    requires Inv(s) && i < |s.handles|
    ensures Inv(Next(s, Clone(i)))
  {
    var s' := Next(s, Clone(i));
    assert HandleOk(s, s.handles[i]);
    HandlesSome(s.handles, s.handles[i].block);
    forall x | 0 <= x < |s'.pool.blocks| ensures BlockOk(s', x) {
      HandlesPush(s.handles, s.handles[i], x);
      assert BlockOk(s, x);
    }
    forall j | 0 <= j < |s'.handles| ensures HandleOk(s', s'.handles[j]) {
      assert HandleOk(s, if j < |s.handles| then s.handles[j] else s.handles[i]);
    }
  }

  lemma DropBlocks<T>(s: State<T>, i: nat, x: nat)
    requires Inv(s) && i < |s.handles| && x < |s.pool.blocks|
    ensures BlockOk(Next(s, Drop(i)), x)
  {
    var s', b := Next(s, Drop(i)), s.handles[i].block;
    assert HandleOk(s, s.handles[i]);
    HandlesSome(s.handles, b);
    HandlesRemove(s.handles, i, x);
    assert BlockOk(s, x);
    if Contains(s.pool.free, x) {
      var k :| 0 <= k < |s.pool.free| && s.pool.free[k] == x;
      assert s'.pool.free[k] == x;
    }
    if x == b && s.pool.blocks[b].refcount == 0 { assert s'.pool.free[|s.pool.free|] == b; }
  }

  lemma DropInv<T>(s: State<T>, i: nat)
    requires Inv(s) && i < |s.handles|
    ensures Inv(Next(s, Drop(i)))
  {
    var s', b := Next(s, Drop(i)), s.handles[i].block;
    assert HandleOk(s, s.handles[i]);
    HandlesSome(s.handles, b);
    assert BlockOk(s, b);
    forall x | 0 <= x < |s'.pool.blocks| ensures BlockOk(s', x) { DropBlocks(s, i, x); }
    forall j | 0 <= j < |s'.handles| ensures s'.handles[j] == s.handles[if j < i then j else j + 1] { }
    forall j | 0 <= j < |s'.handles| ensures HandleOk(s', s'.handles[j]) {
      assert HandleOk(s, s.handles[if j < i then j else j + 1]);
    }
  }

  // ---------------------------------------------------------------- whole programs

  lemma NextInv<T>(s: State<T>, op: Op<T>)
    requires Inv(s) && Possible(s, op)
    ensures Inv(Next(s, op))
  {
    match op
    case Alloc(v) => AllocInv(s, v);
    case Clone(i) => CloneInv(s, i);
    case Drop(i) => DropInv(s, i);
  }

  function Start<T>(): State<T> { State(Pool([], []), [], 0) }

  ghost predicate Run<T>(s: State<T>, ops: seq<Op<T>>)
    requires Inv(s)
    decreases |ops|
  {
    ops == [] || (Possible(s, ops[0]) && (NextInv(s, ops[0]); Run(Next(s, ops[0]), ops[1..])))
  }

  ghost function Last<T>(s: State<T>, ops: seq<Op<T>>): (r: State<T>)
    requires Inv(s) && Run(s, ops)
    ensures Inv(r)
    decreases |ops|
  {
    if ops == [] then s else NextInv(s, ops[0]); Last(Next(s, ops[0]), ops[1..])
  }

  /* A program that starts with an empty list is in state s after the operations. */
  ghost predicate Reached<T>(ops: seq<Op<T>>, s: State<T>) {
    Run(Start(), ops) && s == Last(Start(), ops)
  }

  /* Free-list safety, for every sequence of alloc, clone and drop: each block counts its live
     handles or is free; every live handle still refers to the value it was allocated with; two live
     handles refer to the same block exactly when they come from the same `alloc`, so that a block's
     address identifies it; and the next `alloc` takes none of the blocks in use. */
  lemma Safety<T>(ops: seq<Op<T>>, s: State<T>, v: T)
    requires Reached(ops, s)
    ensures Distinct(s.pool.free)
    ensures forall b | 0 <= b < |s.pool.blocks| :: BlockOk(s, b)
    ensures forall i | 0 <= i < |s.handles| :: HandleOk(s, s.handles[i])
    ensures forall i, j | 0 <= i < |s.handles| && 0 <= j < |s.handles| ::
              s.handles[i].block == s.handles[j].block <==> s.handles[i].birth == s.handles[j].birth
    ensures forall i | 0 <= i < |s.handles| :: s.handles[i].block != Allocated(s.pool, v).1
  {
    AllocFresh(s, v);
  }

  // ---------------------------------------------------------------- the mutable list

  class FreeList<T> {
    var free: seq<nat>
    var blocks: seq<Block<T>>

    ghost function Model(): Pool<T>
      reads this
    {
      Pool(free, blocks)
    }

    constructor ()
      ensures Model() == Pool([], [])
    {
      free, blocks := [], [];
    }

    method Alloc(value: T) returns (b: nat)
      requires forall i | 0 <= i < |free| :: free[i] < |blocks|
      modifies this
      ensures b < |blocks| && blocks[b].value == value
      ensures old(free) != [] ==>
                && b < |old(blocks)| && old(free) == free + [b]
                && blocks[b].refcount == old(blocks)[b].refcount
      ensures old(free) == [] ==> free == [] && b == |old(blocks)| && blocks[b].refcount == 0
      ensures forall x | 0 <= x < |old(blocks)| && x != b :: x < |blocks| && blocks[x] == old(blocks)[x]
      ensures (Model(), b) == Allocated(old(Model()), value)
    {
      if free == [] {
        b := |blocks|;
        blocks := blocks + [Block(0, value)];
      } else {
        b := free[|free| - 1];
        free := free[..|free| - 1];
        blocks := blocks[b := blocks[b].(value := value)];
      }
    }

    method Clone(b: nat)
      requires b < |blocks|
      modifies this
      ensures free == old(free) && |blocks| == |old(blocks)|
      ensures blocks[b] == Block(old(blocks)[b].refcount + 1, old(blocks)[b].value)
      ensures forall x | 0 <= x < |blocks| && x != b :: blocks[x] == old(blocks)[x]
      ensures Model() == Cloned(old(Model()), b)
    {
      blocks := blocks[b := blocks[b].(refcount := blocks[b].refcount + 1)];
    }

    method Drop(b: nat)
      requires b < |blocks|
      modifies this
      ensures |blocks| == |old(blocks)| && blocks[b].value == old(blocks)[b].value
      ensures old(blocks)[b].refcount == 0 ==> free == old(free) + [b] && blocks[b].refcount == 0
      ensures old(blocks)[b].refcount > 0 ==> free == old(free) && blocks[b].refcount == old(blocks)[b].refcount - 1
      ensures forall x | 0 <= x < |blocks| && x != b :: blocks[x] == old(blocks)[x]
      ensures Model() == Dropped(old(Model()), b)
    {
      var count := blocks[b].refcount;
      if count > 0 {
        blocks := blocks[b := blocks[b].(refcount := count - 1)];
      } else {
        free := free + [b];
      }
    }
  }
}
