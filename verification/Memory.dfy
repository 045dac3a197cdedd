/**
 The byte store of src/memory.rs: an interval map from addresses to store logs, where each
 log keeps the clipped map of the logs it replaced. Logs are named by their position in
 the order of stores; the source tells them apart by address.
 */
module Memories {
  import opened Wrappers
  import opened Values
  import opened FlatMemory
  import opened RangeMaps
  import Layouts

  datatype LogInner = LogInner(start: nat, value: seq<byte>, pred: Entries<nat>)

  ghost predicate Covered(log: LogInner, k: nat) { log.start <= k < log.start + |log.value| }

  // ---------------------------------------------------------------- the list of stores

  /* The newest of the first n stores that wrote byte k. */
  ghost function LastWriter(logs: seq<LogInner>, n: nat, k: nat): (r: Option<nat>)
    requires n <= |logs|
    ensures r.Some? ==> r.value < n && Covered(logs[r.value], k)
  {
    if n == 0 then None
    else if Covered(logs[n - 1], k) then Some(n - 1)
    else LastWriter(logs, n - 1, k)
  }

  /* All of the first n stores that wrote byte k, newest first. */
  ghost function Writers(logs: seq<LogInner>, n: nat, k: nat): seq<nat>
    requires n <= |logs|
  {
    if n == 0 then []
    else (if Covered(logs[n - 1], k) then [n - 1] else []) + Writers(logs, n - 1, k)
  }

  lemma {:induction false} WritersExact(logs: seq<LogInner>, n: nat, k: nat)
    requires n <= |logs|
    ensures forall id: nat :: id in Writers(logs, n, k) <==> id < n && Covered(logs[id], k)
    ensures forall i, j | 0 <= i < j < |Writers(logs, n, k)| :: Writers(logs, n, k)[i] > Writers(logs, n, k)[j]
  {
    if n > 0 {
      WritersExact(logs, n - 1, k);
      var rest := Writers(logs, n - 1, k);
      assert forall i | 0 <= i < |rest| :: rest[i] in rest;
    }
  }

  lemma {:induction false} WritersHead(logs: seq<LogInner>, n: nat, k: nat)
    requires n <= |logs|
    ensures Writers(logs, n, k) == match LastWriter(logs, n, k)
                                   case None => []
                                   case Some(id) => [id] + Writers(logs, id, k)
  {
    if n > 0 {
      var m := n - 1;
      WritersHead(logs, m, k);
      if !Covered(logs[m], k) { assert Writers(logs, n, k) == [] + Writers(logs, m, k) == Writers(logs, m, k); }
    }
  }

  lemma {:induction false} LastWriterPrefix(logs: seq<LogInner>, log: LogInner, n: nat, k: nat)
    requires n <= |logs|
    ensures LastWriter(logs + [log], n, k) == LastWriter(logs, n, k)
  {
    if n > 0 { LastWriterPrefix(logs, log, n - 1, k); }
  }

  /* Memory after the first n stores, one flat write after another. */
  ghost function Replay(logs: seq<LogInner>, n: nat): Flat
    requires n <= |logs|
  {
    if n == 0 then map[] else Write(Replay(logs, n - 1), logs[n - 1].start, logs[n - 1].value)
  }

  lemma {:induction false} ReplayPrefix(logs: seq<LogInner>, log: LogInner, n: nat)
    requires n <= |logs|
    ensures Replay(logs + [log], n) == Replay(logs, n)
  {
    if n > 0 {
      ReplayPrefix(logs, log, n - 1);
      assert (logs + [log])[n - 1] == logs[n - 1];
    }
  }

  lemma {:induction false} ReplayAt(logs: seq<LogInner>, n: nat, k: nat)
    requires n <= |logs|
    ensures match LastWriter(logs, n, k)
            case None => k !in Replay(logs, n)
            case Some(id) => k in Replay(logs, n) && Replay(logs, n)[k] == logs[id].value[k - logs[id].start]
  {
    if n > 0 { ReplayAt(logs, n - 1, k); }
  }

  /* The byte of the newest store that covers k, and zero when none does. */
  ghost function NewestByte(logs: seq<LogInner>, k: nat): byte {
    match LastWriter(logs, |logs|, k)
    case None => 0
    case Some(id) => logs[id].value[k - logs[id].start]
  }

  lemma ReadAt(m: Flat, ptr: nat, n: nat, k: nat, a: nat)
    requires k < n && a == ptr + k
    ensures Read(m, ptr, n)[k] == if a in m then m[a] else 0
  {
  }

  /* What a load reads: for each byte the newest store that covers it, and zero without one. */
  lemma ReadNewest(logs: seq<LogInner>, m: Flat, ptr: nat, n: nat, k: nat, a: nat)
    requires m == Replay(logs, |logs|) && k < n && a == ptr + k
    ensures Read(m, ptr, n)[k] == NewestByte(logs, a)
  {
    ReplayAt(logs, |logs|, a);
    ReadAt(m, ptr, n, k, a);
  }

  /* The newest store that covers k, without recursion. */
  lemma {:induction false} LastWriterExact(logs: seq<LogInner>, n: nat, k: nat)
    requires n <= |logs|
    ensures match LastWriter(logs, n, k)
            case None => forall id | 0 <= id < n :: !Covered(logs[id], k)
            case Some(id) => id < n && Covered(logs[id], k) && forall j | id < j < n :: !Covered(logs[j], k)
  {
    if n > 0 { LastWriterExact(logs, n - 1, k); }
  }

  // ---------------------------------------------------------------- the invariant

  /* The interval map names, for every byte, the newest of the first n stores to it. */
  ghost predicate Current(cells: Entries<nat>, logs: seq<LogInner>, n: nat)
    requires n <= |logs|
  {
    forall k: nat :: At(cells, k) == LastWriter(logs, n, k)
  }

  /* A log's predecessor map names, for every byte it wrote, the store it replaced there. */
  ghost predicate PredExact(logs: seq<LogInner>, id: nat)
    requires id < |logs|
  {
    && Valid(logs[id].pred)
    && forall k: nat :: At(logs[id].pred, k) == if Covered(logs[id], k) then LastWriter(logs, id, k) else None
  }

  ghost predicate PredsExact(logs: seq<LogInner>) {
    forall id | 0 <= id < |logs| :: PredExact(logs, id)
  }

  ghost predicate Consistent(cells: Entries<nat>, logs: seq<LogInner>) {
    && Valid(cells)
    && Separated(cells)
    && Current(cells, logs, |logs|)
    && PredsExact(logs)
  }

  /* Every stored interval lies inside the extent of its log, even after partial overwrites:
     the slice bounds of `load_impl`. */
  lemma CellInExtent(cells: Entries<nat>, logs: seq<LogInner>, e: nat)
    requires Consistent(cells, logs) && e in cells
    ensures cells[e].value < |logs|
    ensures logs[cells[e].value].start <= cells[e].start
    ensures e <= logs[cells[e].value].start + |logs[cells[e].value].value|
  {
    CellCovered(cells, logs, e, cells[e].start);
    CellCovered(cells, logs, e, e - 1);
  }

  lemma CellCovered(cells: Entries<nat>, logs: seq<LogInner>, e: nat, k: nat)
    requires Valid(cells) && Current(cells, logs, |logs|) && Covers(cells, e, k)
    ensures cells[e].value < |logs| && Covered(logs[cells[e].value], k)
  {
    AtIs(cells, e, k);
    assert At(cells, k) == LastWriter(logs, |logs|, k);
  }

  /* The list of stores and the interval map after one more store; `end` and `id` are the end of
     the written range and the name of the new log. */
  ghost function Stored(logs: seq<LogInner>, cells: Entries<nat>, ptr: nat, bs: seq<byte>, end: nat): seq<LogInner> {
    logs + [LogInner(ptr, bs, Collected(Range(cells, ptr, end)))]
  }

  lemma StoreConsistent(cells: Entries<nat>, logs: seq<LogInner>, ptr: nat, bs: seq<byte>, end: nat, id: nat)
    requires end == ptr + |bs| && id == |logs| && Consistent(cells, logs)
    ensures Consistent(Inserted<nat>(cells, ptr, end, id), Stored(logs, cells, ptr, bs, end))
  {
    InsertedValid<nat>(cells, ptr, end, id);
    CellsBelow(cells, logs, id);
    InsertedSeparated<nat>(cells, ptr, end, id);
    StoreCurrent(cells, logs, ptr, bs, end, id);
    StorePreds(cells, logs, ptr, bs, end, id);
  }

  lemma CellsBelow(cells: Entries<nat>, logs: seq<LogInner>, id: nat)
    requires id == |logs| && Valid(cells) && Current(cells, logs, id)
    ensures Unused<nat>(cells, id)
  {
    forall e | e in cells ensures cells[e].value != id {
      assert Covers(cells, e, e - 1);
      CellCovered(cells, logs, e, e - 1);
    }
  }

  lemma StoreCurrent(cells: Entries<nat>, logs: seq<LogInner>, ptr: nat, bs: seq<byte>, end: nat, id: nat)
    requires end == ptr + |bs| && id == |logs| && Valid(cells) && Current(cells, logs, id)
    ensures Current(Inserted<nat>(cells, ptr, end, id), Stored(logs, cells, ptr, bs, end), id + 1)
  {
    var logs' := Stored(logs, cells, ptr, bs, end);
    var cells' := Inserted<nat>(cells, ptr, end, id);
    forall k: nat ensures At(cells', k) == LastWriter(logs', id + 1, k) {
      InsertedAt<nat>(cells, ptr, end, id, k);
      LastWriterPrefix(logs, logs'[id], id, k);
    }
  }

  lemma StorePred(cells: Entries<nat>, logs: seq<LogInner>, ptr: nat, bs: seq<byte>, end: nat, id: nat)
    requires end == ptr + |bs| && id == |logs| && Valid(cells) && Current(cells, logs, id)
    ensures PredExact(Stored(logs, cells, ptr, bs, end), id)
  {
    var logs' := Stored(logs, cells, ptr, bs, end);
    CollectedRange(cells, ptr, end);
    forall k: nat {
      LastWriterPrefix(logs, logs'[id], id, k);
    }
  }

  lemma StorePreds(cells: Entries<nat>, logs: seq<LogInner>, ptr: nat, bs: seq<byte>, end: nat, id: nat)
    requires end == ptr + |bs| && id == |logs| && Valid(cells) && Current(cells, logs, id) && PredsExact(logs)
    ensures PredsExact(Stored(logs, cells, ptr, bs, end))
  {
    var logs' := Stored(logs, cells, ptr, bs, end);
    forall i | 0 <= i < |logs'| ensures PredExact(logs', i) {
      if i < id { PredPrefix(logs, logs'[id], i); } else { StorePred(cells, logs, ptr, bs, end, id); }
    }
  }

  lemma PredPrefix(logs: seq<LogInner>, log: LogInner, id: nat)
    requires id < |logs| && PredExact(logs, id)
    ensures PredExact(logs + [log], id)
  {
    forall k: nat {
      LastWriterPrefix(logs, log, id, k);
    }
  }

  // ---------------------------------------------------------------- write history

  /* Follow the predecessor maps from a log down to the first store to byte k. */
  ghost function Chain(logs: seq<LogInner>, from: Option<nat>, k: nat): seq<nat>
    requires PredsExact(logs)
    requires from.Some? ==> from.value < |logs| && Covered(logs[from.value], k)
    decreases if from.Some? then from.value + 1 else 0
  {
    match from
    case None => []
    case Some(id) =>
      assert PredExact(logs, id);
      [id] + Chain(logs, At(logs[id].pred, k), k)
  }

  lemma {:induction false} ChainFrom(logs: seq<LogInner>, n: nat, k: nat)
    requires n <= |logs|
    requires PredsExact(logs)
    ensures Chain(logs, LastWriter(logs, n, k), k) == Writers(logs, n, k)
  {
    WritersHead(logs, n, k);
    match LastWriter(logs, n, k)
    case None =>
    case Some(id) =>
      assert PredExact(logs, id);
      ChainFrom(logs, id, k);
  }

  /* Write history is exact: the chain from the cell of byte k lists exactly the stores that
     covered k, newest first, each once. */
  lemma HistoryExact(cells: Entries<nat>, logs: seq<LogInner>, k: nat)
    requires Consistent(cells, logs)
    ensures At(cells, k).Some? ==> At(cells, k).value < |logs| && Covered(logs[At(cells, k).value], k)
    ensures var chain := Chain(logs, At(cells, k), k);
            && (forall id: nat :: id in chain <==> id < |logs| && Covered(logs[id], k))
            && (forall i, j | 0 <= i < j < |chain| :: chain[i] > chain[j])
  {
    assert At(cells, k) == LastWriter(logs, |logs|, k);
    ChainFrom(logs, |logs|, k);
    WritersExact(logs, |logs|, k);
  }

  // ---------------------------------------------------------------- allocation

  const HEAP_GUARD: nat := 128

  /* `alloc` from the address `next` on: the block's address and the next free address. */
  function Allocated(next: nat, layout: Layouts.Layout): (nat, nat)
    requires next < Layouts.WORD && 0 < Layouts.ByteAlign(layout) < Layouts.WORD
  {
    var result := Layouts.AlignTo(next, Layouts.ByteAlign(layout));
    (result, result + Layouts.Bytes(layout) + HEAP_GUARD)
  }

  /* The allocation does not run out of addresses. */
  ghost predicate AllocFits(next: nat, layout: Layouts.Layout) {
    Layouts.Ok(layout) && next + Layouts.ByteAlign(layout) + Layouts.Bytes(layout) + HEAP_GUARD < Layouts.WORD
  }

  lemma AllocatedIs(next: nat, layout: Layouts.Layout)
    requires AllocFits(next, layout)
    ensures 0 < Layouts.ByteAlign(layout) < Layouts.WORD
    ensures var (result, next') := Allocated(next, layout);
            && Layouts.Least(result, next, Layouts.ByteAlign(layout))
            && next' == result + Layouts.Bytes(layout) + HEAP_GUARD < Layouts.WORD
  {
    var k := Layouts.ByteAlignPower(layout);
    Layouts.AlignToLeast(next, k);
  }

  ghost predicate AllocsFit(next: nat, layouts: seq<Layouts.Layout>)
    decreases |layouts|
  {
    layouts == [] ||
    (AllocFits(next, layouts[0]) &&
     (AllocatedIs(next, layouts[0]); AllocsFit(Allocated(next, layouts[0]).1, layouts[1..])))
  }

  /* The addresses that a sequence of allocations returns. */
  ghost function Allocs(next: nat, layouts: seq<Layouts.Layout>): (r: seq<nat>)
    requires AllocsFit(next, layouts)
    ensures |r| == |layouts|
    decreases |layouts|
  {
    if layouts == [] then []
    else
      AllocatedIs(next, layouts[0]);
      var (result, next') := Allocated(next, layouts[0]);
      [result] + Allocs(next', layouts[1..])
  }

  /* Every sequence of allocations gives aligned blocks, none below `next`, with at least 128
     unused bytes between any two. */
  lemma {:induction false} AllocsApart(next: nat, layouts: seq<Layouts.Layout>)
    requires AllocsFit(next, layouts)
    ensures var rs := Allocs(next, layouts);
            && (forall i | 0 <= i < |rs| :: next <= rs[i] && Layouts.Multiple(rs[i], Layouts.ByteAlign(layouts[i])))
            && (forall i, j | 0 <= i < j < |rs| :: rs[i] + Layouts.Bytes(layouts[i]) + HEAP_GUARD <= rs[j])
    decreases |layouts|
  {
    if layouts != [] {
      AllocatedIs(next, layouts[0]);
      var (result, next') := Allocated(next, layouts[0]);
      AllocsApart(next', layouts[1..]);
      var rs, rest := Allocs(next, layouts), Allocs(next', layouts[1..]);
      forall i | 0 <= i < |rs| ensures next <= rs[i] && Layouts.Multiple(rs[i], Layouts.ByteAlign(layouts[i])) {
        if i > 0 { assert rs[i] == rest[i - 1]; }
      }
      forall i, j | 0 <= i < j < |rs| ensures rs[i] + Layouts.Bytes(layouts[i]) + HEAP_GUARD <= rs[j] {
        assert rs[j] == rest[j - 1];
        if i > 0 { assert rs[i] == rest[i - 1]; }
      }
    }
  }

  lemma EightTimes(r: nat, byteAlign: nat, align: nat)
    requires Layouts.Multiple(r, byteAlign) && align == 8 * byteAlign
    ensures Layouts.Multiple(8 * r, align)
  {
    var q: nat :| r == q * byteAlign;
    assert 8 * (q * byteAlign) == q * (8 * byteAlign);
  }

  lemma {:induction false} AllocsOk(next: nat, layouts: seq<Layouts.Layout>, i: nat)
    requires AllocsFit(next, layouts) && i < |layouts|
    ensures Layouts.Ok(layouts[i])
    decreases |layouts|
  {
    if i > 0 {
      AllocatedIs(next, layouts[0]);
      AllocsOk(Allocated(next, layouts[0]).1, layouts[1..], i - 1);
    }
  }

  /* The same in the bits of the layouts. */
  lemma AllocsInBits(next: nat, layouts: seq<Layouts.Layout>)
    requires AllocsFit(next, layouts)
    ensures var rs := Allocs(next, layouts);
            && (forall i | 0 <= i < |rs| :: Layouts.Multiple(8 * rs[i], layouts[i].align))
            && (forall i, j | 0 <= i < j < |rs| :: 8 * rs[i] + layouts[i].bits + 8 * 128 <= 8 * rs[j])
  {
    var rs := Allocs(next, layouts);
    AllocsApart(next, layouts);
    forall i | 0 <= i < |rs| ensures Layouts.Multiple(8 * rs[i], layouts[i].align) {
      AllocsOk(next, layouts, i);
      var k := Layouts.ByteAlignPower(layouts[i]);
      EightTimes(rs[i], Layouts.ByteAlign(layouts[i]), layouts[i].align);
    }
  }

  // ---------------------------------------------------------------- the mutable memory

  class Memory {
    const cells: RangeMap<nat>
    var logs: seq<LogInner>
    var next: nat

    ghost predicate Valid()
      reads this, cells
    {
      Consistent(cells.entries, logs)
    }

    /* The flat memory this store stands for. */
    ghost function Bytes(): Flat
      reads this`logs
    {
      Replay(logs, |logs|)
    }

    constructor ()
      ensures Valid() && fresh(cells) && logs == [] && Bytes() == map[] && next == 128
    {
      cells := new RangeMap();
      logs, next := [], 128;
    }

    method Alloc(layout: Layouts.Layout) returns (result: nat)
      requires Valid() && AllocFits(next, layout)
      modifies this`next
      ensures Valid() && Bytes() == old(Bytes())
      ensures Layouts.Least(result, old(next), Layouts.ByteAlign(layout))
      ensures next == result + Layouts.Bytes(layout) + HEAP_GUARD
    {
      AllocatedIs(next, layout);
      result := Layouts.AlignTo(next, Layouts.ByteAlign(layout));
      next := result + Layouts.Bytes(layout) + HEAP_GUARD;
    }

    method StoreImpl(ptr: nat, value: Value)
      requires Valid()
      modifies this`logs, cells
      ensures Valid()
      ensures Bytes() == Write(old(Bytes()), ptr, value.imp)
      ensures |logs| == |old(logs)| + 1 && logs[..|old(logs)|] == old(logs)
      ensures logs[|old(logs)|].start == ptr && logs[|old(logs)|].value == value.imp
    {
      var bs := value.imp;
      var end, id := ptr + |bs|, |logs|;
      var pred := RangeMap.FromIter(Range(cells.entries, ptr, end));
      var log := LogInner(ptr, bs, pred.entries);
      StoreConsistent(cells.entries, logs, ptr, bs, end, id);
      ReplayPrefix(logs, log, id);
      cells.Insert(ptr, end, id);
      logs := logs + [log];
    }

    /* Every byte read is the last one stored there, or zero. */
    method LoadImpl(ptr: nat, bits: nat) returns (result: Value)
      requires Valid()
      ensures result == Value(Read(Bytes(), ptr, ByteLen(bits)), bits)
    {
      var n := ByteLen(bits);
      var buf, end := ZeroBytes(n), ptr + n;
      var ps := Range(cells.entries, ptr, end);
      RangeExact(cells.entries, ptr, end);
      for i := 0 to |ps|
        invariant |buf| == n
        invariant Holds(buf, ps[..i], logs, ptr)
      {
        var Piece(from, to, id) := ps[i];
        PieceInLog(cells.entries, logs, ptr, end, i);
        var log := logs[id];
        CopyHolds(buf, ps, i, logs, ptr);
        buf := buf[..from - ptr] + log.value[from - log.start..to - log.start] + buf[to - ptr..];
      }
      assert ps[..|ps|] == ps;
      forall k | 0 <= k < n ensures buf[k] == ByteAt(Bytes(), ptr + k) {
        LoadedByteFinal(cells.entries, logs, ps, ptr + k);
      }
      assert buf == Read(Bytes(), ptr, n);
      result := Value(buf, bits);
    }
  }

  /* What the buffer holds for address a once the pieces have been copied. */
  ghost function LoadedByte(ps: seq<Piece<nat>>, logs: seq<LogInner>, a: nat): byte {
    match Find(ps, a)
    case None => 0
    case Some(id) => if id < |logs| && Covered(logs[id], a) then logs[id].value[a - logs[id].start] else 0
  }

  ghost predicate Holds(buf: seq<byte>, ps: seq<Piece<nat>>, logs: seq<LogInner>, ptr: nat) {
    forall k | 0 <= k < |buf| :: buf[k] == LoadedByte(ps, logs, ptr + k)
  }

  lemma CopyHolds(buf: seq<byte>, ps: seq<Piece<nat>>, i: nat, logs: seq<LogInner>, ptr: nat)
    requires Sorted(ps) && i < |ps| && ps[i].value < |logs|
    requires ptr <= ps[i].start && ps[i].end <= ptr + |buf|
    requires var log := logs[ps[i].value]; log.start <= ps[i].start && ps[i].end <= log.start + |log.value|
    requires Holds(buf, ps[..i], logs, ptr)
    ensures var Piece(from, to, id) := ps[i];
            var log := logs[id];
            Holds(buf[..from - ptr] + log.value[from - log.start..to - log.start] + buf[to - ptr..],
                  ps[..i + 1], logs, ptr)
  {
    var Piece(from, to, id) := ps[i];
    var log := logs[id];
    var buf' := buf[..from - ptr] + log.value[from - log.start..to - log.start] + buf[to - ptr..];
    forall k | 0 <= k < |buf'| ensures buf'[k] == LoadedByte(ps[..i + 1], logs, ptr + k) {
      LoadedByteStep(ps, logs, i, ptr + k);
      if from <= ptr + k < to {
        assert buf'[k] == log.value[from - log.start..to - log.start][k - (from - ptr)];
      }
    }
  }

  lemma PieceInLog(cells: Entries<nat>, logs: seq<LogInner>, start: nat, end: nat, i: nat)
    requires Consistent(cells, logs) && i < |Range(cells, start, end)|
    ensures var p := Range(cells, start, end)[i];
            && p.value < |logs|
            && logs[p.value].start <= p.start < p.end <= logs[p.value].start + |logs[p.value].value|
  {
    RangeExact(cells, start, end);
    var ps := Range(cells, start, end);
    var p := ps[i];
    FoundCovered(cells, logs, ps, i, p.start);
    FoundCovered(cells, logs, ps, i, p.end - 1);
  }

  lemma FoundCovered(cells: Entries<nat>, logs: seq<LogInner>, ps: seq<Piece<nat>>, i: nat, k: nat)
    requires Current(cells, logs, |logs|) && Sorted(ps) && i < |ps| && ps[i].start <= k < ps[i].end
    requires Find(ps, k) == At(cells, k)
    ensures ps[i].value < |logs| && Covered(logs[ps[i].value], k)
  {
    FindHit(ps, i, k);
    assert At(cells, k) == LastWriter(logs, |logs|, k);
  }

  lemma LoadedByteStep(ps: seq<Piece<nat>>, logs: seq<LogInner>, i: nat, a: nat)
    requires Sorted(ps) && i < |ps| && ps[i].value < |logs|
    requires var log := logs[ps[i].value]; log.start <= ps[i].start && ps[i].end <= log.start + |log.value|
    ensures LoadedByte(ps[..i + 1], logs, a) ==
            if ps[i].start <= a < ps[i].end then logs[ps[i].value].value[a - logs[ps[i].value].start]
            else LoadedByte(ps[..i], logs, a)
  {
    assert ps[..i + 1] == ps[..i] + [ps[i]];
    FindAppend(ps[..i], ps[i], a);
    if ps[i].start <= a < ps[i].end { FindOutside(ps[..i], a, ps[i].start); }
  }

  lemma LoadedByteFinal(cells: Entries<nat>, logs: seq<LogInner>, ps: seq<Piece<nat>>, a: nat)
    requires Consistent(cells, logs) && Find(ps, a) == At(cells, a)
    ensures LoadedByte(ps, logs, a) == ByteAt(Replay(logs, |logs|), a)
  {
    ReplayAt(logs, |logs|, a);
    assert At(cells, a) == LastWriter(logs, |logs|, a);
  }

  lemma {:induction false} FindHit<V>(ps: seq<Piece<V>>, i: nat, k: nat)
    requires Sorted(ps) && i < |ps| && ps[i].start <= k < ps[i].end
    ensures Find(ps, k) == Some(ps[i].value)
  {
    if i > 0 {
      assert ps[0].end <= ps[i].start;
      assert ps[1..][i - 1] == ps[i];
      FindHit(ps[1..], i - 1, k);
    }
  }
}
