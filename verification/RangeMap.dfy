/**
 The interval map of src/util/rangemap.rs: a BTreeMap whose key is the end of an
 interval and whose entry holds the interval's start and its value.
 Keys are natural numbers; the u64 keys of the source are always in range here.
 */
module RangeMaps {
  import opened Wrappers

  datatype Entry<V> = Entry(start: nat, value: V)
  type Entries<V> = map<nat, Entry<V>>
  datatype Piece<V> = Piece(start: nat, end: nat, value: V)

  /* Every interval is non-empty, and a later end means a start at or past the earlier end. */
  ghost predicate Valid<V>(m: Entries<V>) {
    && (forall e | e in m :: m[e].start < e)
    && (forall e, f | e in m && f in m && e < f :: e <= m[f].start)
  }

  ghost predicate Covers<V>(m: Entries<V>, e: nat, k: nat) {
    e in m && m[e].start <= k < e
  }

  /* The plain point map that the intervals stand for. */
  ghost function At<V>(m: Entries<V>, k: nat): (r: Option<V>)
    ensures r.None? <==> forall e: nat :: !Covers(m, e, k)
    ensures r.Some? ==> exists e: nat :: Covers(m, e, k) && m[e].value == r.value
  {
    if e: nat :| Covers(m, e, k) then Some(m[e].value) else None
  }

  lemma AtIs<V>(m: Entries<V>, e: nat, k: nat)
    requires Valid(m) && Covers(m, e, k)
    ensures At(m, k) == Some(m[e].value)
  {
    var v := At(m, k).value;
    var f: nat :| Covers(m, f, k) && m[f].value == v;
    assert f == e;
  }

  /* No two intervals that touch carry the same value. */
  ghost predicate Separated<V>(m: Entries<V>) {
    forall e, f | e in m && f in m && m[f].start == e :: m[e].value != m[f].value
  }

  // ---------------------------------------------------------------- ordered traversal

  function Min(s: set<nat>): (r: nat)
    requires s != {}
    ensures r in s && forall x | x in s :: r <= x
  {
    assert exists r :: r in s && forall x | x in s :: r <= x by {
      var x :| x in s;
      MinExists(s, x);
    }
    var r :| r in s && forall x | x in s :: r <= x;
    r
  }

  lemma MinExists(s: set<nat>, x: nat)
    requires x in s
    ensures exists r :: r in s && forall y | y in s :: r <= y
  {
    if y :| y in s && y < x { MinExists(s, y); }
  }

  function Later<V>(m: Entries<V>, after: nat): set<nat> {
    set e | e in m && after < e
  }

  /* `map.range((Excluded(after), Unbounded)).next()`: the first key past `after`. */
  function NextEnd<V>(m: Entries<V>, after: nat): (r: Option<nat>)
    ensures r.None? ==> forall e | e in m :: e <= after
    ensures r.Some? ==> r.value in m && after < r.value
    ensures r.Some? ==> forall e | e in m && after < e :: r.value <= e
  {
    var later := Later(m, after);
    if later == {} then
      assert forall e | e in m :: after < e ==> e in later;
      None
    else
      assert forall e | e in m && after < e :: e in later;
      Some(Min(later))
  }

  // ---------------------------------------------------------------- erase and insert

  /* The interval that starts before `at` and ends after it, if there is one. */
  ghost predicate Crosses<V>(m: Entries<V>, e: nat, at: nat) {
    e in m && m[e].start < at < e
  }

  ghost function Crossing<V>(m: Entries<V>, at: nat): (r: Option<nat>)
    ensures r.Some? ==> Crosses(m, r.value, at)
    ensures r.None? ==> forall e :: !Crosses(m, e, at)
  {
    if e: nat :| Crosses(m, e, at) then Some(e) else None
  }

  /* What is left of the intervals on either side of the range. */
  ghost function Kept<V>(m: Entries<V>, start: nat, end: nat): Entries<V>
    requires start <= end
  {
    map e | e in m && (e <= start || end < e) ::
      if e <= start || end <= m[e].start then m[e] else Entry(end, m[e].value)
  }

  /* What `erase` leaves: intervals outside stay, intervals inside go, and an interval
     that sticks out keeps the part that sticks out. */
  ghost function Erased<V>(m: Entries<V>, start: nat, end: nat): Entries<V>
    requires start <= end
  {
    match Crossing(m, start)
    case None => Kept(m, start, end)
    case Some(e) => Kept(m, start, end)[start := m[e]]
  }

  ghost function Inserted<V>(m: Entries<V>, start: nat, end: nat, value: V): Entries<V> {
    if start >= end then m else Erased(m, start, end)[end := Entry(start, value)]
  }

  lemma KeptValid<V>(m: Entries<V>, start: nat, end: nat)
    requires Valid(m) && start <= end
    ensures Valid(Kept(m, start, end))
    ensures forall e | e in Kept(m, start, end) :: e <= start || end <= Kept(m, start, end)[e].start
  {
  }

  lemma ErasedValid<V>(m: Entries<V>, start: nat, end: nat)
    requires Valid(m) && start <= end
    ensures Valid(Erased(m, start, end))
    ensures forall e | e in Erased(m, start, end) :: e <= start || end <= Erased(m, start, end)[e].start
  {
    KeptValid(m, start, end);
    var k := Kept(m, start, end);
    var c := Crossing(m, start);
    if c.Some? {
      assert forall e | e in k && e <= start :: e in m && e <= m[c.value].start;
    }
  }

  /* Erasing removes exactly the points of the range. */
  lemma ErasedAt<V>(m: Entries<V>, start: nat, end: nat, k: nat)
    requires Valid(m) && start <= end
    ensures At(Erased(m, start, end), k) == if start <= k < end then None else At(m, k)
  {
    ErasedValid(m, start, end);
    var m' := Erased(m, start, end);
    if start <= k < end {
      assert forall e :: !Covers(m', e, k);
    } else if e: nat :| Covers(m, e, k) {
      ErasedKeeps(m, start, end, e, k);
    } else {
      forall f ensures !Covers(m', f, k) {
        if Covers(m', f, k) { var _ := ErasedCameFrom(m, start, end, f, k); }
      }
    }
  }

  lemma ErasedKeeps<V>(m: Entries<V>, start: nat, end: nat, e: nat, k: nat)
    requires Valid(m) && start <= end && Covers(m, e, k) && !(start <= k < end)
    ensures At(Erased(m, start, end), k) == At(m, k) == Some(m[e].value)
  {
    ErasedValid(m, start, end);
    AtIs(m, e, k);
    var m' := Erased(m, start, end);
    if k < start < e {
      assert Crosses(m, e, start);
      var c := Crossing(m, start).value;
      assert c == e by { assert !(c < e) && !(e < c); }
      AtIs(m', start, k);
    } else {
      assert e == start ==> Crossing(m, start).None?;
      AtIs(m', e, k);
    }
  }

  lemma ErasedCameFrom<V>(m: Entries<V>, start: nat, end: nat, f: nat, k: nat) returns (e: nat)
    requires Valid(m) && start <= end && Covers(Erased(m, start, end), f, k)
    ensures Covers(m, e, k) && m[e].value == Erased(m, start, end)[f].value
  {
    var c := Crossing(m, start);
    e := if c.Some? && f == start then c.value else f;
  }

  /* One turn of the loop in `erase`: the first overlapping interval is cut out, and what
     the remaining turns have to do is unchanged. */
  ghost function CutOne<V>(m: Entries<V>, start: nat, end: nat, e: nat): Entries<V>
    requires e in m
  {
    var entry := m[e];
    var m1 := m - {e};
    var m2 := if entry.start < start then m1[start := entry] else m1;
    if end < e then m2[e := Entry(end, entry.value)] else m2
  }

  lemma CutOneValid<V>(m: Entries<V>, start: nat, end: nat, e: nat)
    requires Valid(m) && start <= end && e in m && start < e && m[e].start < end
    ensures Valid(CutOne(m, start, end, e))
  {
  }

  /* After the cut no interval contains `start` inside. */
  lemma CutOneClear<V>(m: Entries<V>, start: nat, end: nat, e: nat, f: nat)
    requires Valid(m) && start <= end && e in m && start < e && m[e].start < end
    requires forall g | g in m && start < g :: e <= g
    ensures !Crosses(CutOne(m, start, end, e), f, start)
  {
    if f in m && f != e && start < f { assert e <= m[f].start; }
  }

  lemma CutOneStep<V>(m: Entries<V>, start: nat, end: nat, e: nat)
    requires Valid(m) && start <= end && e in m && start < e && m[e].start < end
    requires forall f | f in m && start < f :: e <= f
    ensures Erased(CutOne(m, start, end, e), start, end) == Erased(m, start, end)
  {
    var m' := CutOne(m, start, end, e);
    CutOneKept(m, start, end, e);
    assert Crossing(m', start).None? by {
      forall f: nat ensures !Crosses(m', f, start) { CutOneClear(m, start, end, e, f); }
    }
    if m[e].start < start {
      assert Crosses(m, e, start);
      assert Crossing(m, start) == Some(e);
    } else {
      assert Crossing(m, start).None?;
    }
  }

  lemma CutOneKept<V>(m: Entries<V>, start: nat, end: nat, e: nat)
    requires Valid(m) && start <= end && e in m && start < e && m[e].start < end
    requires forall f | f in m && start < f :: e <= f
    ensures Kept(CutOne(m, start, end, e), start, end) ==
            if m[e].start < start then Kept(m, start, end)[start := m[e]] else Kept(m, start, end)
  {
    var m' := CutOne(m, start, end, e);
    var k := Kept(m, start, end);
    var k' := if m[e].start < start then k[start := m[e]] else k;
    assert m[e].start < start ==> start !in m;
    forall f: nat ensures f in Kept(m', start, end) <==> f in k' { }
    forall f: nat | f in k' ensures Kept(m', start, end)[f] == k'[f] { }
  }

  lemma ErasedNothing<V>(m: Entries<V>, start: nat, end: nat)
    requires Valid(m) && start <= end
    requires forall f | f in m && start < f :: end <= m[f].start
    ensures Erased(m, start, end) == m
  {
    assert Crossing(m, start).None?;
  }

  lemma InsertedValid<V>(m: Entries<V>, start: nat, end: nat, value: V)
    requires Valid(m)
    ensures Valid(Inserted(m, start, end, value))
  {
    if start < end { ErasedValid(m, start, end); }
  }

  /* Inserting updates exactly the points of the range. */
  lemma InsertedAt<V>(m: Entries<V>, start: nat, end: nat, value: V, k: nat)
    requires Valid(m)
    ensures At(Inserted(m, start, end, value), k) == if start <= k < end then Some(value) else At(m, k)
  {
    if start < end {
      InsertedValid(m, start, end, value);
      ErasedValid(m, start, end);
      ErasedAt(m, start, end, k);
      var m1, m' := Erased(m, start, end), Inserted(m, start, end, value);
      if start <= k < end {
        assert Covers(m', end, k);
        AtIs(m', end, k);
      } else if e :| Covers(m1, e, k) {
        AtIs(m1, e, k);
        assert Covers(m', e, k);
        AtIs(m', e, k);
      } else {
        forall f ensures !Covers(m', f, k) {
          if Covers(m', f, k) { assert f != end; assert Covers(m1, f, k); }
        }
      }
    }
  }

  ghost predicate Unused<V>(m: Entries<V>, value: V) {
    forall e | e in m :: m[e].value != value
  }

  /* A value that no stored interval carries keeps touching intervals apart. */
  lemma InsertedSeparated<V>(m: Entries<V>, start: nat, end: nat, value: V)
    requires Valid(m) && Separated(m) && Unused(m, value)
    ensures Separated(Inserted(m, start, end, value))
  {
    if start < end {
      var m1, m' := Erased(m, start, end), Inserted(m, start, end, value);
      ErasedValid(m, start, end);
      forall e, f | e in m' && f in m' && m'[f].start == e ensures m'[e].value != m'[f].value {
        assert e < f;
        if e != end && f != end {
          assert f <= start ==> e < start && e in m;
        }
      }
    }
  }

  // ---------------------------------------------------------------- range queries

  function Max2(a: nat, b: nat): nat { if a < b then b else a }
  function Min2(a: nat, b: nat): nat { if a < b then a else b }

  /* The iterator chain of `range(start..end)`: walk the keys past `after` in order, clip each
     interval to the query and stop at the first one that clips to nothing. */
  function Walk<V>(m: Entries<V>, start: nat, end: nat, after: nat): seq<Piece<V>>
    decreases |Later(m, after)|
  {
    match NextEnd(m, after)
    case None => []
    case Some(e) =>
      var from, to := Max2(start, m[e].start), Min2(end, e);
      if from >= to then []
      else
        WalkShrinks(m, after, e);
        [Piece(from, to, m[e].value)] + Walk(m, start, end, e)
  }

  lemma SubsetSmaller<T>(a: set<T>, b: set<T>)
    requires a < b
    ensures |a| < |b|
  {
    var rest := b - a;
    var x :| x in b && x !in a;
    assert x in rest && b == a + rest;
  }

  function Range<V>(m: Entries<V>, start: nat, end: nat): seq<Piece<V>> {
    Walk(m, start, end, start)
  }

  /* The point map of a list of pieces. */
  ghost function Find<V>(ps: seq<Piece<V>>, k: nat): Option<V> {
    if ps == [] then None
    else if ps[0].start <= k < ps[0].end then Some(ps[0].value)
    else Find(ps[1..], k)
  }

  ghost predicate Sorted<V>(ps: seq<Piece<V>>) {
    && (forall i | 0 <= i < |ps| :: ps[i].start < ps[i].end)
    && (forall i, j | 0 <= i < j < |ps| :: ps[i].end <= ps[j].start)
  }

  ghost predicate Within<V>(ps: seq<Piece<V>>, start: nat, end: nat) {
    forall i | 0 <= i < |ps| :: start <= ps[i].start && ps[i].end <= end
  }

  lemma WalkShrinks<V>(m: Entries<V>, after: nat, e: nat)
    requires NextEnd(m, after) == Some(e)
    ensures |Later(m, e)| < |Later(m, after)|
  {
    assert e in Later(m, after) && e !in Later(m, e);
    SubsetSmaller(Later(m, e), Later(m, after));
  }

  /* Nothing is mapped between a key and the start of the next interval. */
  lemma GapAt<V>(m: Entries<V>, after: nat, k: nat)
    requires Valid(m) && after <= k
    requires var n := NextEnd(m, after); n.Some? ==> k < m[n.value].start
    ensures At(m, k) == None
  {
    forall f | f in m && after < f ensures k < m[f].start {
      var e := NextEnd(m, after).value;
      assert e < f ==> e <= m[f].start;
    }
    assert forall f: nat :: !Covers(m, f, k);
  }

  lemma {:induction false} WalkExact<V>(m: Entries<V>, start: nat, end: nat, after: nat)
    requires Valid(m) && start <= after && (after == start || after in m)
    ensures Sorted(Walk(m, start, end, after)) && Within(Walk(m, start, end, after), after, end)
    ensures forall k: nat :: Find(Walk(m, start, end, after), k) == if after <= k < end then At(m, k) else None
    decreases |Later(m, after)|
  {
    match NextEnd(m, after)
    case None =>
      forall k: nat | after <= k ensures At(m, k) == None { GapAt(m, after, k); }
    case Some(e) =>
      var from, to := Max2(start, m[e].start), Min2(end, e);
      assert after in m ==> after <= m[e].start;
      if from >= to {
        forall k: nat | after <= k < end ensures At(m, k) == None { GapAt(m, after, k); }
      } else {
        WalkShrinks(m, after, e);
        WalkExact(m, start, end, e);
        WalkExactCons(m, start, end, after, e);
      }
  }

  lemma WalkExactCons<V>(m: Entries<V>, start: nat, end: nat, after: nat, e: nat)
    requires Valid(m) && start <= after && (after == start || after in m)
    requires NextEnd(m, after) == Some(e) && Max2(start, m[e].start) < Min2(end, e)
    requires Sorted(Walk(m, start, end, e)) && Within(Walk(m, start, end, e), e, end)
    requires forall k: nat :: Find(Walk(m, start, end, e), k) == if e <= k < end then At(m, k) else None
    ensures Sorted(Walk(m, start, end, after)) && Within(Walk(m, start, end, after), after, end)
    ensures forall k: nat :: Find(Walk(m, start, end, after), k) == if after <= k < end then At(m, k) else None
  {
    var from, to := Max2(start, m[e].start), Min2(end, e);
    assert after in m ==> after <= m[e].start;
    var rest, ps := Walk(m, start, end, e), Walk(m, start, end, after);
    assert ps == [Piece(from, to, m[e].value)] + rest && ps[1..] == rest;
    forall k: nat ensures Find(ps, k) == if after <= k < end then At(m, k) else None {
      if from <= k < to {
        AtIs(m, e, k);
      } else if after <= k < from {
        GapAt(m, after, k);
      }
    }
  }

  /* `range` yields sorted, disjoint, non-empty pieces inside the query that cover exactly the
     mapped points of the query, so the early stop of `map_while` drops nothing. */
  lemma RangeExact<V>(m: Entries<V>, start: nat, end: nat)
    requires Valid(m)
    ensures Sorted(Range(m, start, end)) && Within(Range(m, start, end), start, end)
    ensures forall k: nat :: Find(Range(m, start, end), k) == if start <= k < end then At(m, k) else None
  {
    WalkExact(m, start, end, start);
  }

  ghost predicate PiecesSeparated<V>(ps: seq<Piece<V>>) {
    forall i | 0 <= i < |ps| - 1 && ps[i].end == ps[i + 1].start :: ps[i].value != ps[i + 1].value
  }

  lemma {:induction false} WalkSeparated<V>(m: Entries<V>, start: nat, end: nat, after: nat)
    requires Valid(m) && Separated(m) && start <= after
    ensures PiecesSeparated(Walk(m, start, end, after))
    decreases |Later(m, after)|
  {
    match NextEnd(m, after)
    case None =>
    case Some(e) =>
      var ps := Walk(m, start, end, after);
      if ps != [] {
        WalkShrinks(m, after, e);
        WalkSeparated(m, start, end, e);
        var rest := Walk(m, start, end, e);
        assert ps == [ps[0]] + rest;
        forall i | 0 <= i < |ps| - 1 && ps[i].end == ps[i + 1].start ensures ps[i].value != ps[i + 1].value {
          if i > 0 { assert ps[i] == rest[i - 1] && ps[i + 1] == rest[i]; }
          else { assert ps[1] == rest[0]; }
        }
      }
  }

  /* The query is empty exactly when no point of the range is mapped: the alias test of
     src/data.rs:301. */
  lemma RangeEmpty<V>(m: Entries<V>, start: nat, end: nat)
    requires Valid(m)
    ensures Range(m, start, end) == [] <==> forall k | start <= k < end :: At(m, k) == None
  {
    RangeExact(m, start, end);
    var ps := Range(m, start, end);
    if ps != [] {
      assert Find(ps, ps[0].start) == Some(ps[0].value);
      assert start <= ps[0].start < end;
    } else {
      forall k: nat | start <= k < end ensures At(m, k) == None { assert Find(ps, k) == None; }
    }
  }

  // ---------------------------------------------------------------- collecting pieces

  /* `from_iter`: insert the pieces one after another. */
  ghost function Collected<V>(ps: seq<Piece<V>>): Entries<V> {
    if ps == [] then map[]
    else
      var p := ps[|ps| - 1];
      Inserted(Collected(ps[..|ps| - 1]), p.start, p.end, p.value)
  }

  lemma {:induction false} CollectedAt<V>(ps: seq<Piece<V>>)
    requires Sorted(ps)
    ensures Valid(Collected(ps))
    ensures forall k: nat :: At(Collected(ps), k) == Find(ps, k)
  {
    if ps == [] {
    } else {
      var init, p := ps[..|ps| - 1], ps[|ps| - 1];
      CollectedAt(init);
      InsertedValid(Collected(init), p.start, p.end, p.value);
      assert ps == init + [p];
      forall k: nat ensures At(Collected(ps), k) == Find(ps, k) {
        assert At(Collected(init), k) == Find(init, k);
        CollectedSnoc(Collected(init), init, p, k);
      }
    }
  }

  lemma CollectedSnoc<V>(m: Entries<V>, init: seq<Piece<V>>, p: Piece<V>, k: nat)
    requires Valid(m) && At(m, k) == Find(init, k)
    requires forall i | 0 <= i < |init| :: init[i].end <= p.start
    ensures At(Inserted(m, p.start, p.end, p.value), k) == Find(init + [p], k)
  {
    InsertedAt(m, p.start, p.end, p.value, k);
    FindAppend(init, p, k);
    if p.start <= k < p.end { FindOutside(init, k, p.start); }
  }

  lemma {:induction false} FindAppend<V>(ps: seq<Piece<V>>, p: Piece<V>, k: nat)
    ensures Find(ps + [p], k) ==
            if Find(ps, k).Some? then Find(ps, k) else if p.start <= k < p.end then Some(p.value) else None
  {
    if ps != [] {
      assert (ps + [p])[1..] == ps[1..] + [p];
      FindAppend(ps[1..], p, k);
    }
  }

  lemma {:induction false} FindOutside<V>(ps: seq<Piece<V>>, k: nat, bound: nat)
    requires forall i | 0 <= i < |ps| :: ps[i].end <= bound
    requires bound <= k
    ensures Find(ps, k) == None
  {
    if ps != [] { FindOutside(ps[1..], k, bound); }
  }

  /* Collecting the pieces of a query gives exactly the queried part of the map. */
  lemma CollectedRange<V>(m: Entries<V>, start: nat, end: nat)
    requires Valid(m)
    ensures Valid(Collected(Range(m, start, end)))
    ensures forall k: nat :: At(Collected(Range(m, start, end)), k) == if start <= k < end then At(m, k) else None
  {
    RangeExact(m, start, end);
    CollectedAt(Range(m, start, end));
  }

  // ---------------------------------------------------------------- reversed ranges

  /* What `erase` does to a range that ends before it starts: it cuts the first interval past `start`
     if that begins before `end`. */
  ghost function Reversed<V>(m: Entries<V>, start: nat, end: nat): Entries<V>
    requires end < start
  {
    match NextEnd(m, start)
    case None => m
    case Some(e) => if m[e].start < end then CutOne(m, start, end, e) else m
  }

  /* It does so once. */
  lemma ReversedOnce<V>(m: Entries<V>, m': Entries<V>, start: nat, end: nat)
    requires end < start && (m' == m || m' == Reversed(m, start, end))
    ensures NextEnd(m', start).Some? && m'[NextEnd(m', start).value].start < end ==> m' == m
  {
    if m' != m {
      var e := NextEnd(m, start).value;
      assert e in m' && m'[e].start == end && forall f | f in m' && start < f :: e <= f;
    }
  }

  /* A reversed range leaves the map as it is unless some interval has it inside, and then the map ends
     up with two intervals that overlap. */
  lemma ReversedExact<V>(m: Entries<V>, start: nat, end: nat)
    requires Valid(m) && end < start
    ensures Valid(Reversed(m, start, end)) <==> forall e | e in m :: end <= m[e].start || e <= start
    ensures Valid(Reversed(m, start, end)) ==> Reversed(m, start, end) == m
  {
    if e :| e in m && m[e].start < end && start < e {
      var f, m' := NextEnd(m, start).value, Reversed(m, start, end);
      assert f == e;
      assert start in m' && e in m' && start < e && m'[e].start == end;
    }
  }

  // ---------------------------------------------------------------- the mutable map

  class RangeMap<V> {
    var entries: Entries<V>

    constructor ()
      ensures entries == map[]
    {
      entries := map[];
    }

    method Erase(start: nat, end: nat)
      requires Valid(entries)
      modifies this
      ensures start <= end ==> Valid(entries) && entries == Erased(old(entries), start, end)
      ensures end < start ==> entries == Reversed(old(entries), start, end)
    {
      var next := NextEnd(entries, start);
      while next.Some?
        invariant next == NextEnd(entries, start)
        invariant start <= end ==> Valid(entries) && Erased(entries, start, end) == Erased(old(entries), start, end)
        invariant end < start ==> entries == old(entries) || entries == Reversed(old(entries), start, end)
        decreases |Overlapping(entries, start, end)|, next.Some?
      {
        var vEnd := next.value;
        var Entry(vStart, value) := entries[vEnd];
        if vStart >= end {
          if start <= end { ErasedNothing(entries, start, end); }
          return;
        }
        ghost var before := entries;
        if end < start { ReversedOnce(old(entries), entries, start, end); }
        entries := entries - {vEnd};
        if vStart < start {
          entries := entries[start := Entry(vStart, value)];
        }
        if end < vEnd {
          entries := entries[vEnd := Entry(end, value)];
        }
        assert entries == CutOne(before, start, end, vEnd);
        CutOneShrinks(before, start, end, vEnd);
        if start <= end { CutOneTurn(before, start, end, vEnd); }
        next := NextEnd(entries, start);
      }
      if start <= end { ErasedNothing(entries, start, end); }
    }

    method Insert(start: nat, end: nat, value: V)
      requires Valid(entries)
      modifies this
      ensures Valid(entries) && entries == Inserted(old(entries), start, end, value)
    {
      if start >= end {
        return;
      }
      InsertedValid(entries, start, end, value);
      Erase(start, end);
      entries := entries[end := Entry(start, value)];
    }

    static method FromIter(ps: seq<Piece<V>>) returns (result: RangeMap<V>)
      ensures fresh(result) && Valid(result.entries) && result.entries == Collected(ps)
    {
      result := new RangeMap();
      for i := 0 to |ps|
        invariant Valid(result.entries) && result.entries == Collected(ps[..i])
      {
        assert ps[..i + 1][..i] == ps[..i];
        result.Insert(ps[i].start, ps[i].end, ps[i].value);
      }
      assert ps[..|ps|] == ps;
    }
  }

  /* The stored intervals that overlap the range: each turn of `erase` removes one. */
  ghost function Overlapping<V>(m: Entries<V>, start: nat, end: nat): set<nat> {
    set e | e in m && start < e && m[e].start < end
  }

  lemma CutOneTurn<V>(m: Entries<V>, start: nat, end: nat, e: nat)
    requires Valid(m) && start <= end && NextEnd(m, start) == Some(e) && m[e].start < end
    ensures Valid(CutOne(m, start, end, e))
    ensures Erased(CutOne(m, start, end, e), start, end) == Erased(m, start, end)
    ensures |Overlapping(CutOne(m, start, end, e), start, end)| < |Overlapping(m, start, end)|
  {
    CutOneValid(m, start, end, e);
    CutOneStep(m, start, end, e);
    CutOneShrinks(m, start, end, e);
  }

  lemma CutOneShrinks<V>(m: Entries<V>, start: nat, end: nat, e: nat)
    requires e in m && start < e && m[e].start < end
    ensures |Overlapping(CutOne(m, start, end, e), start, end)| < |Overlapping(m, start, end)|
  {
    var a, b := Overlapping(CutOne(m, start, end, e), start, end), Overlapping(m, start, end);
    assert e in b && e !in a;
    SubsetSmaller(a, b);
  }
}
