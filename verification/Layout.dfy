/**
 Sizes and alignments in bits (src/layout.rs). The alignment trick works on machine words, so the
 wrap-around of its subtraction and addition is part of the definition.
 */
module Layouts {
  const WORD: nat := 0x1_0000_0000_0000_0000

  // ---------------------------------------------------------------- rounding up

  /* Bitwise or of natural numbers. */
  function Or(x: nat, y: nat): nat {
    if x == 0 && y == 0 then 0
    else 2 * Or(x / 2, y / 2) + if x % 2 == 1 || y % 2 == 1 then 1 else 0
  }

  function Pow2(k: nat): (r: nat)
    ensures r > 0
  {
    if k == 0 then 1 else 2 * Pow2(k - 1)
  }

  /* `(ptr.wrapping_sub(1) | (align - 1)).wrapping_add(1)` */
  function AlignTo(ptr: nat, align: nat): nat
    requires ptr < WORD && 0 < align < WORD
  {
    (Or((ptr + WORD - 1) % WORD, align - 1) + 1) % WORD
  }

  lemma {:induction false} OrZero(x: nat)
    ensures Or(x, 0) == x
  {
    if x > 0 { OrZero(x / 2); }
  }

  /* Or-ing in the low k bits fills up the block of 2^k that x lies in. */
  lemma {:induction false} OrMask(x: nat, k: nat, q: nat, r: nat)
    requires x == q * Pow2(k) + r && r < Pow2(k)
    ensures Or(x, Pow2(k) - 1) == q * Pow2(k) + Pow2(k) - 1
  {
    if k == 0 {
      OrZero(x);
    } else {
      var p := Pow2(k - 1);
      var qp := q * p;
      assert q * (2 * p) == 2 * qp;
      OrMask(x / 2, k - 1, q, r / 2);
      assert (2 * p - 1) / 2 == p - 1 && (2 * p - 1) % 2 == 1;
    }
  }

  ghost predicate Multiple(r: nat, align: nat) { exists q: nat :: r == q * align }

  /* The least multiple of the alignment at or above ptr. */
  ghost predicate Least(r: nat, ptr: nat, align: nat) {
    Multiple(r, align) && ptr <= r && forall m: nat | Multiple(m, align) && ptr <= m :: r <= m
  }

  lemma NextMultiple(q: nat, s: nat, align: nat)
    requires s < align
    ensures Least((q + 1) * align, q * align + s + 1, align)
  {
    forall m: nat | Multiple(m, align) && q * align + s + 1 <= m ensures (q + 1) * align <= m {
      var d: nat :| m == d * align;
      if d <= q { MulMonotone(d, q, align); } else { MulMonotone(q + 1, d, align); }
    }
  }

  lemma MulMonotone(a: nat, b: nat, c: nat)
    requires a <= b
    ensures a * c <= b * c
  {
    assert (b - a) * c >= 0;
  }

  /* Multiples of a power of two stay below a larger power of two with room to spare. */
  lemma {:induction false} Divides(k: nat, n: nat)
    requires k <= n
    ensures Pow2(n - k) * Pow2(k) == Pow2(n)
  {
    if k < n {
      Divides(k, n - 1);
      assert 2 * Pow2(n - 1 - k) * Pow2(k) == 2 * (Pow2(n - 1 - k) * Pow2(k));
    }
  }

  lemma WordIs()
    ensures Pow2(64) == WORD
  {
    assert Pow2(4) == 16;
    Divides(4, 8);
    Divides(8, 16);
    Divides(16, 32);
    Divides(32, 64);
  }

  lemma SameQuotient(x: nat, p: nat, q: nat, r: nat, q': nat, r': nat)
    requires x == q * p + r == q' * p + r' && r < p && r' < p
    ensures q == q' && r == r'
  {
    if q < q' { MulMonotone(q + 1, q', p); } else if q' < q { MulMonotone(q' + 1, q, p); }
  }

  lemma WordMultiple(k: nat) returns (top: nat)
    requires k < 64
    ensures WORD == top * Pow2(k) && top >= 2 && Pow2(k) < WORD
  {
    WordIs();
    Divides(k, 64);
    top := Pow2(64 - k);
    assert top == 2 * Pow2(63 - k);
    MulMonotone(2, top, Pow2(k));
  }

  lemma AlignZero(k: nat)
    requires k < 64
    ensures 0 < Pow2(k) < WORD && AlignTo(0, Pow2(k)) == 0
  {
    var a := Pow2(k);
    var top := WordMultiple(k);
    assert WORD - 1 == (top - 1) * a + (a - 1);
    OrMask(WORD - 1, k, top - 1, a - 1);
  }

  lemma AlignPositive(ptr: nat, k: nat, q: nat, s: nat)
    requires 0 < ptr < WORD && k < 64 && ptr - 1 == q * Pow2(k) + s && s < Pow2(k)
    ensures 0 < Pow2(k) < WORD && AlignTo(ptr, Pow2(k)) == ((q + 1) * Pow2(k)) % WORD
  {
    var a, x := Pow2(k), ptr - 1;
    var top := WordMultiple(k);
    OrMask(x, k, q, s);
    Distributes(q, a);
    AlignFrom(ptr, a, (q + 1) * a);
  }

  lemma AlignFrom(ptr: nat, a: nat, r: nat)
    requires 0 < ptr < WORD && 0 < a < WORD && Or(ptr - 1, a - 1) + 1 == r
    ensures AlignTo(ptr, a) == r % WORD
  {
    OneLess(ptr);
  }

  lemma OneLess(ptr: nat)
    requires 0 < ptr < WORD
    ensures (ptr + WORD - 1) % WORD == ptr - 1
  {
  }

  lemma Distributes(q: nat, a: nat)
    ensures (q + 1) * a == q * a + a
  {
  }

  /* `align_to` gives the least multiple of a power of two at or above ptr, exactly when there is one
     that fits into a word; otherwise it wraps around to 0. */
  lemma AlignToLeast(ptr: nat, k: nat)
    requires ptr < WORD && k < 64
    ensures 0 < Pow2(k) < WORD
    ensures if ptr + Pow2(k) <= WORD
            then Least(AlignTo(ptr, Pow2(k)), ptr, Pow2(k)) && AlignTo(ptr, Pow2(k)) < ptr + Pow2(k)
            else AlignTo(ptr, Pow2(k)) == 0
  {
    var a := Pow2(k);
    var top := WordMultiple(k);
    if ptr == 0 {
      AlignZero(k);
      assert 0 == 0 * a;
    } else {
      var q, s := Parts(ptr - 1, a);
      AlignPositive(ptr, k, q, s);
      AlignFits(ptr, a, q, s, top);
    }
  }

  lemma Parts(x: nat, a: nat) returns (q: nat, s: nat)
    requires a > 0
    ensures x == q * a + s && s < a
  {
    q, s := x / a, x % a;
  }

  lemma AlignFits(ptr: nat, a: nat, q: nat, s: nat, top: nat)
    requires 0 < ptr < WORD && WORD == top * a && ptr - 1 == q * a + s && s < a
    ensures var r := ((q + 1) * a) % WORD;
            if ptr + a <= WORD then Least(r, ptr, a) && r < ptr + a else r == 0
  {
    BelowTop(q, s, a, top, ptr);
    Distributes(q, a);
    NextLeast(q, s, a, ptr, (q + 1) * a);
    InWord((q + 1) * a);
  }

  lemma NextLeast(q: nat, s: nat, a: nat, ptr: nat, r: nat)
    requires ptr == q * a + s + 1 && s < a && r == (q + 1) * a
    ensures Least(r, ptr, a)
  {
    NextMultiple(q, s, a);
  }

  lemma InWord(r: nat)
    ensures r < WORD ==> r % WORD == r
    ensures r == WORD ==> r % WORD == 0
  {
  }

  lemma BelowTop(q: nat, s: nat, a: nat, top: nat, ptr: nat)
    requires 0 < ptr < top * a && ptr - 1 == q * a + s && s < a
    ensures ptr + a <= top * a ==> (q + 1) * a < top * a
    ensures ptr + a > top * a ==> (q + 1) * a == top * a
  {
    assert (q + 1) * a == q * a + a;
    if q >= top {
      MulMonotone(top, q, a);
    } else if q + 1 < top {
      MulMonotone(q + 2, top, a);
      assert (q + 2) * a == q * a + 2 * a;
    }
  }

  // ---------------------------------------------------------------- layouts

  datatype Layout = Layout(bits: nat, align: nat)

  /* `Packing::None` and `Packing::Byte` of structs; `Packing::Bit` is only used by vectors. */
  datatype Packing = Unpacked | Bit | Byte

  function Max(a: nat, b: nat): nat { if a < b then b else a }

  ghost predicate PowerOfTwo(a: nat) { exists k: nat :: 3 <= k < 64 && a == Pow2(k) }

  /* What `from_bits` asserts. */
  ghost predicate Ok(l: Layout) { PowerOfTwo(l.align) && l.bits < WORD }

  lemma PowerInWord(a: nat)
    requires PowerOfTwo(a)
    ensures 8 <= a < WORD
  {
    var k: nat :| 3 <= k < 64 && a == Pow2(k);
    var top := WordMultiple(k);
    Divides(3, k);
    assert Pow2(3) == 8;
    MulMonotone(1, Pow2(k - 3), 8);
  }

  /* Where a field goes after `bits` bits. */
  function FieldAlign(packing: Packing, field: Layout): nat {
    match packing
    case Unpacked => field.align
    case Bit => 1
    case Byte => 8
  }

  ghost predicate FieldFits(bits: nat, packing: Packing, field: Layout) {
    Ok(field) && bits + FieldAlign(packing, field) <= WORD && bits + FieldAlign(packing, field) + field.bits < WORD
  }

  /* `extend`: the layout with one more field, and the field's offset. */
  function Extend(l: Layout, packing: Packing, field: Layout): (Layout, nat)
    requires l.bits < WORD && 8 < WORD && 0 < field.align < WORD
  {
    match packing
    case Unpacked =>
      var offset := AlignTo(l.bits, field.align);
      (Layout(offset + field.bits, Max(l.align, field.align)), offset)
    case Bit => (Layout(l.bits + field.bits, 8), l.bits)
    case Byte =>
      var offset := AlignTo(l.bits, 8);
      (Layout(offset + field.bits, 8), offset)
  }

  function PadToAlign(l: Layout): Layout
    requires l.bits < WORD && 0 < l.align < WORD
  {
    l.(bits := AlignTo(l.bits, l.align))
  }

  lemma AlignedTo(ptr: nat, align: nat)
    requires PowerOfTwo(align) && ptr + align <= WORD
    ensures 0 < align < WORD && ptr < WORD
    ensures Least(AlignTo(ptr, align), ptr, align) && AlignTo(ptr, align) < ptr + align
  {
    PowerInWord(align);
    var k: nat :| 3 <= k < 64 && align == Pow2(k);
    AlignToLeast(ptr, k);
  }

  lemma EightIsPower()
    ensures PowerOfTwo(8)
  {
    assert Pow2(3) == 8;
  }

  /* The alignment of a struct with one more field: the greater of the two, or a byte when packed. */
  ghost predicate Covers(align: nat, packing: Packing, before: nat, field: nat) {
    match packing
    case Unpacked => before <= align && field <= align && (align == before || align == field)
    case _ => align == 8
  }

  /* One field: the least suitably aligned offset at or above the end of the fields before it. */
  lemma ExtendPlaces(l: Layout, packing: Packing, field: Layout)
    requires FieldFits(l.bits, packing, field) && PowerOfTwo(l.align)
    ensures l.bits < WORD && 8 < WORD && 0 < field.align < WORD
    ensures var (l', offset) := Extend(l, packing, field);
            && Least(offset, l.bits, FieldAlign(packing, field))
            && l'.bits == offset + field.bits && Ok(l') && Covers(l'.align, packing, l.align, field.align)
  {
    PowerInWord(field.align);
    EightIsPower();
    match packing
    case Unpacked => AlignedTo(l.bits, field.align);
    case Byte => AlignedTo(l.bits, 8);
    case Bit => assert l.bits == l.bits * 1;
  }

  // ---------------------------------------------------------------- structs

  /* The loop over the fields of a struct (src/compile/class.rs:174-184). */
  datatype Placement = Placement(layout: Layout, offsets: seq<nat>)

  ghost predicate Room(l: Layout, packing: Packing, fields: seq<Layout>)
    decreases |fields|
  {
    PowerOfTwo(l.align) &&
    if fields == [] then l.bits + l.align <= WORD
    else
      FieldFits(l.bits, packing, fields[0]) &&
      (ExtendPlaces(l, packing, fields[0]); Room(Extend(l, packing, fields[0]).0, packing, fields[1..]))
  }

  ghost function Place(l: Layout, packing: Packing, fields: seq<Layout>): Placement
    requires Room(l, packing, fields)
    decreases |fields|
  {
    if fields == [] then Placement(l, [])
    else
      ExtendPlaces(l, packing, fields[0]);
      var (l1, offset) := Extend(l, packing, fields[0]);
      var rest := Place(l1, packing, fields[1..]);
      Placement(rest.layout, [offset] + rest.offsets)
  }

  /* Where the i-th field may begin. */
  function EndBefore(start: nat, fields: seq<Layout>, offsets: seq<nat>, i: nat): nat
    requires i <= |fields| == |offsets|
  {
    if i == 0 then start else offsets[i - 1] + fields[i - 1].bits
  }

  ghost predicate PlacedAt(start: nat, packing: Packing, fields: seq<Layout>, offsets: seq<nat>, i: nat)
    requires i < |fields| == |offsets|
  {
    var end := EndBefore(start, fields, offsets, i);
    match packing
    case Unpacked => Least(offsets[i], end, fields[i].align)
    case Bit => offsets[i] == end
    case Byte => Least(offsets[i], end, 8)
  }

  lemma LeastOne(r: nat, ptr: nat, i: nat)
    requires Least(r, ptr, i) && i == 1
    ensures r == ptr
  {
    assert ptr == ptr * 1;
    assert Multiple(ptr, 1);
  }

  ghost predicate Placed(start: nat, packing: Packing, fields: seq<Layout>, p: Placement) {
    && |p.offsets| == |fields|
    && (forall i | 0 <= i < |fields| :: PlacedAt(start, packing, fields, p.offsets, i))
    && p.layout.bits == EndBefore(start, fields, p.offsets, |fields|)
  }

  lemma PlacedCons(start: nat, packing: Packing, fields: seq<Layout>, offset: nat, next: nat, rest: Placement)
    requires fields != [] && Placed(next, packing, fields[1..], rest)
    requires next == offset + fields[0].bits && Least(offset, start, FieldAlign(packing, fields[0]))
    ensures Placed(start, packing, fields, Placement(rest.layout, [offset] + rest.offsets))
  {
    var offsets := [offset] + rest.offsets;
    if packing == Bit { LeastOne(offset, start, 1); }
    forall i | 0 <= i < |fields| ensures PlacedAt(start, packing, fields, offsets, i) {
      if i > 0 {
        var m := i - 1;
        assert PlacedAt(next, packing, fields[1..], rest.offsets, m);
        assert offsets[i] == rest.offsets[m] && fields[i] == fields[1..][m];
        assert EndBefore(start, fields, offsets, i) == EndBefore(next, fields[1..], rest.offsets, m);
      }
    }
  }

  /* Fields are placed in order, each at the least aligned offset past the one before it. */
  lemma {:induction false} PlaceIs(l: Layout, packing: Packing, fields: seq<Layout>)
    requires Room(l, packing, fields)
    ensures Placed(l.bits, packing, fields, Place(l, packing, fields))
    ensures PowerOfTwo(Place(l, packing, fields).layout.align)
    ensures Place(l, packing, fields).layout.bits + Place(l, packing, fields).layout.align <= WORD
    decreases |fields|
  {
    if fields != [] {
      ExtendPlaces(l, packing, fields[0]);
      var (l1, offset) := Extend(l, packing, fields[0]);
      PlaceIs(l1, packing, fields[1..]);
      PlacedCons(l.bits, packing, fields, offset, l1.bits, Place(l1, packing, fields[1..]));
    }
  }

  /* Fields do not overlap, and all lie inside. */
  lemma {:induction false} PlacedApart(start: nat, packing: Packing, fields: seq<Layout>, p: Placement, i: nat, j: nat)
    requires Placed(start, packing, fields, p) && i < j <= |fields|
    ensures p.offsets[i] + fields[i].bits <= if j < |fields| then p.offsets[j] else p.layout.bits
    decreases j - i
  {
    if j < |fields| { assert PlacedAt(start, packing, fields, p.offsets, j); }
    if i + 1 < j { PlacedApart(start, packing, fields, p, i, j - 1); }
  }

  /* The greatest of a start value and the fields' alignments; nothing but a byte when packed. */
  ghost predicate Greatest(align: nat, start: nat, packing: Packing, fields: seq<Layout>) {
    match packing
    case Unpacked =>
      && start <= align && (forall i | 0 <= i < |fields| :: fields[i].align <= align)
      && (align == start || exists i | 0 <= i < |fields| :: align == fields[i].align)
    case _ => align == if fields == [] then start else 8
  }

  lemma GreatestCons(align: nat, start: nat, next: nat, packing: Packing, fields: seq<Layout>)
    requires fields != [] && Covers(next, packing, start, fields[0].align)
    requires Greatest(align, next, packing, fields[1..])
    ensures Greatest(align, start, packing, fields)
  {
    if packing == Unpacked {
      forall i | 0 <= i < |fields| ensures fields[i].align <= align {
        if i > 0 { assert fields[i] == fields[1..][i - 1]; }
      }
      if align != next {
        var i :| 0 <= i < |fields| - 1 && align == fields[1..][i].align;
        assert fields[1..][i] == fields[i + 1];
      }
    }
  }

  lemma {:induction false} PlaceAlign(l: Layout, packing: Packing, fields: seq<Layout>)
    requires Room(l, packing, fields)
    ensures Greatest(Place(l, packing, fields).layout.align, l.align, packing, fields)
    decreases |fields|
  {
    if fields != [] {
      ExtendPlaces(l, packing, fields[0]);
      var (l1, offset) := Extend(l, packing, fields[0]);
      PlaceAlign(l1, packing, fields[1..]);
      GreatestCons(Place(l1, packing, fields[1..]).layout.align, l.align, l1.align, packing, fields);
    }
  }

  /* Of two powers of two the smaller one divides the greater one. */
  lemma PowersDivide(a: nat, b: nat, r: nat)
    requires PowerOfTwo(a) && PowerOfTwo(b) && a <= b && Multiple(r, b)
    ensures Multiple(r, a)
  {
    var k: nat :| 3 <= k < 64 && a == Pow2(k);
    var n: nat :| 3 <= n < 64 && b == Pow2(n);
    if k <= n {
      Divides(k, n);
      var q: nat :| r == q * b;
      MultipleOf(r, q, b, Pow2(n - k), a);
    } else {
      StrictlyLess(n, k);
    }
  }

  lemma MultipleOf(r: nat, q: nat, b: nat, d: nat, a: nat)
    requires r == q * b && b == d * a
    ensures Multiple(r, a)
  {
    assert q * (d * a) == (q * d) * a;
  }

  lemma StrictlyLess(n: nat, k: nat)
    requires n < k
    ensures Pow2(n) < Pow2(k)
  {
    Divides(n, k);
    MulMonotone(2, Pow2(k - n), Pow2(n));
  }

  lemma RoomFields(l: Layout, packing: Packing, fields: seq<Layout>, i: nat)
    requires Room(l, packing, fields) && i < |fields|
    ensures PowerOfTwo(fields[i].align)
    decreases |fields|
  {
    if i > 0 {
      ExtendPlaces(l, packing, fields[0]);
      RoomFields(Extend(l, packing, fields[0]).0, packing, fields[1..], i - 1);
    }
  }

  /* `Layout::of_int`. */
  function OfInt(bits: nat): Layout { Layout(bits, NextPowerOfTwo(Max(bits, 8), 8)) }

  function NextPowerOfTwo(x: nat, p: nat): nat
    requires p > 0
    decreases x - p
  {
    if p >= x then p else NextPowerOfTwo(x, 2 * p)
  }

  lemma {:induction false} NextPowerIs(x: nat, k: nat, n: nat)
    requires 3 <= k <= n < 64 && x <= Pow2(n)
    ensures PowerOfTwo(NextPowerOfTwo(x, Pow2(k))) && x <= NextPowerOfTwo(x, Pow2(k)) <= Pow2(n)
    decreases n - k
  {
    Divides(k, n);
    MulMonotone(1, Pow2(n - k), Pow2(k));
    if Pow2(k) < x {
      assert k < n by { assert k == n ==> Pow2(k) >= x; }
      assert Pow2(k + 1) == 2 * Pow2(k);
      NextPowerIs(x, k + 1, n);
    }
  }

  /* The alignment of an integer is the least power of two that holds it, and at least a byte. */
  lemma OfIntOk(bits: nat, n: nat)
    requires 3 <= n < 64 && bits <= Pow2(n)
    ensures PowerOfTwo(OfInt(bits).align) && bits <= OfInt(bits).align <= Pow2(n)
    ensures OfInt(bits).bits == bits
  {
    assert Pow2(3) == 8;
    Divides(3, n);
    MulMonotone(1, Pow2(n - 3), 8);
    NextPowerIs(Max(bits, 8), 3, n);
  }

  const EMPTY := Layout(0, 8)

  ghost predicate StructFits(packing: Packing, fields: seq<Layout>) { Room(EMPTY, packing, fields) }

  /* The layout of a struct and the offsets of its fields. */
  ghost function StructOf(packing: Packing, fields: seq<Layout>): Placement
    requires StructFits(packing, fields)
  {
    PlaceIs(EMPTY, packing, fields);
    PadFits(Place(EMPTY, packing, fields).layout);
    var p := Place(EMPTY, packing, fields);
    p.(layout := PadToAlign(p.layout))
  }

  lemma PadFits(l: Layout)
    requires PowerOfTwo(l.align) && l.bits + l.align <= WORD
    ensures l.bits < WORD && 0 < l.align < WORD
    ensures Least(PadToAlign(l).bits, l.bits, l.align) && PadToAlign(l).bits < l.bits + l.align
    ensures PadToAlign(l).align == l.align
  {
    AlignedTo(l.bits, l.align);
  }

  /* Struct layout: fields in order, each aligned and as low as possible, none overlapping, and the
     whole padded to the least multiple of its alignment. */
  lemma StructPlaced(packing: Packing, fields: seq<Layout>)
    requires StructFits(packing, fields)
    ensures var s := StructOf(packing, fields);
            && |s.offsets| == |fields| && PowerOfTwo(s.layout.align)
            && (forall i | 0 <= i < |fields| :: PlacedAt(0, packing, fields, s.offsets, i))
            && (forall i, j | 0 <= i < j < |fields| :: s.offsets[i] + fields[i].bits <= s.offsets[j])
            && (forall i | 0 <= i < |fields| :: s.offsets[i] + fields[i].bits <= s.layout.bits)
            && Least(s.layout.bits, EndBefore(0, fields, s.offsets, |fields|), s.layout.align)
  {
    var p, s := Place(EMPTY, packing, fields), StructOf(packing, fields);
    PlaceIs(EMPTY, packing, fields);
    PadFits(p.layout);
    forall i, j | 0 <= i < j < |fields| ensures s.offsets[i] + fields[i].bits <= s.offsets[j] {
      PlacedApart(0, packing, fields, p, i, j);
    }
    forall i | 0 <= i < |fields| ensures s.offsets[i] + fields[i].bits <= s.layout.bits {
      PlacedApart(0, packing, fields, p, i, |fields|);
    }
  }

  /* The alignment of a struct is the greatest of a byte and its fields' alignments, a byte when it is
     packed. Without packing every field's alignment divides the struct's alignment and its size. */
  lemma StructAlign(packing: Packing, fields: seq<Layout>)
    requires StructFits(packing, fields)
    ensures Greatest(StructOf(packing, fields).layout.align, 8, packing, fields)
    ensures packing == Unpacked ==> forall i | 0 <= i < |fields| ::
              && Multiple(StructOf(packing, fields).layout.align, fields[i].align)
              && Multiple(StructOf(packing, fields).layout.bits, fields[i].align)
  {
    var s := StructOf(packing, fields).layout;
    PlaceAlign(EMPTY, packing, fields);
    StructPlaced(packing, fields);
    if packing == Unpacked {
      forall i | 0 <= i < |fields|
        ensures Multiple(s.align, fields[i].align) && Multiple(s.bits, fields[i].align)
      {
        RoomFields(EMPTY, packing, fields, i);
        assert s.align == 1 * s.align;
        PowersDivide(fields[i].align, s.align, s.align);
        PowersDivide(fields[i].align, s.align, s.bits);
      }
    }
  }

  lemma PlaceStep(l: Layout, packing: Packing, fields: seq<Layout>, rest: seq<Layout>)
    requires Room(l, packing, fields) && fields != [] && rest == fields[1..]
    ensures l.bits < WORD && 0 < fields[0].align < WORD
    ensures var (l1, offset) := Extend(l, packing, fields[0]);
            && Room(l1, packing, rest)
            && Place(l, packing, fields) ==
               Placement(Place(l1, packing, rest).layout, [offset] + Place(l1, packing, rest).offsets)
  {
    ExtendPlaces(l, packing, fields[0]);
  }

  /* One turn of the loop over the fields; `rest` are the fields still to be placed. */
  method ExtendField(layout: Layout, packing: Packing, field: Layout, ghost rest: seq<Layout>)
    returns (layout2: Layout, offset: nat)
    requires Room(layout, packing, [field] + rest)
    ensures Room(layout2, packing, rest)
    ensures Place(layout, packing, [field] + rest) ==
            Placement(Place(layout2, packing, rest).layout, [offset] + Place(layout2, packing, rest).offsets)
  {
    assert ([field] + rest)[1..] == rest;
    PlaceStep(layout, packing, [field] + rest, rest);
    var r := Extend(layout, packing, field);
    layout2, offset := r.0, r.1;
  }

  /* The fields placed so far and those still to come make up the whole struct. */
  ghost predicate PlacedSoFar(packing: Packing, fields: seq<Layout>, layout: Layout, offsets: seq<nat>,
      rest: seq<Layout>)
    requires StructFits(packing, fields)
  {
    && Room(layout, packing, rest)
    && Place(EMPTY, packing, fields).layout == Place(layout, packing, rest).layout
    && Place(EMPTY, packing, fields).offsets == offsets + Place(layout, packing, rest).offsets
  }

  lemma PlacedAll(packing: Packing, fields: seq<Layout>, layout: Layout, offsets: seq<nat>)
    requires StructFits(packing, fields) && PlacedSoFar(packing, fields, layout, offsets, [])
    ensures layout.bits < WORD && 0 < layout.align < WORD
    ensures StructOf(packing, fields) == Placement(PadToAlign(layout), offsets)
  {
    PadFits(layout);
    assert offsets + [] == offsets;
  }

  /* `get_inner` for a struct type. */
  method StructLayout(packing: Packing, fields: seq<Layout>) returns (layout: Layout, offsets: seq<nat>)
    requires StructFits(packing, fields)
    ensures Placement(layout, offsets) == StructOf(packing, fields)
    ensures Greatest(layout.align, 8, packing, fields)
  {
    layout, offsets := OfInt(0), [];
    ghost var rest := fields;
    for i := 0 to |fields|
      invariant rest == fields[i..] && PlacedSoFar(packing, fields, layout, offsets, rest)
    {
      ghost var later := fields[i + 1..];
      assert rest == [fields[i]] + later;
      var layout2, offset := ExtendField(layout, packing, fields[i], later);
      offsets := offsets + [offset];
      layout := layout2;
      rest := later;
    }
    PlacedAll(packing, fields, layout, offsets);
    StructAlign(packing, fields);
    layout := PadToAlign(layout);
  }

  // ---------------------------------------------------------------- bytes

  function Bytes(l: Layout): nat { (l.bits + 7) / 8 }

  function ByteAlign(l: Layout): nat { (l.align + 7) / 8 }

  lemma ByteAlignPower(l: Layout) returns (k: nat)
    requires PowerOfTwo(l.align)
    ensures k < 61 && ByteAlign(l) == Pow2(k) && l.align == 8 * ByteAlign(l)
  {
    var n: nat :| 3 <= n < 64 && l.align == Pow2(n);
    k := n - 3;
    assert Pow2(n) == 2 * Pow2(n - 1) == 4 * Pow2(n - 2) == 8 * Pow2(k);
  }
}
