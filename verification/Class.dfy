/**
 Types with their layouts (src/compile/class.rs) and the aggregate operations of
 src/value.rs:113-141 and src/compile/operation.rs:280-296. A type whose size does not fit into
 a machine word has no layout here.
 */
module Classes {
  import opened Wrappers
  import opened Values
  import opened Layouts
  import opened Bits

  datatype Class =
    | Void
    | Int(bits: nat)
    | Pointer
    | Vector(element: Class, len: nat)
    | Array(element: Class, len: nat)
    | Struct(fields: seq<Class>, packed: bool)

  function PackingOf(packed: bool): Packing { if packed then Byte else Unpacked }

  // ---------------------------------------------------------------- layouts

  /* `repeat` with `Packing::Bit`: vectors are packed bit by bit. */
  ghost function VectorOf(l: Layout, len: nat): (r: Option<Layout>)
    ensures r.Some? ==> Ok(r.value) && r.value.bits == l.bits * len
  {
    EightIsPower();
    if l.bits * len < WORD then Some(Layout(l.bits * len, 8)) else None
  }

  /* `repeat` with `Packing::None`: arrays are made of padded elements. */
  ghost function ArrayOf(l: Layout, len: nat): (r: Option<Layout>)
    requires Ok(l)
    ensures r.Some? ==> Ok(r.value) && r.value.align == l.align
    ensures r.Some? ==> exists padded: nat :: Least(padded, l.bits, l.align) && r.value.bits == padded * len
  {
    if l.bits + l.align <= WORD then
      PadFits(l);
      var padded := PadToAlign(l).bits;
      if padded * len < WORD then Some(Layout(padded * len, l.align)) else None
    else None
  }

  ghost function StructLayoutOf(packing: Packing, ls: seq<Layout>): (r: Option<Layout>)
    ensures r.Some? ==> Ok(r.value) && StructFits(packing, ls) && r.value == StructOf(packing, ls).layout
  {
    if StructFits(packing, ls) && StructOf(packing, ls).layout.bits < WORD then
      StructPlaced(packing, ls);
      Some(StructOf(packing, ls).layout)
    else None
  }

  /* `get_inner`. */
  ghost function LayoutOf(c: Class): (r: Option<Layout>)
    ensures r.Some? ==> Ok(r.value)
    decreases c
  {
    match c
    case Void => EightIsPower(); Some(Layout(0, 8))
    case Int(bits) => if PowerOfTwo(OfInt(bits).align) && bits < WORD then Some(OfInt(bits)) else None
    case Pointer => PointerLayout(); Some(OfInt(64))
    case Vector(e, len) =>
      var l := LayoutOf(e);
      if l.Some? then VectorOf(l.value, len) else None
    case Array(e, len) =>
      var l := LayoutOf(e);
      if l.Some? then ArrayOf(l.value, len) else None
    case Struct(fields, packed) =>
      var ls := FieldLayouts(c, |fields|);
      if ls.Some? then StructLayoutOf(PackingOf(packed), ls.value) else None
  }

  lemma PointerLayout()
    ensures Ok(OfInt(64))
  {
    assert Pow2(6) == 64;
    OfIntOk(64, 6);
  }

  /* The layouts of the first n fields. */
  ghost function FieldLayouts(c: Class, n: nat): (r: Option<seq<Layout>>)
    requires c.Struct? && n <= |c.fields|
    ensures r.Some? ==> |r.value| == n && forall i | 0 <= i < n :: LayoutOf(c.fields[i]) == Some(r.value[i])
    decreases c, n
  {
    if n == 0 then Some([])
    else
      var init, last := FieldLayouts(c, n - 1), LayoutOf(c.fields[n - 1]);
      if init.Some? && last.Some? then Some(init.value + [last.value]) else None
  }

  ghost predicate Sized(c: Class) { LayoutOf(c).Some? }

  ghost function Size(c: Class): nat
    requires Sized(c)
  {
    LayoutOf(c).value.bits
  }

  ghost function AlignOf(c: Class): nat
    requires Sized(c)
  {
    LayoutOf(c).value.align
  }

  // ---------------------------------------------------------------- elements

  predicate HasElement(c: Class, i: nat) {
    match c
    case Vector(_, len) => i < len
    case Array(_, len) => i < len
    case Struct(fields, _) => i < |fields|
    case _ => false
  }

  datatype Element = Element(class_: Class, offset: nat)

  /* The layouts of the fields of a struct that has one. */
  ghost function Fields(c: Class): (ls: seq<Layout>)
    requires Sized(c) && c.Struct?
    ensures |ls| == |c.fields| && forall i | 0 <= i < |ls| :: LayoutOf(c.fields[i]) == Some(ls[i])
    ensures StructFits(PackingOf(c.packed), ls) && Size(c) == StructOf(PackingOf(c.packed), ls).layout.bits
  {
    FieldLayouts(c, |c.fields|).value
  }

  ghost function FieldOffset(c: Class, i: nat): nat
    requires Sized(c) && c.Struct? && i < |c.fields|
  {
    var ls := Fields(c);
    StructPlaced(PackingOf(c.packed), ls);
    StructOf(PackingOf(c.packed), ls).offsets[i]
  }

  function Times(size: nat, i: nat): nat { size * i }

  /* `Class::element`. Arrays are indexed like vectors: by the unpadded size of the element. */
  ghost function ElementOf(c: Class, i: nat): (e: Element)
    requires Sized(c) && HasElement(c, i)
    ensures Sized(e.class_)
  {
    match c
    case Vector(e, _) => Element(e, Times(Size(e), i))
    case Array(e, _) => Element(e, Times(Size(e), i))
    case Struct(fields, _) =>
      assert LayoutOf(fields[i]) == Some(Fields(c)[i]);
      Element(fields[i], FieldOffset(c, i))
  }

  lemma Stride(size: nat, i: nat, j: nat)
    requires i < j
    ensures size * i + size <= size * j
  {
    Distributes(i, size);
    MulMonotone(i + 1, j, size);
  }

  lemma ArrayFits(l: Layout, len: nat, i: nat)
    requires Ok(l) && ArrayOf(l, len).Some? && i < len
    ensures l.bits * i + l.bits <= ArrayOf(l, len).value.bits
  {
    var padded: nat :| Least(padded, l.bits, l.align) && ArrayOf(l, len).value.bits == padded * len;
    Stride(l.bits, i, len);
    MulMonotone(l.bits, padded, len);
  }

  /* Every element lies inside its aggregate... */
  lemma ElementFits(c: Class, i: nat)
    requires Sized(c) && HasElement(c, i)
    ensures ElementOf(c, i).offset + Size(ElementOf(c, i).class_) <= Size(c)
  {
    match c
    case Vector(e, len) => Stride(Size(e), i, len);
    case Array(e, len) => ArrayFits(LayoutOf(e).value, len, i);
    case Struct(fields, packed) => StructPlaced(PackingOf(packed), Fields(c));
  }

  /* ...and elements do not overlap. */
  lemma ElementsApart(c: Class, i: nat, j: nat)
    requires Sized(c) && HasElement(c, i) && HasElement(c, j) && i < j
    ensures ElementOf(c, i).offset + Size(ElementOf(c, i).class_) <= ElementOf(c, j).offset
  {
    match c
    case Vector(e, _) => Stride(Size(e), i, j);
    case Array(e, _) => Stride(Size(e), i, j);
    case Struct(fields, packed) => StructPlaced(PackingOf(packed), Fields(c));
  }

  // ---------------------------------------------------------------- the stride of arrays

  /* The distance between the elements of an array in its layout. */
  ghost function Padded(e: Class): nat
    requires Sized(e) && Size(e) + AlignOf(e) <= WORD
  {
    PadFits(LayoutOf(e).value);
    PadToAlign(LayoutOf(e).value).bits
  }

  lemma ArraySized(e: Class, len: nat)
    requires Sized(Array(e, len))
    ensures Sized(e) && Size(e) + AlignOf(e) <= WORD && Size(Array(e, len)) == Padded(e) * len
    ensures Least(Padded(e), Size(e), AlignOf(e))
  {
    PadFits(LayoutOf(e).value);
  }

  lemma SameProduct(i: nat, a: nat, b: nat)
    requires i > 0
    ensures a * i == i * b <==> a == b
  {
    if a < b {
      MulMonotone(a + 1, b, i);
      Distributes(a, i);
    } else if b < a {
      MulMonotone(b + 1, a, i);
      Distributes(b, i);
    }
  }

  /* Past the first element, an array is indexed where its layout places the elements exactly when
     the size of an element is a multiple of its alignment. */
  lemma ArrayStride(e: Class, len: nat, i: nat)
    requires Sized(Array(e, len)) && 0 < i < len
    ensures Sized(e) && Size(e) + AlignOf(e) <= WORD
    ensures ElementOf(Array(e, len), i).offset == i * Padded(e) <==> Multiple(Size(e), AlignOf(e))
  {
    ArraySized(e, len);
    SameProduct(i, Size(e), Padded(e));
  }

  /* Two 24-bit integers take 64 bits, 32 each, but the second one is looked for at bit 24. */
  lemma ArrayMisses()
    ensures var c := Array(Int(24), 2);
            && Sized(c) && Size(c) == 64
            && ElementOf(c, 1).offset == 24
            && Size(Int(24)) + LayoutOf(Int(24)).value.align <= WORD && Padded(Int(24)) == 32
  {
    IntLayout();
    var l := LayoutOf(Int(24)).value;
    PadFits(l);
    ThirtyTwo(PadToAlign(l).bits);
  }

  lemma IntLayout()
    ensures LayoutOf(Int(24)) == Some(Layout(24, 32))
  {
    assert Pow2(5) == 32;
    OfIntOk(24, 5);
    assert NextPowerOfTwo(24, 8) == NextPowerOfTwo(24, 16) == NextPowerOfTwo(24, 32) == 32;
  }

  lemma ThirtyTwo(r: nat)
    requires Least(r, 24, 32) && r < 24 + 32
    ensures r == 32
  {
    var q: nat :| r == q * 32;
  }

  // ---------------------------------------------------------------- what a layout is

  /* The least power of two that holds so many bits and a byte. */
  ghost predicate LeastPower(align: nat, bits: nat) {
    PowerOfTwo(align) && bits <= align && forall p: nat | PowerOfTwo(p) && bits <= p :: align <= p
  }

  /* What the layout of each kind of type is. */
  ghost predicate LaidOut(c: Class, l: Layout)
    requires Sized(c)
  {
    match c
    case Void => l.bits == 0 && l.align == 8
    case Int(bits) => l.bits == bits && LeastPower(l.align, bits)
    case Pointer => l.bits == 64 && l.align == 64
    case Vector(e, len) => Sized(e) && l.bits == Size(e) * len && l.align == 8
    case Array(e, len) =>
      && Sized(e) && l.align == AlignOf(e)
      && exists padded: nat :: Least(padded, Size(e), l.align) && l.bits == padded * len
    case Struct(fields, packed) =>
      && Greatest(l.align, 8, if packed then Byte else Unpacked, Fields(c))
      && Least(l.bits, EndOf(c, |fields|), l.align)
  }

  /* Where the fields before the i-th end. */
  ghost function EndOf(c: Class, i: nat): nat
    requires Sized(c) && c.Struct? && i <= |c.fields|
  {
    if i == 0 then 0 else ElementOf(c, i - 1).offset + Size(ElementOf(c, i - 1).class_)
  }

  lemma EndIs(c: Class, i: nat, ls: seq<Layout>, offsets: seq<nat>)
    requires Sized(c) && c.Struct? && i <= |c.fields| == |offsets|
    requires ls == Fields(c) && offsets == StructOf(PackingOf(c.packed), ls).offsets
    ensures EndOf(c, i) == EndBefore(0, ls, offsets, i)
  {
    if i > 0 { assert LayoutOf(c.fields[i - 1]) == Some(ls[i - 1]); }
  }

  lemma IntPower(bits: nat)
    requires PowerOfTwo(OfInt(bits).align)
    ensures LeastPower(OfInt(bits).align, bits)
  {
    assert bits <= OfInt(bits).align by { NextPowerAbove(Max(bits, 8), 8); }
    forall p: nat | PowerOfTwo(p) && bits <= p ensures OfInt(bits).align <= p {
      var n: nat :| 3 <= n < 64 && p == Pow2(n);
      OfIntOk(bits, n);
    }
  }

  lemma {:induction false} NextPowerAbove(x: nat, p: nat)
    requires p > 0
    ensures x <= NextPowerOfTwo(x, p)
    decreases x - p
  {
    if p < x { NextPowerAbove(x, 2 * p); }
  }

  lemma LayoutExact(c: Class)
    requires Sized(c)
    ensures LaidOut(c, LayoutOf(c).value)
  {
    match c
    case Void =>
    case Int(bits) => IntPower(bits);
    case Pointer => assert NextPowerOfTwo(64, 8) == NextPowerOfTwo(64, 32) == NextPowerOfTwo(64, 64) == 64;
    case Vector(e, len) =>
    case Array(e, len) => ArraySized(e, len);
    case Struct(fields, packed) =>
      StructPlaced(PackingOf(packed), Fields(c));
      StructAlign(PackingOf(packed), Fields(c));
      EndIs(c, |fields|, Fields(c), StructOf(PackingOf(packed), Fields(c)).offsets);
  }

  lemma {:induction false} FieldLayoutsAre(c: Class, ls: seq<Layout>, n: nat)
    requires c.Struct? && n <= |ls| == |c.fields|
    requires forall i | 0 <= i < |ls| :: LayoutOf(c.fields[i]) == Some(ls[i])
    ensures FieldLayouts(c, n) == Some(ls[..n])
  {
    if n > 0 {
      FieldLayoutsAre(c, ls, n - 1);
      assert ls[..n] == ls[..n - 1] + [ls[n - 1]];
    }
  }

  /* A type has a layout unless a size does not fit into a word. */
  lemma HasLayout(c: Class, ls: seq<Layout>)
    requires match c
             case Void => true
             case Int(bits) => exists n: nat :: 3 <= n < 64 && bits <= Pow2(n)
             case Pointer => true
             case Vector(e, len) => Sized(e) && Size(e) * len < WORD
             case Array(e, len) => Sized(e) && Size(e) + AlignOf(e) <= WORD && Padded(e) * len < WORD
             case Struct(fields, packed) =>
               && |ls| == |fields| && (forall i | 0 <= i < |ls| :: LayoutOf(fields[i]) == Some(ls[i]))
               && StructFits(PackingOf(packed), ls)
    ensures Sized(c)
  {
    match c
    case Int(bits) =>
      var n: nat :| 3 <= n < 64 && bits <= Pow2(n);
      OfIntOk(bits, n);
      PowerInWord(OfInt(bits).align);
    case Struct(fields, packed) =>
      FieldLayoutsAre(c, ls, |fields|);
      assert ls[..|fields|] == ls;
    case _ =>
  }

  ghost predicate FieldAt(c: Class, i: nat, e: Element)
    requires Sized(c) && c.Struct? && i < |c.fields| && Sized(c.fields[i])
  {
    && e.class_ == c.fields[i]
    && Least(e.offset, EndOf(c, i), if c.packed then 8 else AlignOf(c.fields[i]))
  }

  lemma FieldIsAt(c: Class, i: nat)
    requires Sized(c) && c.Struct? && i < |c.fields|
    ensures Sized(c.fields[i]) && FieldAt(c, i, ElementOf(c, i))
  {
    var ls := Fields(c);
    var offsets := StructOf(PackingOf(c.packed), ls).offsets;
    StructPlaced(PackingOf(c.packed), ls);
    assert PlacedAt(0, PackingOf(c.packed), ls, offsets, i);
    assert LayoutOf(c.fields[i]) == Some(ls[i]);
    EndIs(c, i, ls, offsets);
  }

  /* The elements of a struct: each field's type, at the least offset past the field before that its
     alignment allows, or that begins a byte when packed. Vectors and arrays repeat the element's size. */
  lemma ElementAt(c: Class, i: nat)
    requires Sized(c) && HasElement(c, i)
    ensures match c
            case Vector(e, _) => ElementOf(c, i) == Element(e, Size(e) * i)
            case Array(e, _) => ElementOf(c, i) == Element(e, Size(e) * i)
            case Struct(fields, _) => Sized(fields[i]) && FieldAt(c, i, ElementOf(c, i))
  {
    if c.Struct? { FieldIsAt(c, i); }
  }

  // ---------------------------------------------------------------- paths

  ghost predicate PathOk(c: Class, path: seq<nat>)
    requires Sized(c)
    decreases |path|
  {
    path == [] || (HasElement(c, path[0]) && PathOk(ElementOf(c, path[0]).class_, path[1..]))
  }

  /* `Class::element_rec`: offsets add up along the path. */
  ghost function ElementRec(c: Class, path: seq<nat>): (e: Element)
    requires Sized(c) && PathOk(c, path)
    ensures Sized(e.class_)
    decreases |path|
  {
    if path == [] then Element(c, 0)
    else
      var first := ElementOf(c, path[0]);
      var rest := ElementRec(first.class_, path[1..]);
      Element(rest.class_, first.offset + rest.offset)
  }

  lemma {:induction false} PathFits(c: Class, path: seq<nat>)
    requires Sized(c) && PathOk(c, path)
    ensures ElementRec(c, path).offset + Size(ElementRec(c, path).class_) <= Size(c)
    decreases |path|
  {
    if path != [] {
      ElementFits(c, path[0]);
      PathFits(ElementOf(c, path[0]).class_, path[1..]);
    }
  }

  /* An element of an element: the offsets add up. */
  lemma {:induction false} PathAppend(c: Class, p: seq<nat>, q: seq<nat>)
    requires Sized(c) && PathOk(c, p) && PathOk(ElementRec(c, p).class_, q)
    ensures PathOk(c, p + q)
    ensures var (e, f) := (ElementRec(c, p), ElementRec(ElementRec(c, p).class_, q));
            ElementRec(c, p + q) == Element(f.class_, e.offset + f.offset)
    decreases |p|
  {
    if p == [] {
      assert p + q == q;
    } else {
      assert (p + q)[1..] == p[1..] + q;
      PathAppend(ElementOf(c, p[0]).class_, p[1..], q);
    }
  }

  /* No vector, no packed struct, and no array with a stride that breaks the alignment. */
  ghost predicate Natural(c: Class, path: seq<nat>)
    requires Sized(c) && PathOk(c, path)
    decreases |path|
  {
    path == [] || (Natural(ElementOf(c, path[0]).class_, path[1..]) && NaturalStep(c))
  }

  ghost predicate NaturalStep(c: Class)
    requires Sized(c)
  {
    match c
    case Array(e, _) => Sized(e) && Multiple(Size(e), AlignOf(e))
    case Struct(_, packed) => !packed
    case _ => false
  }

  lemma SumOfMultiples(x: nat, y: nat, a: nat)
    requires Multiple(x, a) && Multiple(y, a)
    ensures Multiple(x + y, a)
  {
    var q: nat, r: nat :| x == q * a && y == r * a;
    assert (q + r) * a == q * a + r * a;
  }

  lemma TimesMultiple(x: nat, i: nat, a: nat)
    requires Multiple(x, a)
    ensures Multiple(Times(x, i), a)
  {
    var q: nat :| x == q * a;
    assert (q * a) * i == (q * i) * a;
  }

  /* An element begins at a multiple of its alignment, which divides that of the aggregate. */
  lemma StepAligned(c: Class, i: nat)
    requires Sized(c) && HasElement(c, i) && NaturalStep(c)
    ensures Multiple(ElementOf(c, i).offset, AlignOf(ElementOf(c, i).class_))
    ensures AlignOf(ElementOf(c, i).class_) <= AlignOf(c)
  {
    LayoutExact(c);
    ElementAt(c, i);
    match c
    case Array(e, _) => TimesMultiple(Size(e), i, AlignOf(e));
    case Struct(fields, _) =>
      assert LayoutOf(fields[i]) == Some(Fields(c)[i]);
      assert Fields(c)[i].align <= AlignOf(c);
  }

  /* So an aggregate at an aligned address has every element on the path at an aligned address. */
  lemma {:induction false} PathAligned(c: Class, path: seq<nat>)
    requires Sized(c) && PathOk(c, path) && Natural(c, path)
    ensures Multiple(ElementRec(c, path).offset, AlignOf(ElementRec(c, path).class_))
    ensures AlignOf(ElementRec(c, path).class_) <= AlignOf(c)
    decreases |path|
  {
    var target := AlignOf(ElementRec(c, path).class_);
    if path == [] {
      assert 0 == 0 * target;
    } else {
      var first := ElementOf(c, path[0]);
      StepAligned(c, path[0]);
      PathAligned(first.class_, path[1..]);
      PowersDivide(target, AlignOf(first.class_), first.offset);
      SumOfMultiples(first.offset, ElementRec(first.class_, path[1..]).offset, target);
    }
  }

  /* Neither path leads through the other. */
  predicate Diverge(p: seq<nat>, q: seq<nat>)
    decreases |p|
  {
    p != [] && q != [] && (p[0] != q[0] || Diverge(p[1..], q[1..]))
  }

  /* Elements on paths that diverge do not overlap. */
  lemma {:induction false} PathsApart(c: Class, p: seq<nat>, q: seq<nat>)
    requires Sized(c) && PathOk(c, p) && PathOk(c, q) && Diverge(p, q)
    ensures var (e, f) := (ElementRec(c, p), ElementRec(c, q));
            e.offset + Size(e.class_) <= f.offset || f.offset + Size(f.class_) <= e.offset
    decreases |p|
  {
    var a, b := ElementOf(c, p[0]), ElementOf(c, q[0]);
    PathFits(a.class_, p[1..]);
    PathFits(b.class_, q[1..]);
    if p[0] == q[0] { PathsApart(a.class_, p[1..], q[1..]); }
    else if p[0] < q[0] { ElementsApart(c, p[0], q[0]); }
    else { ElementsApart(c, q[0], p[0]); }
  }

  // ---------------------------------------------------------------- aggregate values

  ghost predicate OfClass(v: Value, c: Class) { Sized(c) && Canonical(v) && v.bits == Size(c) }

  ghost function ExtractValue(v: Value, c: Class, path: seq<nat>): Value
    requires OfClass(v, c) && PathOk(c, path)
  {
    PathFits(c, path);
    var e := ElementRec(c, path);
    ExtractBits(v, e.offset, Size(e.class_))
  }

  ghost function InsertValue(v: Value, c: Class, path: seq<nat>, w: Value): Value
    requires OfClass(v, c) && PathOk(c, path) && OfClass(w, ElementRec(c, path).class_)
  {
    PathFits(c, path);
    InsertBits(v, ElementRec(c, path).offset, w)
  }

  /* Inserting along a path and extracting gives the inserted value there, and what was there before
     on every path that diverges; the result is again a value of the type. */
  lemma InsertValueIs(v: Value, c: Class, path: seq<nat>, w: Value, other: seq<nat>)
    requires OfClass(v, c) && PathOk(c, path) && PathOk(c, other) && OfClass(w, ElementRec(c, path).class_)
    ensures OfClass(InsertValue(v, c, path, w), c)
    ensures ExtractValue(InsertValue(v, c, path, w), c, path) == w
    ensures Diverge(path, other) ==> ExtractValue(InsertValue(v, c, path, w), c, other) == ExtractValue(v, c, other)
  {
    PathFits(c, path);
    PathFits(c, other);
    var e, f := ElementRec(c, path), ElementRec(c, other);
    InsertIs(v, e.offset, w);
    InsertExtract(v, e.offset, w);
    if Diverge(path, other) {
      PathsApart(c, path, other);
      InsertElsewhere(v, e.offset, w, f.offset, Size(f.class_));
    }
  }

  ghost predicate Elements(c: Class, vs: seq<Value>) {
    Sized(c) && forall i | 0 <= i < |vs| :: HasElement(c, i) && OfClass(vs[i], ElementOf(c, i).class_)
  }

  lemma OnePath(c: Class, i: nat)
    requires Sized(c) && HasElement(c, i)
    ensures PathOk(c, [i]) && ElementRec(c, [i]) == ElementOf(c, i)
  {
    assert [i][1..] == [];
  }

  /* Element i of v is w. */
  ghost predicate ElementIs(v: Value, c: Class, i: nat, w: Value) {
    OfClass(v, c) && PathOk(c, [i]) && ExtractValue(v, c, [i]) == w
  }

  ghost predicate FilledTo(v: Value, c: Class, vs: seq<Value>, n: nat)
    requires n <= |vs|
  {
    OfClass(v, c) && forall j | 0 <= j < n :: ElementIs(v, c, j, vs[j])
  }

  /* One more element leaves the earlier ones as they are. */
  lemma FillKeeps(v: Value, c: Class, i: nat, w: Value, j: nat, x: Value)
    requires OfClass(v, c) && PathOk(c, [i]) && OfClass(w, ElementRec(c, [i]).class_)
    requires if i == j then x == w else ElementIs(v, c, j, x)
    ensures OfClass(InsertValue(v, c, [i], w), c) && ElementIs(InsertValue(v, c, [i], w), c, j, x)
  {
    InsertValueIs(v, c, [i], w, [j]);
  }

  lemma FillOne(v: Value, c: Class, vs: seq<Value>, i: nat, n: nat, offset: nat)
    requires Elements(c, vs) && n == i + 1 <= |vs| && FilledTo(v, c, vs, i) && offset == ElementOf(c, i).offset
    ensures offset + vs[i].bits <= v.bits && FilledTo(InsertBits(v, offset, vs[i]), c, vs, n)
  {
    OnePath(c, i);
    PathFits(c, [i]);
    var w := vs[i];
    var v' := InsertValue(v, c, [i], w);
    assert v' == InsertBits(v, offset, w);
    FillKeeps(v, c, i, w, i, w);
    forall j | 0 <= j < n ensures ElementIs(v', c, j, vs[j]) {
      if j < i { assert ElementIs(v, c, j, vs[j]); }
      FillKeeps(v, c, i, w, j, vs[j]);
    }
  }

  /* `Value::aggregate`: the elements are inserted one after another into a zeroed value. The
     offsets are those of `class.element(i)`. */
  method Aggregate(size: nat, offsets: seq<nat>, vs: seq<Value>, ghost c: Class) returns (result: Value)
    requires Elements(c, vs) && size == Size(c) && |offsets| == |vs|
    requires forall i | 0 <= i < |vs| :: offsets[i] == ElementOf(c, i).offset
    ensures FilledTo(result, c, vs, |vs|)
  {
    result := FromBits(Zeros(size));
    FromBitsBits(Zeros(size));
    for i := 0 to |vs|
      invariant FilledTo(result, c, vs, i)
    {
      FillOne(result, c, vs, i, i + 1, offsets[i]);
      result := InsertBits(result, offsets[i], vs[i]);
    }
  }
}
