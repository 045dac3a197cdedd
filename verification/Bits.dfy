/**
 Byte buffers as bit strings (src/value.rs): extraction, insertion and conversion. Bit i of a
 buffer is bit i % 8 of byte i / 8, least significant first.
 */
module Bits {
  import opened Values
  import opened Layouts

  // ---------------------------------------------------------------- bits and numbers

  /* The number that a bit string stands for, least significant bit first. */
  function Num(bs: seq<bool>): nat {
    if bs == [] then 0 else (if bs[0] then 1 else 0) + 2 * Num(bs[1..])
  }

  /* The n low bits of a number. */
  function NatBits(x: nat, n: nat): (r: seq<bool>)
    ensures |r| == n
  {
    if n == 0 then [] else [x % 2 == 1] + NatBits(x / 2, n - 1)
  }

  lemma {:induction false} NumBound(bs: seq<bool>)
    ensures Num(bs) < Pow2(|bs|)
  {
    if bs != [] { NumBound(bs[1..]); }
  }

  lemma {:induction false} BitsOfNum(bs: seq<bool>)
    ensures NatBits(Num(bs), |bs|) == bs
  {
    if bs != [] {
      var rest := Num(bs[1..]);
      BitsOfNum(bs[1..]);
      assert Num(bs) / 2 == rest && (Num(bs) % 2 == 1 <==> bs[0]);
    }
  }

  lemma Halve(x: nat, q: nat, p: nat, r: nat)
    requires x == q * (2 * p) + r && r < 2 * p
    ensures x / 2 == q * p + r / 2 && x % 2 == r % 2
  {
    var qp := q * p;
    assert q * (2 * p) == 2 * qp;
  }

  /* Keeping the low n bits is reduction modulo 2^n. */
  lemma {:induction false} NumOfBits(x: nat, n: nat, q: nat, r: nat)
    requires x == q * Pow2(n) + r && r < Pow2(n)
    ensures Num(NatBits(x, n)) == r
  {
    if n > 0 {
      Halve(x, q, Pow2(n - 1), r);
      NumOfBits(x / 2, n - 1, q, r / 2);
      assert NatBits(x, n)[1..] == NatBits(x / 2, n - 1);
    }
  }

  lemma DoubleProduct(p: nat, x: nat)
    ensures 2 * p * x == 2 * (p * x)
  {
  }

  lemma {:induction false} NumAppend(a: seq<bool>, b: seq<bool>)
    ensures Num(a + b) == Num(a) + Pow2(|a|) * Num(b)
  {
    if a == [] {
      assert a + b == b;
    } else {
      assert (a + b)[1..] == a[1..] + b;
      NumAppend(a[1..], b);
      DoubleProduct(Pow2(|a| - 1), Num(b));
    }
  }

  // ---------------------------------------------------------------- bits and bytes

  lemma EightBits()
    ensures Pow2(8) == 256
  {
    assert Pow2(4) == 16;
    Divides(4, 8);
  }

  function ByteOf(bs: seq<bool>): byte
    requires |bs| == 8
  {
    EightBits();
    NumBound(bs);
    Num(bs)
  }

  function Unpack(bytes: seq<byte>): (r: seq<bool>)
    ensures |r| == 8 * |bytes|
  {
    if bytes == [] then [] else NatBits(bytes[0], 8) + Unpack(bytes[1..])
  }

  function Pack(bits: seq<bool>): (r: seq<byte>)
    requires |bits| % 8 == 0
    ensures 8 * |r| == |bits|
  {
    if bits == [] then [] else [ByteOf(bits[..8])] + Pack(bits[8..])
  }

  lemma {:induction false} PackUnpack(bytes: seq<byte>)
    ensures Pack(Unpack(bytes)) == bytes
  {
    if bytes != [] {
      var first, rest := NatBits(bytes[0], 8), Unpack(bytes[1..]);
      PackUnpack(bytes[1..]);
      EightBits();
      NumOfBits(bytes[0], 8, 0, bytes[0]);
      assert (first + rest)[..8] == first && (first + rest)[8..] == rest;
    }
  }

  lemma {:induction false} UnpackPack(bits: seq<bool>)
    requires |bits| % 8 == 0
    ensures Unpack(Pack(bits)) == bits
  {
    if bits != [] {
      UnpackPack(bits[8..]);
      BitsOfNum(bits[..8]);
      assert Pack(bits)[1..] == Pack(bits[8..]);
      assert bits == bits[..8] + bits[8..];
    }
  }

  lemma {:induction false} UnpackAppend(a: seq<byte>, b: seq<byte>)
    ensures Unpack(a + b) == Unpack(a) + Unpack(b)
  {
    if a == [] {
      assert a + b == b;
    } else {
      assert (a + b)[1..] == a[1..] + b;
      UnpackAppend(a[1..], b);
    }
  }

  lemma UnpackSlice(bytes: seq<byte>, a: nat, b: nat, from: nat, to: nat)
    requires a <= b <= |bytes| && from == 8 * a && to == 8 * b
    ensures to <= |Unpack(bytes)| && Unpack(bytes[a..b]) == Unpack(bytes)[from..to]
  {
    var x, y, z := bytes[..a], bytes[a..b], bytes[b..];
    UnpackMiddle(x, y, z, from, to);
    assert bytes == (x + y) + z;
  }

  lemma UnpackMiddle(x: seq<byte>, y: seq<byte>, z: seq<byte>, from: nat, to: nat)
    requires from == 8 * |x| && to == from + 8 * |y|
    ensures to <= |Unpack((x + y) + z)| && Unpack((x + y) + z)[from..to] == Unpack(y)
  {
    UnpackAppend(x + y, z);
    UnpackAppend(x, y);
  }

  /* The bytes of a buffer, least significant first, are the number of its bits. */
  lemma {:induction false} LittleEndianNum(bytes: seq<byte>)
    ensures LittleEndian(bytes) == Num(Unpack(bytes))
  {
    if bytes != [] {
      LittleEndianNum(bytes[1..]);
      NumAppend(NatBits(bytes[0], 8), Unpack(bytes[1..]));
      EightBits();
      NumOfBits(bytes[0], 8, 0, bytes[0]);
    }
  }

  // ---------------------------------------------------------------- values

  function Zeros(n: nat): (r: seq<bool>)
    ensures |r| == n
  {
    seq(n, i => false)
  }

  /* The bits of a value: the buffer's first `bits` bits. */
  function BitsOf(v: Value): (r: seq<bool>)
    requires WellSized(v)
    ensures |r| == v.bits
  {
    Unpack(v.imp)[..v.bits]
  }

  lemma {:induction false} UnpackAt(bytes: seq<byte>, i: nat)
    requires i < 8 * |bytes|
    ensures Unpack(bytes)[i] <==> bytes[i / 8] / Pow2(i % 8) % 2 == 1
  {
    if i < 8 {
      NatBitAt(bytes[0], 8, i);
    } else {
      UnpackAt(bytes[1..], i - 8);
      assert (i - 8) / 8 == i / 8 - 1 && (i - 8) % 8 == i % 8;
    }
  }

  /* Bit i of a value is bit i % 8 of byte i / 8, counted from the least significant. */
  lemma BitAt(v: Value, i: nat)
    requires WellSized(v) && i < v.bits
    ensures i / 8 < |v.imp| && (BitsOf(v)[i] <==> v.imp[i / 8] / Pow2(i % 8) % 2 == 1)
  {
    UnpackAt(v.imp, i);
  }

  /* The unused bits of the last byte. */
  function Padding(bits: nat): (r: seq<bool>)
    ensures bits + |r| == 8 * ByteLen(bits)
  {
    Zeros(8 * ByteLen(bits) - bits)
  }

  /* A zeroed buffer with the bits copied to its front. */
  function FromBits(bs: seq<bool>): (v: Value)
    ensures WellSized(v) && v.bits == |bs|
  {
    Value(Pack(bs + Padding(|bs|)), |bs|)
  }

  /* The unused bits of the last byte are zero. */
  predicate Canonical(v: Value) { WellSized(v) && FromBits(BitsOf(v)) == v }

  lemma FromBitsBits(bs: seq<bool>)
    ensures BitsOf(FromBits(bs)) == bs && Canonical(FromBits(bs))
  {
    UnpackPack(bs + Padding(|bs|));
  }

  lemma CanonicalBits(v: Value)
    requires Canonical(v)
    ensures Unpack(v.imp) == BitsOf(v) + Padding(v.bits)
  {
    UnpackPack(BitsOf(v) + Padding(v.bits));
  }

  // ---------------------------------------------------------------- extraction

  /* `extract_bits`: whole bytes are sliced, anything else is copied bit by bit. */
  function ExtractBits(v: Value, offset: nat, len: nat): Value
    requires WellSized(v) && offset + len <= v.bits
  {
    if offset % 8 == 0 && len % 8 == 0 then Value(v.imp[offset / 8..offset / 8 + len / 8], len)
    else FromBits(BitsOf(v)[offset..offset + len])
  }

  /* Both paths of `extract_bits` give the same value. */
  lemma ExtractIs(v: Value, offset: nat, len: nat)
    requires WellSized(v) && offset + len <= v.bits
    ensures ExtractBits(v, offset, len) == FromBits(BitsOf(v)[offset..offset + len])
    ensures Canonical(ExtractBits(v, offset, len))
    ensures BitsOf(ExtractBits(v, offset, len)) == BitsOf(v)[offset..offset + len]
  {
    var bs := BitsOf(v)[offset..offset + len];
    FromBitsBits(bs);
    if offset % 8 == 0 && len % 8 == 0 {
      var a, b := offset / 8, offset / 8 + len / 8;
      UnpackSlice(v.imp, a, b, offset, offset + len);
      assert bs == Unpack(v.imp[a..b]);
      PackUnpack(v.imp[a..b]);
      assert bs + Zeros(0) == bs;
    }
  }

  // ---------------------------------------------------------------- insertion

  function Splice(bs: seq<bool>, offset: nat, ins: seq<bool>): (r: seq<bool>)
    requires offset + |ins| <= |bs|
    ensures |r| == |bs|
    ensures forall i | 0 <= i < |bs| :: r[i] == if offset <= i < offset + |ins| then ins[i - offset] else bs[i]
  {
    bs[..offset] + ins + bs[offset + |ins|..]
  }

  /* `insert_bits` overwrites some bits of the buffer. */
  function InsertBits(v: Value, offset: nat, w: Value): (r: Value)
    requires WellSized(v) && WellSized(w) && offset + w.bits <= v.bits
    ensures WellSized(r) && r.bits == v.bits
  {
    Value(Pack(Splice(Unpack(v.imp), offset, BitsOf(w))), v.bits)
  }

  lemma SpliceCut(bs: seq<bool>, n: nat, offset: nat, ins: seq<bool>)
    requires offset + |ins| <= n <= |bs|
    ensures Splice(bs, offset, ins)[..n] == Splice(bs[..n], offset, ins)
    ensures Splice(bs, offset, ins)[n..] == bs[n..]
  {
  }

  lemma CanonicalIs(v: Value)
    requires WellSized(v) && Unpack(v.imp)[v.bits..] == Padding(v.bits)
    ensures Canonical(v)
  {
    assert Unpack(v.imp) == BitsOf(v) + Padding(v.bits);
    PackUnpack(v.imp);
  }

  /* The bits outside the range stay as they are. */
  lemma InsertIs(v: Value, offset: nat, w: Value)
    requires WellSized(v) && WellSized(w) && offset + w.bits <= v.bits
    ensures BitsOf(InsertBits(v, offset, w)) == Splice(BitsOf(v), offset, BitsOf(w))
    ensures Canonical(v) ==> Canonical(InsertBits(v, offset, w))
  {
    UnpackPack(Splice(Unpack(v.imp), offset, BitsOf(w)));
    SpliceCut(Unpack(v.imp), v.bits, offset, BitsOf(w));
    if Canonical(v) {
      CanonicalBits(v);
      assert Unpack(v.imp)[v.bits..] == Padding(v.bits);
      CanonicalIs(InsertBits(v, offset, w));
    }
  }

  /* Insert, then extract the same range: the inserted value. */
  lemma InsertExtract(v: Value, offset: nat, w: Value)
    requires WellSized(v) && Canonical(w) && offset + w.bits <= v.bits
    ensures ExtractBits(InsertBits(v, offset, w), offset, w.bits) == w
  {
    var r := InsertBits(v, offset, w);
    InsertIs(v, offset, w);
    ExtractIs(r, offset, w.bits);
    assert BitsOf(r)[offset..offset + w.bits] == BitsOf(w);
  }

  /* Insert, then extract a range that does not overlap: as before. */
  lemma InsertElsewhere(v: Value, offset: nat, w: Value, other: nat, len: nat)
    requires WellSized(v) && WellSized(w) && offset + w.bits <= v.bits && other + len <= v.bits
    requires offset + w.bits <= other || other + len <= offset
    ensures ExtractBits(InsertBits(v, offset, w), other, len) == ExtractBits(v, other, len)
  {
    var r := InsertBits(v, offset, w);
    InsertIs(v, offset, w);
    ExtractIs(r, other, len);
    ExtractIs(v, other, len);
    assert BitsOf(r)[other..other + len] == BitsOf(v)[other..other + len];
  }

  // ---------------------------------------------------------------- reading numbers back

  lemma {:induction false} NumZeros(n: nat)
    ensures Num(Zeros(n)) == 0
  {
    if n > 0 {
      assert Zeros(n)[1..] == Zeros(n - 1);
      NumZeros(n - 1);
    }
  }

  lemma NumPadded(bs: seq<bool>, n: nat)
    ensures Num(bs + Zeros(n)) == Num(bs)
  {
    NumAppend(bs, Zeros(n));
    NumZeros(n);
  }

  /* `as_u128` of a value of at most 128 bits is the number of its bits. */
  lemma AsU128Is(v: Value)
    requires Canonical(v) && v.bits <= 128
    ensures AsU128(v) == Num(BitsOf(v)) < Pow2(v.bits)
  {
    LittleEndianNum(v.imp);
    CanonicalBits(v);
    NumPadded(BitsOf(v), |Padding(v.bits)|);
    NumBound(BitsOf(v));
  }

  lemma LowBits(bs: seq<bool>, n: nat)
    ensures Num(bs[..Min(|bs|, n)]) == Num(bs) % Pow2(n)
  {
    if n <= |bs| {
      NumCut(bs, n);
    } else {
      assert bs[..|bs|] == bs;
      NumBound(bs);
      Pow2Monotone(|bs|, n);
      ModIs(Num(bs), Pow2(n), 0, Num(bs));
    }
  }

  lemma FrontBytes(v: Value, n: nat)
    requires Canonical(v) && n == 16 < |v.imp|
    ensures v.bits > 128 && AsU128(v) == Num(BitsOf(v)[..128])
  {
    LittleEndianNum(v.imp[..n]);
    UnpackSlice(v.imp, 0, n, 0, 8 * n);
    assert v.imp[0..n] == v.imp[..n];
    assert Unpack(v.imp)[0..8 * n] == BitsOf(v)[..8 * n];
  }

  /* Of a wider value `as_u128` takes the low 128 bits. */
  lemma AsU128Low(v: Value)
    requires Canonical(v)
    ensures AsU128(v) == Num(if v.bits <= 128 then BitsOf(v) else BitsOf(v)[..128])
  {
    if v.bits <= 128 { AsU128Is(v); } else { FrontBytes(v, 16); }
  }

  lemma LowWord(v: Value, n: nat, bs: seq<bool>)
    requires Canonical(v) && n == 64 && bs == if v.bits <= 128 then BitsOf(v) else BitsOf(v)[..128]
    ensures AsU64(v) == Num(bs[..Min(|bs|, n)])
  {
    AsU128Low(v);
    WordIs();
    LowBits(bs, n);
  }

  /* `as_u64` is the number of the low 64 bits, or of all of them in a smaller value. */
  lemma AsU64Is(v: Value)
    requires Canonical(v)
    ensures AsU64(v) == Num(if v.bits <= 64 then BitsOf(v) else BitsOf(v)[..64])
  {
    var bs := if v.bits <= 128 then BitsOf(v) else BitsOf(v)[..128];
    LowWord(v, 64, bs);
    assert bs[..Min(|bs|, 64)] == if v.bits <= 64 then BitsOf(v) else BitsOf(v)[..64];
  }

  lemma FromBitsAsU128(bs: seq<bool>)
    requires |bs| <= 128
    ensures AsU128(FromBits(bs)) == Num(bs)
  {
    FromBitsBits(bs);
    AsU128Is(FromBits(bs));
  }

  lemma ModIs(x: nat, p: nat, q: nat, r: nat)
    requires x == q * p + r && r < p
    ensures x % p == r && x / p == q
  {
    var q', r' := Parts(x, p);
    assert x / p == q by { QuotientIs(x, p, q, r); }
    assert x == x / p * p + x % p;
  }

  lemma QuotientIs(x: nat, p: nat, q: nat, r: nat)
    requires x == q * p + r && r < p
    ensures x / p == q
  {
    SameQuotient(x, p, q, r, x / p, x % p);
  }

  /* Cutting a bit string at n is division by 2^n. */
  lemma NumCut(bs: seq<bool>, n: nat)
    requires n <= |bs|
    ensures Num(bs[..n]) == Num(bs) % Pow2(n) && Num(bs[n..]) == Num(bs) / Pow2(n)
  {
    assert bs == bs[..n] + bs[n..];
    NumAppend(bs[..n], bs[n..]);
    NumBound(bs[..n]);
    assert Pow2(n) * Num(bs[n..]) == Num(bs[n..]) * Pow2(n);
    ModIs(Num(bs), Pow2(n), Num(bs[n..]), Num(bs[..n]));
  }

  lemma Pow2Monotone(a: nat, b: nat)
    requires a <= b
    ensures Pow2(a) <= Pow2(b)
  {
    Divides(a, b);
    MulMonotone(1, Pow2(b - a), Pow2(a));
  }

  // ---------------------------------------------------------------- new, ucast, lshr

  function Min(a: nat, b: nat): nat { if a < b then a else b }

  /* `Value::new`: the low bits of a 128-bit number. */
  function New(bits: nat, value: nat): Value {
    var n := Min(bits, 128);
    FromBits(NatBits(value, n) + Zeros(bits - n))
  }

  lemma DivTwice(x: nat, p: nat, d: nat)
    requires p > 0 && d == 2 * p
    ensures x / 2 / p == x / d
  {
    var q, r := Parts(x, d);
    Halve(x, q, p, r);
    QuotientIs(x, d, q, r);
    QuotientIs(x / 2, p, q, r / 2);
  }

  lemma {:induction false} NatBitAt(x: nat, n: nat, k: nat)
    requires k < n
    ensures NatBits(x, n)[k] <==> x / Pow2(k) % 2 == 1
  {
    if k > 0 {
      NatBitAt(x / 2, n - 1, k - 1);
      DivTwice(x, Pow2(k - 1), Pow2(k));
    }
  }

  /* `new` gives a value of the requested width, whatever it is: bit k is bit k of the number below 128
     and zero from there on. */
  lemma NewBits(bits: nat, value: nat)
    ensures New(bits, value).bits == bits && Canonical(New(bits, value))
    ensures forall k | 0 <= k < bits ::
              BitsOf(New(bits, value))[k] <==> k < 128 && value / Pow2(k) % 2 == 1
  {
    var n := Min(bits, 128);
    FromBitsBits(NatBits(value, n) + Zeros(bits - n));
    forall k | 0 <= k < bits
      ensures BitsOf(New(bits, value))[k] <==> k < 128 && value / Pow2(k) % 2 == 1
    {
      if k < n { NatBitAt(value, n, k); }
    }
  }

  lemma NewIs(bits: nat, value: nat)
    requires bits <= 128
    ensures AsU128(New(bits, value)) == value % Pow2(bits) && Canonical(New(bits, value))
    ensures New(bits, value).bits == bits
  {
    var bs := NatBits(value, bits);
    assert bs + Zeros(0) == bs;
    FromBitsBits(bs);
    FromBitsAsU128(bs);
    var q, r := Parts(value, Pow2(bits));
    NumOfBits(value, bits, q, r);
    ModIs(value, Pow2(bits), q, r);
  }

  function Ucast(v: Value, bits: nat): Value
    requires WellSized(v)
  {
    var n := Min(v.bits, bits);
    FromBits(BitsOf(v)[..n] + Zeros(bits - n))
  }

  /* `ucast` gives a value of the requested width, whatever the two widths are: the bits that v has are
     kept, the others are zero. */
  lemma UcastBits(v: Value, bits: nat)
    requires WellSized(v)
    ensures Ucast(v, bits).bits == bits && |Ucast(v, bits).imp| == (bits + 7) / 8 && Canonical(Ucast(v, bits))
    ensures forall k | 0 <= k < bits :: BitsOf(Ucast(v, bits))[k] <==> k < v.bits && BitsOf(v)[k]
  {
    var n := Min(v.bits, bits);
    FromBitsBits(BitsOf(v)[..n] + Zeros(bits - n));
  }

  /* `ucast` is reduction modulo 2^bits. */
  lemma UcastIs(v: Value, bits: nat)
    requires Canonical(v) && v.bits <= 128 && bits <= 128
    ensures AsU128(Ucast(v, bits)) == AsU128(v) % Pow2(bits) && Canonical(Ucast(v, bits))
    ensures Ucast(v, bits).bits == bits
  {
    var n := Min(v.bits, bits);
    var bs := BitsOf(v)[..n];
    AsU128Is(v);
    LowBits(BitsOf(v), bits);
    NumPadded(bs, bits - n);
    FromBitsBits(bs + Zeros(bits - n));
    FromBitsAsU128(bs + Zeros(bits - n));
  }

  /* `call_scalar_lshr`; a larger shift makes the source's subtraction underflow. */
  function Lshr(v: Value, shift: nat): Value
    requires WellSized(v) && shift <= v.bits
  {
    FromBits(BitsOf(v)[shift..] + Zeros(shift))
  }

  /* `lshr` keeps the width and moves bit k + shift to bit k; the bits above are zero. */
  lemma LshrBits(v: Value, shift: nat)
    requires WellSized(v) && shift <= v.bits
    ensures Lshr(v, shift).bits == v.bits && Canonical(Lshr(v, shift))
    ensures forall k | 0 <= k < v.bits ::
              BitsOf(Lshr(v, shift))[k] <==> k + shift < v.bits && BitsOf(v)[k + shift]
  {
    FromBitsBits(BitsOf(v)[shift..] + Zeros(shift));
  }

  lemma LshrIs(v: Value, shift: nat)
    requires Canonical(v) && v.bits <= 128 && shift <= v.bits
    ensures AsU128(Lshr(v, shift)) == AsU128(v) / Pow2(shift) && Canonical(Lshr(v, shift))
    ensures Lshr(v, shift).bits == v.bits
  {
    var bs := BitsOf(v)[shift..];
    AsU128Is(v);
    NumPadded(bs, shift);
    FromBitsBits(bs + Zeros(shift));
    FromBitsAsU128(bs + Zeros(shift));
    NumCut(BitsOf(v), shift);
  }

  // ---------------------------------------------------------------- sign extension

  /* The value of n bits in two's complement. */
  function Signed(x: nat, n: nat): int
    requires n > 0
  {
    if x >= Pow2(n - 1) then x - Pow2(n) else x
  }

  /* `value as u128` of a signed number. */
  function ToU128(x: int): nat
    requires x + Pow2(127) >= 0
  {
    assert Pow2(128) == 2 * Pow2(127);
    if x < 0 then x + Pow2(128) else x
  }

  predicate Widens(from: nat, to: nat) {
    (from == 8 && to in {16, 32, 64}) || (from == 16 && to in {32, 64}) || (from == 32 && to == 64)
  }

  lemma SignedRange(x: nat, n: nat)
    requires 0 < n <= 128 && x < Pow2(n)
    ensures 0 <= Signed(x, n) + Pow2(n - 1) <= Signed(x, n) + Pow2(127) && Signed(x, n) < Pow2(n - 1)
  {
    assert Pow2(n) == 2 * Pow2(n - 1);
    Pow2Monotone(n - 1, 127);
  }

  /* The cases of `call_scalar_sext` that are not `todo!`. */
  function Sext(v: Value, bits: nat): Value
    requires Canonical(v) && (v.bits == bits || Widens(v.bits, bits))
  {
    if v.bits == bits then v
    else
      AsU128Is(v);
      SignedRange(AsU128(v), v.bits);
      New(bits, ToU128(Signed(AsU128(v), v.bits)))
  }

  /* A signed number that fits into n bits is not changed by going through 128 bits to m. */
  lemma ThroughU128(x: int, n: nat, m: nat)
    requires 0 < n <= m <= 128 && 0 <= x + Pow2(n - 1) && x < Pow2(n - 1)
    ensures x + Pow2(127) >= 0
    ensures Signed(ToU128(x) % Pow2(m), m) == x
  {
    var last, top := m - 1, 127;
    Pow2Monotone(n - 1, top);
    Pow2Monotone(n - 1, last);
    Double(last, m);
    if x >= 0 {
      ModIs(x, Pow2(m), 0, x);
    } else {
      var w := top + 1;
      Divides(m, w);
      NegativeWraps(x, Pow2(last), Pow2(m), Pow2(w - m), Pow2(w));
    }
  }

  lemma Double(k: nat, n: nat)
    requires n == k + 1
    ensures Pow2(n) == 2 * Pow2(k)
  {
  }

  lemma NegativeWraps(x: int, half: nat, p: nat, top: nat, w: nat)
    requires w == top * p && top > 0 && p == 2 * half && p > 0 && -1 * half <= x < 0
    ensures x + w >= 0 && (x + w) % p == x + p >= half
  {
    Distributes(top - 1, p);
    ModIs(x + w, p, top - 1, x + p);
  }

  /* Sign extension keeps the signed value. */
  lemma SextIs(v: Value, bits: nat)
    requires Canonical(v) && 0 < v.bits <= 128 && (v.bits == bits || Widens(v.bits, bits))
    ensures Signed(AsU128(Sext(v, bits)), bits) == Signed(AsU128(v), v.bits)
    ensures Sext(v, bits).bits == bits && Canonical(Sext(v, bits))
  {
    if v.bits != bits {
      AsU128Is(v);
      SignedRange(AsU128(v), v.bits);
      var x := Signed(AsU128(v), v.bits);
      ThroughU128(x, v.bits, bits);
      NewIs(bits, ToU128(x));
    }
  }
}
