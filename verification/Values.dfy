/**
 Values and the flat byte memory. A value is a byte buffer together with its width in
 bits (src/value.rs:22-26); the buffer holds (bits + 7) / 8 bytes.
 */
module Values {
  type byte = x: int | 0 <= x < 256

  datatype Value = Value(imp: seq<byte>, bits: nat)

  const UNIT := Value([], 0)

  function ByteLen(bits: nat): nat { (bits + 7) / 8 }

  predicate WellSized(v: Value) { |v.imp| == ByteLen(v.bits) }

  function ZeroBytes(n: nat): seq<byte> { seq(n, i => 0) }

  function LittleEndian(bs: seq<byte>): nat {
    if bs == [] then 0 else bs[0] + 256 * LittleEndian(bs[1..])
  }

  /* The first sixteen bytes, least significant first (src/value.rs:37-47). */
  function AsU128(v: Value): nat {
    LittleEndian(if |v.imp| <= 16 then v.imp else v.imp[..16])
  }

  function AsU64(v: Value): nat { AsU128(v) % 0x1_0000_0000_0000_0000 }
}

/** Memory as a plain point map: what the interval map has to agree with. */
module FlatMemory {
  import opened Values

  type Flat = map<nat, byte>

  /* A byte that was never stored reads as zero. */
  function ByteAt(m: Flat, a: nat): byte { if a in m then m[a] else 0 }

  function Read(m: Flat, a: nat, n: nat): (r: seq<byte>)
    ensures |r| == n && forall i | 0 <= i < n :: r[i] == ByteAt(m, a + i)
  {
    seq<byte>(n, i requires 0 <= i => ByteAt(m, a + i))
  }

  function Write(m: Flat, a: nat, bs: seq<byte>): Flat {
    map k | k in m.Keys + Cells(a, |bs|) :: if a <= k < a + |bs| then bs[k - a] else m[k]
  }

  /* The n addresses from a on. */
  function Cells(a: nat, n: nat): (r: set<nat>)
    ensures forall k: nat :: k in r <==> a <= k < a + n
  {
    if n == 0 then {} else Cells(a, n - 1) + {a + n - 1}
  }
}
