/**
  Machine-level values of the checkpoint file: bytes, the 32-bit `int` of the
  generation counter and the population size, and the 64-bit patterns of the
  `double` weights. Multi-byte values are laid out least significant byte
  first, as an x86 host writes them with `ofstream::write`.
 */
module Bytes {

  newtype byte = b: int | 0 <= b < 0x100

  /** A C++ `int` on the hosts the program targets. */
  newtype int32 = x: int | -0x8000_0000 <= x < 0x8000_0000

  /** The bit pattern of one `double`; the model never interprets it as a number. */
  newtype word64 = x: int | 0 <= x < 0x1_0000_0000_0000_0000

  const INT32_MAX: int := 0x7fff_ffff

  lemma MulLeftMonotone(a: nat, b: nat, c: nat)
    requires a <= b
    ensures a * c <= b * c
  {
  }

  lemma MulSuccessor(n: nat, b: nat)
    requires n >= 1
    ensures n * b == (n - 1) * b + b
  {
  }

  /** 256 to the power k: the number of values k bytes can hold. */
  function Pow256(k: nat): (r: nat)
    ensures r >= 1
  {
    if k == 0 then 1 else 0x100 * Pow256(k - 1)
  }

  lemma Pow256Values()
    ensures Pow256(4) == 0x1_0000_0000
    ensures Pow256(8) == 0x1_0000_0000_0000_0000
  {
    assert Pow256(2) == 0x1_0000;
    assert Pow256(4) == 0x1_0000_0000;
    assert Pow256(6) == 0x1_0000_0000_0000;
  }

  /** The k low-order bytes of x, least significant first. */
  function LittleEndian(x: nat, k: nat): (bs: seq<byte>)
    requires x < Pow256(k)
    ensures |bs| == k
  {
    if k == 0 then [] else [(x % 0x100) as byte] + LittleEndian(x / 0x100, k - 1)
  }

  /** The unsigned number whose little-endian bytes are bs. */
  function FromLittleEndian(bs: seq<byte>): (x: nat)
    ensures x < Pow256(|bs|)
  {
    if |bs| == 0 then 0 else bs[0] as nat + 0x100 * FromLittleEndian(bs[1..])
  }

  /** Reading back what was written gives the number that was written. */
  lemma {:induction false} LittleEndianRoundTrip(x: nat, k: nat)
    requires x < Pow256(k)
    ensures FromLittleEndian(LittleEndian(x, k)) == x
  {
    if k > 0 {
      LittleEndianRoundTrip(x / 0x100, k - 1);
    }
  }

  /** Every byte string is the little-endian image of exactly one number. */
  lemma {:induction false} FromLittleEndianRoundTrip(bs: seq<byte>)
    ensures LittleEndian(FromLittleEndian(bs), |bs|) == bs
  {
    if |bs| > 0 {
      var y := FromLittleEndian(bs[1..]);
      var x := bs[0] as nat + 0x100 * y;
      assert x % 0x100 == bs[0] as nat;
      assert x / 0x100 == y;
      FromLittleEndianRoundTrip(bs[1..]);
    }
  }

  /** The two's-complement bytes of a 32-bit int. */
  function Int32Bytes(x: int32): (bs: seq<byte>)
    ensures |bs| == 4
  {
    Pow256Values();
    LittleEndian(if x < 0 then x as int + 0x1_0000_0000 else x as int, 4)
  }

  /** The 32-bit int whose two's-complement bytes are bs. */
  function Int32FromBytes(bs: seq<byte>): int32
    requires |bs| == 4
  {
    Pow256Values();
    var u := FromLittleEndian(bs);
    if u < 0x8000_0000 then u as int32 else (u - 0x1_0000_0000) as int32
  }

  /** A 32-bit int survives being written and read back. */
  lemma Int32RoundTrip(x: int32)
    ensures Int32FromBytes(Int32Bytes(x)) == x
  {
    Pow256Values();
    LittleEndianRoundTrip(if x < 0 then x as int + 0x1_0000_0000 else x as int, 4);
  }

  /** Any 4 bytes read as an int32 are written back unchanged. */
  lemma Int32BytesRoundTrip(bs: seq<byte>)
    requires |bs| == 4
    ensures Int32Bytes(Int32FromBytes(bs)) == bs
  {
    Pow256Values();
    FromLittleEndianRoundTrip(bs);
  }

  /** The bytes of one `double` bit pattern. */
  function Word64Bytes(w: word64): (bs: seq<byte>)
    ensures |bs| == 8
  {
    Pow256Values();
    LittleEndian(w as nat, 8)
  }

  function Word64FromBytes(bs: seq<byte>): word64
    requires |bs| == 8
  {
    Pow256Values();
    FromLittleEndian(bs) as word64
  }

  /** A weight's bit pattern survives being written and read back. */
  lemma Word64RoundTrip(w: word64)
    ensures Word64FromBytes(Word64Bytes(w)) == w
  {
    Pow256Values();
    LittleEndianRoundTrip(w as nat, 8);
  }
}
