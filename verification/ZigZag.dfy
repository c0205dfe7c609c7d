/** The two ZigZag implementations: complement-and-shift in nanopb, exclusive or in the
    Objective-C runtime. Both are given on two's complement words. */
module ZigZag {
  import opened Platform
  import opened Bits

  type int32 = n: int | -0x8000_0000 <= n < 0x8000_0000
  type uint32 = n: int | 0 <= n < 0x1_0000_0000
  type int64 = n: int | -0x8000_0000_0000_0000 <= n < 0x8000_0000_0000_0000
  type uint64 = n: int | 0 <= n < 0x1_0000_0000_0000_0000

  /** The casts between signed and unsigned words of one width. */
  function ToUnsigned32(n: int32): uint32 { if n < 0 then n + TWO_32 else n }
  function ToSigned32(u: uint32): int32 { if u >= 0x8000_0000 then u - TWO_32 else u }
  function ToUnsigned64(n: int64): uint64 { if n < 0 then n + TWO_64 else n }
  function ToSigned64(u: uint64): int64 { if u >= TWO_64 / 2 then u - TWO_64 else u }

  /** The mapping the wire format defines: 0, -1, 1, -2, ... become 0, 1, 2, 3, ... */
  function Interleave(n: int): (z: nat)
    ensures n == if z % 2 == 0 then z / 2 else -(z / 2) - 1
  {
    if n >= 0 then 2 * n else -2 * n - 1
  }

  /** pb_encode_svarint before the varint: ~(value << 1) or value << 1. */
  function EncodeZigZag(value: int64): uint64 {
    var shifted := 2 * ToUnsigned64(value) % TWO_64;
    if value < 0 then TWO_64 - 1 - shifted else shifted
  }

  /** pb_decode_svarint after the varint: ~(value >> 1) or value >> 1. */
  function DecodeZigZag(value: uint64): int64 {
    if value % 2 == 1 then ToSigned64(TWO_64 - 1 - value / 2) else ToSigned64(value / 2)
  }

  function GPBLogicalRightShift32(value: int32, spaces: nat): int32
    requires spaces < 32
  {
    DivideShrinks(ToUnsigned32(value), Pow2(spaces));
    ToSigned32(ToUnsigned32(value) / Pow2(spaces))
  }

  function GPBLogicalRightShift64(value: int64, spaces: nat): int64
    requires spaces < 64
  {
    DivideShrinks(ToUnsigned64(value), Pow2(spaces));
    ToSigned64(ToUnsigned64(value) / Pow2(spaces))
  }

  lemma DivideShrinks(a: nat, d: nat)
    requires d >= 1
    ensures 0 <= a / d <= a
  {
    AtLeast(a / d, d);
  }

  lemma AtLeast(q: nat, d: nat)
    requires d >= 1
    ensures q <= d * q
  {
  }

  /** a ^ b on signed words. */
  function Xor32(a: int32, b: int32): int32 {
    Powers();
    XorBelow(ToUnsigned32(a), ToUnsigned32(b), 32);
    ToSigned32(BitXor(ToUnsigned32(a), ToUnsigned32(b)))
  }

  function Xor64(a: int64, b: int64): int64 {
    Powers();
    XorBelow(ToUnsigned64(a), ToUnsigned64(b), 64);
    ToSigned64(BitXor(ToUnsigned64(a), ToUnsigned64(b)))
  }

  lemma {:induction false} XorBelow(a: nat, b: nat, k: nat)
    requires a < Pow2(k) && b < Pow2(k)
    ensures BitXor(a, b) < Pow2(k)
  {
    if k == 0 || a == 0 || b == 0 {
    } else {
      XorBelow(a / 2, b / 2, k - 1);
    }
  }

  function GPBDecodeZigZag32(n: uint32): int32 {
    Xor32(GPBLogicalRightShift32(ToSigned32(n), 1), -(n % 2))
  }

  function GPBDecodeZigZag64(n: uint64): int64 {
    Xor64(GPBLogicalRightShift64(ToSigned64(n), 1), -(n % 2))
  }

  /** n >> 31 and n >> 63 are arithmetic: all copies of the sign bit. */
  function GPBEncodeZigZag32(n: int32): uint32 {
    ToUnsigned32(Xor32(ToSigned32(2 * ToUnsigned32(n) % TWO_32), if n < 0 then -1 else 0))
  }

  function GPBEncodeZigZag64(n: int64): uint64 {
    ToUnsigned64(Xor64(ToSigned64(2 * ToUnsigned64(n) % TWO_64), if n < 0 then -1 else 0))
  }

  /** Exclusive or with a word of zeros or ones keeps or complements. */
  lemma XorWithSign64(a: int64)
    ensures Xor64(a, 0) == a && Xor64(a, -1) == -1 - a
  {
    Powers();
    XorWithOnes(ToUnsigned64(a), 64);
  }

  lemma XorWithSign32(a: int32)
    ensures Xor32(a, 0) == a && Xor32(a, -1) == -1 - a
  {
    Powers();
    XorWithOnes(ToUnsigned32(a), 32);
  }

  /** All encoders compute the interleaving; the 32-bit one agrees with the 64-bit ones on the
      sign-extended argument. */
  lemma EncodersInterleave(n: int64)
    ensures EncodeZigZag(n) == Interleave(n)
    ensures GPBEncodeZigZag64(n) == Interleave(n)
    ensures -0x8000_0000 <= n < 0x8000_0000 ==> GPBEncodeZigZag32(n) == Interleave(n)
  {
    hide Xor64, Xor32;
    XorWithSign64(ToSigned64(2 * ToUnsigned64(n) % TWO_64));
    if -0x8000_0000 <= n < 0x8000_0000 {
      XorWithSign32(ToSigned32(2 * ToUnsigned32(n) % TWO_32));
    }
  }

  /** Each decoder inverts each encoder, and nothing else decodes to the same number. */
  lemma DecodersInvert(z: uint64)
    ensures Interleave(DecodeZigZag(z)) == z
    ensures GPBDecodeZigZag64(z) == DecodeZigZag(z)
    ensures z < TWO_32 ==> GPBDecodeZigZag32(z) == DecodeZigZag(z)
  {
    hide Xor64, Xor32;
    assert Pow2(1) == 2;
    XorWithSign64(GPBLogicalRightShift64(ToSigned64(z), 1));
    if z < TWO_32 {
      XorWithSign32(GPBLogicalRightShift32(ToSigned32(z), 1));
    }
  }
}
