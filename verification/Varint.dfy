/** Base 128 varints: what the encoder emits, what the two decoders of the runtime read, and
    how the 32-bit decoder relates to the 64-bit one. */
module Varint {
  import opened Platform
  import opened Bits

  /** The bytes pb_encode_varint writes for v. */
  function VarintBytes(v: nat): (bs: seq<byte>)
    ensures |bs| >= 1
  {
    if v < 128 then [v] else [v % 128 + 128] + VarintBytes(v / 128)
  }

  /** The number that the low seven bits of each byte spell, least significant group first. */
  function Groups(bs: seq<byte>): nat {
    if bs == [] then 0 else bs[0] % 128 + 128 * Groups(bs[1..])
  }

  /** The length of the varint at the front of bs: up to the first byte without its top bit. */
  function VarintEnd(bs: seq<byte>): (n: Option<nat>)
    ensures n.Some? ==> 1 <= n.value <= |bs|
  {
    if bs == [] then None
    else if bs[0] < 128 then Some(1)
    else match VarintEnd(bs[1..]) case None => None case Some(n) => Some(n + 1)
  }

  /** pb_decode_varint: at most ten bytes, and the tenth contributes one bit. */
  function DecVarint(bs: seq<byte>): (r: Parsed<nat>)
    ensures r.Ok? ==> r.value < TWO_64 && |r.rest| < |bs|
  {
    match VarintEnd(bs)
    case None => Fail
    case Some(n) => if n <= 10 then Ok(Groups(bs[..n]) % TWO_64, bs[n..]) else Fail
  }

  /** pb_decode_varint32_eof after its first byte: bitpos and result are its local variables. */
  function Dec32Tail(bs: seq<byte>, bitpos: nat, result: nat): (r: Parsed<nat>)
    requires result < TWO_32 && bitpos < FAST8_MODULUS
    ensures r.Ok? ==> r.value < TWO_32 && |r.rest| < |bs|
    decreases |bs|
  {
    if bs == [] then Fail
    else
      var b := bs[0];
      var signExtension := if bitpos < 63 then 0xFF else 0x01;
      if bitpos >= 32 && b % 128 != 0 && (result < 0x8000_0000 || b != signExtension) then Fail
      else
        var result' := if bitpos >= 32 then result else Or32(result, b, bitpos);
        var bitpos' := AddFast8(bitpos);
        if b >= 128 then Dec32Tail(bs[1..], bitpos', result')
        else if bitpos' == 35 && b / 16 != 0 then Fail
        else Ok(result', bs[1..])
  }

  /** (uint_fast8_t)(bitpos + 7) */
  function AddFast8(bitpos: nat): (r: nat)
    requires bitpos < FAST8_MODULUS
    ensures r < FAST8_MODULUS
  {
    if bitpos + 7 < FAST8_MODULUS then bitpos + 7 else bitpos + 7 - FAST8_MODULUS
  }

  /** (uint32_t)(b & 0x7F) << bitpos */
  function ShiftLeft32(b: byte, bitpos: nat): (r: nat)
    ensures r < TWO_32
  {
    b % 128 * Pow2(bitpos) % TWO_32
  }

  /** result |= (uint32_t)(b & 0x7F) << bitpos */
  function Or32(result: nat, b: byte, bitpos: nat): (r: nat)
    requires result < TWO_32
    ensures r < TWO_32
  {
    Powers();
    OrBelow(result, ShiftLeft32(b, bitpos), 32);
    BitOr(result, ShiftLeft32(b, bitpos))
  }

  /** pb_decode_varint32. */
  function DecVarint32(bs: seq<byte>): (r: Parsed<nat>)
    ensures r.Ok? ==> r.value < TWO_32 && |r.rest| < |bs|
  {
    if bs == [] then Fail
    else if bs[0] < 128 then Ok(bs[0], bs[1..])
    else Dec32Tail(bs[1..], 7, bs[0] % 128)
  }

  // ---------------------------------------------------------------- the 64-bit decoder

  lemma {:induction false} VarintBytesEnd(v: nat, suffix: seq<byte>)
    ensures VarintEnd(VarintBytes(v) + suffix) == Some(|VarintBytes(v)|)
    ensures Groups(VarintBytes(v)) == v
  {
    var bs := VarintBytes(v);
    assert (bs + suffix)[0] == bs[0];
    if v < 128 {
    } else {
      VarintBytesEnd(v / 128, suffix);
      assert bs[0] == v % 128 + 128;
      assert bs[1..] == VarintBytes(v / 128);
      assert (bs + suffix)[1..] == bs[1..] + suffix;
    }
  }

  /** The length is the least n with v < 2^(7n), and at least one. */
  lemma {:induction false} VarintLength(v: nat)
    ensures var n := |VarintBytes(v)|; v < Pow2(7 * n) && (n > 1 ==> v >= Pow2(7 * (n - 1)))
  {
    if v < 128 {
      Powers();
    } else {
      VarintLength(v / 128);
      var n := |VarintBytes(v / 128)|;
      Pow2Add7(7 * n);
      Pow2Add7(7 * (n - 1));
    }
  }

  lemma VarintFitsIn(v: nat, n: nat)
    requires v < Pow2(7 * n) && n >= 1
    ensures |VarintBytes(v)| <= n
  {
    VarintLength(v);
    var k := |VarintBytes(v)|;
    if k > n {
      Pow2Monotone(7 * n, 7 * (k - 1));
      assert false;
    }
  }

  lemma VarintAtMostTen(v: nat)
    requires v < TWO_64
    ensures |VarintBytes(v)| <= 10
  {
    Powers();
    VarintFitsIn(v, 10);
  }

  /** Decoding what was encoded returns the value and leaves exactly what follows it. */
  lemma VarintRoundTrip(v: nat, suffix: seq<byte>)
    requires v < TWO_64
    ensures |VarintBytes(v)| <= 10
    ensures DecVarint(VarintBytes(v) + suffix) == Ok(v, suffix)
  {
    hide VarintBytes, VarintEnd, Groups, Pow2;
    VarintAtMostTen(v);
    VarintBytesEnd(v, suffix);
    var n := |VarintBytes(v)|;
    assert (VarintBytes(v) + suffix)[..n] == VarintBytes(v);
    assert (VarintBytes(v) + suffix)[n..] == suffix;
  }

  /** No encoding is a proper prefix of another. */
  lemma VarintPrefixFree(u: nat, v: nat)
    requires VarintBytes(u) <= VarintBytes(v)
    ensures u == v
  {
    hide VarintBytes, VarintEnd, Groups;
    var n := |VarintBytes(u)|;
    var tail := VarintBytes(v)[n..];
    assert VarintBytes(v) == VarintBytes(u) + tail;
    assert VarintBytes(v) == VarintBytes(v) + [];
    VarintBytesEnd(u, tail);
    VarintBytesEnd(v, []);
  }

  lemma {:induction false} GroupsBound(bs: seq<byte>)
    ensures Groups(bs) < Pow2(7 * |bs|)
  {
    if bs == [] {
    } else {
      GroupsBound(bs[1..]);
      Pow2Add7(7 * (|bs| - 1));
    }
  }

  /** No input that decodes to v is shorter than what the encoder writes for v. */
  lemma VarintMinimal(bs: seq<byte>)
    requires DecVarint(bs).Ok?
    ensures |VarintBytes(DecVarint(bs).value)| <= |bs| - |DecVarint(bs).rest|
  {
    var n := VarintEnd(bs).value;
    GroupsBound(bs[..n]);
    var v := DecVarint(bs).value;
    if n == 10 {
      Powers();
    } else {
      Powers();
      Pow2Monotone(7 * n, 63);
    }
    VarintFitsIn(v, n);
  }

  // ---------------------------------------------------------------- the 32-bit decoder

  /** v / 128^5 read on from byte j >= 5 of an encoding: the 32-bit decoder lets it through
      when it is the rest of a sign extension. */
  predicate SignExtends(w: nat, j: nat, negative: bool)
    decreases 9 - j
  {
    if j >= 9 then negative && w == 1
    else w >= 128 && (w % 128 == 0 || (negative && w % 128 == 127)) && SignExtends(w / 128, j + 1, negative)
  }

  /** Bits 0 to 31, bit 31, and the bits from 35 on, which are those of byte 5 and later. */
  function Low32(v: nat): (r: nat) { v % TWO_32 }

  predicate Negative32(v: nat) { v / 0x8000_0000 % 2 == 1 }

  function FromByte5(v: nat): nat { v / 0x8_0000_0000 }

  /** The 64-bit values the 32-bit decoder accepts. */
  predicate Accepted32(v: nat) {
    v < TWO_32 || (FromByte5(v) >= 1 && SignExtends(FromByte5(v), 5, Negative32(v)))
  }

  lemma {:induction false} HighTail(w: nat, j: nat, result: nat, suffix: seq<byte>)
    requires 5 <= j <= 9 && result < TWO_32 && 1 <= w && w < Pow2(64 - 7 * j)
    ensures Dec32Tail(VarintBytes(w) + suffix, 7 * j, result)
         == if SignExtends(w, j, result >= 0x8000_0000) then Ok(result, suffix) else Fail
    decreases 9 - j
  {
    hide Or32;
    var bs := VarintBytes(w) + suffix;
    if w < 128 {
      assert bs[1..] == suffix;
      assert j == 9 ==> Pow2(64 - 7 * j) == 2;
    } else {
      assert j < 9 by {
        assert Pow2(1) == 2;
      }
      assert bs[1..] == VarintBytes(w / 128) + suffix;
      Pow2Add7(64 - 7 * (j + 1));
      HighTail(w / 128, j + 1, result, suffix);
    }
  }

  /** The weight of byte j, as far as it lies below bit 32. */
  function Weight(j: nat): (p: nat)
    requires 1 <= j <= 4
  {
    if j == 1 then 0x80 else if j == 2 then 0x4000 else if j == 3 then 0x20_0000 else 0x1000_0000
  }

  lemma ShiftBelow32(b: byte, j: nat)
    requires 1 <= j <= 4
    ensures Pow2(7 * j) == Weight(j)
    ensures ShiftLeft32(b, 7 * j) == (if j == 4 then b % 16 else b % 128) * Weight(j)
  {
    hide Pow2;
    Powers();
    if j == 4 {
      TopNibble(b % 128);
    } else if j == 3 {
    } else if j == 2 {
    }
  }

  lemma TopNibble(c: nat)
    ensures c * 0x1000_0000 % TWO_32 == c % 16 * 0x1000_0000
  {
    ModExact(TWO_32, c / 16, c % 16 * 0x1000_0000);
  }

  /** What byte j adds below bit 32. */
  function Added(b: byte, j: nat): nat
    requires 1 <= j <= 4
  {
    if j == 1 then b % 128 * 0x80 else if j == 2 then b % 128 * 0x4000
    else if j == 3 then b % 128 * 0x20_0000 else b % 16 * 0x1000_0000
  }

  lemma OrBelow32(r: nat, b: byte, j: nat)
    requires 1 <= j <= 4 && r < Weight(j)
    ensures Or32(r, b, 7 * j) == r + Added(b, j)
  {
    ShiftBelow32(b, j);
    OrOfDisjoint(r, if j == 4 then b % 16 else b % 128, 7 * j);
  }

  /** One turn of the 32-bit loop below bit 32: byte j is or-ed in, byte 4 with its low four bits. */
  lemma LowTurn(bs: seq<byte>, j: nat, r: nat)
    requires 1 <= j <= 4 && bs != [] && r < Weight(j)
    ensures var r' := r + Added(bs[0], j);
            && r' < TWO_32
            && Dec32Tail(bs, 7 * j, r)
            == if bs[0] >= 128 then Dec32Tail(bs[1..], 7 * (j + 1), r')
               else if j == 4 && bs[0] >= 16 then Fail else Ok(r', bs[1..])
  {
    hide Or32;
    OrBelow32(r, bs[0], j);
  }

  lemma LowTail(w: nat, j: nat, r: nat, suffix: seq<byte>)
    requires 1 <= j <= 4 && 1 <= w && r < Weight(j)
    ensures var b := if w < 128 then w else w % 128 + 128;
            var r' := r + Added(b, j);
            && r' < TWO_32
            && Dec32Tail(VarintBytes(w) + suffix, 7 * j, r)
            == if w >= 128 then Dec32Tail(VarintBytes(w / 128) + suffix, 7 * (j + 1), r')
               else if j == 4 && w >= 16 then Fail else Ok(r', suffix)
  {
    hide Dec32Tail, VarintBytes, Added, Weight;
    FirstByte(w, suffix);
    LowTurn(VarintBytes(w) + suffix, j, r);
  }

  lemma FirstByte(w: nat, suffix: seq<byte>)
    ensures var bs := VarintBytes(w) + suffix;
            && bs[0] == (if w < 128 then w else w % 128 + 128)
            && bs[1..] == if w < 128 then suffix else VarintBytes(w / 128) + suffix
  {
  }

  lemma FirstTurn(v: nat, suffix: seq<byte>)
    ensures DecVarint32(VarintBytes(v) + suffix)
         == if v < 128 then Ok(v, suffix) else Dec32Tail(VarintBytes(v / 128) + suffix, 7, v % 128)
  {
    hide Dec32Tail;
    assert (VarintBytes(v) + suffix)[1..] == if v < 128 then suffix else VarintBytes(v / 128) + suffix;
  }

  /** w << 7j, and how far w reaches when it is shifted down to byte 4. */
  function Scaled(w: nat, j: nat): nat
    requires 1 <= j <= 4
  {
    if j == 1 then w * 0x80 else if j == 2 then w * 0x4000 else if j == 3 then w * 0x20_0000 else w * 0x1000_0000
  }

  function AtByte4(w: nat, j: nat): nat
    requires 1 <= j <= 4
  {
    if j == 1 then w / 0x20_0000 else if j == 2 then w / 0x4000 else if j == 3 then w / 0x80 else w
  }

  lemma ScaledStep(w: nat, j: nat, r: nat)
    requires 1 <= j <= 3 && r < Weight(j) && w >= 128
    ensures r + Added(w % 128 + 128, j) < Weight(j + 1)
    ensures r + Added(w % 128 + 128, j) + Scaled(w / 128, j + 1) == r + Scaled(w, j)
    ensures AtByte4(w / 128, j + 1) == AtByte4(w, j)
  {
  }

  /** An encoding that ends before byte 4. */
  lemma {:induction false} ShortTail(w: nat, j: nat, r: nat, suffix: seq<byte>)
    requires 1 <= j <= 3 && 1 <= w && r < Weight(j) && AtByte4(w, j) == 0
    ensures Dec32Tail(VarintBytes(w) + suffix, 7 * j, r) == Ok(r + Scaled(w, j), suffix)
    decreases 3 - j
  {
    hide Dec32Tail, VarintBytes;
    LowTail(w, j, r, suffix);
    if w >= 128 {
      ScaledStep(w, j, r);
      ShortTail(w / 128, j + 1, r + Added(w % 128 + 128, j), suffix);
    }
  }

  /** An encoding that reaches byte 4: what is gathered by then is the value mod 2^32. */
  lemma {:induction false} LongTail(w: nat, j: nat, r: nat, suffix: seq<byte>)
    requires 1 <= j <= 4 && 1 <= w && r < Weight(j) && AtByte4(w, j) >= 1
    ensures var w4, v := AtByte4(w, j), r + Scaled(w, j);
            Dec32Tail(VarintBytes(w) + suffix, 7 * j, r)
            == if w4 >= 128 then Dec32Tail(VarintBytes(w4 / 128) + suffix, 35, Low32(v))
               else if w4 >= 16 then Fail else Ok(v, suffix)
    decreases 4 - j
  {
    hide Dec32Tail, VarintBytes, Added, Scaled, AtByte4, Low32, Weight;
    LowTail(w, j, r, suffix);
    if j == 4 {
      AtByte4Itself(w, r);
    } else {
      ReachesByte4(w, j);
      ScaledStep(w, j, r);
      LongTail(w / 128, j + 1, r + Added(w % 128 + 128, j), suffix);
    }
  }

  lemma ReachesByte4(w: nat, j: nat)
    requires 1 <= j <= 3 && AtByte4(w, j) >= 1
    ensures w >= 128
  {
  }

  lemma AtByte4Itself(w: nat, r: nat)
    requires r < Weight(4)
    ensures AtByte4(w, 4) == w
    ensures Low32(r + Scaled(w, 4)) == r + Added(if w < 128 then w else w % 128 + 128, 4)
    ensures w < 16 ==> r + Scaled(w, 4) == r + Added(w, 4)
  {
    hide Low32, Added, Scaled;
    Byte4(w, r);
    Byte4Added(w, if w < 128 then w else w % 128 + 128);
    SmallByte4(w);
  }

  lemma SmallByte4(w: nat)
    ensures w < 16 ==> Scaled(w, 4) == Added(w, 4)
  {
  }

  lemma Byte4(w: nat, r: nat)
    requires r < Weight(4)
    ensures Low32(r + Scaled(w, 4)) == r + w % 16 * 0x1000_0000
  {
    ModExact(TWO_32, w / 16, r + w % 16 * 0x1000_0000);
  }

  lemma Parts(v: nat)
    ensures v % 128 + Scaled(v / 128, 1) == v
    ensures AtByte4(v / 128, 1) / 128 == FromByte5(v)
    ensures AtByte4(v / 128, 1) >= 16 <==> v >= TWO_32
    ensures v < TWO_32 ==> Low32(v) == v
  {
  }

  lemma HighParts(v: nat)
    requires v < TWO_64
    ensures FromByte5(v) < Pow2(29) && Low32(v) < TWO_32
    ensures Low32(v) >= 0x8000_0000 <==> Negative32(v)
  {
    Powers();
    hide Pow2;
  }

  /** What the 32-bit decoder makes of every encoding: the value mod 2^32 exactly when it is a
      32-bit value or the high part looks like a sign extension. */
  lemma Varint32OfEncoding(v: nat, suffix: seq<byte>)
    requires v < TWO_64
    ensures DecVarint32(VarintBytes(v) + suffix) == if Accepted32(v) then Ok(Low32(v), suffix) else Fail
  {
    hide DecVarint32, Dec32Tail, VarintBytes, SignExtends, Scaled, AtByte4, FromByte5, Low32, Negative32;
    FirstTurn(v, suffix);
    Parts(v);
    if v >= 128 {
      HighParts(v);
      if AtByte4(v / 128, 1) == 0 {
        ShortTail(v / 128, 1, v % 128, suffix);
      } else {
        LongTail(v / 128, 1, v % 128, suffix);
        if FromByte5(v) >= 1 {
          HighTail(FromByte5(v), 5, Low32(v), suffix);
        }
      }
    }
  }

  // ---------------------------------------------------------------- both decoders on one input

  lemma {:induction false} HighAgree(bs: seq<byte>, j: nat, r: nat)
    requires 5 <= j && VarintEnd(bs).Some? && j + VarintEnd(bs).value <= 10 && r < TWO_32
    ensures var d := Dec32Tail(bs, 7 * j, r); d.Ok? ==> d == Ok(r, bs[VarintEnd(bs).value..])
    decreases |bs|
  {
    hide Or32;
    if bs[0] >= 128 {
      HighAgree(bs[1..], j + 1, r);
    }
  }

  lemma {:induction false} LowAgree(bs: seq<byte>, j: nat, r: nat)
    requires 1 <= j <= 4 && VarintEnd(bs).Some? && j + VarintEnd(bs).value <= 10 && r < Weight(j)
    ensures var d, n := Dec32Tail(bs, 7 * j, r), VarintEnd(bs).value;
            d.Ok? ==> d == Ok(Low32(r + Scaled(Groups(bs[..n]), j)), bs[n..])
    decreases |bs|
  {
    hide Dec32Tail, Scaled, Added, Low32, Weight;
    var n := VarintEnd(bs).value;
    var b, g := bs[0], Groups(bs[..n]);
    assert bs[..n][1..] == bs[1..][..n - 1];
    var g' := Groups(bs[1..][..n - 1]);
    assert g == b % 128 + 128 * g' && g / 128 == g' && g % 128 == b % 128;
    assert b < 128 ==> g' == 0;
    LowTurn(bs, j, r);
    AddedIsLow(g, b, j, r);
    if b >= 128 {
      if j == 4 {
        HighAgree(bs[1..], 5, r + Added(b, j));
      } else {
        LowAgree(bs[1..], j + 1, r + Added(b, j));
      }
    }
  }

  lemma LowItself(n: nat)
    ensures n < TWO_32 ==> Low32(n) == n
  {
  }

  lemma AddedIsLow(g: nat, b: byte, j: nat, r: nat)
    requires 1 <= j <= 4 && r < Weight(j) && g % 128 == b % 128
    ensures j < 4 ==> r + Added(b, j) < Weight(j + 1)
    ensures j < 4 ==> r + Added(b, j) + Scaled(g / 128, j + 1) == r + Scaled(g, j)
    ensures g < 128 && (j < 4 || g < 16) ==> Low32(r + Scaled(g, j)) == r + Added(b, j)
    ensures j == 4 ==> Low32(r + Scaled(g, j)) == r + Added(b, j)
  {
    hide Low32, Added, Scaled;
    LowItself(r + Added(b, j));
    if j == 4 {
      Byte4(g, r);
      Byte4Added(g, b);
    } else {
      ScaledDown(g, b, j);
      AddedWithin(b, j, r);
    }
  }

  lemma Byte4Added(g: nat, b: byte)
    requires g % 128 == b % 128
    ensures Added(b, 4) == g % 16 * 0x1000_0000
  {
    assert g % 16 == b % 16;
  }

  lemma ScaledDown(g: nat, b: byte, j: nat)
    requires 1 <= j <= 3 && g % 128 == b % 128
    ensures Added(b, j) + Scaled(g / 128, j + 1) == Scaled(g, j)
    ensures g < 128 ==> Scaled(g, j) == Added(b, j)
  {
    var q, c := g / 128, b % 128;
    assert g == 128 * q + c;
    if j == 1 {
    } else if j == 2 {
    }
  }

  lemma AddedWithin(b: byte, j: nat, r: nat)
    requires 1 <= j <= 3 && r < Weight(j)
    ensures r + Added(b, j) < Weight(j + 1) < TWO_32
  {
    if j == 1 {
    } else if j == 2 {
    }
  }

  /** Where both decoders accept, they read the same bytes and agree mod 2^32. */
  lemma DecodersAgree(bs: seq<byte>)
    requires DecVarint(bs).Ok? && DecVarint32(bs).Ok?
    ensures DecVarint32(bs).rest == DecVarint(bs).rest
    ensures DecVarint32(bs).value == DecVarint(bs).value % TWO_32
  {
    hide Dec32Tail;
    var n := VarintEnd(bs).value;
    assert Groups(bs[..n]) == bs[0] % 128 + 128 * Groups(bs[1..][..n - 1]) by {
      assert bs[..n][1..] == bs[1..][..n - 1];
    }
    if bs[0] >= 128 {
      LowAgree(bs[1..], 1, bs[0] % 128);
    }
    ModOfMod(Groups(bs[..n]));
  }

  lemma ModOfMod(g: nat)
    ensures g % TWO_64 % TWO_32 == g % TWO_32
  {
    var r := g % TWO_64;
    assert g == TWO_32 * (TWO_32 * (g / TWO_64) + r / TWO_32) + r % TWO_32;
    ModExact(TWO_32, TWO_32 * (g / TWO_64) + r / TWO_32, r % TWO_32);
  }

  // ---------------------------------------------------------------- which values survive

  lemma {:induction false} NoSignBelow(w: nat, j: nat, negative: bool)
    requires 5 <= j <= 9 && w < Pow2(63 - 7 * j)
    ensures !SignExtends(w, j, negative)
    decreases 9 - j
  {
    if j == 9 {
      assert Pow2(0) == 1;
    } else if w >= 128 {
      Pow2Add7(63 - 7 * (j + 1));
      NoSignBelow(w / 128, j + 1, negative);
    }
  }

  lemma {:induction false} SignAbove(w: nat, j: nat)
    requires 5 <= j <= 9 && w == Pow2(64 - 7 * j) - 1
    ensures SignExtends(w, j, true)
    decreases 9 - j
  {
    assert Pow2(1) == 2;
    if j < 9 {
      Pow2Monotone(8, 64 - 7 * j);
      assert Pow2(8) == 256;
      Pow2Add7(64 - 7 * (j + 1));
      SignAbove(w / 128, j + 1);
    }
  }

  lemma RefusedBetween(v: nat)
    requires TWO_32 <= v < TWO_64 / 2
    ensures !Accepted32(v)
  {
    hide SignExtends, Pow2;
    Powers();
    NoSignBelow(FromByte5(v), 5, Negative32(v));
  }

  lemma NegativesAccepted(v: nat)
    requires TWO_64 - 0x8000_0000 <= v < TWO_64
    ensures Accepted32(v)
  {
    hide SignExtends, Pow2;
    Powers();
    assert FromByte5(v) == 0x2000_0000 - 1;
    SignAbove(FromByte5(v), 5);
  }

  /** The 32-bit decoder returns 32-bit values, refuses what lies between them and 2^63, and
      returns the low half of every sign-extended negative 32-bit number. */
  lemma Varint32Cases(v: nat, suffix: seq<byte>)
    requires v < TWO_64
    ensures v < TWO_32 ==> DecVarint32(VarintBytes(v) + suffix) == Ok(v, suffix)
    ensures TWO_32 <= v < TWO_64 / 2 ==> DecVarint32(VarintBytes(v) + suffix) == Fail
    ensures TWO_64 - 0x8000_0000 <= v ==> DecVarint32(VarintBytes(v) + suffix) == Ok(v - (TWO_64 - TWO_32), suffix)
  {
    hide DecVarint32, VarintBytes, SignExtends, FromByte5, Negative32;
    Varint32OfEncoding(v, suffix);
    if TWO_32 <= v < TWO_64 / 2 {
      RefusedBetween(v);
    } else if TWO_64 - 0x8000_0000 <= v {
      NegativesAccepted(v);
    }
  }
}
