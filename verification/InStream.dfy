/** pb_istream_t on a memory buffer, and the routines that read single items from it. */
module InStream {
  import opened Platform
  import opened Bits
  import opened Varint
  import opened Encoding
  import opened Decoding

  /** Up to n bytes with the continuation bit do not end a varint. */
  lemma {:induction false} VarintEndSkip(bs: seq<byte>, i: nat)
    requires i <= |bs| && forall j :: 0 <= j < i ==> bs[j] >= 128
    ensures VarintEnd(bs) == match VarintEnd(bs[i..]) case None => None case Some(n) => Some(n + i)
  {
    if i > 0 {
      VarintEndSkip(bs[1..], i - 1);
      assert bs[1..][i - 1..] == bs[i..];
    }
  }

  lemma {:induction false} GroupsSnoc(bs: seq<byte>, b: byte)
    ensures Groups(bs + [b]) == Groups(bs) + b % 128 * Pow2(7 * |bs|)
  {
    if bs == [] {
      assert Groups([b][1..]) == 0;
    } else {
      assert (bs + [b])[1..] == bs[1..] + [b];
      GroupsSnoc(bs[1..], b);
      Pow2Add7(7 * (|bs| - 1));
      TimesShift(b % 128, Pow2(7 * (|bs| - 1)));
    }
  }

  lemma TimesShift(c: nat, p: nat)
    ensures 128 * (c * p) == c * (128 * p)
  {
  }

  /** A product in uint64_t. */
  function Wrap64(n: nat): nat {
    n % TWO_64
  }

  /** result |= (uint64_t)(b & 0x7F) << bitpos */
  function Or64(result: nat, b: byte, bitpos: nat): nat {
    BitOr(result, Wrap64(b % 128 * Pow2(bitpos)))
  }

  /** Or-ing in the next byte of a varint keeps the value of its groups, mod 2^64. */
  lemma Or64Groups(bs: seq<byte>, b: byte)
    requires |bs| <= 9
    ensures Groups(bs) < TWO_64
    ensures Or64(Groups(bs), b, 7 * |bs|) == Groups(bs + [b]) % TWO_64
  {
    hide Groups, Or64, Pow2;
    Powers();
    GroupsBound(bs);
    GroupsSnoc(bs, b);
    Pow2Monotone(7 * |bs|, 63);
    if |bs| == 9 {
      OrLastByte(Groups(bs), b);
    } else {
      OrByte(Groups(bs), b, 7 * |bs|);
    }
  }

  lemma OrByte(g: nat, b: byte, bitpos: nat)
    requires g < Pow2(bitpos) && bitpos <= 56
    ensures Or64(g, b, bitpos) == g + b % 128 * Pow2(bitpos) < TWO_64
  {
    hide Pow2, BitOr, Wrap64;
    Powers();
    Pow2Add7(bitpos);
    Pow2Monotone(bitpos + 7, 63);
    LessTimes(b % 128, Pow2(bitpos));
    NoWrap(b % 128 * Pow2(bitpos));
    OrOfDisjoint(g, b % 128, bitpos);
  }

  lemma NoWrap(n: nat)
    requires n < TWO_64
    ensures Wrap64(n) == n
  {
  }

  lemma LessTimes(c: nat, p: nat)
    requires c < 128 && p >= 1
    ensures c * p + p <= 128 * p
  {
    assert (128 - c - 1) * p >= 0;
    assert 128 * p == c * p + p + (128 - c - 1) * p;
  }

  lemma OrLastByte(g: nat, b: byte)
    requires g < Pow2(63)
    ensures Or64(g, b, 63) == (g + b % 128 * Pow2(63)) % TWO_64
  {
    hide Pow2, BitOr;
    Powers();
    Top63(b % 128);
    OrOfDisjoint(g, b % 2, 63);
    AddTop(g, b % 128);
    assert b % 128 % 2 == b % 2;
  }

  lemma Top63(c: nat)
    ensures c * 0x8000_0000_0000_0000 % TWO_64 == c % 2 * 0x8000_0000_0000_0000
  {
    ModExact(TWO_64, c / 2, c % 2 * 0x8000_0000_0000_0000);
  }

  lemma AddTop(g: nat, c: nat)
    requires g < 0x8000_0000_0000_0000
    ensures (g + c * 0x8000_0000_0000_0000) % TWO_64 == g + c % 2 * 0x8000_0000_0000_0000
  {
    ModExact(TWO_64, c / 2, g + c % 2 * 0x8000_0000_0000_0000);
  }

  /** Skipping a string is skipping what its length announces exactly when size_t can hold the
      length; where it cannot, the two agree only if the input ends before either. */
  lemma SkipStringExact(bs: seq<byte>)
    requires DecVarint32(bs).Ok?
    ensures var size, rest := DecVarint32(bs).value, DecVarint32(bs).rest;
            SkipString(bs) == DecDelimited(bs) <==> size <= SIZE_MAX || |rest| < WrapSize(size)
  {
    hide DecVarint32;
    var size := DecVarint32(bs).value;
    if size > SIZE_MAX {
      WrapsBelow(size);
    }
  }

  /** With a 16-bit size_t a string of 65536 bytes is skipped without its payload. */
  lemma LongStringSkipped(rest: seq<byte>)
    requires SIZE_HALF_BITS == 8
    ensures SkipString([0x80, 0x80, 0x04] + rest) == Ok([], rest)
  {
    hide DecVarint32;
    assert VarintBytes(4) == [4] && VarintBytes(512) == [0x80] + VarintBytes(4);
    assert VarintBytes(0x1_0000) == [0x80] + VarintBytes(512) == [0x80, 0x80, 0x04];
    Varint32Cases(0x1_0000, rest);
    assert rest[..0] == [] && rest[0..] == rest;
  }

  class Input {
    const buf: seq<byte>
    var pos: nat
    var bytesLeft: nat

    ghost predicate Valid()
      reads this
    {
      pos + bytesLeft <= |buf|
    }

    /** What is left to read. */
    ghost function Rest(): seq<byte>
      reads this
      requires Valid()
    {
      buf[pos..pos + bytesLeft]
    }

    /** Where reading will end; every successful decoder leaves it alone. */
    ghost function End(): nat
      reads this
    {
      pos + bytesLeft
    }

    /** pb_istream_from_buffer. */
    constructor (buf: seq<byte>, pos: nat, bytesLeft: nat)
      requires pos + bytesLeft <= |buf|
      ensures Valid() && this.buf == buf && this.pos == pos && this.bytesLeft == bytesLeft
    {
      this.buf := buf;
      this.pos := pos;
      this.bytesLeft := bytesLeft;
    }

    /** pb_readbyte. */
    method ReadByte() returns (ok: bool, b: byte)
      requires Valid()
      modifies this
      ensures Valid() && End() == old(End())
      ensures ok <==> old(Rest()) != []
      ensures ok ==> b == old(Rest())[0] && Rest() == old(Rest())[1..]
      ensures !ok ==> Rest() == []
    {
      if bytesLeft == 0 {
        return false, 0;
      }
      b := buf[pos];
      pos := pos + 1;
      bytesLeft := bytesLeft - 1;
      ok := true;
    }

    /** pb_read of count bytes. */
    method Read(count: nat) returns (ok: bool, data: seq<byte>)
      requires Valid()
      modifies this
      ensures Valid() && End() == old(End())
      ensures match Take(old(Rest()), count)
              case Ok(v, rest) => ok && data == v && Rest() == rest
              case Fail => !ok
    {
      if count == 0 {
        return true, [];
      }
      if bytesLeft < count {
        return false, [];
      }
      data := buf[pos..pos + count];
      pos := pos + count;
      bytesLeft := bytesLeft - count;
      ok := true;
    }

    /** pb_decode_varint32_eof: eof is reported when there was no first byte. */
    method DecodeVarint32Eof() returns (ok: bool, dest: nat, eof: bool)
      requires Valid()
      modifies this
      ensures Valid() && End() == old(End())
      ensures eof <==> old(Rest()) == []
      ensures match DecVarint32(old(Rest()))
              case Ok(v, rest) => ok && dest == v && Rest() == rest
              case Fail => !ok
    {
      hide Or32;
      dest := 0;
      var b;
      ok, b := ReadByte();
      eof := !ok;
      if !ok {
        return;
      }
      if b < 128 {
        dest := b;
        return;
      }
      ghost var tail := Rest();
      var bitpos: nat, result: nat := 7, b % 128;
      ghost var first := result;
      while true
        invariant Valid() && End() == old(End())
        invariant result < TWO_32 && bitpos < FAST8_MODULUS && first < TWO_32
        invariant Dec32Tail(Rest(), bitpos, result) == Dec32Tail(tail, 7, first)
        decreases bytesLeft
      {
        ok, b := ReadByte();
        if !ok {
          return;
        }
        if bitpos >= 32 {
          var signExtension := if bitpos < 63 then 0xFF else 0x01;
          if b % 128 != 0 && (result < 0x8000_0000 || b != signExtension) {
            return false, 0, eof;
          }
        } else {
          result := Or32(result, b, bitpos);
        }
        bitpos := AddFast8(bitpos);
        if b < 128 {
          break;
        }
      }
      if bitpos == 35 && b / 16 != 0 {
        return false, 0, eof;
      }
      dest := result;
    }

    /** pb_decode_varint32. */
    method DecodeVarint32() returns (ok: bool, dest: nat)
      requires Valid()
      modifies this
      ensures Valid() && End() == old(End())
      ensures match DecVarint32(old(Rest()))
              case Ok(v, rest) => ok && dest == v && Rest() == rest
              case Fail => !ok
    {
      var eof;
      ok, dest, eof := DecodeVarint32Eof();
    }

    /** pb_decode_varint. */
    method DecodeVarint() returns (ok: bool, dest: nat)
      requires Valid()
      modifies this
      ensures Valid() && End() == old(End())
      ensures match DecVarint(old(Rest()))
              case Ok(v, rest) => ok && dest == v && Rest() == rest
              case Fail => !ok
    {
      hide Groups, Or64, VarintEnd;
      ghost var bs := Rest();
      ghost var i := 0;
      var bitpos: nat, result: nat := 0, 0;
      NoGroups();
      assert bs[..0] == [];
      while true
        invariant Valid() && End() == old(End())
        invariant i <= 10 && i <= |bs| && bitpos == 7 * i && Rest() == bs[i..]
        invariant forall j :: 0 <= j < i ==> bs[j] >= 128
        invariant result == Groups(bs[..i]) % TWO_64
        decreases bytesLeft
      {
        VarintEndSkip(bs, i);
        VarintEndAt(bs[i..]);
        if bitpos >= 64 {
          return false, 0;
        }
        var b;
        ok, b := ReadByte();
        if !ok {
          return false, 0;
        }
        assert bs[..i + 1] == bs[..i] + [b];
        Or64Groups(bs[..i], b);
        result := Or64(result, b, bitpos);
        bitpos := bitpos + 7;
        i := i + 1;
        if b < 128 {
          break;
        }
      }
      ok := true;
      dest := result;
    }

    /** pb_skip_varint. */
    method SkipVarint() returns (ok: bool)
      requires Valid()
      modifies this
      ensures Valid() && End() == old(End())
      ensures match SkipField(WT_VARINT, old(Rest()))
              case Ok(_, rest) => ok && Rest() == rest
              case Fail => !ok
    {
      hide VarintEnd;
      ghost var bs := Rest();
      ghost var i := 0;
      while true
        invariant Valid() && End() == old(End())
        invariant i <= |bs| && Rest() == bs[i..]
        invariant forall j :: 0 <= j < i ==> bs[j] >= 128
        decreases bytesLeft
      {
        VarintEndSkip(bs, i);
        VarintEndAt(bs[i..]);
        var data;
        ok, data := Read(1);
        if !ok {
          return;
        }
        i := i + 1;
        if data[0] < 128 {
          break;
        }
      }
    }

    /** pb_skip_string. */
    method SkipString() returns (ok: bool)
      requires Valid()
      modifies this
      ensures Valid() && End() == old(End())
      ensures match Decoding.SkipString(old(Rest()))
              case Ok(_, rest) => ok && Rest() == rest
              case Fail => !ok
    {
      hide DecVarint32, WrapSize;
      var length;
      ok, length := DecodeVarint32();
      if !ok {
        return;
      }
      var skipped;
      ok, skipped := Read(WrapSize(length));
    }

    /** pb_skip_field. */
    method Skip(wireType: nat) returns (ok: bool)
      requires Valid()
      modifies this
      ensures Valid() && End() == old(End())
      ensures match SkipField(wireType, old(Rest()))
              case Ok(_, rest) => ok && Rest() == rest
              case Fail => !ok
    {
      hide VarintEnd, Decoding.SkipString;
      var skipped;
      if wireType == WT_VARINT {
        ok := SkipVarint();
      } else if wireType == WT_64BIT {
        ok, skipped := Read(8);
      } else if wireType == WT_STRING {
        ok := SkipString();
      } else if wireType == WT_32BIT {
        ok, skipped := Read(4);
      } else {
        ok := false;
      }
    }

    /** pb_decode_tag: eof also reports a zero, which ends a message. */
    method DecodeTag() returns (ok: bool, wireType: nat, tag: nat, eof: bool)
      requires Valid() && bytesLeft > 0
      modifies this
      ensures Valid() && End() == old(End())
      ensures match DecTag(old(Rest()))
              case Tag(w, t, rest) => ok && wireType == w && tag == t && Rest() == rest
              case Terminator(rest) => !ok && eof && Rest() == rest
              case BadTag => !ok && !eof
    {
      hide DecVarint32;
      wireType, tag := 0, 0;
      var temp;
      ok, temp, eof := DecodeVarint32Eof();
      if !ok {
        return;
      }
      if temp == 0 {
        return false, 0, 0, true;
      }
      tag := temp / 8;
      wireType := temp % 8;
    }

    /** pb_make_string_substream. Until the substream is closed, this stream has already given up
        the bytes but has not moved past them. */
    method OpenSubstream() returns (ok: bool, sub: Input)
      requires Valid()
      modifies this
      ensures Valid() && End() <= old(End()) && fresh(sub) && sub.Valid() && sub.buf == buf
      ensures match DecDelimited(old(Rest()))
              case Ok(body, rest) =>
                && ok && sub.Rest() == body && sub.pos == pos
                && sub.End() + bytesLeft == old(End()) && buf[sub.End()..old(End())] == rest
              case Fail => !ok
    {
      hide DecVarint32;
      var size;
      ok, size := DecodeVarint32();
      sub := new Input(buf, pos, bytesLeft);
      if !ok {
        return;
      }
      if sub.bytesLeft < size {
        return false, sub;
      }
      sub.bytesLeft := size;
      bytesLeft := bytesLeft - size;
    }

    /** pb_close_string_substream: whatever the substream has not read is skipped. */
    method CloseSubstream(sub: Input) returns (ok: bool)
      requires sub != this && Valid() && sub.Valid() && sub.buf == buf && sub.End() + bytesLeft <= |buf|
      modifies this, sub
      ensures ok && Valid() && pos == old(sub.End()) && bytesLeft == old(bytesLeft)
    {
      if sub.bytesLeft != 0 {
        var skipped;
        ok, skipped := sub.Read(sub.bytesLeft);
        if !ok {
          return;
        }
      }
      pos := sub.pos;
      ok := true;
    }
  }

  lemma NoGroups()
    ensures Groups([]) == 0
  {
  }

  lemma VarintEndAt(bs: seq<byte>)
    ensures bs == [] ==> VarintEnd(bs).None?
    ensures bs != [] && bs[0] < 128 ==> VarintEnd(bs) == Some(1)
    ensures VarintEnd(bs).Some? && bs[0] >= 128 ==> VarintEnd(bs).value >= 2
  {
  }
}
