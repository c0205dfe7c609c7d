/** pb_ostream_t on a memory buffer, its sizing variant, and the scalar encoders that write to it. */
module OutStream {
  import opened Platform
  import opened Bits
  import opened Varint
  import opened Encoding

  /** The bytes of v with the continuation bit set on all of them. */
  function ContinuedBytes(v: nat): (bs: seq<byte>)
    ensures v > 0 ==> |bs| == |VarintBytes(v)|
  {
    if v == 0 then [] else [v % 128 + 128] + ContinuedBytes(v / 128)
  }

  lemma {:induction false} ClearTopBit(v: nat)
    requires v > 0
    ensures var c, n := ContinuedBytes(v), |VarintBytes(v)|;
            && c[n - 1] >= 128
            && VarintBytes(v) == c[n - 1 := c[n - 1] - 128]
  {
    if v >= 128 {
      ClearTopBit(v / 128);
    }
  }

  lemma ContinuedUnfold(v: nat)
    ensures ContinuedBytes(v) == if v == 0 then [] else [v % 128 + 128] + ContinuedBytes(v / 128)
  {
  }

  /** What a stream and the memory behind it look like at one moment. */
  datatype Snapshot = Snapshot(sizing: bool, maxSize: nat, pos: nat, written: nat, cells: seq<byte>)

  /** From a to b the stream has emitted e.

      A sizing stream counts e in size_t. A writing stream fails exactly when e does or the window
      is too small; what it has written is a prefix of e.out, all of it on success; the pointer
      advances by what is counted, and no other cell of the memory has changed. */
  ghost predicate Emits(a: Snapshot, b: Snapshot, e: Enc, ok: bool) {
    && b.sizing == a.sizing && b.maxSize == a.maxSize
    && if a.sizing then
         && (ok <==> e.ok)
         && (a.written + |e.out| <= SIZE_MAX ==> b.written == a.written + |e.out|)
       else
         && (ok <==> e.ok && a.written + |e.out| <= a.maxSize)
         && a.written <= b.written <= a.written + |e.out|
         && (ok ==> b.written == a.written + |e.out|)
         && b.pos - a.pos == b.written - a.written
         && b.pos <= |a.cells|
         && b.cells == a.cells[..a.pos] + e.out[..b.written - a.written] + a.cells[b.pos..]
  }

  lemma EmitsNothing(a: Snapshot)
    requires a.sizing || (a.written <= a.maxSize && a.pos <= |a.cells|)
    ensures Emits(a, a, Nothing, true)
    ensures Emits(a, a, Rejected, false)
  {
  }

  lemma EmitsThen(a: Snapshot, b: Snapshot, c: Snapshot, e: Enc, f: Enc, ok: bool)
    requires Emits(a, b, e, true) && Emits(b, c, f, ok)
    ensures Emits(a, c, Then(e, f), ok)
  {
    if !a.sizing {
      var m, n := b.written - a.written, c.written - b.written;
      assert (e.out + f.out)[..m + n] == e.out + f.out[..n];
      assert b.cells[..b.pos] == a.cells[..a.pos] + e.out;
      assert b.cells[c.pos..] == a.cells[c.pos..];
    }
  }

  lemma EmitsStop(a: Snapshot, b: Snapshot, e: Enc, e': Enc)
    requires Emits(a, b, e, false) && Begins(e, e')
    ensures Emits(a, b, e', false)
  {
    if !a.sizing {
      var m := b.written - a.written;
      assert e'.out[..m] == e.out[..m];
    }
  }

  /** A substream that was given exactly the room its message takes emits on the parent's behalf. */
  lemma EmitsNested(a: Snapshot, sub: Snapshot, b: Snapshot, e: Enc)
    requires e.ok && !a.sizing && a.written + |e.out| <= a.maxSize
    requires Emits(Snapshot(false, |e.out|, a.pos, 0, a.cells), sub, e, true)
    requires b == Snapshot(false, a.maxSize, sub.pos, a.written + sub.written, sub.cells)
    ensures sub.written == |e.out|
    ensures Emits(a, b, e, true)
  {
  }

  /** pb_ostream_t. A stream without a buffer has a NULL callback: it only counts. */
  class Stream {
    const buf: array?<byte>
    const maxSize: nat
    var pos: nat
    var bytesWritten: nat
    ghost const base: nat

    ghost predicate Valid()
      reads this
    {
      && maxSize <= SIZE_MAX && bytesWritten <= SIZE_MAX
      && (buf != null ==> pos == base + bytesWritten && bytesWritten <= maxSize && base + maxSize <= buf.Length)
    }

    ghost function Footprint(): set<object> {
      if buf == null then {this} else {this, buf}
    }

    ghost function Now(): Snapshot
      reads Footprint()
    {
      Snapshot(buf == null, maxSize, pos, bytesWritten, if buf == null then [] else buf[..])
    }

    /** pb_ostream_from_buffer on the window of maxSize bytes from pos on, or PB_OSTREAM_SIZING. */
    constructor (buf: array?<byte>, pos: nat, maxSize: nat)
      requires maxSize <= SIZE_MAX && (buf != null ==> pos + maxSize <= buf.Length)
      ensures Valid() && this.buf == buf && this.maxSize == maxSize
      ensures Now() == Snapshot(buf == null, maxSize, pos, 0, if buf == null then [] else buf[..])
    {
      this.buf := buf;
      this.maxSize := maxSize;
      this.pos := pos;
      this.bytesWritten := 0;
      this.base := pos;
    }

    /** buf_write. */
    method BufWrite(src: seq<byte>)
      requires buf != null && pos + |src| <= buf.Length
      modifies this`pos, buf
      ensures pos == old(pos) + |src|
      ensures buf[..] == old(buf[..pos]) + src + old(buf[pos + |src|..])
    {
      var dest := pos;
      pos := dest + |src|;
      for i := 0 to |src|
        invariant pos == dest + |src|
        invariant forall j :: 0 <= j < buf.Length ==>
          buf[j] == if dest <= j < dest + i then src[j - dest] else old(buf[j])
      {
        buf[dest + i] := src[i];
      }
    }

    /** pb_write of the bytes a caller has. */
    method Write(src: seq<byte>) returns (ok: bool)
      requires Valid() && |src| <= SIZE_MAX
      modifies Footprint()
      ensures Valid() && Emits(old(Now()), Now(), Enc(true, src), ok)
    {
      WrappedSum(bytesWritten, |src|);
      if |src| > 0 && buf != null {
        if WrapSize(bytesWritten + |src|) < bytesWritten || WrapSize(bytesWritten + |src|) > maxSize {
          return false;
        }
        BufWrite(src);
      }
      bytesWritten := WrapSize(bytesWritten + |src|);
      ok := true;
    }

    /** pb_write(stream, NULL, count), which only sizing streams are asked for. */
    method Count(count: nat) returns (ok: bool)
      requires Valid() && buf == null && count <= SIZE_MAX
      modifies this
      ensures Valid() && ok && Now() == old(Now()).(written := WrapSize(old(bytesWritten) + count))
    {
      bytesWritten := WrapSize(bytesWritten + count);
      ok := true;
    }

    /** pb_encode_varint. */
    method EncodeVarint(value: nat) returns (ok: bool)
      requires Valid() && value < TWO_64
      modifies Footprint()
      ensures Valid() && Emits(old(Now()), Now(), Enc(true, VarintBytes(value)), ok)
    {
      if value <= 0x7F {
        ok := Write([value]);
        return;
      }
      var buffer := new byte[10];
      var n := FillVarint(buffer, value);
      ok := Write(buffer[..n]);
    }
  }

  /** The loop of pb_encode_varint over its local buffer, which it never overruns. */
  method FillVarint(buffer: array<byte>, value: nat) returns (i: nat)
    requires buffer.Length == 10 && 0 < value < TWO_64
    modifies buffer
    ensures i <= 10 && buffer[..i] == VarintBytes(value)
  {
    hide VarintBytes, ContinuedBytes;
    VarintAtMostTen(value);
    i := 0;
    var v: nat := value;
    while v != 0
      invariant i + |ContinuedBytes(v)| == |VarintBytes(value)|
      invariant buffer[..i] + ContinuedBytes(v) == ContinuedBytes(value)
      decreases v
    {
      ghost var done := buffer[..i];
      ContinuedUnfold(v);
      buffer[i] := v % 128 + 128;
      assert buffer[..i + 1] == done + [v % 128 + 128];
      v := v / 128;
      i := i + 1;
    }
    ContinuedUnfold(0);
    ClearTopBit(value);
    buffer[i - 1] := buffer[i - 1] % 128;
  }

  // ---------------------------------------------------------------- PB_WITHOUT_64BIT

  /** The sign-extended number that a 32-bit value stands for while compensation more one-bits
      are to be shifted in above it. */
  function Extended(value: nat, compensation: nat): nat {
    value + TWO_32 * (Pow2(compensation) - 1)
  }

  /** min(compensation, 7) ones, placed where a shift by seven has made room for them. The shift by 25
      is in unsigned int, which has to have 32 bits for it. */
  function Refill(compensation: nat): nat {
    var bits := if compensation > 7 then 7 else compensation;
    0xFF / Pow2(8 - bits) * 0x200_0000
  }

  lemma RefillOnes(compensation: nat)
    requires compensation > 0
    ensures var bits := if compensation > 7 then 7 else compensation;
            Refill(compensation) == (Pow2(bits) - 1) * Pow2(25)
  {
    Powers();
    var bits := if compensation > 7 then 7 else compensation;
    if bits == 1 { assert Pow2(7) == 128 && Pow2(1) == 2; }
    else if bits == 2 { assert Pow2(6) == 64 && Pow2(2) == 4; }
    else if bits == 3 { assert Pow2(5) == 32 && Pow2(3) == 8; }
    else if bits == 4 { assert Pow2(4) == 16; }
    else if bits == 5 { assert Pow2(3) == 8 && Pow2(5) == 32; }
    else if bits == 6 { assert Pow2(2) == 4 && Pow2(6) == 64; }
    else { assert Pow2(1) == 2 && Pow2(7) == 128; }
  }

  /** Shifting and refilling the 32-bit value shifts the number it stands for. */
  lemma RefillStep(value: nat, compensation: nat)
    requires value < TWO_32 && 0 < compensation
    ensures var shifted := BitXor(value / 128, Refill(compensation));
            && 0 < shifted < TWO_32
            && Extended(value, compensation) % 128 == value % 128
            && Extended(value, compensation) / 128
                == Extended(shifted, if compensation > 7 then compensation - 7 else 0)
  {
    hide Pow2, BitXor, Refill;
    var bits := if compensation > 7 then 7 else compensation;
    Powers();
    RefillOnes(compensation);
    XorOfDisjoint(value / 128, Pow2(bits) - 1, 25);
    Pow2Monotone(bits, 7);
    Pow2Monotone(1, bits);
    FirstPower();
    if compensation > 7 {
      Pow2Add7(compensation - 7);
    }
    Shift7(value, Pow2(compensation) - 1);
  }

  lemma FirstPower()
    ensures Pow2(1) == 2 && Pow2(0) == 1
  {
  }

  lemma Shift7(value: nat, ones: nat)
    ensures (value + TWO_32 * ones) % 128 == value % 128
    ensures (value + TWO_32 * ones) / 128 == value / 128 + 0x200_0000 * ones
  {
    assert value + TWO_32 * ones == 128 * (value / 128 + 0x200_0000 * ones) + value % 128;
    ModExact(128, value / 128 + 0x200_0000 * ones, value % 128);
    DivideExact(128, value / 128 + 0x200_0000 * ones, value % 128);
  }

  /** What one turn of the loop below does to the number it stands for. */
  lemma NegativeTurn(value: nat, compensation: nat)
    requires 0 < value < TWO_32
    ensures var v := Extended(value, compensation);
            var shifted := if compensation != 0 then BitXor(value / 128, Refill(compensation)) else value / 128;
            && v > 0 && v % 128 == value % 128 && shifted < TWO_32 && (compensation > 0 ==> shifted > 0)
            && v / 128 == Extended(shifted, if compensation > 7 then compensation - 7 else 0)
  {
    hide BitXor, Refill, Extended;
    ExtendedIsPositive(value, compensation);
    if compensation != 0 {
      RefillStep(value, compensation);
    } else {
      ExtendedIsPositive(value / 128, 0);
    }
  }

  /** The loop of pb_encode_negative_varint: 32-bit arithmetic only, at most ten bytes, and the
      bytes of the sign-extended 64-bit value. */
  method FillNegativeVarint(buffer: array<byte>, negative: nat) returns (i: nat)
    requires buffer.Length == 10 && 0x8000_0000 <= negative < TWO_32
    modifies buffer
    ensures i <= 10 && buffer[..i] == VarintBytes(TWO_64 - TWO_32 + negative)
  {
    hide VarintBytes, ContinuedBytes, Extended, Refill, BitXor, Pow2;
    ghost var wide := TWO_64 - TWO_32 + negative;
    VarintAtMostTen(wide);
    assert Extended(negative, 32) == wide by {
      ExtendedStart(negative);
    }
    i := 0;
    var value: nat, compensation: nat := negative, 32;
    ghost var v := wide;
    while value != 0
      invariant value < TWO_32 && v == Extended(value, compensation)
      invariant compensation > 0 ==> value > 0
      invariant i + |ContinuedBytes(v)| == |VarintBytes(wide)|
      invariant buffer[..i] + ContinuedBytes(v) == ContinuedBytes(wide)
      decreases compensation, value
    {
      ghost var done, b, left := buffer[..i], value % 128 + 128, ContinuedBytes(v / 128);
      NegativeTurn(value, compensation);
      ContinuedUnfold(v);
      assert ContinuedBytes(v) == [b] + left;
      buffer[i] := value % 128 + 128;
      assert buffer[..i + 1] == done + [b];
      assert buffer[..i + 1] + left == done + ([b] + left);
      value := value / 128;
      if compensation != 0 {
        value := BitXor(value, Refill(compensation));
        compensation := if compensation > 7 then compensation - 7 else 0;
      }
      v := v / 128;
      i := i + 1;
    }
    ExtendedIsPositive(0, compensation);
    ContinuedUnfold(0);
    ClearTopBit(wide);
    buffer[i - 1] := buffer[i - 1] % 128;
  }

  lemma ExtendedStart(negative: nat)
    ensures Extended(negative, 32) == TWO_64 - TWO_32 + negative
  {
    Powers();
  }

  lemma ExtendedIsPositive(value: nat, compensation: nat)
    ensures value > 0 ==> Extended(value, compensation) > 0
    ensures compensation == 0 ==> Extended(value, compensation) == value
  {
  }

  /** pb_encode_negative_varint. */
  method EncodeNegativeVarint(s: Stream, value: nat) returns (ok: bool)
    requires s.Valid() && 0x8000_0000 <= value < TWO_32
    modifies s.Footprint()
    ensures s.Valid() && Emits(old(s.Now()), s.Now(), Enc(true, VarintBytes(TWO_64 - TWO_32 + value)), ok)
  {
    var buffer := new byte[10];
    var n := FillNegativeVarint(buffer, value);
    ok := s.Write(buffer[..n]);
  }

  /** The emulation emits, in ten bytes, what the 64-bit encoder emits for the sign-extended value. */
  lemma NegativeVarintLength(value: nat)
    requires 0x8000_0000 <= value < TWO_32
    ensures |VarintBytes(TWO_64 - TWO_32 + value)| == 10
  {
    var wide := TWO_64 - TWO_32 + value;
    VarintAtMostTen(wide);
    VarintLength(wide);
    var n := |VarintBytes(wide)|;
    Powers();
    if n < 10 {
      Pow2Monotone(7 * n, 63);
      assert false;
    }
  }
}
