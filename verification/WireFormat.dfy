/** The wire format in numbers: which bytes a record begins with, what each wire type delimits, and how numbers
    are spelled. Nothing here names the constants and functions the encoder and the decoder share. */
module WireFormat {
  import opened Platform
  import opened Bits
  import opened Varint
  import opened ZigZag
  import opened Descriptor
  import opened Encoding
  import opened Decoding
  import opened Locality
  import opened RoundTrip

  // ---------------------------------------------------------------- varints

  /** Bytes with the top bit set, and a last one without. */
  predicate IsVarint(p: seq<byte>) {
    p != [] && p[|p| - 1] < 128 && forall i :: 0 <= i < |p| - 1 ==> p[i] >= 128
  }

  lemma {:induction false} VarintEndsAt(bs: seq<byte>, n: nat)
    requires n <= |bs|
    ensures VarintEnd(bs) == Some(n) <==> IsVarint(bs[..n])
  {
    if bs != [] && bs[0] >= 128 && n >= 1 {
      VarintEndsAt(bs[1..], n - 1);
      var p, q := bs[..n], bs[1..][..n - 1];
      assert forall i :: 0 <= i < n - 1 ==> q[i] == p[i + 1];
      if IsVarint(q) {
        assert IsVarint(p) by { assert forall i :: 0 < i < n - 1 ==> p[i] == q[i - 1]; }
      }
      if IsVarint(p) {
        assert p[|p| - 1] == q[|q| - 1];
      }
    }
  }

  lemma Regroup(a: nat, b: nat, q: nat, s: nat, r: nat)
    ensures a * (b * q + s) + r == (a * b) * q + (a * s + r)
  {
  }

  lemma BelowProduct(a: nat, b: nat, s: nat, r: nat)
    requires s < b && r < a
    ensures a * s + r < a * b
  {
    assert a * s <= a * (b - 1) == a * b - a;
  }

  lemma DivideParts(a: nat, b: nat, q: nat, s: nat, r: nat)
    requires s < b && r < a
    ensures a * b > 0 && (a * (b * q + s) + r) / (a * b) == q
  {
    Regroup(a, b, q, s, r);
    BelowProduct(a, b, s, r);
    DivideExact(a * b, q, a * s + r);
  }

  lemma PartsOf(v: nat, a: nat)
    requires a > 0
    ensures v == a * (v / a) + v % a && v % a < a
  {
  }

  lemma DivideTwice(v: nat, a: nat, b: nat)
    requires a > 0 && b > 0
    ensures a * b > 0 && v / a / b == v / (a * b)
  {
    PartsOf(v, a);
    PartsOf(v / a, b);
    DivideParts(a, b, v / a / b, v / a % b, v % a);
  }

  /** The groups of seven bits stand in order, the lowest first. */
  lemma {:induction false} GroupsDigits(p: seq<byte>, i: nat)
    requires i < |p|
    ensures p[i] % 128 == Groups(p) / Pow2(7 * i) % 128
    decreases i
  {
    if i > 0 {
      GroupsDigits(p[1..], i - 1);
      DivideExact(128, Groups(p[1..]), p[0] % 128);
      Pow2Add7(7 * (i - 1));
      DivideTwice(Groups(p), 128, Pow2(7 * (i - 1)));
    } else {
      ModExact(128, Groups(p[1..]), p[0] % 128);
      assert Pow2(0) == 1;
    }
  }

  /** The bytes of a varint: groups of seven bits, the lowest first, with the top bit set in all but the last. */
  lemma VarintDigits(v: nat, i: nat)
    requires i < |VarintBytes(v)|
    ensures IsVarint(VarintBytes(v))
    ensures VarintBytes(v)[i] % 128 == v / Pow2(7 * i) % 128
  {
    hide VarintBytes, Groups, Pow2;
    VarintBytesEnd(v, []);
    var p := VarintBytes(v);
    assert p + [] == p && p[..|p|] == p;
    VarintEndsAt(p, |p|);
    GroupsDigits(p, i);
  }

  /** pb_decode_varint on any bytes: it takes up to ten, of which it spells the number, cut to 64 bits. */
  lemma VarintRead(p: seq<byte>, c: seq<byte>)
    returns (u: nat)
    requires IsVarint(p)
    ensures u < Pow2(7 * |p|) && forall i :: 0 <= i < |p| ==> p[i] % 128 == u / Pow2(7 * i) % 128
    ensures DecVarint(p + c) == if |p| <= 10 then Ok(u % 0x1_0000_0000_0000_0000, c) else Fail
  {
    hide VarintEnd, Groups, Pow2, IsVarint;
    var bs := p + c;
    assert bs[..|p|] == p && bs[|p|..] == c;
    VarintEndsAt(bs, |p|);
    GroupsBound(p);
    u := Groups(p);
    forall i | 0 <= i < |p| ensures p[i] % 128 == u / Pow2(7 * i) % 128 {
      GroupsDigits(p, i);
    }
  }

  /** Bytes without a varint at their front are refused. */
  lemma NoVarint(bs: seq<byte>)
    requires DecVarint(bs).Ok?
    ensures exists n :: 0 <= n <= |bs| && IsVarint(bs[..n])
  {
    hide VarintEnd, IsVarint, Groups;
    VarintEndsAt(bs, VarintEnd(bs).value);
  }

  /** What the 32-bit decoder lets pass as byte i, from the sixth on: no bits, or those of a sign. */
  predicate Extends(b: byte, i: nat, negative: bool) {
    b % 128 == 0 || (negative && b == if i < 9 then 0xFF else 0x01)
  }

  predicate AllExtend(q: seq<byte>, first: nat, negative: bool) {
    forall i :: 0 <= i < |q| ==> Extends(q[i], first + i, negative)
  }

  lemma {:induction false} HighAccepted(p: seq<byte>, c: seq<byte>, j: nat, r: nat)
    requires IsVarint(p) && j >= 5 && j + |p| <= 10 && r < TWO_32
    ensures Dec32Tail(p + c, 7 * j, r).Ok? <==> AllExtend(p, j, r >= 0x8000_0000)
    decreases |p|
  {
    hide Or32;
    assert (p + c)[0] == p[0] && (p + c)[1..] == p[1..] + c;
    if |p| > 1 {
      HighAccepted(p[1..], c, j + 1, r);
      assert forall i :: 0 < i < |p| ==> p[i] == p[1..][i - 1];
    }
  }

  lemma TopBit(b: byte, j: nat, r: nat)
    requires j == 4 && r < Weight(4)
    ensures r + Added(b, 4) < TWO_32 && (r + Added(b, 4) >= 0x8000_0000 <==> b % 16 >= 8)
  {
  }

  lemma {:induction false} LowAccepted(p: seq<byte>, c: seq<byte>, j: nat, r: nat)
    requires IsVarint(p) && 1 <= j <= 4 && j + |p| <= 10 && r < Weight(j)
    ensures Dec32Tail(p + c, 7 * j, r).Ok? <==>
      if j + |p| < 5 then true
      else if j + |p| == 5 then p[4 - j] < 16
      else AllExtend(p[5 - j..], 5, p[4 - j] % 16 >= 8)
    decreases |p|
  {
    hide Dec32Tail, Weight, Added, AllExtend;
    var r' := r + Added(p[0], j);
    assert (p + c)[0] == p[0] && (p + c)[1..] == p[1..] + c;
    LowTurn(p + c, j, r);
    if |p| > 1 {
      TailIsVarint(p);
      if j == 4 {
        TopBit(p[0], 4, r);
        HighAccepted(p[1..], c, 5, r');
      } else {
        AddedWithin(p[0], j, r);
        LowAccepted(p[1..], c, j + 1, r');
        assert j + |p| > 5 ==> p[1..][4 - j..] == p[5 - j..];
      }
    }
  }

  lemma TailIsVarint(p: seq<byte>)
    requires IsVarint(p) && |p| > 1
    ensures IsVarint(p[1..]) && p[0] >= 128
  {
  }

  /** pb_decode_varint32 on any bytes: it takes up to four bytes as they are, of a fifth the low four bits, which must
      be all it has if it is the last, and after that only bytes that extend a sign or add nothing. */
  lemma Varint32Read(p: seq<byte>, c: seq<byte>)
    requires IsVarint(p) && |p| <= 10
    ensures DecVarint32(p + c).Ok? <==>
      if |p| < 5 then true
      else if |p| == 5 then p[4] < 16
      else AllExtend(p[5..], 5, p[4] % 16 >= 8)
    ensures DecVarint32(p + c).Ok? ==>
      DecVarint(p + c).Ok? && DecVarint32(p + c) == Ok(DecVarint(p + c).value % 0x1_0000_0000, c)
  {
    hide Dec32Tail, VarintEnd, Groups, DecVarint, AllExtend, Pow2;
    assert (p + c)[0] == p[0] && (p + c)[1..] == p[1..] + c;
    if |p| > 1 {
      TailIsVarint(p);
      FirstGroup(p[0]);
      LowAccepted(p[1..], c, 1, p[0] % 128);
      assert |p| > 5 ==> p[1..][4..] == p[5..];
    }
    var u := VarintRead(p, c);
    if DecVarint32(p + c).Ok? {
      DecodersAgree(p + c);
    }
  }

  lemma FirstGroup(b: byte)
    ensures b % 128 < Weight(1)
  {
  }

  // ---------------------------------------------------------------- records

  /** What may follow a tag of that wire type. */
  ghost predicate IsPayload(wireType: nat, p: seq<byte>) {
    match wireType
    case 0 => IsVarint(p)
    case 1 => |p| == 8
    case 2 => exists i :: 0 <= i <= |p| && DecVarint32(p[..i]) == Ok(|p| - i, [])
    case 5 => |p| == 4
    case _ => false
  }

  lemma TailOf(bs: seq<byte>, m: nat, n: nat)
    requires m <= |bs| && n <= |bs| && bs[m..] == bs[n..]
    ensures m == n
  {
    assert |bs[m..]| == |bs| - m && |bs[n..]| == |bs| - n;
  }

  /** A number read is read from a front of the bytes. */
  lemma {:induction false} Dec32TailFront(bs: seq<byte>, bitpos: nat, result: nat)
    requires result < TWO_32 && bitpos < FAST8_MODULUS && Dec32Tail(bs, bitpos, result).Ok?
    ensures var d := Dec32Tail(bs, bitpos, result);
            var i := |bs| - |d.rest|;
            d.rest == bs[i..] && Dec32Tail(bs[..i], bitpos, result) == Ok(d.value, [])
    decreases |bs|
  {
    hide Or32, AddFast8;
    var d := Dec32Tail(bs, bitpos, result);
    var i, b := |bs| - |d.rest|, bs[0];
    assert bs[..i][0] == b && bs[..i][1..] == bs[1..][..i - 1];
    if b >= 128 {
      var result' := if bitpos >= 32 then result else Or32(result, b, bitpos);
      Dec32TailFront(bs[1..], AddFast8(bitpos), result');
      assert bs[1..][i - 1..] == bs[i..];
    }
  }

  lemma Varint32Front(bs: seq<byte>)
    requires DecVarint32(bs).Ok?
    ensures var d := DecVarint32(bs);
            var i := |bs| - |d.rest|;
            d.rest == bs[i..] && DecVarint32(bs[..i]) == Ok(d.value, [])
  {
    hide Dec32Tail;
    var d := DecVarint32(bs);
    var i := |bs| - |d.rest|;
    assert bs[..i][0] == bs[0] && bs[..i][1..] == bs[1..][..i - 1];
    if bs[0] >= 128 {
      Dec32TailFront(bs[1..], 7, bs[0] % 128);
      assert bs[1..][i - 1..] == bs[i..];
    }
  }

  /** A string is skipped as far as it announces, if size_t can hold its length. */
  lemma SkipsString(bs: seq<byte>, n: nat)
    requires n <= |bs| && (DecVarint32(bs).Ok? ==> DecVarint32(bs).value <= SIZE_MAX)
    ensures SkipString(bs).Ok? && SkipString(bs).rest == bs[n..] <==> IsPayload(2, bs[..n])
  {
    hide DecVarint32;
    var d := DecVarint32(bs);
    if SkipString(bs).Ok? && SkipString(bs).rest == bs[n..] {
      Varint32Front(bs);
      var i := |bs| - |d.rest|;
      assert d.rest[d.value..] == bs[i + d.value..];
      TailOf(bs, i + d.value, n);
      assert bs[..n][..i] == bs[..i];
      assert DecVarint32(bs[..n][..i]) == Ok(n - i, []);
    }
    if IsPayload(2, bs[..n]) {
      var i :| 0 <= i <= n && DecVarint32(bs[..n][..i]) == Ok(n - i, []);
      assert bs[..n][..i] == bs[..i] && bs[..i] + bs[i..] == bs;
      Varint32Local(bs[..i], bs[i..]);
      assert [] + bs[i..] == bs[i..] && bs[i..][n - i..] == bs[n..];
    }
  }

  lemma AnnouncedLength(p: seq<byte>)
    requires IsPayload(2, p)
    ensures DecVarint32(p).Ok? && DecVarint32(p).value <= |p|
  {
    hide DecVarint32;
    var i :| 0 <= i <= |p| && DecVarint32(p[..i]) == Ok(|p| - i, []);
    assert p[..i] + p[i..] == p;
    Varint32Local(p[..i], p[i..]);
  }

  /** An unknown record is skipped exactly if its payload is one of its wire type: a varint, eight bytes, a length
      and that many bytes, four bytes, and nothing for the wire types 3, 4, 6 and 7. */
  lemma SkipExactly(wireType: nat, bs: seq<byte>, n: nat)
    requires n <= |bs|
    requires wireType == 2 && DecVarint32(bs).Ok? ==> DecVarint32(bs).value <= SIZE_MAX
    ensures SkipField(wireType, bs).Ok? && SkipField(wireType, bs).rest == bs[n..]
       <==> IsPayload(wireType, bs[..n])
    ensures wireType == 3 || wireType == 4 || wireType >= 6 ==> SkipField(wireType, bs).Fail?
  {
    hide DecVarint32, SkipString, VarintEnd, IsVarint;
    if wireType == 0 {
      VarintEndsAt(bs, n);
      if VarintEnd(bs).Some? && VarintEnd(bs) != Some(n) {
        assert bs[VarintEnd(bs).value..] != bs[n..] by {
          assert |bs[VarintEnd(bs).value..]| == |bs| - VarintEnd(bs).value;
        }
      }
    } else if wireType == 2 {
      SkipsString(bs, n);
    }
  }

  /** The wire type of a field's records. */
  predicate Travels(l: LType, wireType: nat) {
    match wireType
    case 0 => l.LBool? || l.LVarint? || l.LUVarint? || l.LSVarint?
    case 1 => l.LFixed64?
    case 2 => l.LBytes? || l.LString? || l.LSubmessage? || l.LFixedLengthBytes?
    case 5 => l.LFixed32?
    case _ => false
  }

  /** One record, by its bytes. */
  ghost predicate IsRecord(tag: nat, wireType: nat, bs: seq<byte>) {
    exists p :: IsPayload(wireType, p) && bs == VarintBytes(8 * tag + wireType) + p
  }

  /** A first byte of eight times the tag plus the wire type; for larger tags, the low seven bits of that. */
  lemma RecordBegins(tag: nat, wireType: nat, bs: seq<byte>)
    requires wireType < 8 && IsRecord(tag, wireType, bs)
    ensures bs != [] && bs[0] % 8 == wireType && bs[0] / 8 % 16 == tag % 16
    ensures tag < 16 ==> bs[0] == 8 * tag + wireType
  {
    hide IsPayload;
    FirstByteOf(tag, wireType);
  }

  lemma FirstByteOf(tag: nat, wireType: nat)
    requires wireType < 8
    ensures var b := VarintBytes(8 * tag + wireType)[0];
            b % 8 == wireType && b / 8 % 16 == tag % 16 && (tag < 16 ==> b == 8 * tag + wireType)
  {
  }

  lemma StringPayload(b: seq<byte>)
    requires |b| < TWO_32
    ensures IsPayload(2, StringBytes(b))
  {
    hide DecVarint32, VarintBytes;
    var l := VarintBytes(|b|);
    Varint32Cases(|b|, []);
    assert l + [] == l && StringBytes(b)[..|l|] == l;
  }

  lemma VarintPayload(v: nat)
    ensures IsPayload(0, VarintBytes(v))
  {
    hide VarintBytes;
    VarintDigits(v, 0);
  }

  /** What an encoder of the table emits is a payload of the wire type of its field. */
  lemma ValuePayload(f: Field, v: Value, wireType: nat)
    requires EncValue(f, v).ok && |EncValue(f, v).out| < TWO_32 && Travels(f.ltype, wireType)
    ensures IsPayload(wireType, EncValue(f, v).out)
  {
    hide VarintBytes, DecVarint32, IsVarint, EncMessage, LittleEndian, UpToNul, Interleave;
    match f.ltype {
      case LBool => VarintPayload(if v.n != 0 then 1 else 0);
      case LVarint | LUVarint => VarintPayload(v.n % TWO_64);
      case LSVarint => VarintPayload(Interleave(v.n));
      case LBytes | LFixedLengthBytes => StringPayload(v.bs);
      case LString => StringPayload(UpToNul(v.bs));
      case LSubmessage => StringPayload(EncMessage(f.sub, v.slots).out);
      case LFixed32 | LFixed64 =>
    }
  }

  lemma RecordOf(f: Field, v: Value, wireType: nat)
    requires EncRecord(f, v).ok && |EncRecord(f, v).out| < TWO_32 && Travels(f.ltype, wireType)
    ensures IsRecord(f.tag, wireType, EncRecord(f, v).out) && EncRecord(f, v).out != []
  {
    hide EncValue, VarintBytes, IsPayload;
    ValuePayload(f, v, wireType);
  }

  /** That many records, one after the other. */
  ghost predicate Records(tag: nat, wireType: nat, count: nat, bs: seq<byte>) {
    if count == 0 then bs == []
    else exists n :: 0 <= n <= |bs| && IsRecord(tag, wireType, bs[..n]) && Records(tag, wireType, count - 1, bs[n..])
  }

  lemma OneRecord(tag: nat, wireType: nat, bs: seq<byte>)
    requires IsRecord(tag, wireType, bs)
    ensures Records(tag, wireType, 1, bs)
  {
    hide IsRecord;
    assert bs[..|bs|] == bs && bs[|bs|..] == [];
    assert Records(tag, wireType, 0, bs[|bs|..]);
  }

  lemma {:induction false} ItemRecords(f: Field, items: seq<Value>, wireType: nat)
    requires InOrder(RecordParts(f, items)).ok && |InOrder(RecordParts(f, items)).out| < TWO_32
    requires Travels(f.ltype, wireType)
    ensures Records(f.tag, wireType, |items|, InOrder(RecordParts(f, items)).out)
    decreases |items|
  {
    hide EncRecord, IsRecord, InOrder, RecordParts, Travels;
    if items == [] {
      EmptyParts(f);
    } else {
      RecordPartsFront(f, items);
      var first, rest := EncRecord(f, items[0]).out, InOrder(RecordParts(f, items[1..])).out;
      var bs := InOrder(RecordParts(f, items)).out;
      RecordOf(f, items[0], wireType);
      ItemRecords(f, items[1..], wireType);
      assert bs[..|first|] == first && bs[|first|..] == rest;
    }
  }

  lemma PackedRecord(f: Field, body: seq<byte>)
    requires |body| < TWO_32
    ensures IsRecord(f.tag, 2, TagBytes(WT_STRING, f.tag) + StringBytes(body))
  {
    hide VarintBytes, IsPayload;
    StringPayload(body);
  }

  /** What a row emits: one record of the field's wire type if it is present; for an array, one record of wire
      type 2 if its elements can be packed and a record per element otherwise, and none if it is empty. */
  lemma RowRecords(f: Field, s: Slot, wireType: nat)
    requires EncSlot(f, s).ok && |EncSlot(f, s).out| < TWO_32 && Travels(f.ltype, wireType)
    ensures var bs := EncSlot(f, s).out;
            match f.htype
            case Required => Records(f.tag, wireType, 1, bs)
            case Optional =>
              if s.Opt? then Records(f.tag, wireType, if s.has then 1 else 0, bs)
              else bs == [] || Records(f.tag, wireType, 1, bs)
            case Oneof => s.Union? && Records(f.tag, wireType, if s.which == f.tag then 1 else 0, bs)
            case Repeated =>
              var count := if s.Arr? then s.count else f.arraySize;
              if !Packable(f.ltype) then Records(f.tag, wireType, count, bs)
              else Records(f.tag, 2, if count == 0 then 0 else 1, bs)
  {
    hide EncRecord, IsRecord, InOrder, RecordParts, ItemParts, IsDefaultValue, TagBytes, StringBytes;
    var bs := EncSlot(f, s).out;
    if f.htype.Repeated? {
      var count := if s.Arr? then s.count else f.arraySize;
      if count == 0 {
      } else if Packable(f.ltype) {
        var body := InOrder(ItemParts(f, s.items[..count]));
        ShorterThan(body.out);
        PackedRecord(f, body.out);
        OneRecord(f.tag, 2, bs);
      } else {
        ItemRecords(f, s.items[..count], wireType);
      }
    } else if f.htype.Required? || (s.Opt? && s.has) || (s.Union? && s.which == f.tag) || (s.One? && bs != []) {
      RecordOf(f, ValueOf(s), wireType);
      OneRecord(f.tag, wireType, bs);
    }
  }

  lemma ShorterThan(b: seq<byte>)
    ensures |b| < |StringBytes(b)|
  {
  }

  // ---------------------------------------------------------------- numbers in bytes

  lemma {:induction false} LittleEndianDigits(n: nat, size: nat, i: nat)
    requires i < size
    ensures LittleEndian(n, size)[i] == n / Pow2(8 * i) % 256
    decreases i
  {
    if i > 0 {
      LittleEndianDigits(n / 256, size - 1, i - 1);
      Pow2Add8(8 * (i - 1));
      DivideTwice(n, 256, Pow2(8 * (i - 1)));
    } else {
      assert Pow2(0) == 1;
    }
  }

  /** Four bytes, the first one counting least. */
  function Word(a: int, b: int, c: int, d: int): int {
    a + 0x100 * b + 0x1_0000 * c + 0x100_0000 * d
  }

  lemma FromFour(bs: seq<byte>)
    requires |bs| == 4
    ensures FromLittleEndian(bs) == Word(bs[0], bs[1], bs[2], bs[3])
  {
    assert FromLittleEndian(bs[3..]) == bs[3] + 256 * FromLittleEndian([]) by { assert bs[3..][1..] == []; }
    assert FromLittleEndian(bs[2..]) == bs[2] + 256 * FromLittleEndian(bs[3..]) by { assert bs[2..][1..] == bs[3..]; }
    assert FromLittleEndian(bs[1..]) == bs[1] + 256 * FromLittleEndian(bs[2..]) by { assert bs[1..][1..] == bs[2..]; }
  }

  lemma FromEight(bs: seq<byte>)
    requires |bs| == 8
    ensures FromLittleEndian(bs) == FromLittleEndian(bs[..4]) + 0x1_0000_0000 * FromLittleEndian(bs[4..])
  {
    FromFour(bs[..4]);
    assert FromLittleEndian(bs[3..]) == bs[3] + 256 * FromLittleEndian(bs[4..]) by { assert bs[3..][1..] == bs[4..]; }
    assert FromLittleEndian(bs[2..]) == bs[2] + 256 * FromLittleEndian(bs[3..]) by { assert bs[2..][1..] == bs[3..]; }
    assert FromLittleEndian(bs[1..]) == bs[1] + 256 * FromLittleEndian(bs[2..]) by { assert bs[1..][1..] == bs[2..]; }
  }

  /** A fixed-width number, the lowest byte first: as it is sent and as it is read. */
  lemma FixedBytes(f: Field, n: nat, i: nat)
    requires (f.ltype.LFixed32? && i < 4) || (f.ltype.LFixed64? && i < 8)
    ensures var e := EncValue(f, Number(n));
            e.ok && |e.out| == (if f.ltype.LFixed32? then 4 else 8) && e.out[i] == n / Pow2(8 * i) % 256
  {
    hide LittleEndian;
    LittleEndianDigits(n, if f.ltype.LFixed32? then 4 else 8, i);
  }

  lemma FixedRead(f: Field, bs: seq<byte>)
    requires f.ltype.LFixed32? || f.ltype.LFixed64?
    ensures DecScalar(f, bs) ==
      if f.ltype.LFixed32? then
        (if |bs| < 4 then Fail else Ok(Number(Word(bs[0], bs[1], bs[2], bs[3])), bs[4..]))
      else if |bs| < 8 then Fail
      else Ok(Number(Word(bs[0], bs[1], bs[2], bs[3]) + 0x1_0000_0000 * Word(bs[4], bs[5], bs[6], bs[7])), bs[8..])
  {
    hide FromLittleEndian;
    if f.ltype.LFixed32? && |bs| >= 4 {
      FromFour(bs[..4]);
    } else if f.ltype.LFixed64? && |bs| >= 8 {
      FromEight(bs[..8]);
      FromFour(bs[..8][..4]);
      FromFour(bs[..8][4..]);
    }
  }

  /** Every signed number of the storage size is sent as the varint of its 64-bit two's complement, an unsigned one as
      its own, a zigzag one as 2n or -2n - 1; a bool is one byte, 0 or 1. */
  lemma IntegerBytes(f: Field, n: int)
    requires GoodSize(f.ltype, f.dataSize) && TypedValue(f, Number(n))
    ensures var e := EncValue(f, Number(n));
            match f.ltype
            case LBool => e == Enc(true, [if n == 0 then 0 else 1])
            case LVarint => e == Enc(true, VarintBytes(if n < 0 then n + 0x1_0000_0000_0000_0000 else n))
            case LUVarint => n >= 0 && e == Enc(true, VarintBytes(n))
            case LSVarint => e == Enc(true, VarintBytes(if n < 0 then -2 * n - 1 else 2 * n))
            case _ => true
  {
    hide VarintBytes;
    if f.ltype.LBool? {
      OneByte(if n == 0 then 0 else 1);
    }
  }

  lemma OneByte(n: nat)
    requires n < 128
    ensures VarintBytes(n) == [n]
  {
  }

  /** Those of the upper half of the 64-bit numbers, that is of the negative ones, take ten bytes. */
  lemma TenBytes(u: nat)
    requires TWO_64 / 2 <= u < TWO_64
    ensures |VarintBytes(u)| == 10
  {
    hide VarintBytes;
    VarintAtMostTen(u);
    Powers();
    var k := |VarintBytes(u)|;
    VarintLength(u);
    if k <= 9 {
      Pow2Monotone(7 * k, 63);
    }
  }

  /** What a varint makes of an integer field: 64-bit fields take it as it is, in two's complement if they are
      signed; smaller signed fields take its low 32 bits in two's complement, so that a negative number may come
      in five bytes or in ten; zigzag fields take 0, -1, 1, -2 and so on; and what the field cannot hold is
      refused. */
  lemma IntegerRead(f: Field, u: nat, c: seq<byte>)
    requires u < 0x1_0000_0000_0000_0000 && GoodSize(f.ltype, f.dataSize)
    requires f.ltype.LVarint? || f.ltype.LUVarint? || f.ltype.LSVarint?
    ensures var low := u % 0x1_0000_0000;
            var n: int :=
              if f.ltype.LUVarint? then u
              else if f.ltype.LSVarint? then (if u % 2 == 0 then u / 2 else -(u / 2) - 1)
              else if f.dataSize == 8 then (if u < 0x8000_0000_0000_0000 then u else u - 0x1_0000_0000_0000_0000)
              else if low < 0x8000_0000 then low else low - 0x1_0000_0000;
            DecScalar(f, VarintBytes(u) + c) == if Holds(f, n) then Ok(Number(n), c) else Fail
  {
    hide DecVarint, VarintBytes;
    VarintRoundTrip(u, c);
  }

  /** The numbers a field of that size can hold. */
  predicate Holds(f: Field, n: int) {
    var half := match f.dataSize case 1 => 0x80 case 2 => 0x8000 case 4 => 0x8000_0000 case _ => 0x8000_0000_0000_0000;
    if f.ltype.LUVarint? then 0 <= n < 2 * half else -half <= n < half
  }

  /** The ten bytes of a number and, for a field of up to 32 bits, the five bytes of its low half. */
  lemma FiveByteNegatives(f: Field, n: int, c: seq<byte>)
    requires f.ltype.LVarint? && f.dataSize == 4 && -0x8000_0000 <= n < 0
    ensures DecScalar(f, VarintBytes(n + 0x1_0000_0000) + c) == Ok(Number(n), c)
    ensures DecScalar(f, VarintBytes(n + 0x1_0000_0000_0000_0000) + c) == Ok(Number(n), c)
    ensures |VarintBytes(n + 0x1_0000_0000)| == 5
  {
    hide DecScalar, VarintBytes;
    IntegerRead(f, n + 0x1_0000_0000, c);
    IntegerRead(f, n + 0x1_0000_0000_0000_0000, c);
    VarintLength(n + 0x1_0000_0000);
    Powers();
    var k := |VarintBytes(n + 0x1_0000_0000)|;
    if k <= 4 {
      Pow2Monotone(7 * k, 28);
    } else if k >= 6 {
      Pow2Monotone(35, 7 * (k - 1));
    }
  }

  /** Any varint but zero is true. */
  lemma BoolRead(f: Field, u: nat, c: seq<byte>)
    requires u < 0x1_0000_0000 && f.ltype.LBool?
    ensures DecScalar(f, VarintBytes(u) + c) == Ok(Number(if u == 0 then 0 else 1), c)
  {
    hide DecVarint32, VarintBytes;
    Varint32Cases(u, c);
  }

  // ---------------------------------------------------------------- bytes and strings

  /** A bytes field has room for what fits behind its size field. */
  lemma RoomForBytes(f: Field, n: nat)
    requires f.dataSize <= PB_SIZE_MAX
    ensures n <= PB_SIZE_MAX && BytesFit(f, n) <==> n + BYTES_OFFSET <= f.dataSize
  {
    if n <= PB_SIZE_MAX {
      WrappedSum(n, BYTES_OFFSET);
    }
  }

  /** What is sent of bytes and strings: a length, and that many bytes; a string ends before its first NUL, or
      with its buffer. */
  lemma BlobSent(f: Field, bs: seq<byte>, n: nat)
    requires WellFormedField(f) && TypedValue(f, Blob(bs)) && n <= |bs|
    requires f.ltype.LString? ==> 0 !in bs[..n] && (n < |bs| ==> bs[n] == 0)
    requires !f.ltype.LString? ==> n == |bs|
    ensures EncValue(f, Blob(bs)) ==
      if f.ltype.LBytes? && n + BYTES_OFFSET > f.dataSize then Rejected else Enc(true, VarintBytes(n) + bs[..n])
  {
    hide VarintBytes, BytesFit;
    if f.ltype.LBytes? {
      RoomForBytes(f, n);
    } else if f.ltype.LString? {
      FirstNul(bs, n);
    }
  }

  lemma {:induction false} FirstNul(bs: seq<byte>, n: nat)
    requires n <= |bs| && 0 !in bs[..n] && (n < |bs| ==> bs[n] == 0)
    ensures UpToNul(bs) == bs[..n]
  {
    if n > 0 {
      assert bs[..n][0] == bs[0] && bs[..n] == [bs[0]] + bs[1..][..n - 1];
      FirstNul(bs[1..], n - 1);
    }
  }

  /** What bytes and strings are stored as: bytes as they are, if they fit behind the size field; a string with a
      NUL after it, if the buffer has room for both; fixed-length bytes if they have that length, and no bytes at
      all as zeros. Whatever the storage held before. */
  lemma BlobRead(f: Field, prior: Value, b: seq<byte>, c: seq<byte>)
    requires |b| < TWO_32 && f.dataSize <= PB_SIZE_MAX
    requires f.ltype.LBytes? || f.ltype.LString? || f.ltype.LFixedLengthBytes?
    ensures var r := DecValue(f, prior, VarintBytes(|b|) + b + c);
            && (r.Ok? ==> r.rest == c && r.value.Blob?)
            && match f.ltype
               case LBytes => (r.Ok? <==> |b| + BYTES_OFFSET <= f.dataSize) && (r.Ok? ==> r.value.bs == b)
               case LString =>
                 && (r.Ok? <==> |b| + 1 <= f.dataSize)
                 && (r.Ok? ==> |r.value.bs| == f.dataSize && r.value.bs[..|b|] == b && r.value.bs[|b|] == 0)
               case LFixedLengthBytes =>
                 && (r.Ok? <==> |b| == 0 || |b| == f.dataSize)
                 && (r.Ok? ==> r.value.bs == if |b| == 0 then seq(f.dataSize, _ => 0) else b)
               case _ => true
  {
    hide VarintBytes, DecVarint32, BytesFit;
    DelimitedRoundTrip(b, c);
    assert VarintBytes(|b|) + b + c == StringBytes(b) + c;
    RoomForBytes(f, |b|);
  }
}
