/** Decoding inverts encoding, over all of a table: nested messages, packed and unpacked arrays,
    fixed-count arrays, unions and elided defaults. */
module RoundTrip {
  import opened Platform
  import opened Bits
  import opened Varint
  import opened ZigZag
  import opened Descriptor
  import opened Encoding
  import opened Decoding
  import opened Locality
  import opened Typing

  // ---------------------------------------------------------------- what a program must put into a struct

  /** A value the decoder can take back: bytes that fit their buffer, strings with a terminator,
      messages whose length is a 32-bit number. */
  predicate Storable(f: Field, v: Value)
    decreases f, 0
  {
    match f.ltype
    case LBytes => v.Blob? && BytesFit(f, |v.bs|)
    case LString => v.Blob? && 0 in v.bs
    case LSubmessage => v.Message? && StorableMessage(f.sub, v.slots) && |EncMessage(f.sub, v.slots).out| < TWO_32
    case _ => true
  }

  predicate StorableItems(f: Field, items: seq<Value>)
    decreases f, 1
  {
    && (forall i :: 0 <= i < |items| ==> Storable(f, items[i]))
    && (Packable(f.ltype) ==> |InOrder(ItemParts(f, items)).out| < TWO_32)
  }

  /** A value that is sent or elided, counts within the array, and in a union the tag of a member or zero. */
  predicate StorableSlot(fields: seq<Field>, k: nat, s: Slot)
    requires k < |fields|
    decreases fields, 1
  {
    match s
    case One(v) => (fields[k].htype.Optional? && IsDefaultValue(fields[k], v)) || Storable(fields[k], v)
    case Opt(has, v) => has ==> Storable(fields[k], v)
    case Arr(count, items) => count <= |items| && StorableItems(fields[k], items[..count])
    case Fixed(items) => StorableItems(fields[k], items)
    case Union(which, v) =>
      which == 0 ||
      (var j := FindTag(fields, which);
       j.Some? && Home(fields, j.value) == k && Storable(fields[j.value], v))
    case Hole => true
  }

  predicate StorableMessage(fields: seq<Field>, slots: seq<Slot>)
    decreases fields, 2
  {
    |slots| == |fields| && forall k :: 0 <= k < |fields| ==> StorableSlot(fields, k, slots[k])
  }

  // ---------------------------------------------------------------- tags, lengths, scalars

  lemma TagRoundTrip(wireType: nat, tag: nat, c: seq<byte>)
    requires wireType < 8 && tag < 0x2000_0000 && (tag > 0 || wireType > 0)
    ensures DecTag(TagBytes(wireType, tag) + c) == Tag(wireType, tag, c)
  {
    hide DecVarint32, VarintBytes;
    Varint32Cases(8 * tag + wireType, c);
  }

  /** A length-delimited payload survives exactly when its length is a 32-bit number. */
  lemma DelimitedRoundTrip(b: seq<byte>, c: seq<byte>)
    requires |b| < TWO_64 / 2
    ensures DecDelimited(StringBytes(b) + c) == if |b| < TWO_32 then Ok(b, c) else Fail
  {
    hide DecVarint32, VarintBytes;
    assert StringBytes(b) + c == VarintBytes(|b|) + (b + c);
    Varint32Cases(|b|, b + c);
    if |b| < TWO_32 {
      assert (b + c)[..|b|] == b && (b + c)[|b|..] == c;
    }
  }

  lemma {:induction false} LittleEndianRoundTrip(n: nat, size: nat)
    requires n < Pow2(8 * size)
    ensures FromLittleEndian(LittleEndian(n, size)) == n
  {
    if size > 0 {
      Pow2Add8(8 * (size - 1));
      LittleEndianRoundTrip(n / 256, size - 1);
      assert LittleEndian(n, size)[1..] == LittleEndian(n / 256, size - 1);
    }
  }

  lemma Pow2Add8(n: nat)
    ensures Pow2(n + 8) == 256 * Pow2(n)
  {
    Pow2Add7(n + 1);
    assert Pow2(n + 1) == 2 * Pow2(n);
  }

  lemma FixedRoundTrip(n: nat, size: nat, c: seq<byte>)
    requires (size == 4 && n < TWO_32) || (size == 8 && n < TWO_64)
    ensures Take(LittleEndian(n, size) + c, size).Ok?
    ensures Take(LittleEndian(n, size) + c, size).rest == c
    ensures FromLittleEndian(Take(LittleEndian(n, size) + c, size).value) == n
  {
    Powers();
    LittleEndianRoundTrip(n, size);
    assert (LittleEndian(n, size) + c)[..size] == LittleEndian(n, size);
  }

  /** The number that was stored is stored again. */
  lemma SignedRoundTrip(f: Field, n: int)
    requires KnownSize(f.dataSize) && f.ltype.LVarint? && SignedFits(n, f.dataSize)
    ensures Narrow(f, n % TWO_64) == Some(n)
  {
  }

  lemma UnsignedRoundTrip(f: Field, n: int)
    requires KnownSize(f.dataSize) && f.ltype.LUVarint? && UnsignedFits(n, f.dataSize)
    ensures 0 <= n < TWO_64 && Narrow(f, n) == Some(n)
  {
  }

  lemma ZigZagRoundTrip(f: Field, n: int)
    requires KnownSize(f.dataSize) && f.ltype.LSVarint? && SignedFits(n, f.dataSize)
    ensures Interleave(n) < TWO_64 && Narrow(f, Interleave(n)) == Some(n)
  {
    hide Interleave, DecodeZigZag;
    InterleaveFits(f, n);
    DecodersInvert(Interleave(n));
    InterleaveInjective(n, DecodeZigZag(Interleave(n)));
  }

  lemma InterleaveFits(f: Field, n: int)
    requires KnownSize(f.dataSize) && SignedFits(n, f.dataSize)
    ensures Interleave(n) < TWO_64
  {
  }

  lemma InterleaveInjective(m: int, n: int)
    requires Interleave(m) == Interleave(n)
    ensures m == n
  {
  }

  lemma ScalarRoundTrip(f: Field, v: Value, c: seq<byte>)
    requires Packable(f.ltype) && TypedValue(f, v) && GoodSize(f.ltype, f.dataSize)
    ensures EncValue(f, v).ok
    ensures DecScalar(f, EncValue(f, v).out + c) == Ok(SeenValue(f, v), c)
  {
    hide DecVarint32, DecVarint, VarintBytes, Narrow, LittleEndian, FromLittleEndian, Take, Interleave;
    match f.ltype {
      case LBool =>
        Varint32Cases(if v.n != 0 then 1 else 0, c);
      case LVarint =>
        SignedRoundTrip(f, v.n);
        VarintRoundTrip(v.n % TWO_64, c);
      case LUVarint =>
        UnsignedRoundTrip(f, v.n);
        VarintRoundTrip(v.n, c);
      case LSVarint =>
        ZigZagRoundTrip(f, v.n);
        VarintRoundTrip(Interleave(v.n), c);
      case LFixed32 => FixedRoundTrip(v.n, 4, c);
      case LFixed64 => FixedRoundTrip(v.n, 8, c);
    }
  }

  // ---------------------------------------------------------------- blobs

  lemma {:induction false} UpToNulOfZeros(bs: seq<byte>, n: nat)
    requires 0 !in bs && n >= 1
    ensures UpToNul(bs + Zeros(n)) == bs
  {
    if bs == [] {
      assert (bs + Zeros(n))[0] == 0;
    } else {
      assert (bs + Zeros(n))[1..] == bs[1..] + Zeros(n);
      UpToNulOfZeros(bs[1..], n);
    }
  }

  /** A string buffer is taken back exactly when it has a terminator. */
  lemma StringRoundTrip(f: Field, bs: seq<byte>)
    requires f.ltype.LString? && |bs| == f.dataSize <= PB_SIZE_MAX
    ensures StoreBlob(f, UpToNul(bs)).Some? <==> 0 in bs
    ensures 0 in bs ==> SeenValue(f, StoreBlob(f, UpToNul(bs)).value) == Blob(UpToNul(bs))
  {
    var b := UpToNul(bs);
    if |b| < |bs| {
      assert bs[|b|] == 0;
      UpToNulOfZeros(b, f.dataSize - |b|);
    } else {
      assert bs == b;
    }
  }

  /** A blob is taken back as far as it can be seen. */
  lemma BlobRoundTrip(f: Field, v: Value)
    requires WellFormedField(f) && TypedValue(f, v) && !Packable(f.ltype) && !f.ltype.LSubmessage?
    requires f.ltype.LBytes? ==> BytesFit(f, |v.bs|)
    ensures var b := if f.ltype.LString? then UpToNul(v.bs) else v.bs;
            && EncValue(f, v) == Enc(true, StringBytes(b))
            && |b| < TWO_32
            && (StoreBlob(f, b).Some? <==> Storable(f, v))
            && (Storable(f, v) ==> SeenValue(f, StoreBlob(f, b).value) == SeenValue(f, v))
  {
    hide StringBytes, UpToNul;
    if f.ltype.LString? {
      StringRoundTrip(f, v.bs);
    }
  }

  // ---------------------------------------------------------------- elided defaults

  /** What proto3 rules leave out is what the reset struct shows anyway. */
  lemma {:induction false} ElidedValue(f: Field, v: Value, prior: Value)
    requires WellFormedField(f) && TypedValue(f, v) && f.initial == None && IsDefaultValue(f, v)
    ensures SeenValue(f, DefaultValue(f, prior)) == SeenValue(f, v)
    decreases f, 0
  {
    match f.ltype {
      case LSubmessage => ElidedMessage(f.sub, v.slots, SlotsOf(prior));
      case LString =>
        assert f.dataSize > 0 ==> Zeros(f.dataSize)[0] == 0;
      case LBytes | LFixedLengthBytes | LExtension =>
      case LBool | LVarint | LUVarint | LSVarint | LFixed32 | LFixed64 => ZeroNumber(f, v.n);
    }
  }

  /** A number whose bytes are all zero is zero. */
  lemma ZeroNumber(f: Field, n: int)
    requires TypedValue(f, Number(n)) && GoodSize(f.ltype, f.dataSize) && AllZero(StorageBytes(n, f.dataSize))
    ensures n == 0
  {
    hide LittleEndian, FromLittleEndian, Pow2;
    var bytes := 8 * f.dataSize;
    Powers();
    ByteAndTwo();
    assert StorageBytes(n, f.dataSize) == Zeros(f.dataSize);
    LittleEndianRoundTrip(n % Pow2(bytes), f.dataSize);
    ZerosAreZero(f.dataSize);
  }

  lemma ByteAndTwo()
    ensures Pow2(8) == 0x100 && Pow2(16) == 0x1_0000
  {
    assert Pow2(4) == 16;
    Pow2Sum(4, 4);
    Pow2Sum(8, 8);
  }

  lemma {:induction false} ZerosAreZero(n: nat)
    ensures FromLittleEndian(Zeros(n)) == 0
  {
    if n > 0 {
      assert Zeros(n)[1..] == Zeros(n - 1);
      ZerosAreZero(n - 1);
    }
  }

  lemma {:induction false} ElidedMessage(fields: seq<Field>, slots: seq<Slot>, prior: seq<Slot>)
    requires WellFormed(fields) && TypedMessage(fields, slots) && IsDefaultMessage(fields, slots)
    ensures SeenMessage(fields, SetDefaults(fields, prior)) == SeenMessage(fields, slots)
    decreases fields, 1
  {
    hide SeenSlot, DefaultSlot;
    forall k | 0 <= k < |fields|
      ensures SeenMessage(fields, SetDefaults(fields, prior))[k] == SeenMessage(fields, slots)[k]
    {
      ElidedSlot(fields, k, slots, SlotAt(prior, k));
    }
  }

  lemma {:induction false} ElidedSlot(fields: seq<Field>, k: nat, slots: seq<Slot>, prior: Slot)
    requires WellFormed(fields) && TypedMessage(fields, slots) && IsDefaultMessage(fields, slots) && k < |fields|
    ensures SeenSlot(fields, k, DefaultSlot(fields[k], Home(fields, k) != k, prior)) == SeenSlot(fields, k, slots[k])
    decreases fields, 0
  {
    hide SeenValue, DefaultValue, IsDefaultValue, TypedValue, WellFormed;
    var f := fields[k];
    assert WellFormedField(f) by { FieldOf(fields, k); }
    assert TypedSlot(fields, k, slots[k]);
    assert IsDefaultSlot(f, SlotAt(slots, Home(fields, k)));
    if Home(fields, k) == k {
      match f.htype {
        case Optional =>
          if f.sizeOffset == 0 {
            ElidedValue(f, slots[k].v, ValueOf(prior));
          }
        case Repeated =>
          assert SeenItems(f, ItemsOf(prior)[..0]) == SeenItems(f, slots[k].items[..0]);
        case Oneof =>
          NoTagZero(fields);
        case Required =>
      }
    }
  }

  lemma FieldOf(fields: seq<Field>, k: nat)
    requires WellFormed(fields) && k < |fields|
    ensures WellFormedField(fields[k]) && DistinctTags(fields)
  {
  }

  // ---------------------------------------------------------------- arrays

  lemma ItemPartsFront(f: Field, items: seq<Value>)
    requires items != []
    ensures InOrder(ItemParts(f, items)) == Then(EncValue(f, items[0]), InOrder(ItemParts(f, items[1..])))
  {
    hide EncValue, InOrder;
    assert ItemParts(f, items) == [EncValue(f, items[0])] + ItemParts(f, items[1..]);
    InOrderFront(EncValue(f, items[0]), ItemParts(f, items[1..]));
  }

  lemma RecordPartsFront(f: Field, items: seq<Value>)
    requires items != []
    ensures InOrder(RecordParts(f, items)) == Then(EncRecord(f, items[0]), InOrder(RecordParts(f, items[1..])))
  {
    hide EncRecord, InOrder;
    assert RecordParts(f, items) == [EncRecord(f, items[0])] + RecordParts(f, items[1..]);
    InOrderFront(EncRecord(f, items[0]), RecordParts(f, items[1..]));
  }

  /** a with the items stored behind those it has. */
  function Append(a: Filled, items: seq<Value>): (r: Filled)
    requires a.count + |items| <= |a.items|
    ensures |r.items| == |a.items|
  {
    Filled(a.items[..a.count] + items + a.items[a.count + |items|..], a.count + |items|)
  }

  lemma AppendFront(a: Filled, items: seq<Value>)
    requires items != [] && a.count + |items| <= |a.items|
    ensures Append(Filled(a.items[a.count := items[0]], a.count + 1), items[1..]) == Append(a, items)
  {
  }

  /** A packed record is taken back item by item, and refused exactly when it does not fit. */
  lemma {:induction false} PackedRoundTrip(f: Field, a: Filled, items: seq<Value>)
    requires Packable(f.ltype) && GoodSize(f.ltype, f.dataSize) && a.count <= |a.items| == f.arraySize
    requires forall i :: 0 <= i < |items| ==> TypedValue(f, items[i])
    ensures InOrder(ItemParts(f, items)).ok
    ensures DecPacked(f, a, InOrder(ItemParts(f, items)).out)
         == if a.count + |items| <= f.arraySize then Some(Append(a, SeenItems(f, items))) else None
    decreases |items|
  {
    hide DecScalar, EncValue, TypedValue, InOrder, ItemParts, SeenValue;
    if items == [] {
      EmptyParts(f);
      assert Append(a, SeenItems(f, [])) == a;
    } else {
      var v := SeenValue(f, items[0]);
      var rest := InOrder(ItemParts(f, items[1..])).out;
      ItemPartsFront(f, items);
      ScalarRoundTrip(f, items[0], rest);
      ScalarRoundTrip(f, items[0], []);
      if a.count < f.arraySize {
        PackedRoundTrip(f, Filled(a.items[a.count := v], a.count + 1), items[1..]);
        assert SeenItems(f, items)[1..] == SeenItems(f, items[1..]);
        if a.count + |items| <= f.arraySize {
          AppendFront(a, SeenItems(f, items));
        }
      } else {
        PackedRoundTrip(f, a, items[1..]);
      }
      NotEmpty(f, EncValue(f, items[0]).out, rest);
    }
  }

  lemma EmptyParts(f: Field)
    ensures InOrder(ItemParts(f, [])) == Nothing && InOrder(RecordParts(f, [])) == Nothing
  {
    assert ItemParts(f, []) == [] && RecordParts(f, []) == [];
  }

  lemma NotEmpty(f: Field, x: seq<byte>, y: seq<byte>)
    requires DecScalar(f, x + []).Ok?
    ensures x + y != []
  {
    assert x + [] == x;
  }

  // ---------------------------------------------------------------- records

  /** A record whose tag is that of row k is handed to row k. */
  lemma RecordTurn(fields: seq<Field>, k: nat, wireType: nat, st: State, bs: seq<byte>)
    requires WellFormed(fields) && k < |fields| && |st.slots| == |fields| && wireType < 8
    ensures DecTurn(fields, st, TagBytes(wireType, fields[k].tag) + bs) == DecRow(fields, k, wireType, st, bs)
  {
    hide DecTag, TagBytes, DecRow, FindTag;
    assert WellFormedField(fields[k]);
    TagRoundTrip(wireType, fields[k].tag, bs);
    FindTagUnique(fields, k);
  }

  /** A loop over one record and what follows it. */
  lemma RecordThen(fields: seq<Field>, k: nat, wireType: nat, st: State, bs: seq<byte>, st': State, rest: seq<byte>)
    requires WellFormed(fields) && k < |fields| && |st.slots| == |fields| && wireType < 8
    requires DecRow(fields, k, wireType, st, bs) == Next(st', rest)
    ensures DecLoop(fields, st, TagBytes(wireType, fields[k].tag) + bs) == DecLoop(fields, st', rest)
  {
    hide TagBytes, DecRow, DecTurn, WellFormed;
    RecordTurn(fields, k, wireType, st, bs);
    TagNotEmpty(wireType, fields[k].tag);
  }

  lemma TagNotEmpty(wireType: nat, tag: nat)
    ensures TagBytes(wireType, tag) != []
  {
  }

  /** st while the array of row k holds a. */
  function WithArray(fields: seq<Field>, k: nat, st: State, a: Filled): (r: State)
    requires k < |fields| == |st.slots|
    ensures |r.slots| == |fields| && r.seen == st.seen
  {
    if fields[k].sizeOffset == 0 then
      st.(slots := st.slots[k := Fixed(a.items)], fixedField := Some(k), fixedCount := a.count)
    else st.(slots := st.slots[k := Arr(a.count, a.items)])
  }

  lemma ArrayRow(fields: seq<Field>, k: nat, wireType: nat, st: State, a: Filled, bs: seq<byte>, a': Filled,
      rest: seq<byte>)
    requires k < |fields| == |st.slots| && fields[k].htype.Repeated?
    requires DecRepeated(fields[k], wireType, a, bs) == Ok(a', rest)
    ensures DecRow(fields, k, wireType, WithArray(fields, k, st, a), bs) == Next(WithArray(fields, k, st, a'), rest)
  {
    hide DecRepeated;
  }

  // ---------------------------------------------------------------- values and messages

  /** A struct as pb_message_set_to_defaults leaves it. */
  predicate Settled(fields: seq<Field>, slots: seq<Slot>) {
    SetDefaults(fields, slots) == slots
  }

  predicate Receives(f: Field, prior: Value) {
    f.ltype.LSubmessage? ==> TypedValue(f, prior) && (f.htype.Repeated? || Settled(f.sub, SlotsOf(prior)))
  }

  /** A value is taken back as far as it can be seen, into any storage that is reset or will be. */
  lemma {:induction false} ValueRoundTrip(f: Field, v: Value, prior: Value, c: seq<byte>)
    requires WellFormedField(f) && TypedValue(f, v) && Storable(f, v) && Receives(f, prior)
    ensures EncValue(f, v).ok
    ensures var r := DecValue(f, prior, EncValue(f, v).out + c);
            r.Ok? && r.rest == c && SeenValue(f, r.value) == SeenValue(f, v) && TypedValue(f, r.value)
    decreases f, 0
  {
    hide DecScalar, DecDelimited, DecNoInit, StoreBlob, StringBytes, EncMessage, SetDefaults, TypedMessage,
      WellFormed, StorableMessage, SeenMessage;
    if Packable(f.ltype) {
      ScalarRoundTrip(f, v, c);
      SeenTwice(f, v);
    } else if f.ltype.LSubmessage? {
      var e := EncMessage(f.sub, v.slots);
      DefaultsIdempotent(f.sub, SlotsOf(prior));
      DefaultsTyped(f.sub, SlotsOf(prior));
      MessageRoundTrip(f.sub, v.slots, Embedded(f, prior));
      DelimitedRoundTrip(e.out, c);
    } else {
      BlobRoundTrip(f, v);
      DelimitedRoundTrip(if f.ltype.LString? then UpToNul(v.bs) else v.bs, c);
    }
    ValueTyped(f, prior, EncValue(f, v).out + c);
  }

  lemma SeenTwice(f: Field, v: Value)
    requires Packable(f.ltype)
    ensures SeenValue(f, SeenValue(f, v)) == SeenValue(f, v)
  {
  }

  /** An unpacked array is taken back record by record. */
  lemma {:induction false} UnpackedRoundTrip(fields: seq<Field>, k: nat, st: State, a: Filled, items: seq<Value>)
    returns (a': Filled)
    requires WellFormed(fields) && k < |fields| == |st.slots| && fields[k].htype.Repeated? && !Packable(fields[k].ltype)
    requires a.count + |items| <= |a.items| == fields[k].arraySize
    requires forall i :: 0 <= i < |a.items| ==> TypedValue(fields[k], a.items[i])
    requires forall i :: 0 <= i < |items| ==> TypedValue(fields[k], items[i]) && Storable(fields[k], items[i])
    ensures InOrder(RecordParts(fields[k], items)).ok
    ensures DecLoop(fields, WithArray(fields, k, st, a), InOrder(RecordParts(fields[k], items)).out)
         == Ran(WithArray(fields, k, st, a'), [], false)
    ensures a'.count == a.count + |items| && |a'.items| == |a.items|
    ensures SeenItems(fields[k], a'.items[..a'.count])
        == SeenItems(fields[k], a.items[..a.count]) + SeenItems(fields[k], items)
    decreases fields, 1, |items|
  {
    hide DecValue, EncValue, TypedValue, Storable, InOrder, RecordParts, SeenValue, DecRow, WithArray, WellFormed,
      TagBytes, DecTurn;
    var f := fields[k];
    FieldOf(fields, k);
    if items == [] {
      EmptyParts(f);
      a' := a;
    } else {
      var rest := InOrder(RecordParts(f, items[1..])).out;
      RecordPartsFront(f, items);
      ReceivesItem(f, a.items[a.count]);
      ValueRoundTrip(f, items[0], a.items[a.count], rest);
      var r := DecValue(f, a.items[a.count], EncValue(f, items[0]).out + rest);
      var a1 := Filled(a.items[a.count := r.value], a.count + 1);
      ArrayRow(fields, k, WireType(f.ltype), st, a, EncValue(f, items[0]).out + rest, a1, rest);
      RecordThen(fields, k, WireType(f.ltype), WithArray(fields, k, st, a), EncValue(f, items[0]).out + rest,
        WithArray(fields, k, st, a1), rest);
      a' := UnpackedRoundTrip(fields, k, st, a1, items[1..]);
      RecordBytes(f, items[0], rest);
      SeenFront(f, a, a1, items);
    }
  }

  lemma ReceivesItem(f: Field, prior: Value)
    requires f.htype.Repeated? && TypedValue(f, prior)
    ensures Receives(f, prior)
  {
  }

  lemma RecordBytes(f: Field, v: Value, rest: seq<byte>)
    requires !f.ltype.LExtension? && EncValue(f, v).ok
    ensures EncRecord(f, v).ok
    ensures EncRecord(f, v).out + rest == TagBytes(WireType(f.ltype), f.tag) + (EncValue(f, v).out + rest)
  {
    hide EncValue, TagBytes;
  }

  lemma SeenFront(f: Field, a: Filled, a1: Filled, items: seq<Value>)
    requires items != [] && a.count < |a.items| == |a1.items| && a1.count == a.count + 1
    requires exists v :: a1.items == a.items[a.count := v] && SeenValue(f, v) == SeenValue(f, items[0])
    ensures SeenItems(f, a1.items[..a1.count]) + SeenItems(f, items[1..])
         == SeenItems(f, a.items[..a.count]) + SeenItems(f, items)
  {
    hide SeenValue;
  }

  // ---------------------------------------------------------------- row by row

  /** The rows before k have put into slot h whatever is coming. */
  predicate Arrived(fields: seq<Field>, m: seq<Slot>, k: nat, h: nat)
    requires h < |m|
  {
    if m[h].Union? then FindTag(fields, m[h].which).Some? && FindTag(fields, m[h].which).value < k else h < k
  }

  predicate SlotProgress(fields: seq<Field>, m: seq<Slot>, d: seq<Slot>, k: nat, h: nat, s: Slot)
    requires h < |fields| == |m| == |d|
  {
    if Arrived(fields, m, k, h) then SeenSlot(fields, h, s) == SeenSlot(fields, h, m[h]) else s == d[h]
  }

  /** The decoder has taken back the rows before k of m, starting from d. */
  ghost predicate Progress(fields: seq<Field>, m: seq<Slot>, d: seq<Slot>, st: State, k: nat) {
    && |st.slots| == |m| == |d| == |fields|
    && (forall h :: 0 <= h < |fields| ==> SlotProgress(fields, m, d, k, h, st.slots[h]))
    && (forall j :: 0 <= j < k && j < |fields| && fields[j].htype.Required? ==> j in st.seen)
    && FixedDone(fields, st)
    && (st.fixedField.Some? ==> st.fixedField.value < k)
  }

  /** What the theorem is about: a message to send and a struct to receive it. */
  ghost predicate Setting(fields: seq<Field>, m: seq<Slot>, d: seq<Slot>) {
    && WellFormed(fields)
    && TypedMessage(fields, m) && StorableMessage(fields, m)
    && TypedMessage(fields, d) && Settled(fields, d)
  }

  lemma SettledAt(fields: seq<Field>, d: seq<Slot>, k: nat)
    requires WellFormed(fields) && TypedMessage(fields, d) && Settled(fields, d) && k < |fields|
    ensures |d| == |fields| && WellFormedField(fields[k]) && DistinctTags(fields)
    ensures TypedSlot(fields, k, d[k]) && d[k] == DefaultSlot(fields[k], Home(fields, k) != k, d[k])
  {
    hide TypedSlot, DefaultSlot, WellFormedField;
  }

  lemma SettingAt(fields: seq<Field>, m: seq<Slot>, d: seq<Slot>, k: nat)
    requires Setting(fields, m, d) && k < |fields|
    ensures |m| == |d| == |fields| && WellFormedField(fields[k]) && DistinctTags(fields)
    ensures TypedSlot(fields, k, m[k]) && TypedSlot(fields, k, d[k]) && StorableSlot(fields, k, m[k])
    ensures d[k] == DefaultSlot(fields[k], Home(fields, k) != k, d[k])
  {
    hide TypedSlot, StorableSlot, DefaultSlot, WellFormedField;
  }

  /** Row k adds nothing to the slots of other rows; its own, when it has none, is a hole. */
  lemma ArrivedElsewhere(fields: seq<Field>, m: seq<Slot>, d: seq<Slot>, k: nat, h: nat)
    requires Setting(fields, m, d) && k < |fields| && h < |fields| == |m| == |d| && h != Home(fields, k)
    ensures Arrived(fields, m, k + 1, h) == Arrived(fields, m, k, h) || (h == k && m[k].Hole? && d[k].Hole?)
  {
    hide Setting, Home, FindTag;
    if m[h].Union? && FindTag(fields, m[h].which) == Some(k) {
      UnionHome(fields, m, d, h);
    } else if h == k {
      HoleRow(fields, m, d, k);
    }
  }

  /** The member that a union of m holds is a member of that union. */
  lemma UnionHome(fields: seq<Field>, m: seq<Slot>, d: seq<Slot>, h: nat)
    requires Setting(fields, m, d) && h < |m| == |fields| && m[h].Union?
    ensures var j := FindTag(fields, m[h].which); j.Some? ==> Home(fields, j.value) == h
  {
    hide Setting, Home, FindTag, Storable, TypedSlot, DefaultSlot, WellFormedField, DistinctTags;
    SettingAt(fields, m, d, h);
    NoTag0(fields, m, d);
  }

  lemma HoleRow(fields: seq<Field>, m: seq<Slot>, d: seq<Slot>, k: nat)
    requires Setting(fields, m, d) && k < |m| == |d| == |fields| && Home(fields, k) != k
    ensures m[k].Hole? && d[k].Hole?
  {
    hide Setting, Home, TypedValue, StorableSlot, DefaultSlot, WellFormedField, DistinctTags;
    SettingAt(fields, m, d, k);
  }

  lemma OtherSlots(fields: seq<Field>, m: seq<Slot>, d: seq<Slot>, k: nat, h: nat, s: Slot)
    requires Setting(fields, m, d) && k < |fields| && h < |fields| == |m| == |d| && h != Home(fields, k)
    requires SlotProgress(fields, m, d, k, h, s)
    ensures SlotProgress(fields, m, d, k + 1, h, s)
  {
    hide Setting, SeenSlot, Home, FindTag;
    ArrivedElsewhere(fields, m, d, k, h);
  }

  /** Row k has done its part when its slot has made progress and nothing else has changed. */
  lemma Advance(fields: seq<Field>, m: seq<Slot>, d: seq<Slot>, st: State, k: nat, st': State)
    requires Setting(fields, m, d) && Progress(fields, m, d, st, k) && k < |fields| == |st'.slots|
    requires forall h :: 0 <= h < |fields| && h != Home(fields, k) ==> st'.slots[h] == st.slots[h]
    requires SlotProgress(fields, m, d, k + 1, Home(fields, k), st'.slots[Home(fields, k)])
    requires st'.seen == if fields[k].htype.Required? then st.seen + {k} else st.seen
    requires FixedDone(fields, st') && (st'.fixedField.Some? ==> st'.fixedField.value <= k)
    ensures Progress(fields, m, d, st', k + 1)
  {
    hide Setting, SlotProgress, FixedDone;
    forall h | 0 <= h < |fields|
      ensures SlotProgress(fields, m, d, k + 1, h, st'.slots[h])
    {
      if h != Home(fields, k) {
        OtherSlots(fields, m, d, k, h, st.slots[h]);
      }
    }
  }

  /** Row k of m goes on the wire. */
  predicate Speaks(f: Field, s: Slot) {
    match f.htype
    case Required => true
    case Optional => if s.Opt? then s.has else s.One? && !IsDefaultValue(f, s.v)
    case Repeated => (if s.Arr? then s.count else f.arraySize) != 0
    case Oneof => s.Union? && s.which == f.tag
  }

  lemma SilentSlot(fields: seq<Field>, m: seq<Slot>, d: seq<Slot>, k: nat)
    requires Setting(fields, m, d) && k < |fields| && !fields[k].htype.Oneof?
    requires k < |m| && !Speaks(fields[k], m[k])
    ensures k < |d| && SeenSlot(fields, k, d[k]) == SeenSlot(fields, k, m[k])
    ensures EncSlot(fields[k], m[k]) == Nothing
  {
    hide Setting, SeenValue, TypedValue, IsDefaultValue, Storable, EncRecord, DefaultValue, ItemParts, RecordParts,
      InOrder;
    SettingAt(fields, m, d, k);
    var f := fields[k];
    if f.htype.Optional? && f.sizeOffset == 0 {
      ElidedValue(f, m[k].v, d[k].v);
    } else if f.htype.Repeated? {
      assert SeenItems(f, ItemsOf(d[k])[..0]) == SeenItems(f, m[k].items[..0]);
      assert f.arraySize == 0 ==> SeenItems(f, ItemsOf(d[k])) == SeenItems(f, m[k].items);
    }
  }

  lemma SilentUnion(fields: seq<Field>, m: seq<Slot>, d: seq<Slot>, k: nat)
    requires Setting(fields, m, d) && k < |fields| == |m| && fields[k].htype.Oneof?
    requires !Speaks(fields[k], m[Home(fields, k)])
    ensures EncSlot(fields[k], m[Home(fields, k)]) == Nothing
    ensures Arrived(fields, m, k + 1, Home(fields, k)) == Arrived(fields, m, k, Home(fields, k))
  {
    hide Setting, SeenSlot, EncRecord, TypedSlot, StorableSlot, IsDefaultValue, DefaultSlot, WellFormedField,
      FindTag, Home;
    var h := Home(fields, k);
    SettingAt(fields, m, d, h);
    HomeOfHome(fields, k);
    UnionTyped(fields, h, m[h]);
  }

  lemma UnionTyped(fields: seq<Field>, h: nat, s: Slot)
    requires h < |fields| && Home(fields, h) == h && fields[h].htype.Oneof? && TypedSlot(fields, h, s)
    ensures s.Union?
  {
    hide TypedValue, Home;
  }

  lemma SilentRow(fields: seq<Field>, m: seq<Slot>, d: seq<Slot>, st: State, k: nat)
    requires Setting(fields, m, d) && Progress(fields, m, d, st, k) && k < |fields|
    requires !Speaks(fields[k], m[Home(fields, k)])
    ensures EncSlot(fields[k], m[Home(fields, k)]) == Nothing
    ensures Progress(fields, m, d, st, k + 1)
  {
    hide Setting, SeenSlot, EncSlot, FindTag;
    var h := Home(fields, k);
    assert SlotProgress(fields, m, d, k, h, st.slots[h]);
    if fields[k].htype.Oneof? {
      SilentUnion(fields, m, d, k);
    } else {
      SilentSlot(fields, m, d, k);
      RegularSlot(fields, m, d, k);
    }
    Advance(fields, m, d, st, k, st);
  }

  lemma RegularSlot(fields: seq<Field>, m: seq<Slot>, d: seq<Slot>, k: nat)
    requires Setting(fields, m, d) && k < |fields| == |m| && !fields[k].htype.Oneof?
    ensures !m[k].Union?
  {
    hide Setting, TypedValue, StorableSlot, DefaultSlot, WellFormedField, DistinctTags, Home;
    SettingAt(fields, m, d, k);
  }

  lemma NoTag0(fields: seq<Field>, m: seq<Slot>, d: seq<Slot>)
    requires Setting(fields, m, d)
    ensures FindTag(fields, 0).None?
  {
    hide TypedMessage, StorableMessage, Settled;
    NoTagZero(fields);
  }

  lemma TargetReceives(fields: seq<Field>, d: seq<Slot>, k: nat)
    requires WellFormed(fields) && TypedMessage(fields, d) && Settled(fields, d)
    requires k < |fields| == |d| && !fields[k].htype.Repeated?
    ensures Receives(fields[k], Target(fields[k], d[Home(fields, k)]))
  {
    hide TypedMessage, WellFormed, SetDefaults, DistinctTags, Home;
    var f, h := fields[k], Home(fields, k);
    SettledAt(fields, d, k);
    SettledAt(fields, d, h);
    if f.ltype.LSubmessage? && f.htype.Oneof? {
      ZeroSlotsTyped(f);
      DefaultsTyped(f.sub, ZeroSlots(f.sub));
      DefaultsIdempotent(f.sub, ZeroSlots(f.sub));
    }
  }

  /** The value of a row that speaks, and what it becomes in the slot. */
  lemma StoredIsSeen(fields: seq<Field>, m: seq<Slot>, d: seq<Slot>, k: nat, v: Value)
    requires Setting(fields, m, d) && k < |fields| == |m| == |d| && !fields[k].htype.Repeated?
    requires Speaks(fields[k], m[Home(fields, k)])
    requires SeenValue(fields[k], v) == SeenValue(fields[k], ValueOf(m[Home(fields, k)]))
    ensures var h := Home(fields, k);
            SeenSlot(fields, h, Stored(fields[k], d[h], v)) == SeenSlot(fields, h, m[h])
  {
    hide Setting, SeenValue, TypedValue, StorableSlot, IsDefaultValue, DefaultSlot, Home;
    SettingAt(fields, m, d, k);
    SettingAt(fields, m, d, Home(fields, k));
    FindTagUnique(fields, k);
  }

  lemma SpeakingValue(fields: seq<Field>, m: seq<Slot>, d: seq<Slot>, k: nat)
    requires Setting(fields, m, d) && k < |fields| == |m| && !fields[k].htype.Repeated?
    requires Speaks(fields[k], m[Home(fields, k)])
    ensures var s := m[Home(fields, k)];
            && EncSlot(fields[k], s) == EncRecord(fields[k], ValueOf(s))
            && TypedValue(fields[k], ValueOf(s)) && Storable(fields[k], ValueOf(s))
            && !Arrived(fields, m, k, Home(fields, k)) && Arrived(fields, m, k + 1, Home(fields, k))
  {
    hide Setting, EncRecord, TypedValue, Storable, IsDefaultValue;
    SettingAt(fields, m, d, k);
    SettingAt(fields, m, d, Home(fields, k));
    FindTagUnique(fields, k);
  }

  /** A row with one item: one record, one turn of the decoder. */
  lemma {:induction false} SingleRow(fields: seq<Field>, m: seq<Slot>, d: seq<Slot>, st: State, k: nat)
    returns (st': State)
    requires Setting(fields, m, d) && Progress(fields, m, d, st, k) && k < |fields|
    requires !fields[k].htype.Repeated? && Speaks(fields[k], m[Home(fields, k)])
    ensures EncSlot(fields[k], m[Home(fields, k)]).ok
    ensures |st.slots| == |fields| && |st'.slots| == |fields|
    ensures DecLoop(fields, st, EncSlot(fields[k], m[Home(fields, k)]).out) == Ran(st', [], false)
    ensures Progress(fields, m, d, st', k + 1)
    decreases fields, 2
  {
    hide Setting, EncSlot, EncRecord, EncValue, DecValue, Target, Stored, SeenSlot, SeenValue, TypedValue,
      Storable, Receives, DecTurn, WellFormedField, FixedDone, Speaks, TagBytes;
    var f, h := fields[k], Home(fields, k);
    var v, s := ValueOf(m[h]), st.slots[h];
    SettingAt(fields, m, d, k);
    GoodSizeOf(f);
    SpeakingValue(fields, m, d, k);
    assert SlotProgress(fields, m, d, k, h, s);
    Wf(fields, m, d);
    TargetReceives(fields, d, k);
    ValueRoundTrip(f, v, Target(f, s), []);
    var bs := EncValue(f, v).out + [];
    var v' := DecValue(f, Target(f, s), bs).value;
    StoredIsSeen(fields, m, d, k, v');
    st' := WithItem(fields, k, st, v');
    SingleTurn(fields, k, WireType(f.ltype), st, bs, v', []);
    Wf(fields, m, d);
    RecordThen(fields, k, WireType(f.ltype), st, bs, st', []);
    RecordBytes(f, v, []);
    assert EncRecord(f, v).out + [] == EncRecord(f, v).out;
    SameDone(fields, st, st');
    Advance(fields, m, d, st, k, st');
  }

  lemma SameDone(fields: seq<Field>, st: State, st': State)
    requires FixedDone(fields, st) && st'.fixedField == st.fixedField && st'.fixedCount == st.fixedCount
    ensures FixedDone(fields, st')
  {
  }

  lemma Wf(fields: seq<Field>, m: seq<Slot>, d: seq<Slot>)
    requires Setting(fields, m, d)
    ensures WellFormed(fields) && TypedMessage(fields, m) && TypedMessage(fields, d) && Settled(fields, d)
  {
  }

  /** st after row k, which is no array, has stored v. */
  function WithItem(fields: seq<Field>, k: nat, st: State, v: Value): State
    requires k < |fields| == |st.slots|
  {
    var h := Home(fields, k);
    Mark(fields, k, st).(slots := st.slots[h := Stored(fields[k], st.slots[h], v)])
  }

  lemma SingleTurn(fields: seq<Field>, k: nat, wireType: nat, st: State, bs: seq<byte>, v: Value, rest: seq<byte>)
    requires k < |fields| == |st.slots| && !fields[k].htype.Repeated?
    requires DecValue(fields[k], Target(fields[k], st.slots[Home(fields, k)]), bs) == Ok(v, rest)
    ensures DecRow(fields, k, wireType, st, bs) == Next(WithItem(fields, k, st, v), rest)
  {
    hide DecValue, Target, Stored, Home;
  }

  // ---------------------------------------------------------------- rows with many items

  /** The items of row k that go on the wire. */
  function Spoken(f: Field, s: Slot): seq<Value> {
    if s.Arr? && s.count <= |s.items| then s.items[..s.count] else ItemsOf(s)
  }

  lemma SpokenItems(fields: seq<Field>, m: seq<Slot>, d: seq<Slot>, k: nat)
    requires Setting(fields, m, d) && k < |fields| == |m| == |d| && fields[k].htype.Repeated?
    requires Speaks(fields[k], m[k])
    ensures var f, items, xs := fields[k], Spoken(fields[k], m[k]), ItemsOf(d[k]);
            && 0 < |items| <= |xs| == f.arraySize
            && (IsFixedCount(f) ==> |items| == f.arraySize)
            && (forall i :: 0 <= i < |xs| ==> TypedValue(f, xs[i]))
            && (forall i :: 0 <= i < |items| ==> TypedValue(f, items[i]))
            && StorableItems(f, items)
            && (d[k].Arr? ==> d[k].count == 0)
            && EncSlot(f, m[k]) == if Packable(f.ltype)
                 then Then(Enc(true, TagBytes(WT_STRING, f.tag)), Delimited(InOrder(ItemParts(f, items))))
                 else InOrder(RecordParts(f, items))
  {
    hide Setting, TypedValue, StorableItems, ItemParts, RecordParts, InOrder, TagBytes;
    SettingAt(fields, m, d, k);
    var f := fields[k];
    if IsFixedCount(f) {
      assert m[k].items[..f.arraySize] == m[k].items;
    }
  }

  /** The slot that the decoder has filled shows what m shows. */
  lemma FilledIsSeen(fields: seq<Field>, m: seq<Slot>, d: seq<Slot>, st: State, k: nat, a: Filled)
    requires Setting(fields, m, d) && k < |fields| == |m| == |d| == |st.slots| && fields[k].htype.Repeated?
    requires Speaks(fields[k], m[k])
    requires a.count == |Spoken(fields[k], m[k])| <= |a.items| == |ItemsOf(d[k])|
    requires SeenItems(fields[k], a.items[..a.count]) == SeenItems(fields[k], Spoken(fields[k], m[k]))
    ensures SeenSlot(fields, k, WithArray(fields, k, st, a).slots[k]) == SeenSlot(fields, k, m[k])
  {
    hide Setting, TypedValue, Storable, SeenItems;
    SettingAt(fields, m, d, k);
    if IsFixedCount(fields[k]) {
      assert a.items[..a.count] == a.items;
    }
  }

  lemma ArrayArrives(fields: seq<Field>, m: seq<Slot>, d: seq<Slot>, st: State, k: nat, a: Filled)
    requires Setting(fields, m, d) && Progress(fields, m, d, st, k) && k < |fields| && fields[k].htype.Repeated?
    requires Speaks(fields[k], m[k])
    requires a.count == |Spoken(fields[k], m[k])| <= |a.items| == |ItemsOf(d[k])|
    requires SeenItems(fields[k], a.items[..a.count]) == SeenItems(fields[k], Spoken(fields[k], m[k]))
    ensures |st.slots| == |fields|
    ensures Progress(fields, m, d, WithArray(fields, k, st, a), k + 1)
  {
    hide Setting, SeenSlot, SeenItems, Speaks, TypedValue, StorableItems, EncSlot;
    FilledIsSeen(fields, m, d, st, k, a);
    SpokenItems(fields, m, d, k);
    SettingAt(fields, m, d, k);
    Advance(fields, m, d, st, k, WithArray(fields, k, st, a));
  }

  lemma PackedRow(fields: seq<Field>, m: seq<Slot>, d: seq<Slot>, st: State, k: nat)
    returns (a: Filled)
    requires Setting(fields, m, d) && Progress(fields, m, d, st, k) && k < |fields|
    requires fields[k].htype.Repeated? && Packable(fields[k].ltype) && Speaks(fields[k], m[k])
    ensures EncSlot(fields[k], m[k]).ok && |st.slots| == |fields|
    ensures DecLoop(fields, st, EncSlot(fields[k], m[k]).out) == Ran(WithArray(fields, k, st, a), [], false)
    ensures Progress(fields, m, d, WithArray(fields, k, st, a), k + 1)
  {
    hide Setting, SeenSlot, SeenValue, Speaks, TypedValue, EncSlot, EncValue, DecTurn, DecRow, DecPacked, TagBytes,
      ItemParts, InOrder, WellFormedField, StringBytes, DecDelimited, WithArray;
    var f, items := fields[k], Spoken(fields[k], m[k]);
    SettingAt(fields, m, d, k);
    SpokenItems(fields, m, d, k);
    GoodSizeOf(f);
    StorablePacked(f, items);
    var e := InOrder(ItemParts(f, items));
    var a0 := Filled(ItemsOf(d[k]), 0);
    PackedRoundTrip(f, a0, items);
    a := Append(a0, SeenItems(f, items));
    SeenTwiceItems(f, items);
    assert a.items[..a.count] == SeenItems(f, items);
    DelimitedRoundTrip(e.out, []);
    var payload := StringBytes(e.out) + [];
    assert DecRepeated(f, WT_STRING, a0, payload) == Ok(a, []);
    NotArrived(fields, m, d, st, k);
    Wf(fields, m, d);
    FirstTurnOfArray(fields, k, WT_STRING, st, payload);
    ArrayRow(fields, k, WT_STRING, st, a0, payload, a, []);
    RecordThen(fields, k, WT_STRING, st, payload, WithArray(fields, k, st, a), []);
    assert EncSlot(f, m[k]).out == TagBytes(WT_STRING, f.tag) + payload;
    ArrayArrives(fields, m, d, st, k, a);
  }

  lemma GoodSizeOf(f: Field)
    requires WellFormedField(f)
    ensures GoodSize(f.ltype, f.dataSize) && !f.ltype.LExtension?
  {
  }

  lemma StorablePacked(f: Field, items: seq<Value>)
    requires StorableItems(f, items) && Packable(f.ltype)
    ensures |InOrder(ItemParts(f, items)).out| < TWO_32
  {
  }

  lemma SeenTwiceItems(f: Field, items: seq<Value>)
    requires Packable(f.ltype)
    ensures SeenItems(f, SeenItems(f, items)) == SeenItems(f, items)
  {
    hide SeenValue;
    forall i | 0 <= i < |items| ensures SeenItems(f, SeenItems(f, items))[i] == SeenItems(f, items)[i] {
      SeenTwice(f, items[i]);
    }
  }

  /** Before its row, an array is as it was reset; its counter has not been started. */
  lemma NotArrived(fields: seq<Field>, m: seq<Slot>, d: seq<Slot>, st: State, k: nat)
    requires Setting(fields, m, d) && Progress(fields, m, d, st, k) && k < |fields| && fields[k].htype.Repeated?
    ensures |st.slots| == |d| == |fields| && st.slots[k] == d[k] && TypedSlot(fields, k, d[k])
    ensures FixedDone(fields, st) && st.fixedField != Some(k)
  {
    hide Setting, SeenSlot, TypedValue, StorableSlot;
    SettingAt(fields, m, d, k);
    assert SlotProgress(fields, m, d, k, k, st.slots[k]);
  }

  lemma FirstTurnOfArray(fields: seq<Field>, k: nat, wireType: nat, st: State, bs: seq<byte>)
    requires WellFormed(fields) && k < |fields| == |st.slots| && fields[k].htype.Repeated?
    requires TypedSlot(fields, k, st.slots[k]) && (st.slots[k].Arr? ==> st.slots[k].count == 0)
    requires FixedDone(fields, st) && st.fixedField != Some(k)
    ensures DecRow(fields, k, wireType, st, bs)
         == DecRow(fields, k, wireType, WithArray(fields, k, st, Filled(ItemsOf(st.slots[k]), 0)), bs)
  {
    hide DecField, WellFormed, TypedValue;
    assert st.slots[k := st.slots[k]] == st.slots;
  }

  lemma {:induction false} UnpackedRow(fields: seq<Field>, m: seq<Slot>, d: seq<Slot>, st: State, k: nat)
    returns (a: Filled)
    requires Setting(fields, m, d) && Progress(fields, m, d, st, k) && k < |fields|
    requires fields[k].htype.Repeated? && !Packable(fields[k].ltype) && Speaks(fields[k], m[k])
    ensures EncSlot(fields[k], m[k]).ok && |st.slots| == |fields|
    ensures DecLoop(fields, st, EncSlot(fields[k], m[k]).out) == Ran(WithArray(fields, k, st, a), [], false)
    ensures Progress(fields, m, d, WithArray(fields, k, st, a), k + 1)
    decreases fields, 2
  {
    hide Setting, SeenSlot, SeenValue, Speaks, TypedValue, EncSlot, EncValue, DecTurn, DecRow, TagBytes,
      RecordParts, InOrder, WellFormedField, WithArray, Storable;
    var f, items := fields[k], Spoken(fields[k], m[k]);
    SettingAt(fields, m, d, k);
    SpokenItems(fields, m, d, k);
    GoodSizeOf(f);
    NotArrived(fields, m, d, st, k);
    Wf(fields, m, d);
    var a0 := Filled(ItemsOf(d[k]), 0);
    a := UnpackedRoundTrip(fields, k, st, a0, items);
    RecordPartsFront(f, items);
    var tail := InOrder(RecordParts(f, items[1..])).out;
    RecordOk(f, items[0], InOrder(RecordParts(f, items[1..])));
    RecordBytes(f, items[0], tail);
    var payload := EncValue(f, items[0]).out + tail;
    RecordTurn(fields, k, WireType(f.ltype), st, payload);
    RecordTurn(fields, k, WireType(f.ltype), WithArray(fields, k, st, a0), payload);
    FirstTurnOfArray(fields, k, WireType(f.ltype), st, payload);
    TagNotEmpty(WireType(f.ltype), f.tag);
    assert SeenItems(f, a0.items[..0]) == [];
    ArrayArrives(fields, m, d, st, k, a);
  }

  lemma RecordOk(f: Field, v: Value, rest: Enc)
    requires Then(EncRecord(f, v), rest).ok
    ensures EncValue(f, v).ok
  {
  }

  // ---------------------------------------------------------------- the message

  lemma {:induction false} RowRoundTrip(fields: seq<Field>, m: seq<Slot>, d: seq<Slot>, st: State, k: nat)
    returns (st': State)
    requires Setting(fields, m, d) && Progress(fields, m, d, st, k) && k < |fields|
    ensures |st.slots| == |fields| == |st'.slots|
    ensures EncSlot(fields[k], m[Home(fields, k)]).ok
    ensures DecLoop(fields, st, EncSlot(fields[k], m[Home(fields, k)]).out) == Ran(st', [], false)
    ensures Progress(fields, m, d, st', k + 1)
    decreases fields, 3
  {
    hide Setting, EncSlot, Speaks, SlotProgress, FixedDone, DecTurn;
    if !Speaks(fields[k], m[Home(fields, k)]) {
      SilentRow(fields, m, d, st, k);
      st' := st;
    } else if !fields[k].htype.Repeated? {
      st' := SingleRow(fields, m, d, st, k);
    } else if Packable(fields[k].ltype) {
      var a := PackedRow(fields, m, d, st, k);
      st' := WithArray(fields, k, st, a);
    } else {
      var a := UnpackedRow(fields, m, d, st, k);
      st' := WithArray(fields, k, st, a);
    }
  }

  lemma {:induction false} RowsRoundTrip(fields: seq<Field>, m: seq<Slot>, d: seq<Slot>, k: nat)
    returns (st: State)
    requires Setting(fields, m, d) && k <= |fields| == |d|
    ensures var parts := FieldParts(fields, m);
            |parts| == |fields| && InOrder(parts[..k]).ok
            && DecLoop(fields, Start(d), InOrder(parts[..k]).out) == Ran(st, [], false)
    ensures Progress(fields, m, d, st, k)
    decreases fields, 4, k
  {
    hide Setting, EncSlot, InOrder, DecLoop, Progress, FieldParts, Home;
    var parts := FieldParts(fields, m);
    PartsOf(fields, m);
    if k == 0 {
      EmptyRun(fields, d, parts);
      st := Start(d);
      NothingArrived(fields, m, d);
    } else {
      var st0 := RowsRoundTrip(fields, m, d, k - 1);
      st := RowRoundTrip(fields, m, d, st0, k - 1);
      InOrderStep(parts, k - 1);
      PartOfRow(fields, m, d, k - 1);
      LoopConcat(fields, Start(d), InOrder(parts[..k - 1]).out, parts[k - 1].out);
    }
  }

  lemma PartsOf(fields: seq<Field>, m: seq<Slot>)
    ensures |FieldParts(fields, m)| == |fields|
  {
  }

  lemma PartOfRow(fields: seq<Field>, m: seq<Slot>, d: seq<Slot>, k: nat)
    requires Setting(fields, m, d) && k < |fields|
    ensures |m| == |fields| == |FieldParts(fields, m)|
    ensures FieldParts(fields, m)[k] == EncSlot(fields[k], m[Home(fields, k)])
  {
    hide Setting, EncSlot, TypedSlot, StorableSlot, DefaultSlot, WellFormedField;
    SettingAt(fields, m, d, k);
  }

  lemma EmptyRun(fields: seq<Field>, d: seq<Slot>, parts: seq<Enc>)
    requires |d| == |fields|
    ensures InOrder(parts[..0]) == Nothing
    ensures DecLoop(fields, Start(d), []) == Ran(Start(d), [], false)
  {
  }

  lemma NothingArrived(fields: seq<Field>, m: seq<Slot>, d: seq<Slot>)
    requires Setting(fields, m, d)
    ensures Progress(fields, m, d, Start(d), 0)
  {
    hide TypedSlot, StorableSlot;
  }

  lemma EverythingArrived(fields: seq<Field>, m: seq<Slot>, d: seq<Slot>, st: State)
    requires Setting(fields, m, d) && Progress(fields, m, d, st, |fields|)
    ensures SeenMessage(fields, st.slots) == SeenMessage(fields, m)
    ensures Complete(fields, st)
  {
    hide Setting, TypedValue, Storable, SeenValue, SlotProgress;
    forall h | 0 <= h < |fields|
      ensures SeenSlot(fields, h, st.slots[h]) == SeenSlot(fields, h, m[h])
    {
      SlotArrived(fields, m, d, st, h);
    }
  }

  lemma SlotArrived(fields: seq<Field>, m: seq<Slot>, d: seq<Slot>, st: State, h: nat)
    requires Setting(fields, m, d) && Progress(fields, m, d, st, |fields|) && h < |fields|
    ensures |st.slots| == |m| == |fields|
    ensures SeenSlot(fields, h, st.slots[h]) == SeenSlot(fields, h, m[h])
  {
    hide Setting, TypedValue, Storable, SeenValue;
    SettingAt(fields, m, d, h);
    assert SlotProgress(fields, m, d, |fields|, h, st.slots[h]);
    if !Arrived(fields, m, |fields|, h) {
      NoTag0(fields, m, d);
    }
  }

  /** pb_decode_noinit on what pb_encode wrote, into a struct that has been reset: it accepts,
      reads everything, and what can be seen of the struct is what can be seen of the message. */
  lemma {:induction false} MessageRoundTrip(fields: seq<Field>, m: seq<Slot>, d: seq<Slot>)
    requires WellFormed(fields) && TypedMessage(fields, m) && StorableMessage(fields, m)
    requires TypedMessage(fields, d) && Settled(fields, d)
    ensures EncMessage(fields, m).ok
    ensures var r := DecNoInit(fields, d, EncMessage(fields, m).out);
            r.Ok? && r.rest == [] && SeenMessage(fields, r.value) == SeenMessage(fields, m)
    decreases fields, 5
  {
    hide DecLoop, InOrder, WellFormed, TypedMessage, StorableMessage, SeenMessage, Complete;
    assert |d| == |fields| by { LengthOf(fields, d); }
    var parts := FieldParts(fields, m);
    var st := RowsRoundTrip(fields, m, d, |fields|);
    assert parts[..|fields|] == parts;
    EverythingArrived(fields, m, d, st);
  }

  lemma LengthOf(fields: seq<Field>, slots: seq<Slot>)
    requires TypedMessage(fields, slots)
    ensures |slots| == |fields|
  {
  }

  /** pb_decode undoes pb_encode, whatever the struct held before. */
  lemma DecodeUndoesEncode(fields: seq<Field>, m: seq<Slot>, prior: seq<Slot>)
    requires WellFormed(fields) && TypedMessage(fields, m) && StorableMessage(fields, m)
    requires TypedMessage(fields, prior)
    ensures EncMessage(fields, m).ok
    ensures var r := Dec(fields, prior, EncMessage(fields, m).out);
            r.Ok? && r.rest == [] && SeenMessage(fields, r.value) == SeenMessage(fields, m)
  {
    hide DecNoInit, WellFormed, TypedMessage, StorableMessage, SeenMessage, EncMessage, SetDefaults;
    DefaultsTyped(fields, prior);
    DefaultsIdempotent(fields, prior);
    MessageRoundTrip(fields, m, SetDefaults(fields, prior));
  }

  /** Messages that encode alike look alike. */
  lemma EncodingIsInjective(fields: seq<Field>, m: seq<Slot>, n: seq<Slot>)
    requires WellFormed(fields)
    requires TypedMessage(fields, m) && StorableMessage(fields, m)
    requires TypedMessage(fields, n) && StorableMessage(fields, n)
    requires EncMessage(fields, m).out == EncMessage(fields, n).out
    ensures SeenMessage(fields, m) == SeenMessage(fields, n)
  {
    hide Dec, WellFormed, TypedMessage, StorableMessage, SeenMessage, EncMessage;
    DecodeUndoesEncode(fields, m, m);
    DecodeUndoesEncode(fields, n, m);
  }
}
