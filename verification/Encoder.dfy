/** pb_encode.c on its streams: each routine against what Encoding says it emits. */
module Encoder {
  import opened Platform
  import opened Bits
  import opened Varint
  import opened ZigZag
  import opened Descriptor
  import opened Encoding
  import opened OutStream
  import opened FieldIter
  import opened Cost
  import opened Guards

  // ---------------------------------------------------------------- scalars

  /** pb_encode_tag. */
  method EncodeTag(s: Stream, wireType: nat, tag: nat) returns (ok: bool)
    requires s.Valid() && wireType < 8 && 8 * tag + wireType < TWO_64
    modifies s.Footprint()
    ensures s.Valid() && Emits(old(s.Now()), s.Now(), Enc(true, TagBytes(wireType, tag)), ok)
  {
    assert Pow2(3) == 8;
    OrOfDisjoint(wireType, tag, 3);
    ok := s.EncodeVarint(BitOr(wireType, tag * 8));
  }

  /** pb_encode_tag_for_field. */
  method EncodeTagForField(s: Stream, f: Field) returns (ok: bool)
    requires s.Valid() && f.tag <= PB_SIZE_MAX
    modifies s.Footprint()
    ensures s.Valid() && Emits(old(s.Now()), s.Now(), TagOf(f), ok)
  {
    if f.ltype.LExtension? {
      EmitsNothing(s.Now());
      return false;
    }
    ok := EncodeTag(s, WireType(f.ltype), f.tag);
  }

  /** pb_encode_string. */
  method EncodeString(s: Stream, bs: seq<byte>) returns (ok: bool)
    requires s.Valid() && |bs| <= SIZE_MAX
    modifies s.Footprint()
    ensures s.Valid() && Emits(old(s.Now()), s.Now(), Enc(true, StringBytes(bs)), ok)
  {
    ghost var a := s.Now();
    ok := s.EncodeVarint(|bs|);
    ghost var b := s.Now();
    if !ok {
      EmitsStop(a, b, Enc(true, VarintBytes(|bs|)), Enc(true, StringBytes(bs)));
      return;
    }
    ok := s.Write(bs);
    EmitsThen(a, b, s.Now(), Enc(true, VarintBytes(|bs|)), Enc(true, bs), ok);
  }

  lemma LittleEndian4(n: nat)
    ensures LittleEndian(n, 4) == [n % 256, n / 0x100 % 256, n / 0x1_0000 % 256, n / 0x100_0000 % 256]
  {
    assert LittleEndian(n / 0x100_0000, 1) == [n / 0x100_0000 % 256] + LittleEndian(n / 0x100_0000 / 256, 0);
    assert n / 0x100 / 256 == n / 0x1_0000 && n / 0x1_0000 / 256 == n / 0x100_0000;
    assert LittleEndian(n / 0x1_0000, 2) == [n / 0x1_0000 % 256] + LittleEndian(n / 0x100_0000, 1);
    assert LittleEndian(n / 0x100, 3) == [n / 0x100 % 256] + LittleEndian(n / 0x1_0000, 2);
  }

  lemma LittleEndian8(n: nat)
    ensures LittleEndian(n, 8) == LittleEndian(n, 4) + LittleEndian(n / 0x1_0000_0000, 4)
  {
    var n1 := n / 256;
    var n2 := n1 / 256;
    var n3 := n2 / 256;
    assert n3 / 256 == n / 0x1_0000_0000;
    assert LittleEndian(n3, 5) == [n3 % 256] + LittleEndian(n3 / 256, 4);
    assert LittleEndian(n2, 6) == [n2 % 256] + LittleEndian(n3, 5);
    assert LittleEndian(n1, 7) == [n1 % 256] + LittleEndian(n2, 6);
    assert LittleEndian(n3, 1) == [n3 % 256] + LittleEndian(n3 / 256, 0);
    assert LittleEndian(n2, 2) == [n2 % 256] + LittleEndian(n3, 1);
    assert LittleEndian(n1, 3) == [n1 % 256] + LittleEndian(n2, 2);
  }

  /** pb_encode_fixed32. */
  method EncodeFixed32(s: Stream, val: nat) returns (ok: bool)
    requires s.Valid() && val < TWO_32
    modifies s.Footprint()
    ensures s.Valid() && Emits(old(s.Now()), s.Now(), Enc(true, LittleEndian(val, 4)), ok)
  {
    LittleEndian4(val);
    ok := s.Write([val % 256, val / 0x100 % 256, val / 0x1_0000 % 256, val / 0x100_0000 % 256]);
  }

  /** pb_encode_fixed64. */
  method EncodeFixed64(s: Stream, val: nat) returns (ok: bool)
    requires s.Valid() && val < TWO_64
    modifies s.Footprint()
    ensures s.Valid() && Emits(old(s.Now()), s.Now(), Enc(true, LittleEndian(val, 8)), ok)
  {
    var high := val / 0x1_0000_0000;
    LittleEndian8(val);
    LittleEndian4(val);
    LittleEndian4(high);
    ok := s.Write([val % 256, val / 0x100 % 256, val / 0x1_0000 % 256, val / 0x100_0000 % 256]
                  + [high % 256, high / 0x100 % 256, high / 0x1_0000 % 256, high / 0x100_0000 % 256]);
  }

  lemma {:induction false} UpToNulAt(bs: seq<byte>, n: nat)
    requires n <= |bs| && 0 !in bs[..n] && (n == |bs| || bs[n] == 0)
    ensures UpToNul(bs) == bs[..n]
  {
    if n > 0 {
      assert bs[..n][0] == bs[0];
      assert bs[1..][..n - 1] == bs[..n][1..];
      UpToNulAt(bs[1..], n - 1);
    }
  }

  /** pb_enc_string: the buffer is searched for its terminator, but not beyond its end. */
  method EncodeCString(s: Stream, f: Field, storage: seq<byte>) returns (ok: bool)
    requires s.Valid() && |storage| == f.dataSize <= SIZE_MAX
    modifies s.Footprint()
    ensures s.Valid() && Emits(old(s.Now()), s.Now(), Enc(true, StringBytes(UpToNul(storage))), ok)
  {
    var size, maxSize := 0, f.dataSize;
    while size < maxSize && storage[size] != 0
      invariant size <= maxSize && 0 !in storage[..size]
    {
      size := size + 1;
    }
    UpToNulAt(storage, size);
    ok := EncodeString(s, storage[..size]);
  }

  // ---------------------------------------------------------------- presence

  /** pb_check_proto3_default_value. */
  method CheckProto3Default(fields: seq<Field>, slots: seq<Slot>, k: nat) returns (zero: bool)
    requires k < |fields| && TypedMessage(fields, slots) && TagsBelow(fields[k])
    ensures zero <==> IsDefaultSlot(fields[k], slots[Home(fields, k)])
    decreases fields[k], 0
  {
    hide TypedMessage, TypedValue, UpToNul, StorageBytes, IsDefaultMessage, Home, TagsInRange;
    RowTyped(fields, slots, k);
    var f, s := fields[k], slots[Home(fields, k)];
    if f.htype.Required? {
      return false;
    } else if f.htype.Repeated? {
      return f.sizeOffset != 0 && s.count == 0;
    } else if f.htype.Oneof? {
      return s.which == 0;
    } else if f.sizeOffset != 0 {
      return !s.has;
    }
    SingularTyped(f, s.v);
    match f.ltype {
      case LBytes =>
        zero := |s.v.bs| == 0;
      case LString =>
        UpToNulEmpty(s.v.bs);
        zero := |s.v.bs| == 0 || s.v.bs[0] == 0;
      case LFixedLengthBytes =>
        zero := f.dataSize == 0;
      case LSubmessage =>
        zero := CheckAllDefault(f.sub, s.v.slots);
      case _ =>
        zero := CheckBytesZero(StorageBytes(s.v.n, f.dataSize));
    }
  }

  lemma SingularTyped(f: Field, v: Value)
    requires TypedValue(f, v)
    ensures match f.ltype
            case LBytes | LString | LFixedLengthBytes => v.Blob?
            case LSubmessage => v.Message? && TypedMessage(f.sub, v.slots)
            case _ => v.Number?
  {
    hide TypedMessage;
  }

  lemma UpToNulEmpty(bs: seq<byte>)
    ensures UpToNul(bs) == [] <==> |bs| == 0 || bs[0] == 0
  {
  }

  /** Its catch-all branch: the storage is compared with zero byte by byte. */
  method CheckBytesZero(p: seq<byte>) returns (zero: bool)
    ensures zero <==> AllZero(p)
  {
    for i := 0 to |p|
      invariant forall j :: 0 <= j < i ==> p[j] == 0
    {
      if p[i] != 0 {
        return false;
      }
    }
    zero := true;
  }

  /** Its loop over the fields of a submessage. */
  method CheckAllDefault(fields: seq<Field>, slots: seq<Slot>) returns (zero: bool)
    requires TypedMessage(fields, slots) && TagsInRange(fields)
    ensures zero <==> IsDefaultMessage(fields, slots)
    decreases fields, 1
  {
    hide IsDefaultMessage, IsDefaultSlot, TypedMessage, TagsInRange, Iter.Valid, Terminated, Home, DefaultBelow;
    TableFacts(fields, slots);
    if fields == [] {
      return true;
    }
    var iter := new Iter(fields, 0);
    var more := true;
    ghost var done := 0;
    while more
      invariant iter.Valid() && iter.start == fields && fresh(iter)
      invariant done <= |fields| && if more then done == iter.pos < |fields| else done == |fields|
      invariant DefaultBelow(fields, slots, done)
      decreases |fields| - done
    {
      DefaultBelowStep(fields, slots, done);
      done := done + 1;
      var isZero := CheckProto3Default(fields, slots, iter.pos);
      if !isZero {
        return false;
      }
      more := iter.Next();
    }
    zero := true;
  }

  ghost predicate DefaultBelow(fields: seq<Field>, slots: seq<Slot>, n: nat)
    requires n <= |fields|
  {
    forall j :: 0 <= j < n ==> IsDefaultSlot(fields[j], SlotAt(slots, Home(fields, j)))
  }

  lemma TableFacts(fields: seq<Field>, slots: seq<Slot>)
    requires TypedMessage(fields, slots) && TagsInRange(fields)
    ensures Terminated(fields)
    ensures DefaultBelow(fields, slots, 0)
    ensures IsDefaultMessage(fields, slots) <==> DefaultBelow(fields, slots, |fields|)
  {
  }

  lemma DefaultBelowStep(fields: seq<Field>, slots: seq<Slot>, k: nat)
    requires TypedMessage(fields, slots) && TagsInRange(fields) && k < |fields|
    ensures TagsBelow(fields[k]) && Home(fields, k) < |slots|
    ensures DefaultBelow(fields, slots, k + 1)
       <==> DefaultBelow(fields, slots, k) && IsDefaultSlot(fields[k], slots[Home(fields, k)])
    ensures IsDefaultMessage(fields, slots) ==> IsDefaultSlot(fields[k], slots[Home(fields, k)])
  {
  }

  /** The tags of the table and of all tables below it are nonzero values of pb_size_t. */
  predicate TagsInRange(fields: seq<Field>)
    decreases fields
  {
    forall k :: 0 <= k < |fields| ==> 1 <= fields[k].tag <= PB_SIZE_MAX && TagsBelow(fields[k])
  }

  predicate TagsBelow(f: Field)
    decreases f
  {
    TagsInRange(f.sub)
  }

  // ---------------------------------------------------------------- items

  /** PB_ENCODERS[PB_LTYPE(f.type)]. */
  method EncodeValue(s: Stream, f: Field, v: Value, ghost way: seq<nat>) returns (ok: bool, ghost runs: nat)
    requires s.Valid() && TypedValue(f, v) && TagsBelow(f)
    requires s.buf != null ==> ValueGuarded(f, v, s.bytesWritten, s.maxSize)
    modifies s.Footprint()
    ensures s.Valid() && Emits(old(s.Now()), s.Now(), EncValue(f, v), ok)
    ensures ok ==> runs == RunsOfValue(f, v, way, s.buf != null)
    decreases f, 0
  {
    hide Emits, VarintBytes, LittleEndian, EncMessage, UpToNul, TypedMessage, InOrder, RunsOfSubmessage,
      BodyGuarded;
    EmitsNothing(s.Now());
    runs := 0;
    match f.ltype {
      case LBool =>
        ok := s.EncodeVarint(if v.n != 0 then 1 else 0);
      case LVarint | LUVarint =>
        if !KnownSize(f.dataSize) {
          return false, 0;
        }
        ok := s.EncodeVarint(v.n % TWO_64);
      case LSVarint =>
        if !KnownSize(f.dataSize) {
          return false, 0;
        }
        EncodersInterleave(v.n);
        ok := s.EncodeVarint(EncodeZigZag(v.n));
      case LFixed32 =>
        ok := EncodeFixed32(s, v.n);
      case LFixed64 =>
        ok := EncodeFixed64(s, v.n);
      case LBytes =>
        if BytesAllocSize(|v.bs|) < |v.bs| || BytesAllocSize(|v.bs|) > f.dataSize {
          return false, 0;
        }
        ok := EncodeString(s, v.bs);
      case LString =>
        ok := EncodeCString(s, f, v.bs);
      case LFixedLengthBytes =>
        ok := EncodeString(s, v.bs);
      case LSubmessage =>
        ok, runs := EncodeSubmessage(s, f.sub, v.slots, way);
      case LExtension =>
        ok := false;
    }
  }

  /** The loops over the items of a packed array. */
  method EncodeItems(s: Stream, f: Field, items: seq<Value>) returns (ok: bool)
    requires s.Valid() && Packable(f.ltype) && TagsBelow(f)
    requires forall i :: 0 <= i < |items| ==> TypedValue(f, items[i])
    modifies s.Footprint()
    ensures s.Valid() && Emits(old(s.Now()), s.Now(), InOrder(ItemParts(f, items)), ok)
    decreases f, 1
  {
    hide EncValue, TypedValue, InOrder, Emits;
    ghost var parts := ItemParts(f, items);
    ghost var a := s.Now();
    EmitsNothing(a);
    var i := 0;
    InOrderEmpty();
    while i < |items|
      invariant i <= |items| && s.Valid()
      invariant Emits(a, s.Now(), InOrder(parts[..i]), true)
    {
      ghost var b := s.Now();
      ghost var none;
      ok, none := EncodeValue(s, f, items[i], []);
      PartEmitted(a, b, s.Now(), parts, i, ok);
      if !ok {
        return;
      }
      i := i + 1;
    }
    assert parts[..i] == parts;
    ok := true;
  }

  /** Part i of a series has been emitted, or the series has come to its end there. */
  lemma PartEmitted(a: Snapshot, b: Snapshot, c: Snapshot, parts: seq<Enc>, i: nat, ok: bool)
    requires i < |parts| && Emits(a, b, InOrder(parts[..i]), true) && Emits(b, c, parts[i], ok)
    ensures ok ==> Emits(a, c, InOrder(parts[..i + 1]), true)
    ensures !ok ==> Emits(a, c, InOrder(parts), false)
  {
    hide InOrder, Emits;
    InOrderStep(parts, i);
    InOrderBegins(parts, i + 1);
    EmitsThen(a, b, c, InOrder(parts[..i]), parts[i], ok);
    if !ok {
      EmitsStop(a, c, InOrder(parts[..i + 1]), InOrder(parts));
    }
  }

  lemma InOrderEmpty()
    ensures InOrder([]) == Nothing
  {
  }

  lemma EmitsWritten(a: Snapshot, b: Snapshot, e: Enc)
    requires Emits(a, b, e, true)
    ensures !a.sizing ==> b.written == a.written + |e.out|
    ensures e.ok && a.sizing == b.sizing && a.maxSize == b.maxSize
  {
  }

  /** The loop of an unpacked array: a tag with every item. */
  method EncodeRecords(s: Stream, f: Field, items: seq<Value>, ghost way: seq<nat>) returns (ok: bool, ghost runs: nat)
    requires s.Valid() && f.tag <= PB_SIZE_MAX && TagsBelow(f)
    requires s.buf != null ==> RecordsGuarded(f, items, s.bytesWritten, s.maxSize)
    requires forall i :: 0 <= i < |items| ==> TypedValue(f, items[i])
    modifies s.Footprint()
    ensures s.Valid() && Emits(old(s.Now()), s.Now(), InOrder(RecordParts(f, items)), ok)
    ensures ok ==> runs == RunsOfItems(f, items, way, s.buf != null)
    decreases f, 2
  {
    hide EncRecord, TypedValue, InOrder, Emits, RunsOfValue, Below, RecordGuarded;
    ghost var parts := RecordParts(f, items);
    ghost var a := s.Now();
    EmitsNothing(a);
    var i := 0;
    runs := 0;
    InOrderEmpty();
    while i < |items|
      invariant i <= |items| && s.Valid()
      invariant Emits(a, s.Now(), InOrder(parts[..i]), true)
      invariant runs == if way != [] && way[0] < i then RunsOfItems(f, items, way, s.buf != null) else 0
    {
      ghost var b := s.Now();
      EmitsWritten(a, b, InOrder(parts[..i]));
      ghost var more;
      RunsOfItem(f, items, i, way, s.buf != null);
      ok, more := EncodeRecord(s, f, items[i], Below(way, i));
      PartEmitted(a, b, s.Now(), parts, i, ok);
      if !ok {
        return;
      }
      i, runs := i + 1, runs + more;
    }
    assert parts[..i] == parts;
    ok := true;
  }

  /** A tag and the item that belongs to it. */
  method EncodeRecord(s: Stream, f: Field, v: Value, ghost way: seq<nat>) returns (ok: bool, ghost runs: nat)
    requires s.Valid() && TypedValue(f, v) && f.tag <= PB_SIZE_MAX && TagsBelow(f)
    requires s.buf != null ==> RecordGuarded(f, v, s.bytesWritten, s.maxSize)
    modifies s.Footprint()
    ensures s.Valid() && Emits(old(s.Now()), s.Now(), EncRecord(f, v), ok)
    ensures ok ==> runs == RunsOfValue(f, v, way, s.buf != null)
    decreases f, 1
  {
    hide EncValue, TagOf, TypedValue, Emits, RunsOfValue, ValueGuarded;
    runs := 0;
    ghost var a := s.Now();
    ok := EncodeTagForField(s, f);
    ghost var b := s.Now();
    if !ok {
      EmitsStop(a, b, TagOf(f), EncRecord(f, v));
      return;
    }
    EmitsWritten(a, b, TagOf(f));
    ok, runs := EncodeValue(s, f, v, way);
    EmitsThen(a, b, s.Now(), TagOf(f), EncValue(f, v), ok);
  }

  lemma {:induction false} FixedItems(f: Field, items: seq<Value>)
    requires f.ltype.LFixed32? || f.ltype.LFixed64?
    requires forall i :: 0 <= i < |items| ==> TypedValue(f, items[i])
    ensures var e := InOrder(ItemParts(f, items));
            e.ok && |e.out| == (if f.ltype.LFixed32? then 4 else 8) * |items|
  {
    var parts := ItemParts(f, items);
    if items != [] {
      var n := |items| - 1;
      FixedItems(f, items[..n]);
      assert parts[..n] == ItemParts(f, items[..n]);
      assert parts[n] == EncValue(f, items[n]);
    }
  }

  /** The size of a packed array: counted for the fixed types, measured for the others. */
  method PackedSize(f: Field, items: seq<Value>) returns (ok: bool, size: nat)
    requires forall i :: 0 <= i < |items| ==> TypedValue(f, items[i])
    requires TagsBelow(f) && Packable(f.ltype)
    ensures size <= SIZE_MAX
    ensures var e := InOrder(ItemParts(f, items)); (ok <==> e.ok) && (ok && |e.out| <= SIZE_MAX ==> size == |e.out|)
    decreases f, 2
  {
    hide ItemParts, InOrder;
    if f.ltype.LFixed32? {
      FixedItems(f, items);
      return true, WrapSize(4 * |items|);
    } else if f.ltype.LFixed64? {
      FixedItems(f, items);
      return true, WrapSize(8 * |items|);
    }
    var sizing := new Stream(null, 0, 0);
    ok := EncodeItems(sizing, f, items);
    size := sizing.bytesWritten;
  }

  /** The packed branch of encode_array. */
  method EncodePacked(s: Stream, f: Field, items: seq<Value>) returns (ok: bool)
    requires s.Valid() && Packable(f.ltype) && f.tag <= PB_SIZE_MAX && TagsBelow(f) && items != []
    requires s.buf != null ==> PackedGuarded(f, items, s.bytesWritten, s.maxSize)
    requires forall i :: 0 <= i < |items| ==> TypedValue(f, items[i])
    modifies s.Footprint()
    ensures s.Valid()
    ensures Emits(old(s.Now()), s.Now(),
        Then(Enc(true, TagBytes(WT_STRING, f.tag)), Delimited(InOrder(ItemParts(f, items)))), ok)
    decreases f, 3
  {
    hide ItemParts, InOrder, Emits, TagBytes, VarintBytes;
    ghost var tag, e := Enc(true, TagBytes(WT_STRING, f.tag)), InOrder(ItemParts(f, items));
    ghost var a := s.Now();
    ok := EncodeTag(s, WT_STRING, f.tag);
    ghost var b := s.Now();
    if !ok {
      EmitsStop(a, b, tag, Then(tag, Delimited(e)));
      return;
    }
    EmitsWritten(a, b, tag);
    var size;
    ok, size := PackedSize(f, items);
    assert s.Now() == b;
    if !ok {
      EmitsRejected(a, b, tag);
      return;
    }
    ok := EncodeSized(s, f, items, size);
    EmitsThen(a, b, s.Now(), tag, Delimited(e), ok);
  }

  lemma EmitsRejected(a: Snapshot, b: Snapshot, e: Enc)
    requires Emits(a, b, e, true)
    ensures Emits(a, b, Then(e, Rejected), false)
  {
    assert e.out + [] == e.out;
  }

  /** The size and the items of a packed array, or on a sizing stream the size alone. */
  method EncodeSized(s: Stream, f: Field, items: seq<Value>, size: nat) returns (ok: bool)
    requires s.Valid() && Packable(f.ltype) && TagsBelow(f) && size <= SIZE_MAX
    requires s.buf != null ==> |InOrder(ItemParts(f, items)).out| <= SIZE_MAX
    requires forall i :: 0 <= i < |items| ==> TypedValue(f, items[i])
    requires var e := InOrder(ItemParts(f, items)); e.ok && (|e.out| <= SIZE_MAX ==> size == |e.out|)
    modifies s.Footprint()
    ensures s.Valid() && Emits(old(s.Now()), s.Now(), Delimited(InOrder(ItemParts(f, items))), ok)
    decreases f, 2
  {
    hide ItemParts, InOrder, VarintBytes, Emits;
    ghost var e := InOrder(ItemParts(f, items));
    ghost var a := s.Now();
    ok := s.EncodeVarint(size);
    ghost var b := s.Now();
    if s.buf == null {
      ok := s.Count(size);
      EmitsCounted(a, b, s.Now(), size, e);
      return;
    }
    if !ok {
      EmitsStop(a, b, Enc(true, VarintBytes(size)), Delimited(e));
      return;
    }
    EmitsWritten(a, b, Enc(true, VarintBytes(size)));
    ok := EncodeItems(s, f, items);
    EmitsThen(a, b, s.Now(), Enc(true, VarintBytes(size)), e, ok);
  }

  /** On a sizing stream the size of the body stands for the body. */
  lemma EmitsCounted(a: Snapshot, b: Snapshot, c: Snapshot, size: nat, e: Enc)
    requires a.sizing && e.ok && size <= SIZE_MAX && (|e.out| <= SIZE_MAX ==> size == |e.out|)
    requires Emits(a, b, Enc(true, VarintBytes(size)), true) && c == b.(written := WrapSize(b.written + size))
    ensures Emits(a, c, Delimited(e), true)
  {
  }

  /** encode_array. */
  method EncodeArray(s: Stream, f: Field, items: seq<Value>, count: nat, ghost way: seq<nat>)
    returns (ok: bool, ghost runs: nat)
    requires s.Valid() && f.htype.Repeated? && f.tag <= PB_SIZE_MAX && TagsBelow(f)
    requires s.buf != null && count <= |items| ==> ItemsGuarded(f, items[..count], s.bytesWritten, s.maxSize)
    requires |items| == f.arraySize && forall i :: 0 <= i < |items| ==> TypedValue(f, items[i])
    modifies s.Footprint()
    ensures s.Valid() && Emits(old(s.Now()), s.Now(), EncArray(f, items, count), ok)
    ensures ok ==> count <= |items| && runs == RunsOfItems(f, items[..count], way, s.buf != null)
    decreases f, 4
  {
    hide InOrder, ItemParts, RecordParts, TypedValue, Emits, RunsOfItems, PackedGuarded, RecordsGuarded;
    runs := 0;
    EmitsNothing(s.Now());
    if count == 0 {
      RunsOfFew(f, items[..0], way, s.buf != null);
      return true, 0;
    }
    if count > f.arraySize {
      return false, 0;
    }
    if Packable(f.ltype) {
      RunsOfFew(f, items[..count], way, s.buf != null);
      ok := EncodePacked(s, f, items[..count]);
    } else {
      ok, runs := EncodeRecords(s, f, items[..count], way);
    }
  }

  // ---------------------------------------------------------------- fields and messages

  /** encode_basic_field on row k. */
  method EncodeBasicField(s: Stream, fields: seq<Field>, slots: seq<Slot>, k: nat, ghost way: seq<nat>)
    returns (ok: bool, ghost runs: nat)
    requires k < |fields| && TypedMessage(fields, slots) && fields[k].tag <= PB_SIZE_MAX && TagsBelow(fields[k])
    requires s.Valid()
    requires s.buf != null ==>
      ItemsGuarded(fields[k], ItemsSent(fields[k], slots[Home(fields, k)]), s.bytesWritten, s.maxSize)
    modifies s.Footprint()
    ensures s.Valid() && Emits(old(s.Now()), s.Now(), EncSlot(fields[k], slots[Home(fields, k)]), ok)
    ensures ok ==> runs == RunsOfItems(fields[k], ItemsSent(fields[k], slots[Home(fields, k)]), way, s.buf != null)
    decreases fields[k], 5
  {
    hide EncRecord, EncArray, IsDefaultValue, TypedValue, TagsBelow, Emits, RunsOfItems, RunsOfValue, Below,
      PackedGuarded, RecordsGuarded, RecordGuarded;
    var f, slot := fields[k], slots[Home(fields, k)];
    assert TypedSlot(fields, Home(fields, k), slot);
    EmitsNothing(s.Now());
    if s.buf != null && |ItemsSent(f, slot)| == 1 && !f.htype.Repeated? {
      OneGuarded(f, ItemsSent(f, slot), s.bytesWritten, s.maxSize);
    }
    RunsOfFew(f, ItemsSent(f, slot), way, s.buf != null);
    runs := 0;
    match f.htype {
      case Required =>
        ok, runs := EncodeRecord(s, f, slot.v, Below(way, 0));
      case Optional =>
        var present;
        if f.sizeOffset != 0 {
          present := slot.has;
        } else {
          var zero := CheckProto3Default(fields, slots, k);
          present := !zero;
        }
        ok := true;
        if present {
          ok, runs := EncodeRecord(s, f, slot.v, Below(way, 0));
        }
      case Repeated =>
        var count := if f.sizeOffset != 0 then slot.count else f.arraySize;
        ok, runs := EncodeArray(s, f, slot.items, count, way);
      case Oneof =>
        ok := true;
        if slot.which == f.tag {
          ok, runs := EncodeRecord(s, f, slot.v, Below(way, 0));
        }
    }
  }

  /** The guard of the one item of a row that is no array. */
  lemma OneGuarded(f: Field, items: seq<Value>, w: nat, max: nat)
    requires w <= max && |items| == 1 && RecordsGuarded(f, items, w, max)
    ensures RecordGuarded(f, items[0], w, max)
  {
    hide RecordGuarded, EncRecord;
    assert RecordParts(f, items)[..0] == [] && InOrder([]) == Nothing;
    assert Reaches(RecordParts(f, items), 0, w, max);
  }

  /** One turn of pb_encode's loop: rows before k have been emitted since a. */
  method EncodeRow(s: Stream, fields: seq<Field>, slots: seq<Slot>, k: nat, ghost a: Snapshot, ghost way: seq<nat>)
    returns (ok: bool, ghost runs: nat)
    requires s.Valid() && k < |fields|
    requires TypedMessage(fields, slots) && TagsInRange(fields)
    requires a.sizing == (s.buf == null) && (!a.sizing ==> MessageGuarded(fields, slots, a.written, a.maxSize))
    requires Emits(a, s.Now(), InOrder(FieldParts(fields, slots)[..k]), true)
    modifies s.Footprint()
    ensures s.Valid()
    ensures ok ==> Emits(a, s.Now(), InOrder(FieldParts(fields, slots)[..k + 1]), true)
    ensures ok ==> runs == RunsAt(fields, slots, k, way, s.buf != null)
    ensures !ok ==> Emits(a, s.Now(), EncMessage(fields, slots), false)
    decreases fields, 4
  {
    hide EncSlot, EncMessage, TypedMessage, TagsInRange, TagsBelow, InOrder, Emits, Home, FieldParts, RunsOfItems,
      ItemsSent, RunsAt, Below, ItemsGuarded;
    ghost var parts, b := FieldParts(fields, slots), s.Now();
    RowPart(fields, slots, k);
    EmitsWritten(a, b, InOrder(parts[..k]));
    RunsAtRow(fields, slots, k, way, s.buf != null);
    ghost var more;
    ok, more := EncodeBasicField(s, fields, slots, k, Below(way, k));
    runs := (if way == [k] then 1 else 0) + more;
    PartEmitted(a, b, s.Now(), parts, k, ok);
  }

  lemma RowPart(fields: seq<Field>, slots: seq<Slot>, k: nat)
    requires k < |fields| && TypedMessage(fields, slots) && TagsInRange(fields)
    ensures Home(fields, k) < |slots| && fields[k].tag <= PB_SIZE_MAX && TagsBelow(fields[k])
    ensures SlotAt(slots, Home(fields, k)) == slots[Home(fields, k)]
    ensures |FieldParts(fields, slots)| == |fields|
    ensures FieldParts(fields, slots)[k] == EncSlot(fields[k], slots[Home(fields, k)])
    ensures EncMessage(fields, slots) == InOrder(FieldParts(fields, slots))
  {
    hide EncSlot, TypedSlot, TagsBelow, InOrder;
  }

  /** pb_encode. */
  method EncodeMessage(s: Stream, fields: seq<Field>, slots: seq<Slot>, ghost way: seq<nat>)
    returns (ok: bool, ghost runs: nat)
    requires s.Valid() && (s.buf != null ==> MessageGuarded(fields, slots, s.bytesWritten, s.maxSize))
    requires TypedMessage(fields, slots) && TagsInRange(fields)
    modifies s.Footprint()
    ensures s.Valid() && Emits(old(s.Now()), s.Now(), EncMessage(fields, slots), ok)
    ensures ok ==> runs == Runs(fields, slots, way, s.buf != null)
    decreases fields, 5
  {
    hide Runs, FieldParts, InOrder, Emits, TypedMessage, TagsInRange, EncMessage, Iter.Valid, Terminated,
      MessageGuarded;
    ghost var parts := FieldParts(fields, slots);
    ghost var a := s.Now();
    EncMessageParts(fields, slots);
    EmitsNothing(a);
    NoRuns(fields, slots, way, s.buf != null);
    if fields == [] {
      return true, 0;
    }
    var iter := new Iter(fields, 0);
    var more := true;
    runs := 0;
    while more
      invariant s.Valid() && fresh(iter) && iter.Valid() && iter.start == fields
      invariant more ==> iter.pos < |fields|
      invariant Emits(a, s.Now(), InOrder(parts[..if more then iter.pos else |fields|]), true)
      invariant runs == if way != [] && way[0] < (if more then iter.pos else |fields|)
                        then Runs(fields, slots, way, s.buf != null) else 0
      decreases more, |fields| - iter.pos
    {
      ghost var here;
      ok, here := EncodeRow(s, fields, slots, iter.pos, a, way);
      if !ok {
        return;
      }
      runs := runs + here;
      more := iter.Next();
    }
    assert parts[..|fields|] == parts;
    ok := true;
  }

  /** pb_get_encoded_size. */
  method GetEncodedSize(fields: seq<Field>, slots: seq<Slot>) returns (ok: bool, size: nat)
    requires TypedMessage(fields, slots) && TagsInRange(fields)
    ensures ok <==> EncMessage(fields, slots).ok
    ensures ok && |EncMessage(fields, slots).out| <= SIZE_MAX ==> size == |EncMessage(fields, slots).out|
  {
    hide EncMessage, TypedMessage, TagsInRange;
    var sizing := new Stream(null, 0, 0);
    ghost var none;
    ok, none := EncodeMessage(sizing, fields, slots, []);
    size := sizing.bytesWritten;
  }

  lemma EncMessageParts(fields: seq<Field>, slots: seq<Slot>)
    ensures |FieldParts(fields, slots)| == |fields|
    ensures EncMessage(fields, slots) == InOrder(FieldParts(fields, slots))
    ensures InOrder([]) == Nothing
    ensures fields == [] ==> FieldParts(fields, slots) == []
    ensures TagsInRange(fields) ==> Terminated(fields)
  {
  }

  /** pb_encode_submessage: the body is sized, its size is written, and then it is written into a
      window of just that size. */
  method EncodeSubmessage(s: Stream, fields: seq<Field>, slots: seq<Slot>, ghost way: seq<nat>)
    returns (ok: bool, ghost runs: nat)
    requires s.Valid() && (s.buf != null ==> BodyGuarded(EncMessage(fields, slots), s.bytesWritten, s.maxSize))
    requires TypedMessage(fields, slots) && TagsInRange(fields)
    modifies s.Footprint()
    ensures s.Valid() && Emits(old(s.Now()), s.Now(), Delimited(EncMessage(fields, slots)), ok)
    ensures ok ==> runs == RunsOfSubmessage(fields, slots, way, s.buf != null)
    decreases fields, 7
  {
    hide Runs, EncMessage, TypedMessage, TagsInRange, Emits, VarintBytes;
    ghost var e := EncMessage(fields, slots);
    ghost var a := s.Now();
    EmitsNothing(a);
    var sizing := new Stream(null, 0, 0);
    ghost var empty := sizing.Now();
    var sized;
    sized, runs := EncodeMessage(sizing, fields, slots, way);
    EmitsSize(empty, sizing.Now(), e, sized);
    assert s.Now() == a;
    if !sized {
      return false, 0;
    }
    var size := sizing.bytesWritten;
    ok := s.EncodeVarint(size);
    ghost var b := s.Now();
    if s.buf == null {
      ok := s.Count(size);
      EmitsCounted(a, b, s.Now(), size, e);
      return;
    }
    if !ok {
      EmitsStop(a, b, Enc(true, VarintBytes(size)), Delimited(e));
      return;
    }
    EmitsWritten(a, b, Enc(true, VarintBytes(size)));
    ghost var more;
    ok, more := EncodeBody(s, fields, slots, size, way);
    runs := runs + more;
    EmitsThen(a, b, s.Now(), Enc(true, VarintBytes(size)), e, ok);
  }

  lemma EmitsSize(a: Snapshot, b: Snapshot, e: Enc, ok: bool)
    requires a.sizing && a.written == 0 && Emits(a, b, e, ok)
    ensures ok <==> e.ok
    ensures |e.out| <= SIZE_MAX ==> b.written == |e.out|
  {
  }

  /** Its writing half: the body never outgrows the size that was announced. */
  method EncodeBody(s: Stream, fields: seq<Field>, slots: seq<Slot>, size: nat, ghost way: seq<nat>)
    returns (ok: bool, ghost runs: nat)
    requires s.Valid() && s.buf != null && s.bytesWritten + |EncMessage(fields, slots).out| <= SIZE_MAX
    requires TypedMessage(fields, slots) && TagsInRange(fields)
    requires EncMessage(fields, slots).ok && size == |EncMessage(fields, slots).out|
    modifies s.Footprint()
    ensures s.Valid() && Emits(old(s.Now()), s.Now(), EncMessage(fields, slots), ok)
    ensures ok ==> runs == Runs(fields, slots, way, true)
    decreases fields, 6
  {
    hide Runs, EncMessage, TypedMessage, TagsInRange, Emits, MessageGuarded;
    runs := 0;
    ghost var a, e := s.Now(), EncMessage(fields, slots);
    if WrapSize(s.bytesWritten + size) > s.maxSize {
      EmitsFull(a, e);
      return false, 0;
    }
    CountedMessage(fields, slots, 0, size);
    var sub := new Stream(s.buf, s.pos, size);
    ghost var start := sub.Now();
    var status;
    status, runs := EncodeMessage(sub, fields, slots, way);
    EmitsExact(start, sub.Now(), e, status);
    s.bytesWritten := s.bytesWritten + sub.bytesWritten;
    s.pos := sub.pos;
    EmitsNested(a, sub.Now(), s.Now(), e);
    if sub.bytesWritten != size {
      ok := false;
      return;
    }
    ok := status;
  }

  /** Unlike pb_write, the guard before the body does not look for a wrapped sum: it tells whether the body
      fits exactly when the sum can be counted in size_t. */
  lemma BodyGuardExact(written: nat, maxSize: nat, size: nat)
    requires written <= maxSize <= SIZE_MAX && size <= SIZE_MAX
    ensures (WrapSize(written + size) <= maxSize <==> written + size <= maxSize) <==> written + size <= SIZE_MAX
  {
    WrappedSum(written, size);
  }

  /** Where it cannot, the guard lets a body through that the window has no room for. */
  lemma BodyGuardPassesTooMuch()
    ensures var size := SIZE_MAX - 50; WrapSize(100 + size) <= 1000 < 100 + size
  {
    assert (100 + (SIZE_MAX - 50)) % (SIZE_MAX + 1) == 49;
  }

  lemma EmitsFull(a: Snapshot, e: Enc)
    requires !a.sizing && a.written <= a.maxSize < a.written + |e.out| && a.pos <= |a.cells|
    ensures Emits(a, a, e, false)
  {
  }

  /** In a window of its exact size an encodable message goes through. */
  lemma EmitsExact(a: Snapshot, b: Snapshot, e: Enc, ok: bool)
    requires !a.sizing && a.written == 0 && a.maxSize == |e.out| && e.ok && Emits(a, b, e, ok)
    ensures ok && b.written == |e.out|
  {
  }
}
