/** pb_decode.c with PB_ENABLE_MALLOC: fields behind pointers, and who owns what on every path. */
module HeapDecoder {
  import opened Platform
  import opened Varint
  import opened Descriptor
  import opened FieldIter
  import opened Encoding
  import opened Decoding
  import opened InStream
  import opened RequiredBits
  import Decoder
  import opened Heap
  import opened Releasing
  import opened HeapDefaults
  import opened HeapDecoding
  import opened HeapEncoding
  import HeapRoundTrip
  import opened PointerArrays

  // ---------------------------------------------------------------- items

  lemma TextSound(f: Field, p: Pointer)
    requires IsText(f)
    ensures SoundItem(f, Text(p)) <==> Plain(p)
    ensures SoundItem(f, Text(p)) ==> OwnedByPointer(p) == IdOf(p)
  {
    if SoundItem(f, Text(p)) {
      PlainOwns(p);
    }
  }

  /** What a text takes in memory, the size field of a bytes value included. */
  function RoomFor(f: Field, text: seq<byte>): nat {
    if f.ltype.LBytes? then BYTES_OFFSET + |text| else |text|
  }

  lemma RoomGranted(f: Field, size: nat, data: seq<byte>)
    requires IsText(f) && |data| == size < TWO_32 && TextAllocation(f, size).Some?
    ensures TextAllocation(f, size).value == RoomFor(f, TextBytes(f, data))
  {
    hide TextAllocation, SIZE_MAX;
    HeapRoundTrip.TextRoom(f, size);
  }

  /** pb_dec_bytes and pb_dec_string for a pointer. */
  method DecodeText(s: Input, heap: Allocator, f: Field, p: Pointer) returns (ok: bool, r: Pointer)
    requires s.Valid() && heap.Valid() && IsText(f)
    requires SoundItem(f, Text(p)) && OwnedByPointer(p) <= heap.live
    modifies s, heap
    ensures s.Valid() && s.End() == old(s.End()) && heap.Valid()
    ensures SoundItem(f, Text(r)) && Traded(old(heap.live), OwnedByPointer(p), heap.live, OwnedByPointer(r))
    ensures Grew(old(heap.History()), heap.History(), [f])
    ensures Outcome(ReadItem(f, Text(p), old(s.Rest())), ok, Bare(f, Text(r)), s.Rest(),
              Excused(old(heap.History()), heap.History()))
    ensures ok ==> TextBlock(r) && heap.grants(old(heap.requests), RoomFor(f, r.items[0].v.bs))
  {
    hide DecVarint32, OwnedByPointer, Traded, SoundItem, TextAllocation, ReadItem, Bare, IsText, Packable,
      SIZE_MAX, Resized, Grew, Reaches, RoomFor, TextBytes;
    r := p;
    TextSound(f, p);
    TradedStart(heap.live, OwnedByPointer(p));
    GrewStart(heap.History(), [f]);
    ghost var bs := s.Rest();
    TextRead(f, p, bs);
    var size;
    ok, size := s.DecodeVarint32();
    if !ok {
      return;
    }
    var bytes := TextAllocation(f, size);
    if bytes.None? {
      return false, r;
    }
    TextFits(f, size);
    ok, r := AllocateField(heap, p, bytes.value, 1, f);
    ResizedPlain(p, 1);
    TextSound(f, r);
    if !ok {
      return;
    }
    var data;
    ok, data := s.Read(size);
    if ok {
      r := Block(r.id, [Raw(Blob(TextBytes(f, data)))]);
      TextSound(f, r);
      TextBare(f, r);
      RoomGranted(f, size, data);
    }
  }

  function TextOf(f: Field, data: Parsed<seq<byte>>): Parsed<Item>
    requires data.Ok?
  {
    Ok(Text(Block(0, [Raw(Blob(TextBytes(f, data.value)))])), data.rest)
  }

  /** What is read for a text, spelled out: its length, its room, its bytes. */
  lemma TextRead(f: Field, p: Pointer, bs: seq<byte>)
    requires IsText(f)
    ensures var l := DecVarint32(bs);
            ReadItem(f, Text(p), bs) ==
              if l.Fail? || Take(l.rest, l.value).Fail? || TextAllocation(f, l.value).None? then Fail
              else TextOf(f, Take(l.rest, l.value))
  {
    hide DecVarint32, TextAllocation;
  }

  lemma TextFits(f: Field, size: nat)
    requires TextAllocation(f, size).Some?
    ensures 0 < TextAllocation(f, size).value <= SIZE_MAX
  {
    if !f.ltype.LBytes? && size == 0 {
      assert (size + 1) % TWO_32 == 1;
    }
  }

  lemma TextBare(f: Field, p: Pointer)
    ensures Bare(f, Text(p)) == Text(if p.Block? then Block(0, p.items) else Null)
  {
  }

  lemma ResizedPlain(p: Pointer, n: nat)
    requires Plain(p)
    ensures forall id: nat :: Plain(Block(id, Resized(ItemsOfPointer(p), n)))
  {
  }

  /** The decoders that put plain bytes or numbers where they are told. */
  method DecodePlain(s: Input, f: Field, ghost prior: Value) returns (ok: bool, v: Value)
    requires s.Valid() && !IsText(f) && !f.ltype.LSubmessage? && !f.ltype.LExtension? && f.dataSize <= PB_SIZE_MAX
    modifies s
    ensures s.Valid() && s.End() == old(s.End())
    ensures forall it :: Outcome(ReadItem(f, it, old(s.Rest())), ok, Raw(v), s.Rest(), false)
    ensures match DecValue(f, prior, old(s.Rest()))
            case Ok(w, rest) => ok && v == w && s.Rest() == rest
            case Fail => !ok
  {
    hide DecScalar, DecDelimited, StoreBlob, ReadNoInit;
    if Packable(f.ltype) {
      ok, v := Decoder.DecodeScalar(s, f);
    } else {
      ok, v := Decoder.DecodeBlob(s, f);
    }
  }

  /** PB_DECODERS[PB_LTYPE(f.type)] for the storage it. */
  method DecodeItem(s: Input, heap: Allocator, f: Field, it: Item) returns (ok: bool, r: Item)
    requires s.Valid() && heap.Valid() && AllocatableField(f) && SoundItem(f, it) && OwnedByItem(it) <= heap.live
    requires f.htype.Repeated? ==> OwnedByItem(it) == multiset{}
    modifies s, heap
    ensures s.Valid() && s.End() <= old(s.End()) && heap.Valid()
    ensures SoundItem(f, r) && Traded(old(heap.live), OwnedByItem(it), heap.live, OwnedByItem(r))
    ensures ok ==> s.End() == old(s.End()) && s.bytesLeft < old(s.bytesLeft)
    ensures Grew(old(heap.History()), heap.History(), [f])
    ensures Outcome(ReadItem(f, Bare(f, it), old(s.Rest())), ok, Bare(f, r), s.Rest(),
              Excused(old(heap.History()), heap.History()))
    decreases s.bytesLeft, 1
  {
    hide ReadItem, Traded, OwnedByPointer, Owned, Sound, Allocatable, Plain, DecValue, BareRows, Grew, Reaches;
    r := it;
    TradedStart(heap.live, OwnedByItem(it));
    GrewStart(heap.History(), [f]);
    ghost var bs := s.Rest();
    if !f.ltype.LSubmessage? {
      ReadIgnores(f, Bare(f, it), it, bs);
    }
    if f.ltype.LSubmessage? {
      AllocatableSub(f);
      var rows;
      ok, rows := DecodeSubmessage(s, heap, f, it.rows);
      r := Struct(rows);
    } else if IsText(f) {
      var p;
      ok, p := DecodeText(s, heap, f, it.p);
      r := Text(p);
    } else {
      var v;
      ok, v := DecodePlain(s, f, Number(0));
      r := if ok then Raw(v) else it;
    }
  }

  /** pb_dec_submessage. */
  method DecodeSubmessage(s: Input, heap: Allocator, f: Field, rows: seq<Row>) returns (ok: bool, r: seq<Row>)
    requires s.Valid() && heap.Valid() && f.ltype.LSubmessage? && Allocatable(SubTable(f))
    requires Sound(SubTable(f), rows) && Owned(rows) <= heap.live
    requires f.htype.Repeated? ==> Owned(rows) == multiset{}
    modifies s, heap
    ensures s.Valid() && s.End() <= old(s.End()) && heap.Valid()
    ensures Sound(SubTable(f), r) && Traded(old(heap.live), Owned(rows), heap.live, Owned(r))
    ensures ok ==> s.End() == old(s.End())
    ensures Grew(old(heap.History()), heap.History(), [f])
    ensures Outcome(ReadItem(f, Struct(BareRows(SubTable(f), rows)), old(s.Rest())), ok,
              Struct(BareRows(SubTable(f), r)), s.Rest(), Excused(old(heap.History()), heap.History()))
    decreases s.bytesLeft, 0
  {
    hide DecDelimited, Traded, Owned, Sound, Allocatable, BareRows, ReadNoInit, Defaults, Grew, Reaches;
    r := rows;
    TradedStart(heap.live, Owned(rows));
    GrewStart(heap.History(), [f]);
    ghost var log := heap.History();
    var sub;
    ok, sub := s.OpenSubstream();
    if !ok {
      return;
    }
    var status;
    if f.htype.Repeated? {
      SoundIsShaped(SubTable(f), rows);
      status, r := Decode(sub, heap, SubTable(f), rows);
      TradedFrom(old(heap.live), heap.live, Owned(r));
    } else {
      status, r := DecodeNoInit(sub, heap, SubTable(f), rows);
    }
    SubReaches(f);
    GrewWider(log, heap.History(), SubTable(f), [f]);
    ok := s.CloseSubstream(sub);
    ok := status;
  }

  // ---------------------------------------------------------------- static fields

  /** The REPEATED case of decode_static_field, for items other than messages. */
  method DecodeArray(s: Input, f: Field, wireType: nat, a: Filled) returns (ok: bool, r: Filled)
    requires s.Valid() && |a.items| == f.arraySize && !IsText(f) && !f.ltype.LSubmessage? && !f.ltype.LExtension?
    requires f.dataSize <= PB_SIZE_MAX
    modifies s
    ensures s.Valid() && s.End() <= old(s.End()) && (ok ==> s.End() == old(s.End()))
    ensures |r.items| == |a.items|
    ensures match DecRepeated(f, wireType, a, old(s.Rest()))
            case Ok(a', rest) => ok && r == a' && s.Rest() == rest
            case Fail => !ok
  {
    hide DecDelimited, DecPacked, DecValue, ReadItem;
    r := a;
    if wireType == WT_STRING && Packable(f.ltype) {
      var b;
      ok, b := Decoder.DecodePacked(s, f, a);
      if ok {
        PackedLength(f, a, DecDelimited(old(s.Rest())).value);
        r := b;
      }
    } else {
      if a.count >= f.arraySize {
        return false, r;
      }
      var v;
      ok, v := DecodePlain(s, f, a.items[a.count]);
      r := Filled(a.items[a.count := v], a.count + 1);
    }
  }

  lemma {:induction false} PackedLength(f: Field, a: Filled, b: seq<byte>)
    ensures DecPacked(f, a, b).Some? ==> |DecPacked(f, a, b).value.items| == |a.items|
    decreases |b|
  {
    hide DecScalar;
    if b != [] && a.count < |a.items| {
      var d := DecScalar(f, b);
      if d.Ok? {
        PackedLength(f, Filled(a.items[a.count := d.value], a.count + 1), d.rest);
      }
    }
  }

  /** decode_static_field. */
  method DecodeStaticField(s: Input, heap: Allocator, f: Field, wireType: nat, row: Row, counter: nat)
    returns (ok: bool, r: Row, counter': nat)
    requires s.Valid() && heap.Valid() && AllocatableField(f) && !f.atype.Pointer?
    requires SoundRow(f, row) && OwnedByRow(row) <= heap.live
    modifies s, heap
    ensures s.Valid() && s.End() <= old(s.End()) && heap.Valid()
    ensures SoundRow(f, r) && Traded(old(heap.live), OwnedByRow(row), heap.live, OwnedByRow(r))
    ensures ok ==> s.End() == old(s.End()) && s.bytesLeft < old(s.bytesLeft)
    ensures Grew(old(heap.History()), heap.History(), [f])
    ensures Outcome(ReadStatic(f, wireType, BareRow(f, row), counter, old(s.Rest())), ok,
              Counted(BareRow(f, r), counter'), s.Rest(), Excused(old(heap.History()), heap.History()))
    decreases s.bytesLeft, 2
  {
    hide AllocatableField, SoundItem, OwnedByItems, OwnedByItem, Traded, ReadItem, DecRepeated, Bare, ValuesOf,
      Raws, Grew, Reaches;
    r, counter' := row, counter;
    if f.htype.Repeated? {
      PlainArray(f);
      TradedStart(heap.live, OwnedByRow(row));
      GrewStart(heap.History(), [f]);
      StaticValues(f, row);
      var a;
      var size := if f.sizeOffset != 0 then row.size else counter;
      ok, a := DecodeArray(s, f, wireType, Filled(ValuesOf(row.items), size));
      r := Inline(if f.sizeOffset != 0 then a.count else row.size, Raws(a.items));
      counter' := if f.sizeOffset != 0 then counter else a.count;
      RawsSound(f, row, r);
      RawsBare(f, a.items);
    } else {
      assert row.items == [row.items[0]];
      SingleOwned(row.items[0]);
      SingleBare(f, row.items[0]);
      var it;
      ok, it := DecodeItem(s, heap, f, row.items[0]);
      SingleOwned(it);
      SingleBare(f, it);
      r := Inline(if f.htype.Optional? && f.sizeOffset != 0 then 1 else row.size, [it]);
    }
  }

  lemma SingleBare(f: Field, it: Item)
    ensures forall size: nat :: BareRow(f, Inline(size, [it])) == Inline(size, [Bare(f, it)])
  {
    hide Bare;
    forall size: nat ensures BareRow(f, Inline(size, [it])) == Inline(size, [Bare(f, it)]) {
      assert BareRow(f, Inline(size, [it])).items == [Bare(f, it)];
    }
  }

  lemma StaticValues(f: Field, row: Row)
    requires AllocatableField(f) && !f.atype.Pointer? && f.htype.Repeated? && SoundRow(f, row)
    ensures row.Inline? && ValuesOf(ItemsOfRow(BareRow(f, row))) == ValuesOf(row.items)
  {
    hide Allocatable;
    PlainArray(f);
    forall i | 0 <= i < |row.items| ensures row.items[i].Raw? && Bare(f, row.items[i]) == row.items[i] {
      assert SoundItem(f, row.items[i]);
    }
    assert ItemsOfRow(BareRow(f, row)) == row.items;
  }

  lemma RawsBare(f: Field, values: seq<Value>)
    ensures forall size: nat :: BareRow(f, Inline(size, Raws(values))) == Inline(size, Raws(values))
  {
  }

  lemma PlainArray(f: Field)
    requires AllocatableField(f) && !f.atype.Pointer? && f.htype.Repeated?
    ensures !IsText(f) && !f.ltype.LSubmessage? && !f.ltype.LExtension? && f.dataSize <= PB_SIZE_MAX
  {
    hide Allocatable;
  }

  lemma RawsSound(f: Field, row: Row, r: Row)
    requires AllocatableField(f) && !f.atype.Pointer? && f.htype.Repeated? && SoundRow(f, row)
    requires r.Inline? && |r.items| == |row.items| && forall i :: 0 <= i < |r.items| ==> r.items[i].Raw?
    ensures SoundRow(f, r) && OwnedByRow(r) == OwnedByRow(row) == multiset{}
  {
    hide Allocatable, Sound;
    PlainRow(f, row);
    RawOwnsNothing(r.items);
  }

  // ---------------------------------------------------------------- pointer fields

  /** decode_pointer_field for a required or optional field: a message that is there is released first. */
  method DecodeSinglePointer(s: Input, heap: Allocator, f: Field, row: Row) returns (ok: bool, r: Row)
    requires s.Valid() && heap.Valid() && AllocatableField(f) && f.atype.Pointer? && !f.htype.Repeated?
    requires row.Indirect? && SoundRow(f, row) && OwnedByRow(row) <= heap.live
    modifies s, heap
    ensures s.Valid() && s.End() <= old(s.End()) && heap.Valid()
    ensures SoundRow(f, r) && Traded(old(heap.live), OwnedByRow(row), heap.live, OwnedByRow(r))
    ensures ok ==> s.End() == old(s.End()) && s.bytesLeft < old(s.bytesLeft)
    ensures r.Indirect? && r.size == row.size
    ensures Grew(old(heap.History()), heap.History(), [f])
    ensures Outcome(ReadSingle(f, BareRow(f, row), old(s.Rest())), ok, BareRow(f, r), s.Rest(),
              Excused(old(heap.History()), heap.History()))
    decreases s.bytesLeft, 3
  {
    hide AllocatableField, SoundItem, OwnedByPointer, Traded, ReadItem, SoundRow, Initialized, IsText, Bare,
      ReadSingle, BareRow, ReleasedRow, Grew, Reaches;
    ghost var live0, was := heap.live, OwnedByRow(row);
    var p := row.p;
    TradedStart(live0, was);
    if f.ltype.LSubmessage? && p.Block? {
      ReleasedTrade(f, row, live0);
      var released := ReleaseRow(heap, f, row);
      p := released.p;
    }
    ghost var live1, had := heap.live, OwnedByPointer(p);
    TradedLive(live0, was, live1, had);
    SinglePointer(f, row.size, p);
    SingleSame(f, row, Indirect(row.size, p), s.Rest());
    if IsText(f) {
      ok, r := DecodeSingleText(s, heap, f, Indirect(row.size, p));
    } else {
      ok, r := DecodeSingleItem(s, heap, f, Indirect(row.size, p));
    }
    TradedThen(live0, was, live1, had, heap.live, OwnedByRow(r));
  }

  /** What was there does not matter. */
  lemma SingleSame(f: Field, row: Row, other: Row, bs: seq<byte>)
    requires row.Indirect? && other.Indirect? && row.size == other.size
    ensures ReadSingle(f, BareRow(f, row), bs) == ReadSingle(f, BareRow(f, other), bs)
  {
    hide ReadItem, Bare, Initialized;
  }

  /** Its branch for strings and bytes. */
  method DecodeSingleText(s: Input, heap: Allocator, f: Field, row: Row) returns (ok: bool, r: Row)
    requires s.Valid() && heap.Valid() && IsText(f) && !f.htype.Repeated? && row.Indirect?
    requires SoundItem(f, Text(row.p)) && OwnedByPointer(row.p) <= heap.live
    modifies s, heap
    ensures s.Valid() && s.End() <= old(s.End()) && heap.Valid()
    ensures SoundRow(f, r) && Traded(old(heap.live), OwnedByPointer(row.p), heap.live, OwnedByRow(r))
    ensures ok ==> s.End() == old(s.End()) && s.bytesLeft < old(s.bytesLeft)
    ensures r.Indirect? && r.size == row.size
    ensures Grew(old(heap.History()), heap.History(), [f])
    ensures Outcome(ReadSingle(f, BareRow(f, row), old(s.Rest())), ok, BareRow(f, r), s.Rest(),
              Excused(old(heap.History()), heap.History()))
  {
    hide SoundItem, OwnedByPointer, Traded, ReadItem, SoundRow, IsText, Bare, ReadSingle, BareRow, Grew, Reaches;
    ghost var bs := s.Rest();
    var p;
    ok, p := DecodeText(s, heap, f, row.p);
    r := Indirect(row.size, p);
    SingleText(f, r);
    SingleTextRead(f, row, p, bs);
  }

  /** Its branch for everything else. */
  method DecodeSingleItem(s: Input, heap: Allocator, f: Field, row: Row) returns (ok: bool, r: Row)
    requires s.Valid() && heap.Valid() && AllocatableField(f) && f.atype.Pointer? && !f.htype.Repeated? && !IsText(f)
    requires row.Indirect? && SoundRow(f, row) && OwnedByPointer(row.p) == IdOf(row.p) <= heap.live
    requires Resized(ItemsOfPointer(row.p), 1)[0].Raw?
    modifies s, heap
    ensures s.Valid() && s.End() <= old(s.End()) && heap.Valid()
    ensures SoundRow(f, r) && Traded(old(heap.live), OwnedByPointer(row.p), heap.live, OwnedByRow(r))
    ensures ok ==> s.End() == old(s.End()) && s.bytesLeft < old(s.bytesLeft)
    ensures r.Indirect? && r.size == row.size
    ensures Grew(old(heap.History()), heap.History(), [f])
    ensures Outcome(ReadSingle(f, BareRow(f, row), old(s.Rest())), ok, BareRow(f, r), s.Rest(),
              Excused(old(heap.History()), heap.History()))
    decreases s.bytesLeft, 2
  {
    hide AllocatableField, SoundItem, OwnedByPointer, Traded, ReadItem, SoundRow, OwnedByItems, OwnedByItem,
      Initialized, IsText, Resized, Bare, ReadSingle, BareRow, Grew, Reaches, Unfit;
    ghost var bs, live0, log := s.Rest(), heap.live, heap.History();
    UnfitOrFits(f, 1);
    PartOf(row.p, live0);
    var p;
    ok, p := AllocateField(heap, row.p, f.dataSize, 1, f);
    if !ok {
      r := row;
      return;
    }
    var it := Initialized(f, p.items[0]);
    InitializedSound(f, p.items[0]);
    InitializedSame(f, p.items[0], bs);
    ghost var live1, log1 := heap.live, heap.History();
    TradedLive(live0, IdOf(row.p), live1, IdOf(p));
    ok, it := DecodeItem(s, heap, f, it);
    GrewThen(log, log1, heap.History(), [f]);
    r := Indirect(row.size, Block(p.id, [it]));
    SingleItem(f, r);
    SingleItemRead(f, row, r, bs);
    TradedPart(live1, multiset{}, heap.live, OwnedByItem(it), IdOf(p), OwnedByPointer(r.p));
    TradedThen(live0, IdOf(row.p), live1, IdOf(p), heap.live, OwnedByPointer(r.p));
  }

  lemma ReleasedTrade(f: Field, row: Row, live: multiset<nat>)
    requires row.Indirect? && OwnedByRow(row) <= live
    ensures Traded(live, OwnedByRow(row), live - OwnedByRow(row), OwnedByPointer(Null))
    ensures ReleasedRow(f, row).Indirect? && ReleasedRow(f, row).p == Null
  {
    hide OwnedByRow;
    assert live - OwnedByRow(row) + OwnedByRow(row) == live == live + multiset{};
  }

  lemma SinglePointer(f: Field, size: nat, p: Pointer)
    requires AllocatableField(f) && f.atype.Pointer? && !f.htype.Repeated?
    requires p == Null || (SoundRow(f, Indirect(size, p)) && !f.ltype.LSubmessage?)
    ensures SoundRow(f, Indirect(size, p)) && OwnedByPointer(p) == IdOf(p)
    ensures IsText(f) ==> SoundItem(f, Text(p))
    ensures Resized(ItemsOfPointer(p), 1)[0].Raw?
  {
    hide Allocatable;
    if p.Block? {
      assert !IsText(f) ==> SoundItem(f, p.items[0]);
      PlainOwns(p);
    }
  }

  lemma SingleText(f: Field, r: Row)
    requires IsText(f) && !f.htype.Repeated? && r.Indirect? && SoundItem(f, Text(r.p))
    ensures SoundRow(f, r)
  {
  }

  /** A row whose one item is what was read. */
  lemma SingleItemRead(f: Field, row: Row, r: Row, bs: seq<byte>)
    requires f.atype.Pointer? && !f.htype.Repeated? && !IsText(f) && row.Indirect?
    requires r.Indirect? && r.size == row.size && r.p.Block? && |r.p.items| == 1 && SoundItem(f, r.p.items[0])
    ensures var it := Bare(f, r.p.items[0]);
            && !it.Text? && BareRow(f, r) == Indirect(row.size, Block(0, [it]))
    ensures ReadSingle(f, BareRow(f, row), bs)
         == match ReadItem(f, Initialized(f, Junk), bs)
            case Fail => Fail
            case Ok(it, rest) => Ok(Indirect(row.size, if it.Text? then it.p else Block(0, [it])), rest)
  {
    hide ReadItem, Initialized, BareRows, Sound;
    assert BareRow(f, r).p.items == [Bare(f, r.p.items[0])];
  }

  lemma SingleTextRead(f: Field, row: Row, p: Pointer, bs: seq<byte>)
    requires IsText(f) && !f.htype.Repeated? && row.Indirect? && SoundItem(f, Text(p))
    ensures Bare(f, Text(p)).Text? && BareRow(f, Indirect(row.size, p)) == Indirect(row.size, Bare(f, Text(p)).p)
    ensures ReadSingle(f, BareRow(f, row), bs)
         == match ReadItem(f, Text(row.p), bs)
            case Fail => Fail
            case Ok(it, rest) => Ok(Indirect(row.size, if it.Text? then it.p else Block(0, [it])), rest)
  {
    hide ReadItem;
    ReadIgnores(f, Initialized(f, Junk), Text(row.p), bs);
    if p.Block? {
      forall i | 0 <= i < |p.items| ensures Bare(f, p.items[i]) == p.items[i] {
      }
      assert BareRow(f, Indirect(row.size, p)).p.items == p.items;
    }
  }

  lemma SingleItem(f: Field, r: Row)
    requires AllocatableField(f) && f.atype.Pointer? && !f.htype.Repeated? && !IsText(f)
    requires r.Indirect? && r.p.Block? && |r.p.items| == 1 && SoundItem(f, r.p.items[0])
    ensures SoundRow(f, r)
    ensures OwnedByPointer(r.p) + multiset{} == IdOf(r.p) + OwnedByItem(r.p.items[0])
  {
    hide Allocatable, SoundItem;
    assert r.p.items == [r.p.items[0]];
    SingleOwned(r.p.items[0]);
  }

  // ---------------------------------------------------------------- pointer arrays

  /** decode_pointer_field, one item of an array at a time. */
  method DecodeNextItem(s: Input, heap: Allocator, f: Field, row: Row) returns (ok: bool, r: Row)
    requires s.Valid() && heap.Valid() && AllocatableField(f) && f.atype.Pointer? && f.htype.Repeated?
    requires row.Indirect? && SoundRow(f, row) && OwnedByRow(row) <= heap.live
    modifies s, heap
    ensures s.Valid() && s.End() <= old(s.End()) && heap.Valid()
    ensures r.Indirect? && SoundRow(f, r) && Traded(old(heap.live), OwnedByRow(row), heap.live, OwnedByRow(r))
    ensures ok ==> s.End() == old(s.End()) && s.bytesLeft < old(s.bytesLeft)
    ensures Grew(old(heap.History()), heap.History(), [f])
    ensures Outcome(ReadNext(f, BareRow(f, row), old(s.Rest())), ok, BareRow(f, r), s.Rest(),
              Excused(old(heap.History()), heap.History()))
    decreases s.bytesLeft, 2
  {
    hide AllocatableField, SoundItem, OwnedByPointer, Traded, ReadItem, SoundArray, OwnedByItems, OwnedByItem,
      Initialized, IsText, Resized, SoundRow, Bare, BareRow, ReadNext, ItemsOfRow, Grew, Reaches, Unfit;
    ghost var bs, live0, was := s.Rest(), heap.live, OwnedByRow(row);
    r := row;
    TradedStart(live0, was);
    GrewStart(heap.History(), [f]);
    ghost var log := heap.History();
    ArrayBehind(f, row);
    ArrayFull(f, row, bs);
    if row.size == PB_SIZE_MAX {
      return false, r;
    }
    UnfitOrFits(f, row.size + 1);
    ResizedArray(f, row.size, row.p, row.size + 1);
    PartOf(row.p, live0);
    var p;
    ok, p := AllocateField(heap, row.p, f.dataSize, row.size + 1, f);
    if !ok {
      return;
    }
    ghost var live1, items, log1 := heap.live, OwnedByItems(p.items), heap.History();
    TradedPart(live0, IdOf(row.p), live1, IdOf(p), was, IdOf(p) + items);
    var it := Initialized(f, p.items[row.size]);
    InitializedSound(f, p.items[row.size]);
    InitializedSame(f, p.items[row.size], bs);
    ItemsUpdate(p.items, row.size, it);
    ok, it := DecodeItem(s, heap, f, it);
    GrewThen(log, log1, heap.History(), [f]);
    ItemsUpdate(p.items, row.size, it);
    r := Indirect(row.size + 1, Block(p.id, p.items[row.size := it]));
    NextItem(f, row, p, it);
    TradedPart(live1, multiset{}, heap.live, OwnedByItem(it), IdOf(p) + items, OwnedByPointer(r.p));
    TradedThen(live0, was, live1, IdOf(p) + items, heap.live, OwnedByPointer(r.p));
    NextRead(f, row, r, p.items, it, bs);
  }

  lemma ArrayFull(f: Field, row: Row, bs: seq<byte>)
    requires f.atype.Pointer? && f.htype.Repeated? && row.Indirect? && SoundRow(f, row)
    ensures row.size == PB_SIZE_MAX ==> ReadNext(f, BareRow(f, row), bs) == Fail
  {
    hide SoundItem, ReadItem, Bare;
  }

  /** decode_pointer_field, a packed record: before every store the item lies inside the block, and
      the block is counted by pb_size_t. */
  method DecodePackedItems(s: Input, heap: Allocator, f: Field, row: Row) returns (ok: bool, r: Row)
    requires s.Valid() && heap.Valid() && AllocatableField(f) && f.atype.Pointer? && f.htype.Repeated?
        && Packable(f.ltype)
    requires row.Indirect? && SoundRow(f, row) && OwnedByRow(row) <= heap.live
    modifies s, heap
    ensures s.Valid() && s.End() <= old(s.End()) && heap.Valid()
    ensures r.Indirect? && SoundRow(f, r) && Traded(old(heap.live), OwnedByRow(row), heap.live, OwnedByRow(r))
    ensures ok ==> s.End() == old(s.End()) && s.bytesLeft < old(s.bytesLeft)
    ensures Grew(old(heap.History()), heap.History(), [f])
    ensures Outcome(ReadPacked(f, BareRow(f, row), old(s.Rest())), ok, BareRow(f, r), s.Rest(),
              Excused(old(heap.History()), heap.History()))
  {
    hide AllocatableField, OwnedByPointer, Traded, SoundArray, SoundRow, Growing, DecDelimited, DecScalar, IsText,
      Packable, SoundItem, ReadElements, IdOf, ReadPacked, BareRow, ItemsOfPointer, OwnedByItems, Allocator.Valid,
      Grew, Reaches;
    ghost var bs, live0, was := s.Rest(), heap.live, OwnedByRow(row);
    r := row;
    TradedStart(live0, was);
    GrewStart(heap.History(), [f]);
    ghost var log := heap.History();
    ArrayBehind(f, row);
    PackableSize(f);
    if DecDelimited(bs).Fail? {
      PackedNeedsLength(f, row, bs);
    }
    var sub;
    ok, sub := s.OpenSubstream();
    if !ok {
      return;
    }
    ghost var body, end := sub.Rest(), sub.End();
    ghost var got: seq<Value>, left := [], body;
    GrowingStart(f, row, body);
    var status, p := true, row.p;
    var size: nat, capacity: nat := row.size, row.size;
    while sub.bytesLeft != 0
      invariant sub.Valid() && sub.End() == end && heap.Valid() && left == sub.Rest()
      invariant size <= capacity <= PB_SIZE_MAX
      invariant size < capacity ==> p.Block? && |p.items| == capacity
      invariant Growing(f, row, size, p, body, got, left)
      invariant Traded(live0, was, heap.live, OwnedByPointer(p))
      invariant status && (got == [] ==> p == row.p) && Grew(log, heap.History(), [f])
      decreases sub.bytesLeft
      modifies sub, heap
    {
      if size == PB_SIZE_MAX {
        GrowingStuck(f, row, size, p, body, got, left, bs);
        status := false;
        break;
      }
      ghost var before, live1, log1 := p, heap.live, heap.History();
      TradedLive(live0, was, live1, OwnedByPointer(p));
      status, p, capacity := MakeRoom(heap, f, p, size, capacity, sub.bytesLeft, row, body, got, left);
      TradedThen(live0, was, live1, OwnedByPointer(before), heap.live, OwnedByPointer(p));
      GrewThen(log, log1, heap.History(), [f]);
      if !status {
        break;
      }
      var v;
      status, v := Decoder.DecodeScalar(sub, f);
      if !status {
        GrowingStuck(f, row, size, p, body, got, left, bs);
        break;
      }
      assert size < capacity == |p.items| && capacity <= PB_SIZE_MAX;
      p := StoreItem(f, p, size, v, row, body, got, left, sub.Rest());
      got, left, size := got + [v], sub.Rest(), size + 1;
    }
    r := Indirect(size, p);
    GrowingSound(f, row, size, p, body, got, left);
    ok := s.CloseSubstream(sub);
    ok := status;
    if ok {
      GrowingDone(f, row, r, bs, s.Rest(), body, got);
    }
  }

  lemma PackedNeedsLength(f: Field, row: Row, bs: seq<byte>)
    requires DecDelimited(bs).Fail?
    ensures ReadPacked(f, BareRow(f, row), bs).Fail?
  {
    hide DecDelimited, BareRow;
  }

  // ---------------------------------------------------------------- messages

  /** decode_field: decode_static_field or decode_pointer_field. */
  method DecodeField(s: Input, heap: Allocator, f: Field, wireType: nat, row: Row, counter: nat)
    returns (ok: bool, r: Row, counter': nat)
    requires s.Valid() && heap.Valid() && AllocatableField(f) && SoundRow(f, row) && OwnedByRow(row) <= heap.live
    modifies s, heap
    ensures s.Valid() && s.End() <= old(s.End()) && heap.Valid()
    ensures SoundRow(f, r) && Traded(old(heap.live), OwnedByRow(row), heap.live, OwnedByRow(r))
    ensures ok ==> s.End() == old(s.End()) && s.bytesLeft < old(s.bytesLeft)
    ensures Grew(old(heap.History()), heap.History(), [f])
    ensures Outcome(ReadField(f, wireType, BareRow(f, row), counter, old(s.Rest())), ok,
              Counted(BareRow(f, r), counter'), s.Rest(), Excused(old(heap.History()), heap.History()))
    decreases s.bytesLeft, 4
  {
    hide AllocatableField, SoundRow, OwnedByRow, Traded, ReadStatic, ReadSingle, ReadPacked, ReadNext, BareRow,
      Grew, Reaches;
    counter' := counter;
    if !f.atype.Pointer? {
      ok, r, counter' := DecodeStaticField(s, heap, f, wireType, row, counter);
    } else {
      PointerRow(f, row);
      if !f.htype.Repeated? {
        ok, r := DecodeSinglePointer(s, heap, f, row);
      } else if wireType == WT_STRING && Packable(f.ltype) {
        ok, r := DecodePackedItems(s, heap, f, row);
      } else {
        ok, r := DecodeNextItem(s, heap, f, row);
      }
    }
  }

  lemma PointerRow(f: Field, row: Row)
    requires SoundRow(f, row) && f.atype.Pointer?
    ensures row.Indirect?
  {
    hide SoundItem;
  }

  /** The struct after one of its rows was decoded. */
  lemma RowTraded(fields: seq<Field>, rows: seq<Row>, k: nat, row: Row, before: multiset<nat>, after: multiset<nat>)
    requires Sound(fields, rows) && k < |fields| && Owned(rows) <= before && SoundRow(fields[k], row)
    requires Traded(before, OwnedByRow(rows[k]), after, OwnedByRow(row))
    ensures Sound(fields, rows[k := row])
    ensures Traded(before, Owned(rows), after, Owned(rows[k := row]))
  {
    hide SoundRow, OwnedByRow, Traded, Owned;
    OwnedUpdate(rows, k, row);
    TradedPart(before, OwnedByRow(rows[k]), after, OwnedByRow(row), Owned(rows), Owned(rows[k := row]));
  }

  lemma NullOwns()
    ensures OwnedByRow(Indirect(0, Null)) == multiset{}
  {
  }

  lemma RowOf(fields: seq<Field>, rows: seq<Row>, k: nat, live: multiset<nat>)
    requires Allocatable(fields) && Sound(fields, rows) && k < |fields| && Owned(rows) <= live
    ensures |rows| == |fields| && AllocatableField(fields[k]) && SoundRow(fields[k], rows[k])
        && OwnedByRow(rows[k]) <= live
  {
    hide SoundRow, OwnedByRow, AllocatableField, Owned;
    OwnedUpdate(rows, k, Indirect(0, Null));
    NullOwns();
    forall id: nat ensures OwnedByRow(rows[k])[id] <= live[id] {
      assert (Owned(rows[k := Indirect(0, Null)]) + OwnedByRow(rows[k]))[id] == (Owned(rows) + multiset{})[id];
    }
  }

  /** What pb_decode_noinit does with a record of the row its cursor stands on. */
  method DecodeRow(s: Input, heap: Allocator, iter: Iter, words: array<nat>, wireType: nat, rows: seq<Row>,
      fixedField: Option<nat>, fixedCount: nat, ghost book: State)
    returns (ok: bool, r: seq<Row>, fixedField': Option<nat>, fixedCount': nat, ghost book': State)
    requires s.Valid() && heap.Valid() && iter.Valid() && iter.start != []
    requires Allocatable(iter.start) && Sound(iter.start, rows) && |rows| == |iter.start| && Owned(rows) <= heap.live
    requires book == State([], book.seen, fixedField, fixedCount) && Shows(words, iter.start, book.seen)
    requires iter.pSize == LocalCounter ==> fixedField == Some(iter.pos)
    modifies s, heap, iter, words
    ensures s.Valid() && s.End() <= old(s.End()) && heap.Valid() && iter.Valid() && iter.pos == old(iter.pos)
    ensures Sound(iter.start, r) && Traded(old(heap.live), Owned(rows), heap.live, Owned(r))
    ensures ok ==> s.End() == old(s.End()) && s.bytesLeft < old(s.bytesLeft)
    ensures Grew(old(heap.History()), heap.History(), iter.start)
    ensures var t := ReadRow(iter.start, iter.pos, wireType, BareRows(iter.start, rows), book, old(s.Rest()));
            if ok then t == Onward(BareRows(iter.start, r), book', s.Rest())
            else t.Onward? ==> Excused(old(heap.History()), heap.History())
    ensures ok ==> book' == State([], book'.seen, fixedField', fixedCount') && Shows(words, iter.start, book'.seen)
    ensures ok && iter.pSize == LocalCounter ==> fixedField' == Some(iter.pos)
    decreases s.bytesLeft, 5
  {
    hide Sound, Allocatable, Owned, OwnedByRow, SoundRow, AllocatableField, Traded, Word, CountRequired, Offset,
      ReadField, BareRows, BareRow, Grew, Reaches;
    var k := iter.pos;
    var f := iter.start[k];
    r, fixedField', fixedCount', book' := rows, fixedField, fixedCount, book;
    TradedStart(heap.live, Owned(rows));
    GrewStart(heap.History(), iter.start);
    ghost var log := heap.History();
    RowOf(iter.start, rows, k, heap.live);
    BareUpdate(iter.start, rows, k, rows[k]);
    if f.htype.Repeated? && iter.pSize == At(iter.pData) {
      if fixedField' != Some(k) {
        if fixedField'.Some?
           && (fixedField'.value >= |iter.start| || fixedCount' != iter.start[fixedField'.value].arraySize) {
          return false, r, fixedField', fixedCount', book';
        }
        fixedField', fixedCount' := Some(k), 0;
      }
      iter.pSize := LocalCounter;
    }
    book' := Track(iter.start, k, book).value;
    if f.htype.Required? {
      MarkSeen(words, iter.start, k, iter.requiredIndex, book'.seen);
    }
    book' := Mark(iter.start, k, book');
    var row;
    ok, row, fixedCount' := DecodeField(s, heap, f, wireType, rows[k], fixedCount');
    book' := book'.(fixedCount := fixedCount');
    r := rows[k := row];
    RowReaches(iter.start, k);
    GrewWider(log, heap.History(), [f], iter.start);
    RowTraded(iter.start, rows, k, row, old(heap.live), heap.live);
    BareUpdate(iter.start, rows, k, row);
  }

  /** One turn of the loop of pb_decode_noinit. */
  method DecodeTurn(s: Input, heap: Allocator, iter: Iter, words: array<nat>, rows: seq<Row>, fixedField: Option<nat>,
      fixedCount: nat, ghost book: State)
    returns (ok: bool, stopped: bool, r: seq<Row>, fixedField': Option<nat>, fixedCount': nat, ghost book': State)
    requires s.Valid() && s.bytesLeft > 0 && heap.Valid() && iter.Valid()
    requires Allocatable(iter.start) && Sound(iter.start, rows) && |rows| == |iter.start| && Owned(rows) <= heap.live
    requires book == State([], book.seen, fixedField, fixedCount)
    requires iter.start != [] ==> Shows(words, iter.start, book.seen)
    requires iter.start != [] && iter.pSize == LocalCounter ==> fixedField == Some(iter.pos)
    modifies s, heap, iter, words
    ensures s.Valid() && s.End() <= old(s.End()) && heap.Valid() && iter.Valid()
    ensures Sound(iter.start, r) && Traded(old(heap.live), Owned(rows), heap.live, Owned(r))
    ensures ok ==> s.End() == old(s.End()) && s.bytesLeft < old(s.bytesLeft)
    ensures Grew(old(heap.History()), heap.History(), iter.start)
    ensures stopped ==> ok && r == rows && book' == book
    ensures var t := ReadTurn(iter.start, BareRows(iter.start, rows), book, old(s.Rest()));
            if stopped then t == Halt(s.Rest())
            else if ok then t == Onward(BareRows(iter.start, r), book', s.Rest())
            else !t.Wrong? ==> Excused(old(heap.History()), heap.History())
    ensures ok ==> book' == State([], book'.seen, fixedField', fixedCount')
    ensures ok && iter.start != [] ==> Shows(words, iter.start, book'.seen)
    ensures ok && iter.start != [] && iter.pSize == LocalCounter ==> fixedField' == Some(iter.pos)
    decreases s.bytesLeft, 6
  {
    hide Sound, Allocatable, Owned, Traded, Word, DecTag, DecVarint32, SkipField, FindTag, Matches, BareRows,
      ReadRow, Iter.Valid, Grew, Reaches;
    ghost var fields := iter.start;
    r, fixedField', fixedCount', book', stopped := rows, fixedField, fixedCount, book, false;
    TradedStart(heap.live, Owned(rows));
    GrewStart(heap.History(), iter.start);
    var wireType, tag, eof, found;
    ok, wireType, tag, eof := s.DecodeTag();
    if !ok {
      stopped := eof;
      ok := eof;
      return;
    }
    ghost var steps;
    found, steps := iter.Find(tag);
    if found {
      if iter.start == [] {
        ok := Decoder.DecodeStray(s);
        return;
      }
      FoundRow(fields, tag, iter.pos);
      ok, r, fixedField', fixedCount', book' :=
        DecodeRow(s, heap, iter, words, wireType, rows, fixedField, fixedCount, book);
      return;
    }
    ok := s.Skip(wireType);
  }

  lemma FoundRow(fields: seq<Field>, tag: nat, k: nat)
    requires Allocatable(fields) && k < |fields| && Matches(fields[k], tag)
    ensures FindTag(fields, tag) == Some(k)
  {
    FindTagUnique(fields, k);
  }

  /** The loop of pb_decode_noinit stands at rows and book; what is still to come decides the result. */
  ghost predicate Continues(fields: seq<Field>, start: seq<Row>, bs: seq<byte>, rows: seq<Row>, book: State,
      rest: seq<byte>) {
    |start| == |rows| == |fields| && ReadLoop(fields, start, Start([]), bs) == ReadLoop(fields, rows, book, rest)
  }

  lemma ContinuesTurn(fields: seq<Field>, start: seq<Row>, bs: seq<byte>, rows: seq<Row>, book: State, rest: seq<byte>)
    requires Continues(fields, start, bs, rows, book, rest) && rest != []
    ensures |rows| == |fields| == |start|
    ensures var t := ReadTurn(fields, rows, book, rest);
            && (t.Onward? ==> Continues(fields, start, bs, t.rows, t.book, t.rest))
            && (t.Halt? ==> ReadLoop(fields, start, Start([]), bs) == Over(rows, book, t.rest, true))
            && (t.Wrong? ==> ReadLoop(fields, start, Start([]), bs) == Failed)
  {
    hide ReadTurn;
  }

  lemma ContinuesAt(fields: seq<Field>, start: seq<Row>, bs: seq<byte>, rows: seq<Row>, book: State)
    ensures |start| == |fields| ==> Continues(fields, start, bs, start, Start([]), bs)
    ensures Continues(fields, start, bs, rows, book, []) ==>
      |start| == |fields| && ReadLoop(fields, start, Start([]), bs) == Over(rows, book, [], false)
  {
    hide ReadTurn;
  }

  /** What pb_decode_noinit returns once its loop is over. */
  lemma NoInitEnds(fields: seq<Field>, start: seq<Row>, bs: seq<byte>)
    requires |start| == |fields|
    ensures var run := ReadLoop(fields, start, Start([]), bs);
            && (run.Failed? ==> ReadNoInit(fields, start, bs) == Fail)
            && (run.Over? ==>
              ReadNoInit(fields, start, bs) == if Complete(fields, run.book) then Ok(run.rows, run.rest) else Fail)
  {
    hide ReadLoop, Complete;
  }

  lemma LengthOfSound(fields: seq<Field>, rows: seq<Row>)
    requires Sound(fields, rows)
    ensures |rows| == |fields|
  {
    hide SoundRow;
  }

  /** pb_decode_noinit: contents and verdict are those of ReadNoInit, unless an allocation is refused. Whatever
      it allocates belongs to the struct when it returns, well or badly, and whatever it takes away from the
      struct has been freed. */
  method DecodeNoInit(s: Input, heap: Allocator, fields: seq<Field>, rows: seq<Row>) returns (ok: bool, r: seq<Row>)
    requires s.Valid() && heap.Valid() && Allocatable(fields) && Sound(fields, rows) && Owned(rows) <= heap.live
    modifies s, heap
    ensures s.Valid() && s.End() <= old(s.End()) && heap.Valid()
    ensures Sound(fields, r) && Traded(old(heap.live), Owned(rows), heap.live, Owned(r))
    ensures ok ==> s.End() == old(s.End())
    ensures Grew(old(heap.History()), heap.History(), fields)
    ensures Outcome(ReadNoInit(fields, BareRows(fields, rows), old(s.Rest())), ok, BareRows(fields, r), s.Rest(),
              Excused(old(heap.History()), heap.History()))
    decreases s.bytesLeft, 7
  {
    hide Sound, Allocatable, Owned, Traded, Word, Iter.Valid, Terminated, Complete, BareRows, ReadTurn, ReadLoop,
      ReadNoInit, Continues, Grew, Reaches;
    ghost var live0, was, bs, start := heap.live, Owned(rows), s.Rest(), BareRows(fields, rows);
    AllocatableTerminates(fields);
    Decoder.NoneSeen(fields);
    TradedStart(live0, was);
    GrewStart(heap.History(), fields);
    ghost var log := heap.History();
    LengthOfSound(fields, rows);
    var iter := new Iter(fields, 0);
    var words := new nat[2](_ => 0);
    var fixedField: Option<nat>, fixedCount: nat := None, 0;
    var stopped := false;
    ghost var book := Start([]);
    r := rows;
    ContinuesAt(fields, start, bs, start, book);
    NoInitEnds(fields, start, bs);
    while s.bytesLeft != 0
      invariant s.Valid() && s.End() == old(s.End()) && heap.Valid()
      invariant fresh(iter) && fresh(words) && iter.Valid() && iter.start == fields
      invariant fields != [] ==> Shows(words, fields, book.seen)
      invariant fields != [] && iter.pSize == LocalCounter ==> fixedField == Some(iter.pos)
      invariant book == State([], book.seen, fixedField, fixedCount)
      invariant Sound(fields, r) && Traded(live0, was, heap.live, Owned(r))
      invariant Grew(log, heap.History(), fields)
      invariant !stopped && Continues(fields, start, bs, BareRows(fields, r), book, s.Rest())
      decreases s.bytesLeft
    {
      ghost var live1, mid, log1 := heap.live, Owned(r), heap.History();
      TradedLive(live0, was, live1, mid);
      LengthOfSound(fields, r);
      ContinuesTurn(fields, start, bs, BareRows(fields, r), book, s.Rest());
      ok, stopped, r, fixedField, fixedCount, book := DecodeTurn(s, heap, iter, words, r, fixedField, fixedCount, book);
      TradedThen(live0, was, live1, mid, heap.live, Owned(r));
      GrewThen(log, log1, heap.History(), fields);
      if stopped {
        break;
      }
      if !ok {
        return;
      }
    }
    if !stopped {
      assert s.Rest() == [];
      ContinuesAt(fields, start, bs, BareRows(fields, r), book);
    }
    assert ReadLoop(fields, start, Start([]), bs) == Over(BareRows(fields, r), book, s.Rest(), stopped);
    ok := Decoder.CheckComplete(iter, words, fixedField, fixedCount, book);
  }

  /** pb_decode: contents and verdict are those of Read, unless an allocation is refused. On success exactly the
      blocks of the struct have come to the live ones; on failure the live blocks are those there were, and
      releasing the struct again does no harm. */
  method Decode(s: Input, heap: Allocator, fields: seq<Field>, rows: seq<Row>) returns (ok: bool, r: seq<Row>)
    requires s.Valid() && heap.Valid() && Allocatable(fields) && Shaped(fields, rows)
    modifies s, heap
    ensures s.Valid() && s.End() <= old(s.End()) && heap.Valid()
    ensures Sound(fields, r) && heap.live == old(heap.live) + Owned(r)
    ensures !ok ==> Owned(r) == multiset{} && Released(fields, r) == r
    ensures ok ==> s.End() == old(s.End())
    ensures Grew(old(heap.History()), heap.History(), fields)
    ensures Outcome(Read(fields, BareRows(fields, rows), old(s.Rest())), ok, BareRows(fields, r), s.Rest(),
              Excused(old(heap.History()), heap.History()))
    ensures Ample(fields) && (forall n, bytes: nat :: heap.grants(n, bytes)) ==>
              (ok <==> Read(fields, BareRows(fields, rows), old(s.Rest())).Ok?)
    decreases s.bytesLeft, 8
  {
    hide Sound, Shaped, Allocatable, Owned, Traded, Defaults, Released, BareRows, ReadNoInit, Grew, Reaches, Ample;
    ghost var live0, log := heap.live, heap.History();
    r := Defaults(fields, rows);
    DefaultsSound(fields, rows);
    BareDefaults(fields, rows);
    ok, r := DecodeNoInit(s, heap, fields, r);
    TradedFromNothing(live0, heap.live, Owned(r));
    if !ok {
      ReleasedTwice(fields, r);
      r := Release(heap, fields, r);
      assert heap.live == live0;
    }
    if Ample(fields) && forall n, bytes: nat :: heap.grants(n, bytes) {
      NothingDenied(heap, log, fields);
    }
  }
}
