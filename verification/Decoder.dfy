/** pb_decode.c for static storage: each routine against what Decoding says it computes. */
module Decoder {
  import opened Platform
  import opened Bits
  import opened Varint
  import opened ZigZag
  import opened Descriptor
  import opened FieldIter
  import opened Encoding
  import opened Decoding
  import opened Typing
  import opened InStream
  import opened RequiredBits

  // ---------------------------------------------------------------- scalars

  /** A cast to a signed storage type of size bytes. */
  function CastSigned(n: int, size: nat): int {
    match size
    case 1 => (n + 0x80) % 0x100 - 0x80
    case 2 => (n + 0x8000) % 0x1_0000 - 0x8000
    case 4 => (n + 0x8000_0000) % TWO_32 - 0x8000_0000
    case _ => (n + TWO_64 / 2) % TWO_64 - TWO_64 / 2
  }

  /** A cast to an unsigned storage type of size bytes. */
  function CastUnsigned(n: nat, size: nat): nat {
    match size
    case 1 => n % 0x100
    case 2 => n % 0x1_0000
    case 4 => n % TWO_32
    case _ => n % TWO_64
  }

  lemma CastKeeps(n: int, size: nat)
    ensures CastSigned(n, size) == n <==> SignedFits(n, size)
  {
  }

  lemma CastUnsignedKeeps(n: nat, size: nat)
    ensures CastUnsigned(n, size) == n <==> UnsignedFits(n, size)
  {
  }

  /** bytes[0] | bytes[1] << 8 | bytes[2] << 16 | bytes[3] << 24 */
  function Assemble(b0: byte, b1: byte, b2: byte, b3: byte): nat {
    BitOr(BitOr(BitOr(b0, b1 * 0x100), b2 * 0x1_0000), b3 * 0x100_0000)
  }

  lemma AssembleIsSum(b0: byte, b1: byte, b2: byte, b3: byte)
    ensures Assemble(b0, b1, b2, b3) == b0 + 0x100 * b1 + 0x1_0000 * b2 + 0x100_0000 * b3
  {
    hide BitOr;
    assert Pow2(8) == 0x100;
    Pow2Sum(8, 8);
    Pow2Sum(8, 16);
    hide Pow2;
    OrOfDisjoint(b0, b1, 8);
    OrOfDisjoint(b0 + 0x100 * b1, b2, 16);
    OrOfDisjoint(b0 + 0x100 * b1 + 0x1_0000 * b2, b3, 24);
  }

  lemma FromLittleEndian4(b: seq<byte>)
    requires |b| == 4
    ensures var b1: int, b2: int, b3: int := b[1], b[2], b[3];
            FromLittleEndian(b) == b[0] + 0x100 * b1 + 0x1_0000 * b2 + 0x100_0000 * b3
  {
    assert b[1..][1..] == b[2..] && b[2..][1..] == b[3..] && b[3..][1..] == [];
    assert FromLittleEndian(b[3..]) == b[3];
    assert FromLittleEndian(b[2..]) == b[2] + 256 * FromLittleEndian(b[3..]);
    assert FromLittleEndian(b[1..]) == b[1] + 256 * FromLittleEndian(b[2..]);
  }

  lemma FromLittleEndian8(b: seq<byte>)
    requires |b| == 8
    ensures FromLittleEndian(b) == FromLittleEndian(b[..4]) + TWO_32 * FromLittleEndian(b[4..])
  {
    FromLittleEndian4(b[..4]);
    assert b[1..][1..] == b[2..] && b[2..][1..] == b[3..] && b[3..][1..] == b[4..];
    assert FromLittleEndian(b[3..]) == b[3] + 256 * FromLittleEndian(b[4..]);
    assert FromLittleEndian(b[2..]) == b[2] + 256 * FromLittleEndian(b[3..]);
    assert FromLittleEndian(b[1..]) == b[1] + 256 * FromLittleEndian(b[2..]);
  }

  /** pb_decode_fixed32. */
  method DecodeFixed32(s: Input) returns (ok: bool, n: nat)
    requires s.Valid()
    modifies s
    ensures s.Valid() && s.End() == old(s.End())
    ensures match Take(old(s.Rest()), 4)
            case Ok(b, rest) => ok && n == FromLittleEndian(b) && s.Rest() == rest
            case Fail => !ok
  {
    hide FromLittleEndian, Assemble;
    n := 0;
    var b;
    ok, b := s.Read(4);
    if ok {
      n := Assemble(b[0], b[1], b[2], b[3]);
      AssembleIsSum(b[0], b[1], b[2], b[3]);
      FromLittleEndian4(b);
    }
  }

  /** pb_decode_fixed64: the high word lies 32 bits above the low one. */
  method DecodeFixed64(s: Input) returns (ok: bool, n: nat)
    requires s.Valid()
    modifies s
    ensures s.Valid() && s.End() == old(s.End())
    ensures match Take(old(s.Rest()), 8)
            case Ok(b, rest) => ok && n == FromLittleEndian(b) && s.Rest() == rest
            case Fail => !ok
  {
    hide FromLittleEndian, Assemble, BitOr;
    n := 0;
    var b;
    ok, b := s.Read(8);
    if ok {
      var low, high := Assemble(b[0], b[1], b[2], b[3]), Assemble(b[4], b[5], b[6], b[7]);
      AssembleIsSum(b[0], b[1], b[2], b[3]);
      AssembleIsSum(b[4], b[5], b[6], b[7]);
      FromLittleEndian4(b[..4]);
      FromLittleEndian4(b[4..]);
      FromLittleEndian8(b);
      OrWords(low, high);
      n := BitOr(low, high * TWO_32);
    }
  }

  lemma OrWords(low: nat, high: nat)
    requires low < TWO_32
    ensures BitOr(low, high * TWO_32) == low + TWO_32 * high
  {
    hide BitOr, Pow2;
    Powers();
    OrOfDisjoint(low, high, 32);
  }

  /** pb_dec_varint, pb_dec_uvarint and pb_dec_svarint: the number is cast to the storage type and
      has to survive that. */
  method DecodeInteger(s: Input, f: Field) returns (ok: bool, v: Value)
    requires s.Valid() && (f.ltype.LVarint? || f.ltype.LUVarint? || f.ltype.LSVarint?)
    modifies s
    ensures s.Valid() && s.End() == old(s.End())
    ensures match DecScalar(f, old(s.Rest()))
            case Ok(w, rest) => ok && v == w && s.Rest() == rest
            case Fail => !ok
  {
    hide DecVarint, CastSigned, CastUnsigned, SignedFits, UnsignedFits, DecodeZigZag;
    v := Number(0);
    var value;
    ok, value := s.DecodeVarint();
    if !ok {
      return;
    }
    if !KnownSize(f.dataSize) {
      return false, v;
    }
    if f.ltype.LUVarint? {
      CastUnsignedKeeps(value, f.dataSize);
      var clamped := CastUnsigned(value, f.dataSize);
      if clamped != value {
        return false, v;
      }
      v := Number(clamped);
    } else {
      var svalue := if f.ltype.LSVarint? then DecodeZigZag(value)
                    else if f.dataSize == 8 then ToSigned64(value) else ToSigned32(Low32(value));
      CastKeeps(svalue, f.dataSize);
      var clamped := CastSigned(svalue, f.dataSize);
      if clamped != svalue {
        return false, v;
      }
      v := Number(clamped);
    }
  }

  /** The decoders of the packable types. */
  method DecodeScalar(s: Input, f: Field) returns (ok: bool, v: Value)
    requires s.Valid() && Packable(f.ltype)
    modifies s
    ensures s.Valid() && s.End() == old(s.End())
    ensures match DecScalar(f, old(s.Rest()))
            case Ok(w, rest) => ok && v == w && s.Rest() == rest
            case Fail => !ok
  {
    hide DecVarint32, DecVarint, Narrow, FromLittleEndian, Take;
    v := Number(0);
    var n;
    match f.ltype {
      case LBool =>
        ok, n := s.DecodeVarint32();
        v := Number(if n != 0 then 1 else 0);
      case LVarint | LUVarint | LSVarint =>
        ok, v := DecodeInteger(s, f);
      case LFixed32 =>
        ok, n := DecodeFixed32(s);
        v := Number(n);
      case LFixed64 =>
        ok, n := DecodeFixed64(s);
        v := Number(n);
    }
  }

  /** pb_dec_bytes, pb_dec_string and pb_dec_fixed_length_bytes on static storage. */
  method DecodeBlob(s: Input, f: Field) returns (ok: bool, v: Value)
    requires s.Valid() && (f.ltype.LBytes? || f.ltype.LString? || f.ltype.LFixedLengthBytes?)
    requires f.dataSize <= PB_SIZE_MAX
    modifies s
    ensures s.Valid() && s.End() == old(s.End())
    ensures match DecDelimited(old(s.Rest()))
            case Ok(b, rest) => (ok <==> StoreBlob(f, b).Some?)
                && (ok ==> v == StoreBlob(f, b).value && s.Rest() == rest)
            case Fail => !ok
  {
    hide DecVarint32, Zeros, WrapSize;
    v := Blob([]);
    var size, data;
    ok, size := s.DecodeVarint32();
    if !ok {
      return;
    }
    match f.ltype {
      case LBytes =>
        if size > PB_SIZE_MAX || size > BytesAllocSize(size) || BytesAllocSize(size) > f.dataSize {
          return false, v;
        }
        ok, data := s.Read(size);
        v := Blob(data);
      case LString =>
        var allocSize := WrapSize((size + 1) % TWO_32);
        StringFits(f, size);
        if allocSize < size || allocSize > f.dataSize {
          return false, v;
        }
        ok, data := s.Read(size);
        if ok {
          v := Blob(data + Zeros(f.dataSize - size));
        }
      case LFixedLengthBytes =>
        if size > PB_SIZE_MAX {
          return false, v;
        }
        if size == 0 {
          v := Blob(Zeros(f.dataSize));
          return;
        }
        if size != f.dataSize {
          return false, v;
        }
        ok, data := s.Read(f.dataSize);
        v := Blob(data);
    }
  }

  /** The tests of pb_dec_string, with their two cuts, let exactly those through that fit. */
  lemma StringFits(f: Field, size: nat)
    requires size < TWO_32 && f.dataSize <= PB_SIZE_MAX
    ensures var allocSize := WrapSize((size + 1) % TWO_32);
            allocSize < size || allocSize > f.dataSize <==> !(size + 1 < TWO_32 && size + 1 <= f.dataSize)
  {
    if size + 1 < TWO_32 {
      FitsPbSize(size + 1, f.dataSize);
      if size + 1 > SIZE_MAX {
        WrapsBelow(size + 1);
      }
    }
  }

  // ---------------------------------------------------------------- fields

  /** PB_DECODERS[PB_LTYPE(f.type)]. */
  method DecodeValue(s: Input, f: Field, prior: Value) returns (ok: bool, v: Value)
    requires s.Valid() && WellFormedField(f) && (f.ltype.LSubmessage? ==> TypedValue(f, prior))
    modifies s
    ensures s.Valid() && s.End() <= old(s.End()) && (ok ==> s.End() == old(s.End()))
    ensures match DecValue(f, prior, old(s.Rest()))
            case Ok(w, rest) => ok && v == w && s.Rest() == rest
            case Fail => !ok
    decreases s.bytesLeft, 1
  {
    hide DecScalar, DecDelimited, StoreBlob, DecNoInit, TypedMessage, WellFormed;
    if Packable(f.ltype) {
      ok, v := DecodeScalar(s, f);
    } else if f.ltype.LSubmessage? {
      ok, v := DecodeSubmessage(s, f, prior);
    } else {
      ok, v := DecodeBlob(s, f);
    }
  }

  /** pb_dec_submessage. */
  method DecodeSubmessage(s: Input, f: Field, prior: Value) returns (ok: bool, v: Value)
    requires s.Valid() && WellFormedField(f) && f.ltype.LSubmessage? && TypedValue(f, prior)
    modifies s
    ensures s.Valid() && s.End() <= old(s.End()) && (ok ==> s.End() == old(s.End()))
    ensures match DecValue(f, prior, old(s.Rest()))
            case Ok(w, rest) => ok && v == w && s.Rest() == rest
            case Fail => !ok
    decreases s.bytesLeft, 0
  {
    hide DecDelimited, DecNoInit, TypedMessage, WellFormed, SetDefaults;
    v := prior;
    var sub;
    ok, sub := s.OpenSubstream();
    if !ok {
      return;
    }
    ghost var body := sub.Rest();
    var status, slots;
    if f.htype.Repeated? {
      status, slots := Decode(sub, f.sub, prior.slots);
    } else {
      status, slots := DecodeNoInit(sub, f.sub, prior.slots);
    }
    ok := s.CloseSubstream(sub);
    ok := status;
    v := Message(slots);
  }

  /** The packed branch of the REPEATED case of decode_static_field. */
  method DecodePacked(s: Input, f: Field, a: Filled) returns (ok: bool, r: Filled)
    requires s.Valid() && Packable(f.ltype) && |a.items| == f.arraySize
    modifies s
    ensures s.Valid() && s.End() <= old(s.End()) && (ok ==> s.End() == old(s.End()))
    ensures match DecRepeated(f, WT_STRING, a, old(s.Rest()))
            case Ok(a', rest) => ok && r == a' && s.Rest() == rest
            case Fail => !ok
  {
    hide DecDelimited, DecScalar;
    r := a;
    var sub;
    ok, sub := s.OpenSubstream();
    if !ok {
      return;
    }
    ghost var body, end := sub.Rest(), sub.End();
    var status := true;
    while sub.bytesLeft > 0 && r.count < f.arraySize
      invariant sub.Valid() && sub.End() == end
      invariant |r.items| == f.arraySize
      invariant DecPacked(f, a, body) == DecPacked(f, r, sub.Rest())
      decreases sub.bytesLeft
      modifies sub
    {
      var item;
      status, item := DecodeScalar(sub, f);
      if !status {
        break;
      }
      r := Filled(r.items[r.count := item], r.count + 1);
    }
    if sub.bytesLeft != 0 {
      return false, r;
    }
    ok := s.CloseSubstream(sub);
    ok := status;
  }

  /** The REPEATED case of decode_static_field. */
  method DecodeRepeated(s: Input, f: Field, wireType: nat, a: Filled) returns (ok: bool, r: Filled)
    requires s.Valid() && WellFormedField(f) && |a.items| == f.arraySize
    requires forall i :: 0 <= i < |a.items| ==> TypedValue(f, a.items[i])
    modifies s
    ensures s.Valid() && s.End() <= old(s.End()) && (ok ==> s.End() == old(s.End()))
    ensures match DecRepeated(f, wireType, a, old(s.Rest()))
            case Ok(a', rest) => ok && r == a' && s.Rest() == rest
            case Fail => !ok
    decreases s.bytesLeft, 2
  {
    hide DecDelimited, DecPacked, DecValue, TypedValue, WellFormedField;
    r := a;
    if wireType == WT_STRING && Packable(f.ltype) {
      ok, r := DecodePacked(s, f, a);
    } else {
      if a.count >= f.arraySize {
        return false, r;
      }
      var v;
      ok, v := DecodeValue(s, f, a.items[a.count]);
      r := Filled(a.items[a.count := v], a.count + 1);
    }
  }

  /** decode_static_field for row k. The count of a fixed-count array is the caller's. */
  method DecodeField(s: Input, fields: seq<Field>, k: nat, wireType: nat, slots: seq<Slot>, counter: nat,
      ghost st: State)
    returns (ok: bool, slots': seq<Slot>, counter': nat)
    requires s.Valid() && WellFormed(fields) && TypedMessage(fields, slots) && k < |fields|
    requires st.slots == slots && st.fixedCount == counter
    modifies s
    ensures s.Valid() && s.End() <= old(s.End()) && (ok ==> s.End() == old(s.End()))
    ensures match DecField(fields[k], wireType, Home(fields, k), st, old(s.Rest()))
            case Ok(st', rest) => ok && st' == st.(slots := slots', fixedCount := counter') && s.Rest() == rest
            case Fail => !ok
    decreases s.bytesLeft, 3
  {
    hide DecRepeated, DecValue, TypedValue, SetDefaults, ZeroSlots, WellFormed, WellFormedField;
    var f, h := fields[k], Home(fields, k);
    var slot := slots[h];
    RowIsTyped(fields, slots, k);
    slots', counter' := slots, counter;
    if f.htype.Repeated? {
      var size := if f.sizeOffset != 0 then slot.count else counter;
      var a;
      ok, a := DecodeRepeated(s, f, wireType, Filled(slot.items, size));
      if f.sizeOffset != 0 {
        slots' := slots[h := Arr(a.count, a.items)];
      } else {
        slots', counter' := slots[h := Fixed(a.items)], a.count;
      }
    } else {
      var v;
      if f.ltype.LSubmessage? {
        TargetTyped(fields, k, slot);
      }
      ok, v := DecodeValue(s, f, Target(f, slot));
      slots' := slots[h := Stored(f, slot, v)];
    }
  }

  lemma RowIsTyped(fields: seq<Field>, slots: seq<Slot>, k: nat)
    requires WellFormed(fields) && TypedMessage(fields, slots) && k < |fields|
    ensures |slots| == |fields| && TypedSlot(fields, Home(fields, k), slots[Home(fields, k)])
        && WellFormedField(fields[k])
  {
    hide TypedSlot, WellFormedField;
  }

  // ---------------------------------------------------------------- messages

  /** What pb_decode_noinit does with a record of the row its cursor stands on. */
  method DecodeRow(s: Input, iter: Iter, words: array<nat>, wireType: nat, slots: seq<Slot>, fixedField: Option<nat>,
      fixedCount: nat, ghost st: State)
    returns (ok: bool, slots': seq<Slot>, fixedField': Option<nat>, fixedCount': nat, ghost st': State)
    requires s.Valid() && iter.Valid() && iter.start != []
    requires WellFormed(iter.start) && TypedMessage(iter.start, slots)
    requires st == State(slots, st.seen, fixedField, fixedCount) && Shows(words, iter.start, st.seen)
    requires iter.pSize == LocalCounter ==> fixedField == Some(iter.pos)
    modifies s, iter, words
    ensures s.Valid() && s.End() <= old(s.End()) && (ok ==> s.End() == old(s.End()))
    ensures iter.Valid() && iter.pos == old(iter.pos)
    ensures match DecRow(iter.start, old(iter.pos), wireType, st, old(s.Rest()))
            case Next(next, rest) => ok && st' == next && s.Rest() == rest
            case _ => !ok
    ensures ok ==> st' == State(slots', st'.seen, fixedField', fixedCount') && Shows(words, iter.start, st'.seen)
    ensures ok && iter.pSize == LocalCounter ==> fixedField' == Some(iter.pos)
    decreases s.bytesLeft, 4
  {
    hide DecField, TypedMessage, WellFormed, Word, CountRequired, Offset;
    var k := iter.pos;
    var f := iter.start[k];
    slots', fixedField', fixedCount', st' := slots, fixedField, fixedCount, st;
    if f.htype.Repeated? && iter.pSize == At(iter.pData) {
      if fixedField' != Some(k) {
        if fixedField'.Some?
           && (fixedField'.value >= |iter.start| || fixedCount' != iter.start[fixedField'.value].arraySize) {
          return false, slots', fixedField', fixedCount', st';
        }
        fixedField', fixedCount' := Some(k), 0;
      }
      iter.pSize := LocalCounter;
    }
    st' := Track(iter.start, k, st).value;
    if f.htype.Required? {
      MarkSeen(words, iter.start, k, iter.requiredIndex, st'.seen);
    }
    st' := Mark(iter.start, k, st');
    ok, slots', fixedCount' := DecodeField(s, iter.start, k, wireType, slots, fixedCount', st');
    st' := st'.(slots := slots', fixedCount := fixedCount');
  }

  /** pb_field_set_to_default for row k; a row without a slot of its own resets its union. */
  method SetRowToDefault(fields: seq<Field>, k: nat, slots: seq<Slot>) returns (r: seq<Slot>)
    requires WellFormed(fields) && TypedMessage(fields, slots) && k < |fields|
    ensures |r| == |slots|
    ensures forall j :: 0 <= j < |slots| && j != Home(fields, k) ==> r[j] == slots[j]
    ensures r[Home(fields, k)] == DefaultSlot(fields[Home(fields, k)], false, slots[Home(fields, k)])
    decreases fields, 0
  {
    hide TypedValue, DefaultValue, WellFormed, WellFormedField;
    var f, h := fields[k], Home(fields, k);
    RowIsTyped(fields, slots, k);
    var slot := slots[h];
    match f.htype {
      case Repeated =>
        r := slots[h := if f.sizeOffset == 0 then slot else Arr(0, slot.items)];
      case Oneof =>
        r := slots[h := Union(0, slot.v)];
      case _ =>
        var v := SetValueToDefault(f, slot.v);
        r := slots[h := if f.htype.Optional? && f.sizeOffset != 0 then Opt(false, v) else One(v)];
    }
  }

  /** The init_data part of it. */
  method SetValueToDefault(f: Field, prior: Value) returns (v: Value)
    requires WellFormedField(f) && TypedValue(f, prior)
    ensures v == DefaultValue(f, prior)
    decreases f, 2
  {
    hide SetDefaults, TypedMessage, WellFormed;
    if f.ltype.LSubmessage? {
      var slots := SetToDefaults(f.sub, prior.slots);
      v := Message(slots);
    } else if f.initial.Some? {
      v := f.initial.value;
    } else {
      v := ZeroValue(f);
    }
  }

  /** Rows before n have been reset. */
  ghost predicate ResetBelow(fields: seq<Field>, slots: seq<Slot>, r: seq<Slot>, n: nat) {
    && |r| == |slots| == |fields|
    && forall j :: 0 <= j < |fields| ==> r[j] == if j < n then SetDefaults(fields, slots)[j] else slots[j]
  }

  lemma ResetStep(fields: seq<Field>, slots: seq<Slot>, r: seq<Slot>, k: nat, r': seq<Slot>)
    requires TypedMessage(fields, slots) && ResetBelow(fields, slots, r, k) && k < |fields| && |r'| == |r|
    requires forall j :: 0 <= j < |r| && j != Home(fields, k) ==> r'[j] == r[j]
    requires r'[Home(fields, k)] == DefaultSlot(fields[Home(fields, k)], false, r[Home(fields, k)])
    ensures ResetBelow(fields, slots, r', k + 1)
  {
    hide DefaultSlot, TypedMessage, TypedSlot, SetDefaults;
    var h := Home(fields, k);
    ResetAt(fields, slots, k);
    ResetAt(fields, slots, h);
  }

  /** Resetting the slot of row k, once or twice, gives it its default; a row without one has nothing to reset. */
  lemma ResetAt(fields: seq<Field>, slots: seq<Slot>, k: nat)
    requires TypedMessage(fields, slots) && k < |fields|
    ensures var d := SetDefaults(fields, slots);
            && |slots| == |d| == |fields|
            && (Home(fields, k) == k
                ==> d[k] == DefaultSlot(fields[k], false, slots[k]) == DefaultSlot(fields[k], false, d[k]))
            && (Home(fields, k) != k ==> d[k] == slots[k])
  {
    hide DefaultSlot, TypedSlot;
    HoleIsKept(fields, slots, k);
    assert SetDefaults(fields, slots)[k] == DefaultSlot(fields[k], Home(fields, k) != k, slots[k]);
    DefaultSlotIdempotent(fields[k], false, slots[k]);
  }

  lemma HoleIsKept(fields: seq<Field>, slots: seq<Slot>, k: nat)
    requires TypedMessage(fields, slots) && k < |fields|
    ensures |slots| == |fields| && (Home(fields, k) != k ==> slots[k] == Hole == DefaultSlot(fields[k], true, slots[k]))
  {
    hide TypedValue;
    assert TypedSlot(fields, k, slots[k]);
  }

  lemma ResetTyped(fields: seq<Field>, slots: seq<Slot>, r: seq<Slot>, n: nat)
    requires WellFormed(fields) && TypedMessage(fields, slots) && ResetBelow(fields, slots, r, n)
    ensures TypedMessage(fields, r)
    ensures n >= |fields| ==> r == SetDefaults(fields, slots)
  {
    hide DefaultSlot, TypedSlot, WellFormed;
    DefaultsTyped(fields, slots);
    assert |SetDefaults(fields, slots)| == |fields|;
  }

  lemma WellFormedTerminates(fields: seq<Field>)
    requires WellFormed(fields)
    ensures Terminated(fields)
  {
    NoTagZero(fields);
  }

  /** pb_message_set_to_defaults. */
  method SetToDefaults(fields: seq<Field>, slots: seq<Slot>) returns (r: seq<Slot>)
    requires WellFormed(fields) && TypedMessage(fields, slots)
    ensures r == SetDefaults(fields, slots)
    decreases fields, 1
  {
    hide WellFormed, TypedMessage, SetDefaults, ResetBelow, DefaultSlot, Home, Iter.Valid, Terminated;
    r := slots;
    WellFormedTerminates(fields);
    NothingReset(fields, slots);
    if fields == [] {
      return;
    }
    var iter := new Iter(fields, 0);
    var more := true;
    ghost var done := 0;
    while more
      invariant iter.Valid() && iter.start == fields && fresh(iter)
      invariant done <= |fields| && if more then done == iter.pos < |fields| else done == |fields|
      invariant ResetBelow(fields, slots, r, done)
      decreases |fields| - done
    {
      ResetTyped(fields, slots, r, done);
      ghost var before := r;
      r := SetRowToDefault(fields, iter.pos, r);
      SameLength(fields, slots, before, done);
      ResetStep(fields, slots, before, done, r);
      done := done + 1;
      more := iter.Next();
    }
    ResetTyped(fields, slots, r, done);
  }

  lemma NothingReset(fields: seq<Field>, slots: seq<Slot>)
    requires TypedMessage(fields, slots)
    ensures ResetBelow(fields, slots, slots, 0)
    ensures fields == [] ==> slots == SetDefaults(fields, slots)
  {
  }

  lemma SameLength(fields: seq<Field>, slots: seq<Slot>, r: seq<Slot>, n: nat)
    requires ResetBelow(fields, slots, r, n)
    ensures |r| == |fields|
  {
  }

  /** One turn of the loop of pb_decode_noinit. The cursor starts looking for the tag where the
      last record left it; stopped tells that a terminator was met. */
  method DecodeTurn(s: Input, iter: Iter, words: array<nat>, slots: seq<Slot>, fixedField: Option<nat>, fixedCount: nat,
      extensionRangeStart: nat, ghost st: State)
    returns (ok: bool, stopped: bool, slots': seq<Slot>, fixedField': Option<nat>, fixedCount': nat,
      extensionRangeStart': nat, ghost st': State)
    requires s.Valid() && s.bytesLeft > 0 && iter.Valid() && WellFormed(iter.start) && TypedMessage(iter.start, slots)
    requires st == State(slots, st.seen, fixedField, fixedCount) && |slots| == |iter.start|
    requires iter.start != [] ==> Shows(words, iter.start, st.seen)
    requires iter.start != [] && iter.pSize == LocalCounter ==> fixedField == Some(iter.pos)
    requires extensionRangeStart == 0 || extensionRangeStart == TWO_32 - 1
    modifies s, iter, words
    ensures s.Valid() && s.End() <= old(s.End()) && (ok ==> s.End() == old(s.End()) && s.bytesLeft < old(s.bytesLeft))
    ensures iter.Valid() && (extensionRangeStart' == 0 || extensionRangeStart' == TWO_32 - 1)
    ensures match DecTurn(iter.start, st, old(s.Rest()))
            case Next(next, rest) => ok && !stopped && st' == next && s.Rest() == rest
            case Stop(rest) => ok && stopped && st' == st && slots' == slots && s.Rest() == rest
            case Error => !ok && !stopped
    ensures ok ==> st' == State(slots', st'.seen, fixedField', fixedCount')
    ensures ok && iter.start != [] ==> Shows(words, iter.start, st'.seen)
    ensures ok && iter.start != [] && iter.pSize == LocalCounter ==> fixedField' == Some(iter.pos)
    decreases s.bytesLeft, 5
  {
    hide DecTag, DecRow, SkipField, TypedMessage, WellFormed, Word, Matches, Iter.Valid, FindTag, DecVarint32,
      RequiredMet;
    ghost var fields := iter.start;
    slots', fixedField', fixedCount', st' := slots, fixedField, fixedCount, st;
    extensionRangeStart' := extensionRangeStart;
    stopped := false;
    var wireType, tag, eof, found;
    ok, wireType, tag, eof := s.DecodeTag();
    if !ok {
      stopped := eof;
      ok := eof;
      return;
    }
    ghost var steps;
    found, steps := iter.Find(tag);
    if found {
      if iter.start == [] {
        ok := DecodeStray(s);
        return;
      }
      FoundRow(fields, tag, iter.pos);
      ok, slots', fixedField', fixedCount', st' :=
        DecodeRow(s, iter, words, wireType, slots, fixedField, fixedCount, st);
      return;
    }
    if tag >= extensionRangeStart {
      NoExtensions(fields);
      var extension := iter.FindExtension();
      extensionRangeStart' := TWO_32 - 1;
    }
    ok := s.Skip(wireType);
  }

  /** The terminator of an empty table, taken for a field: a required bool. */
  method DecodeStray(s: Input) returns (ok: bool)
    requires s.Valid()
    modifies s
    ensures s.Valid() && s.End() == old(s.End())
    ensures match DecVarint32(old(s.Rest()))
            case Ok(_, rest) => ok && s.Rest() == rest
            case Fail => !ok
  {
    hide DecVarint32;
    var v;
    ok, v := DecodeScalar(s, LAST_FIELD);
  }

  lemma FoundRow(fields: seq<Field>, tag: nat, k: nat)
    requires WellFormed(fields) && k < |fields| && Matches(fields[k], tag)
    ensures FindTag(fields, tag) == Some(k)
  {
    FindTagUnique(fields, k);
  }

  lemma NoExtensions(fields: seq<Field>)
    requires WellFormed(fields)
    ensures !exists k :: 0 <= k < |fields| && fields[k].ltype.LExtension?
  {
    forall k | 0 <= k < |fields| ensures !fields[k].ltype.LExtension? { assert WellFormedField(fields[k]); }
  }

  /** The loop of pb_decode_noinit stands at st; what is still to come decides the result. */
  ghost predicate Continues(fields: seq<Field>, start: seq<Slot>, bs: seq<byte>, st: State, rest: seq<byte>) {
    |start| == |st.slots| == |fields| && DecLoop(fields, Start(start), bs) == DecLoop(fields, st, rest)
  }

  lemma ContinuesTurn(fields: seq<Field>, start: seq<Slot>, bs: seq<byte>, st: State, rest: seq<byte>)
    requires Continues(fields, start, bs, st, rest) && rest != []
    ensures |st.slots| == |fields| == |start|
    ensures var t := DecTurn(fields, st, rest);
            && (t.Next? ==> Continues(fields, start, bs, t.st, t.rest))
            && (t.Stop? ==> DecLoop(fields, Start(start), bs) == Ran(st, t.rest, true))
            && (t.Error? ==> DecLoop(fields, Start(start), bs) == Broken)
  {
    hide DecTurn;
  }

  lemma ContinuesAt(fields: seq<Field>, start: seq<Slot>, bs: seq<byte>, st: State)
    ensures |start| == |fields| ==> Continues(fields, start, bs, Start(start), bs)
    ensures Continues(fields, start, bs, st, []) ==> DecLoop(fields, Start(start), bs) == Ran(st, [], false)
  {
    hide DecTurn;
  }

  /** What pb_decode_noinit returns once its loop is over. */
  lemma NoInitEnds(fields: seq<Field>, start: seq<Slot>, bs: seq<byte>)
    requires |start| == |fields|
    ensures var run := DecLoop(fields, Start(start), bs);
            && (run.Broken? ==> DecNoInit(fields, start, bs) == Fail)
            && (run.Ran? ==>
              DecNoInit(fields, start, bs) == if Complete(fields, run.st) then Ok(run.st.slots, run.rest) else Fail)
  {
    hide DecLoop, Complete;
  }

  lemma NextTyped(fields: seq<Field>, st: State, bs: seq<byte>)
    requires WellFormed(fields) && TypedMessage(fields, st.slots) && |st.slots| == |fields|
    ensures DecTurn(fields, st, bs).Next? ==> TypedMessage(fields, DecTurn(fields, st, bs).st.slots)
  {
    hide DecTurn, TypedMessage, WellFormed;
    if DecTurn(fields, st, bs).Next? {
      TurnTyped(fields, st, bs);
    }
  }

  lemma NoneSeen(fields: seq<Field>)
    ensures Word(fields, {}, 0, 32) == 0 && Word(fields, {}, 32, 32) == 0
  {
    WordEmpty(fields, 0, 32);
    WordEmpty(fields, 32, 32);
  }

  lemma LengthOfTyped(fields: seq<Field>, slots: seq<Slot>)
    requires TypedMessage(fields, slots)
    ensures |slots| == |fields|
  {
  }

  /** pb_decode_noinit. */
  method DecodeNoInit(s: Input, fields: seq<Field>, slots: seq<Slot>) returns (ok: bool, slots': seq<Slot>)
    requires s.Valid() && WellFormed(fields) && TypedMessage(fields, slots)
    modifies s
    ensures s.Valid() && s.End() <= old(s.End()) && (ok ==> s.End() == old(s.End()))
    ensures match DecNoInit(fields, slots, old(s.Rest()))
            case Ok(r, rest) => ok && slots' == r && s.Rest() == rest
            case Fail => !ok
    decreases s.bytesLeft, 6
  {
    hide DecTurn, DecLoop, DecNoInit, Continues, TypedMessage, WellFormed, Iter.Valid, Terminated, Word, Complete;
    ghost var bs := s.Rest();
    WellFormedTerminates(fields);
    LengthOfTyped(fields, slots);
    var iter := new Iter(fields, 0);
    var words := new nat[2](_ => 0);
    NoneSeen(fields);
    var fixedField: Option<nat>, fixedCount: nat := None, 0;
    var extensionRangeStart, stopped := 0, false;
    slots' := slots;
    ghost var st := Start(slots);
    ContinuesAt(fields, slots, bs, st);
    NoInitEnds(fields, slots, bs);
    while s.bytesLeft != 0
      invariant s.Valid() && s.End() == old(s.End())
      invariant fresh(iter) && fresh(words) && iter.Valid() && iter.start == fields
      invariant st == State(slots', st.seen, fixedField, fixedCount) && TypedMessage(fields, slots')
      invariant fields != [] ==> Shows(words, fields, st.seen)
      invariant fields != [] && iter.pSize == LocalCounter ==> fixedField == Some(iter.pos)
      invariant extensionRangeStart == 0 || extensionRangeStart == TWO_32 - 1
      invariant !stopped && Continues(fields, slots, bs, st, s.Rest())
      decreases s.bytesLeft
    {
      LengthOfTyped(fields, slots');
      ContinuesTurn(fields, slots, bs, st, s.Rest());
      NextTyped(fields, st, s.Rest());
      ok, stopped, slots', fixedField, fixedCount, extensionRangeStart, st :=
        DecodeTurn(s, iter, words, slots', fixedField, fixedCount, extensionRangeStart, st);
      if stopped {
        break;
      }
      if !ok {
        return;
      }
    }
    if !stopped {
      assert s.Rest() == [];
      ContinuesAt(fields, slots, bs, st);
    }
    assert DecLoop(fields, Start(slots), bs) == Ran(st, s.Rest(), stopped);
    ok := CheckComplete(iter, words, fixedField, fixedCount, st);
  }

  /** The two checks after the loop of pb_decode_noinit. */
  method CheckComplete(iter: Iter, words: array<nat>, fixedField: Option<nat>, fixedCount: nat, ghost st: State)
    returns (ok: bool)
    requires iter.Valid() && (iter.start != [] ==> Shows(words, iter.start, st.seen))
    requires fixedField == st.fixedField && fixedCount == st.fixedCount
    modifies iter
    ensures ok <==> Complete(iter.start, st)
  {
    hide Iter.Valid, RequiredMet, Word;
    if fixedField.Some? && (fixedField.value >= |iter.start| || fixedCount != iter.start[fixedField.value].arraySize) {
      return false;
    }
    ok := CheckRequired(iter, words, st.seen);
  }

  /** pb_decode. */
  method Decode(s: Input, fields: seq<Field>, slots: seq<Slot>) returns (ok: bool, slots': seq<Slot>)
    requires s.Valid() && WellFormed(fields) && TypedMessage(fields, slots)
    modifies s
    ensures s.Valid() && s.End() <= old(s.End()) && (ok ==> s.End() == old(s.End()))
    ensures match Dec(fields, slots, old(s.Rest()))
            case Ok(r, rest) => ok && slots' == r && s.Rest() == rest
            case Fail => !ok
    decreases s.bytesLeft, 7
  {
    hide SetDefaults, DecNoInit, WellFormed, TypedMessage;
    slots' := SetToDefaults(fields, slots);
    DefaultsTyped(fields, slots);
    ok, slots' := DecodeNoInit(s, fields, slots');
  }

  /** pb_decode_delimited: however little the inner decoder reads, the stream advances by the
      prefix and the announced length. */
  method DecodeDelimited(s: Input, fields: seq<Field>, slots: seq<Slot>) returns (ok: bool, slots': seq<Slot>)
    requires s.Valid() && WellFormed(fields) && TypedMessage(fields, slots)
    modifies s
    ensures s.Valid() && s.End() <= old(s.End()) && (ok ==> s.End() == old(s.End()))
    ensures match DecDelimited(old(s.Rest()))
            case Fail => !ok
            case Ok(body, rest) =>
              match Dec(fields, slots, body)
              case Fail => !ok
              case Ok(r, _) => ok && slots' == r && s.Rest() == rest
  {
    hide Dec, DecDelimited, WellFormed, TypedMessage;
    slots' := slots;
    var sub;
    ok, sub := s.OpenSubstream();
    if !ok {
      return;
    }
    var status;
    status, slots' := Decode(sub, fields, slots);
    ok := s.CloseSubstream(sub);
    ok := status;
  }
}
