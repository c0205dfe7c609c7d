/** The converse of the round trip: only valid messages come back. */
module Exactness {
  import opened Platform
  import opened Descriptor
  import opened Encoding
  import opened Decoding
  import opened Typing
  import opened RoundTrip

  /** No memory holds as many bytes. */
  const TOO_LONG := TWO_64 / 2

  /** Decoding the encoding of m into d succeeds, reads everything, and shows what m shows. */
  predicate Returns(fields: seq<Field>, m: seq<Slot>, d: seq<Slot>) {
    && EncMessage(fields, m).ok
    && var r := DecNoInit(fields, d, EncMessage(fields, m).out);
       r.Ok? && r.rest == [] && SeenMessage(fields, r.value) == SeenMessage(fields, m)
  }

  // ---------------------------------------------------------------- values

  /** The bytes behind the length prefix of a value that has one. */
  function Payload(f: Field, v: Value): seq<byte>
    requires EncValue(f, v).ok && !Packable(f.ltype) && !f.ltype.LExtension?
  {
    match f.ltype
    case LString => UpToNul(v.bs)
    case LSubmessage => EncMessage(f.sub, v.slots).out
    case LBytes | LFixedLengthBytes => v.bs
    case _ => []
  }

  lemma PayloadSent(f: Field, v: Value)
    requires EncValue(f, v).ok && !Packable(f.ltype) && !f.ltype.LExtension?
    ensures EncValue(f, v).out == StringBytes(Payload(f, v)) && |Payload(f, v)| < |EncValue(f, v).out|
  {
    hide EncMessage, UpToNul;
  }

  /** Whatever is decided about an encoded value, it is read to its end and no further. */
  lemma ValueEnds(f: Field, v: Value, prior: Value, c: seq<byte>)
    requires WellFormedField(f) && TypedValue(f, v) && EncValue(f, v).ok && |EncValue(f, v).out| < TOO_LONG
    ensures var r, r0 := DecValue(f, prior, EncValue(f, v).out + c), DecValue(f, prior, EncValue(f, v).out);
            && (r.Ok? <==> r0.Ok?)
            && (r.Ok? ==> r.value == r0.value && r.rest == c && r0.rest == [])
  {
    hide DecScalar, DecDelimited, DecNoInit, StoreBlob, EncValue, TypedValue, SeenValue, StringBytes, Embedded;
    GoodSizeOf(f);
    var out := EncValue(f, v).out;
    assert out + [] == out;
    if Packable(f.ltype) {
      ScalarRoundTrip(f, v, c);
      ScalarRoundTrip(f, v, []);
    } else {
      PayloadSent(f, v);
      DelimitedRoundTrip(Payload(f, v), c);
      DelimitedRoundTrip(Payload(f, v), []);
    }
  }

  /** A value that comes back is one the decoder can take back. */
  lemma {:induction false} ValueReturns(f: Field, v: Value, prior: Value)
    requires WellFormedField(f) && TypedValue(f, v) && Receives(f, prior)
    requires EncValue(f, v).ok && |EncValue(f, v).out| < TOO_LONG
    requires DecValue(f, prior, EncValue(f, v).out).Ok?
    requires SeenValue(f, DecValue(f, prior, EncValue(f, v).out).value) == SeenValue(f, v)
    ensures Storable(f, v)
    decreases f, 0
  {
    hide DecDelimited, DecNoInit, StoreBlob, EncMessage, StringBytes, SetDefaults, TypedMessage, WellFormed,
      SeenMessage, StorableMessage;
    if f.ltype.LSubmessage? {
      PayloadSent(f, v);
      var body := Payload(f, v);
      assert StringBytes(body) + [] == EncValue(f, v).out;
      DelimitedRoundTrip(body, []);
      DefaultsIdempotent(f.sub, SlotsOf(prior));
      DefaultsTyped(f.sub, SlotsOf(prior));
      MessageReturns(f.sub, v.slots, Embedded(f, prior));
    } else if f.ltype.LString? {
      PayloadSent(f, v);
      assert StringBytes(Payload(f, v)) + [] == EncValue(f, v).out;
      DelimitedRoundTrip(Payload(f, v), []);
      BlobRoundTrip(f, v);
    }
  }

  // ---------------------------------------------------------------- rows

  /** The state after row k, which is no array, was decoded. */
  lemma SingleEnds(fields: seq<Field>, k: nat, st: State, v: Value, c: seq<byte>)
    requires WellFormed(fields) && k < |fields| == |st.slots| && !fields[k].htype.Repeated?
    requires TypedValue(fields[k], v) && EncRecord(fields[k], v).ok && |EncRecord(fields[k], v).out| < TOO_LONG
    requires DecLoop(fields, st, EncRecord(fields[k], v).out + c).Ran?
    ensures EncValue(fields[k], v).ok && |EncValue(fields[k], v).out| < TOO_LONG
    ensures var r := DecValue(fields[k], Target(fields[k], st.slots[Home(fields, k)]), EncValue(fields[k], v).out);
            && r.Ok?
            && DecLoop(fields, st, EncRecord(fields[k], v).out + c)
                == DecLoop(fields, WithItem(fields, k, st, r.value), c)
  {
    hide DecValue, EncValue, DecRow, DecTurn, WellFormed, WellFormedField, TypedValue, Target, TagBytes, WithItem;
    var f := fields[k];
    FieldOf(fields, k);
    RecordSent(f, v, c);
    var bs := EncValue(f, v).out + c;
    var target := Target(f, st.slots[Home(fields, k)]);
    ValueEnds(f, v, target, c);
    RecordTurn(fields, k, WireType(f.ltype), st, bs);
    TagNotEmpty(WireType(f.ltype), f.tag);
    SingleTurnEnds(fields, k, WireType(f.ltype), st, bs);
  }

  lemma RecordSent(f: Field, v: Value, c: seq<byte>)
    requires EncRecord(f, v).ok
    ensures EncValue(f, v).ok && |EncValue(f, v).out| <= |EncRecord(f, v).out|
    ensures EncRecord(f, v).out + c == TagBytes(WireType(f.ltype), f.tag) + (EncValue(f, v).out + c)
  {
    hide EncValue, TagBytes;
  }

  lemma SingleTurnEnds(fields: seq<Field>, k: nat, wireType: nat, st: State, bs: seq<byte>)
    requires k < |fields| == |st.slots| && !fields[k].htype.Repeated?
    ensures var r := DecValue(fields[k], Target(fields[k], st.slots[Home(fields, k)]), bs);
            DecRow(fields, k, wireType, st, bs)
            == if r.Ok? then Next(WithItem(fields, k, st, r.value), r.rest) else Error
  {
    hide DecValue, Target, Stored, Home;
  }

  lemma ArrayTurnEnds(fields: seq<Field>, k: nat, wireType: nat, st: State, a: Filled, bs: seq<byte>)
    requires k < |fields| == |st.slots| && fields[k].htype.Repeated?
    ensures var r := DecRepeated(fields[k], wireType, a, bs);
            DecRow(fields, k, wireType, WithArray(fields, k, st, a), bs)
            == if r.Ok? then Next(WithArray(fields, k, st, r.value), r.rest) else Error
  {
    hide DecRepeated;
  }

  /** The records of an unpacked array: each is read to its end, and those that come back are storable. */
  lemma {:induction false} UnpackedReturns(fields: seq<Field>, k: nat, st: State, a: Filled, items: seq<Value>,
      c: seq<byte>)
    returns (a': Filled)
    requires WellFormed(fields) && k < |fields| == |st.slots| && fields[k].htype.Repeated? && !Packable(fields[k].ltype)
    requires a.count + |items| <= |a.items| == fields[k].arraySize
    requires forall i :: 0 <= i < |a.items| ==> TypedValue(fields[k], a.items[i])
    requires forall i :: 0 <= i < |items| ==> TypedValue(fields[k], items[i])
    requires InOrder(RecordParts(fields[k], items)).ok && |InOrder(RecordParts(fields[k], items)).out| < TOO_LONG
    requires DecLoop(fields, WithArray(fields, k, st, a), InOrder(RecordParts(fields[k], items)).out + c).Ran?
    ensures a'.count == a.count + |items| && |a'.items| == |a.items|
    ensures a'.items[..a.count] == a.items[..a.count]
    ensures DecLoop(fields, WithArray(fields, k, st, a), InOrder(RecordParts(fields[k], items)).out + c)
         == DecLoop(fields, WithArray(fields, k, st, a'), c)
    ensures SeenItems(fields[k], a'.items[a.count..a'.count]) == SeenItems(fields[k], items)
        ==> forall i :: 0 <= i < |items| ==> Storable(fields[k], items[i])
    decreases fields, 1, |items|
  {
    hide DecValue, EncValue, EncRecord, TypedValue, Storable, InOrder, RecordParts, SeenValue, DecRow, WithArray,
      WellFormed, TagBytes, DecTurn;
    var f := fields[k];
    FieldOf(fields, k);
    if items == [] {
      EmptyParts(f);
      a' := a;
      assert [] + c == c;
    } else {
      var rest := InOrder(RecordParts(f, items[1..])).out + c;
      RecordPartsFront(f, items);
      RecordSent(f, items[0], rest);
      var wireType, bs, prior := WireType(f.ltype), EncValue(f, items[0]).out + rest, a.items[a.count];
      assert InOrder(RecordParts(f, items)).out + c == EncRecord(f, items[0]).out + rest;
      ValueEnds(f, items[0], prior, rest);
      RecordTurn(fields, k, wireType, WithArray(fields, k, st, a), bs);
      TagNotEmpty(wireType, f.tag);
      ArrayTurnEnds(fields, k, wireType, st, a, bs);
      var v' := DecValue(f, prior, bs).value;
      var a1 := Filled(a.items[a.count := v'], a.count + 1);
      ValueTyped(f, prior, bs);
      a' := UnpackedReturns(fields, k, st, a1, items[1..], c);
      var got := a'.items[a.count..a'.count];
      assert a'.items[..a1.count][a.count] == v' && a1.items[..a1.count][..a.count] == a.items[..a.count];
      assert got[0] == v' && got[1..] == a'.items[a1.count..a'.count];
      if SeenItems(f, got) == SeenItems(f, items) {
        assert SeenItems(f, got)[0] == SeenValue(f, v') && SeenItems(f, items)[0] == SeenValue(f, items[0]);
        assert SeenItems(f, got)[1..] == SeenItems(f, got[1..]) && SeenItems(f, items)[1..] == SeenItems(f, items[1..]);
        ReceivesItem(f, prior);
        ValueReturns(f, items[0], prior);
      }
    }
  }

  /** What row k sends can be taken back. */
  predicate RowStorable(f: Field, s: Slot) {
    if f.htype.Repeated? then StorableItems(f, Spoken(f, s)) else Storable(f, ValueOf(s))
  }

  lemma TypedAt(fields: seq<Field>, m: seq<Slot>, k: nat)
    requires WellFormed(fields) && TypedMessage(fields, m) && k < |fields|
    ensures |m| == |fields| && TypedSlot(fields, Home(fields, k), m[Home(fields, k)])
    ensures WellFormedField(fields[k]) && DistinctTags(fields)
  {
    hide TypedSlot, WellFormedField, DistinctTags;
  }

  /** A row that is no array sends one record of its value, or nothing. */
  lemma SingleSent(fields: seq<Field>, m: seq<Slot>, k: nat)
    requires WellFormed(fields) && TypedMessage(fields, m) && k < |fields| == |m| && !fields[k].htype.Repeated?
    ensures var f, s := fields[k], m[Home(fields, k)];
            if Speaks(f, s) then EncSlot(f, s) == EncRecord(f, ValueOf(s)) && TypedValue(f, ValueOf(s))
            else EncSlot(f, s) == Nothing
  {
    hide EncRecord, TypedValue, IsDefaultValue, WellFormed, TypedMessage, WellFormedField, DistinctTags;
    TypedAt(fields, m, k);
    HomeOfHome(fields, k);
  }

  /** An array that does not overflow sends its items, packed or one by one. */
  lemma ArraySent(fields: seq<Field>, m: seq<Slot>, k: nat)
    requires WellFormed(fields) && TypedMessage(fields, m) && k < |fields| == |m| && fields[k].htype.Repeated?
    requires EncSlot(fields[k], m[k]).ok
    ensures var f, items := fields[k], Spoken(fields[k], m[k]);
            && |items| <= f.arraySize && (IsFixedCount(f) ==> |items| == f.arraySize)
            && (Speaks(f, m[k]) <==> items != [])
            && (forall i :: 0 <= i < |items| ==> TypedValue(f, items[i]))
            && EncSlot(f, m[k]) == if items == [] then Nothing
                 else if Packable(f.ltype) then
                   Then(Enc(true, TagBytes(WT_STRING, f.tag)), Delimited(InOrder(ItemParts(f, items))))
                 else InOrder(RecordParts(f, items))
  {
    hide TypedValue, ItemParts, RecordParts, InOrder, TagBytes, WellFormed, TypedMessage, WellFormedField,
      DistinctTags;
    TypedAt(fields, m, k);
    if IsFixedCount(fields[k]) {
      assert m[k].items[..fields[k].arraySize] == m[k].items;
    }
  }

  /** An array that has not arrived yet starts empty. */
  lemma FirstTurnEnds(fields: seq<Field>, k: nat, wireType: nat, st: State, bs: seq<byte>)
    requires k < |fields| == |st.slots| && fields[k].htype.Repeated?
    requires TypedSlot(fields, k, st.slots[k]) && (st.slots[k].Arr? ==> st.slots[k].count == 0)
    requires st.fixedField != Some(k) && DecRow(fields, k, wireType, st, bs).Next?
    ensures DecRow(fields, k, wireType, st, bs)
         == DecRow(fields, k, wireType, WithArray(fields, k, st, Filled(ItemsOf(st.slots[k]), 0)), bs)
  {
    hide DecField, TypedValue;
    assert st.slots[k := st.slots[k]] == st.slots;
  }

  lemma EmptyArray(fields: seq<Field>, d: seq<Slot>, k: nat)
    requires WellFormed(fields) && TypedMessage(fields, d) && Settled(fields, d) && k < |fields|
        && fields[k].htype.Repeated?
    ensures |d| == |fields| && TypedSlot(fields, k, d[k]) && (d[k].Arr? ==> d[k].count == 0)
    ensures |ItemsOf(d[k])| == fields[k].arraySize
    ensures forall i :: 0 <= i < |ItemsOf(d[k])| ==> TypedValue(fields[k], ItemsOf(d[k])[i])
  {
    hide WellFormed, TypedMessage, Settled, TypedValue, WellFormedField, DistinctTags;
    SettledAt(fields, d, k);
  }

  /** What is seen of an array that was received. */
  lemma ArraySeen(fields: seq<Field>, m: seq<Slot>, k: nat, st: State, a: Filled)
    requires WellFormed(fields) && TypedMessage(fields, m) && k < |fields| == |m| == |st.slots|
        && fields[k].htype.Repeated?
    requires EncSlot(fields[k], m[k]).ok && a.count == |Spoken(fields[k], m[k])| && |a.items| == fields[k].arraySize
    requires SeenSlot(fields, k, WithArray(fields, k, st, a).slots[k]) == SeenSlot(fields, k, m[k])
    ensures a.count <= |a.items|
        && SeenItems(fields[k], a.items[0..a.count]) == SeenItems(fields[k], Spoken(fields[k], m[k]))
  {
    hide TypedValue, EncSlot, SeenItems, WellFormed, TypedMessage, WellFormedField, DistinctTags, InOrder,
      RecordParts, ItemParts, TagBytes;
    TypedAt(fields, m, k);
    ArraySent(fields, m, k);
    assert a.items[0..a.count] == a.items[..a.count];
    if IsFixedCount(fields[k]) {
      assert a.items[..a.count] == a.items;
    }
  }

  lemma PackedEnds(fields: seq<Field>, m: seq<Slot>, d: seq<Slot>, k: nat, st: State, c: seq<byte>) returns (st': State)
    requires WellFormed(fields) && TypedMessage(fields, m) && TypedMessage(fields, d) && Settled(fields, d)
    requires k < |fields| == |st.slots| == |m| == |d| && fields[k].htype.Repeated? && Packable(fields[k].ltype)
    requires EncSlot(fields[k], m[k]).ok && |EncSlot(fields[k], m[k]).out| < TOO_LONG
    requires Speaks(fields[k], m[k]) && st.slots[k] == d[k] && st.fixedField != Some(k)
    requires DecLoop(fields, st, EncSlot(fields[k], m[k]).out + c).Ran?
    ensures |st'.slots| == |fields| && DecLoop(fields, st, EncSlot(fields[k], m[k]).out + c) == DecLoop(fields, st', c)
    ensures forall j :: 0 <= j < |fields| && j != k ==> st'.slots[j] == st.slots[j]
    ensures st'.fixedField == st.fixedField || st'.fixedField == Some(k)
    ensures RowStorable(fields[k], m[k])
  {
    hide EncSlot, Speaks, SeenSlot, SeenItems, DecTurn, DecRow, DecPacked, DecDelimited, InOrder, ItemParts,
      TagBytes, StringBytes, WellFormed, TypedMessage, Settled, TypedValue, WellFormedField, TypedSlot, Spoken,
      EncValue;
    var f, items := fields[k], Spoken(fields[k], m[k]);
    FieldOf(fields, k);
    GoodSizeOf(f);
    ArraySent(fields, m, k);
    EmptyArray(fields, d, k);
    var body, a0 := InOrder(ItemParts(f, items)).out, Filled(ItemsOf(d[k]), 0);
    PackedRoundTrip(f, a0, items);
    var payload := StringBytes(body) + c;
    PackedBytes(f, items, c);
    DelimitedRoundTrip(body, c);
    RecordTurn(fields, k, WT_STRING, st, payload);
    TagNotEmpty(WT_STRING, f.tag);
    FirstTurnEnds(fields, k, WT_STRING, st, payload);
    ArrayTurnEnds(fields, k, WT_STRING, st, a0, payload);
    st' := WithArray(fields, k, st, Append(a0, SeenItems(f, items)));
    AllStorable(f, items);
  }

  lemma PackedBytes(f: Field, items: seq<Value>, c: seq<byte>)
    requires InOrder(ItemParts(f, items)).ok
    ensures var items := InOrder(ItemParts(f, items));
            var e, body := Then(Enc(true, TagBytes(WT_STRING, f.tag)), Delimited(items)), items.out;
            e.out + c == TagBytes(WT_STRING, f.tag) + (StringBytes(body) + c) && |body| < |e.out|
  {
    hide TagBytes, InOrder, ItemParts;
  }

  lemma AllStorable(f: Field, items: seq<Value>)
    requires Packable(f.ltype) && |InOrder(ItemParts(f, items)).out| < TWO_32
    ensures StorableItems(f, items)
  {
    hide InOrder, ItemParts;
  }

  lemma {:induction false} UnpackedEnds(fields: seq<Field>, m: seq<Slot>, d: seq<Slot>, k: nat, st: State, c: seq<byte>)
    returns (st': State)
    requires WellFormed(fields) && TypedMessage(fields, m) && TypedMessage(fields, d) && Settled(fields, d)
    requires k < |fields| == |st.slots| == |m| == |d| && fields[k].htype.Repeated? && !Packable(fields[k].ltype)
    requires EncSlot(fields[k], m[k]).ok && |EncSlot(fields[k], m[k]).out| < TOO_LONG
    requires Speaks(fields[k], m[k]) && st.slots[k] == d[k] && st.fixedField != Some(k)
    requires DecLoop(fields, st, EncSlot(fields[k], m[k]).out + c).Ran?
    ensures |st'.slots| == |fields| && DecLoop(fields, st, EncSlot(fields[k], m[k]).out + c) == DecLoop(fields, st', c)
    ensures forall j :: 0 <= j < |fields| && j != k ==> st'.slots[j] == st.slots[j]
    ensures st'.fixedField == st.fixedField || st'.fixedField == Some(k)
    ensures SeenSlot(fields, k, st'.slots[k]) == SeenSlot(fields, k, m[k]) ==> RowStorable(fields[k], m[k])
    decreases fields, 2
  {
    hide EncSlot, EncRecord, Speaks, SeenSlot, SeenItems, DecTurn, DecRow, InOrder, RecordParts, TagBytes,
      WellFormed, TypedMessage, Settled, TypedValue, WellFormedField, TypedSlot, Spoken, EncValue, Storable,
      WithArray;
    var f, items := fields[k], Spoken(fields[k], m[k]);
    ArraySent(fields, m, k);
    EmptyArray(fields, d, k);
    var a0 := Filled(ItemsOf(d[k]), 0);
    var bytes := InOrder(RecordParts(f, items)).out + c;
    FirstRecord(fields, k, st, items, c);
    var a' := UnpackedReturns(fields, k, st, a0, items, c);
    st' := WithArray(fields, k, st, a');
    WithArrayFrame(fields, k, st, a');
    if SeenSlot(fields, k, st'.slots[k]) == SeenSlot(fields, k, m[k]) {
      ArraySeen(fields, m, k, st, a');
    }
  }

  lemma WithArrayFrame(fields: seq<Field>, k: nat, st: State, a: Filled)
    requires k < |fields| == |st.slots|
    ensures var st' := WithArray(fields, k, st, a);
            && (forall j :: 0 <= j < |fields| && j != k ==> st'.slots[j] == st.slots[j])
            && (st'.fixedField == st.fixedField || st'.fixedField == Some(k))
  {
  }

  /** The first record of an array starts it. */
  lemma FirstRecord(fields: seq<Field>, k: nat, st: State, items: seq<Value>, c: seq<byte>)
    requires WellFormed(fields) && k < |fields| == |st.slots| && fields[k].htype.Repeated? && items != []
    requires InOrder(RecordParts(fields[k], items)).ok
    requires TypedSlot(fields, k, st.slots[k]) && (st.slots[k].Arr? ==> st.slots[k].count == 0)
    requires st.fixedField != Some(k)
    requires DecLoop(fields, st, InOrder(RecordParts(fields[k], items)).out + c).Ran?
    ensures DecLoop(fields, st, InOrder(RecordParts(fields[k], items)).out + c)
         == DecLoop(fields, WithArray(fields, k, st, Filled(ItemsOf(st.slots[k]), 0)),
             InOrder(RecordParts(fields[k], items)).out + c)
  {
    hide EncRecord, DecTurn, DecRow, InOrder, RecordParts, TagBytes, WellFormed, TypedSlot, EncValue, WithArray;
    var f, tail := fields[k], InOrder(RecordParts(fields[k], items[1..])).out + c;
    RecordPartsFront(f, items);
    RecordSent(f, items[0], tail);
    var wireType, bs := WireType(f.ltype), EncValue(f, items[0]).out + tail;
    assert InOrder(RecordParts(f, items)).out + c == EncRecord(f, items[0]).out + tail;
    var st0 := WithArray(fields, k, st, Filled(ItemsOf(st.slots[k]), 0));
    RecordTurn(fields, k, wireType, st, bs);
    RecordTurn(fields, k, wireType, st0, bs);
    TagNotEmpty(wireType, f.tag);
    assert DecRow(fields, k, wireType, st, bs).Next?;
    FirstTurnEnds(fields, k, wireType, st, bs);
  }

  /** A row that is no array, on a slot that has been reset. */
  lemma {:induction false} SingleRowEnds(fields: seq<Field>, m: seq<Slot>, d: seq<Slot>, k: nat, st: State,
      c: seq<byte>)
    returns (st': State)
    requires WellFormed(fields) && TypedMessage(fields, m) && TypedMessage(fields, d) && Settled(fields, d)
    requires k < |fields| == |st.slots| == |m| == |d| && !fields[k].htype.Repeated?
    requires EncSlot(fields[k], m[Home(fields, k)]).ok && |EncSlot(fields[k], m[Home(fields, k)]).out| < TOO_LONG
    requires Speaks(fields[k], m[Home(fields, k)]) && st.slots[Home(fields, k)] == d[Home(fields, k)]
    requires DecLoop(fields, st, EncSlot(fields[k], m[Home(fields, k)]).out + c).Ran?
    ensures |st'.slots| == |fields|
    ensures DecLoop(fields, st, EncSlot(fields[k], m[Home(fields, k)]).out + c) == DecLoop(fields, st', c)
    ensures forall j :: 0 <= j < |fields| && j != Home(fields, k) ==> st'.slots[j] == st.slots[j]
    ensures st'.fixedField == st.fixedField
    ensures var h := Home(fields, k);
            SeenSlot(fields, h, st'.slots[h]) == SeenSlot(fields, h, m[h]) ==> RowStorable(fields[k], m[h])
    decreases fields, 2
  {
    hide EncSlot, EncRecord, EncValue, Speaks, SeenSlot, SeenValue, DecLoop, DecValue, Target, Stored, WellFormed,
      TypedMessage, Settled, TypedValue, WellFormedField, Home, Storable, Receives;
    var f, h := fields[k], Home(fields, k);
    var v, target := ValueOf(m[h]), Target(f, d[h]);
    FieldOf(fields, k);
    SingleSent(fields, m, k);
    SingleEnds(fields, k, st, v, c);
    TargetReceives(fields, d, k);
    var v' := DecValue(f, target, EncValue(f, v).out).value;
    st' := WithItem(fields, k, st, v');
    if SeenSlot(fields, h, st'.slots[h]) == SeenSlot(fields, h, m[h]) {
      StoredSeen(fields, m, d, k, v');
      ValueReturns(f, v, target);
    }
  }

  /** What is seen of a slot that one value was stored in. */
  lemma StoredSeen(fields: seq<Field>, m: seq<Slot>, d: seq<Slot>, k: nat, v: Value)
    requires WellFormed(fields) && TypedMessage(fields, m) && TypedMessage(fields, d) && Settled(fields, d)
    requires k < |fields| == |m| == |d| && !fields[k].htype.Repeated?
    requires Speaks(fields[k], m[Home(fields, k)])
    requires SeenSlot(fields, Home(fields, k), Stored(fields[k], d[Home(fields, k)], v))
          == SeenSlot(fields, Home(fields, k), m[Home(fields, k)])
    ensures SeenValue(fields[k], v) == SeenValue(fields[k], ValueOf(m[Home(fields, k)]))
  {
    hide SeenValue, TypedValue, IsDefaultValue, WellFormed, TypedMessage, Settled, WellFormedField, Home, FindTag;
    var h := Home(fields, k);
    TypedAt(fields, m, k);
    SettledAt(fields, d, k);
    SettledAt(fields, d, h);
    HomeOfHome(fields, k);
    NotExtension(fields[k]);
    FindTagUnique(fields, k);
  }

  lemma NotExtension(f: Field)
    requires WellFormedField(f)
    ensures !f.ltype.LExtension?
  {
  }

  // ---------------------------------------------------------------- messages

  /** Row k of m goes on the wire. */
  predicate Sends(fields: seq<Field>, m: seq<Slot>, k: nat)
    requires |m| == |fields|
  {
    k < |fields| && Speaks(fields[k], m[Home(fields, k)])
  }

  /** The slot h shows the same in both structs. */
  predicate SameSeen(fields: seq<Field>, h: nat, slots: seq<Slot>, m: seq<Slot>)
    requires h < |fields| == |slots| == |m|
  {
    SeenSlot(fields, h, slots[h]) == SeenSlot(fields, h, m[h])
  }

  /** At most one row of a slot does. */
  lemma OneSends(fields: seq<Field>, m: seq<Slot>, i: nat, j: nat)
    requires DistinctTags(fields) && |m| == |fields| && Sends(fields, m, i) && Sends(fields, m, j)
    requires Home(fields, i) == Home(fields, j)
    ensures i == j
  {
    hide Home, IsDefaultValue;
  }

  /** A message to send, a struct to receive it, and the state of the receiver before row k. */
  ghost predicate Underway(fields: seq<Field>, m: seq<Slot>, d: seq<Slot>, k: nat, st: State) {
    && WellFormed(fields) && TypedMessage(fields, m) && TypedMessage(fields, d) && Settled(fields, d)
    && |st.slots| == |m| == |d| == |fields|
    && (forall j :: k <= j < |fields| && Sends(fields, m, j) ==> st.slots[Home(fields, j)] == d[Home(fields, j)])
    && (st.fixedField.Some? ==> st.fixedField.value < k)
  }

  lemma {:induction false} RowEnds(fields: seq<Field>, m: seq<Slot>, d: seq<Slot>, k: nat, st: State, c: seq<byte>)
    returns (st': State)
    requires Underway(fields, m, d, k, st) && k < |fields| == |m| == |st.slots|
    requires EncSlot(fields[k], m[Home(fields, k)]).ok && |EncSlot(fields[k], m[Home(fields, k)]).out| < TOO_LONG
    requires DecLoop(fields, st, EncSlot(fields[k], m[Home(fields, k)]).out + c).Ran?
    ensures Underway(fields, m, d, k + 1, st') && |st'.slots| == |fields|
    ensures DecLoop(fields, st, EncSlot(fields[k], m[Home(fields, k)]).out + c) == DecLoop(fields, st', c)
    ensures !Sends(fields, m, k) ==> st' == st
    ensures forall h :: 0 <= h < |fields| && h != Home(fields, k) ==> st'.slots[h] == st.slots[h]
    ensures var h := Home(fields, k);
            Sends(fields, m, k) && SeenSlot(fields, h, st'.slots[h]) == SeenSlot(fields, h, m[h]) ==>
              RowStorable(fields[k], m[h])
    decreases fields, 3
  {
    hide EncSlot, Speaks, SeenSlot, DecLoop, WellFormed, TypedMessage, Settled, WellFormedField, Home, RowStorable,
      DistinctTags;
    FieldOf(fields, k);
    if !Speaks(fields[k], m[Home(fields, k)]) {
      SilentSends(fields, m, k);
      assert [] + c == c;
      st' := st;
    } else if !fields[k].htype.Repeated? {
      st' := SingleRowEnds(fields, m, d, k, st, c);
    } else if Packable(fields[k].ltype) {
      st' := PackedEnds(fields, m, d, k, st, c);
    } else {
      st' := UnpackedEnds(fields, m, d, k, st, c);
    }
    forall j | k + 1 <= j < |fields| && Sends(fields, m, j)
      ensures st'.slots[Home(fields, j)] == d[Home(fields, j)]
    {
      if Sends(fields, m, k) && Home(fields, j) == Home(fields, k) {
        OneSends(fields, m, j, k);
      }
    }
  }

  lemma SilentSends(fields: seq<Field>, m: seq<Slot>, k: nat)
    requires WellFormed(fields) && TypedMessage(fields, m) && k < |fields| == |m|
    requires EncSlot(fields[k], m[Home(fields, k)]).ok && !Speaks(fields[k], m[Home(fields, k)])
    ensures EncSlot(fields[k], m[Home(fields, k)]) == Nothing
  {
    hide EncSlot, Speaks, WellFormed, TypedMessage;
    if fields[k].htype.Repeated? {
      ArraySent(fields, m, k);
    } else {
      SingleSent(fields, m, k);
    }
  }

  /** The rows from k on, one after the other: the loop ends where the bytes do, and what comes back as it was
      seen is storable. */
  lemma {:induction false} RowsEnd(fields: seq<Field>, m: seq<Slot>, d: seq<Slot>, k: nat, st: State)
      returns (fin: State)
    requires Underway(fields, m, d, k, st) && k <= |fields| == |m| == |st.slots|
    requires |FieldParts(fields, m)| == |fields|
    requires InOrder(FieldParts(fields, m)[k..]).ok && |InOrder(FieldParts(fields, m)[k..]).out| < TOO_LONG
    requires DecLoop(fields, st, InOrder(FieldParts(fields, m)[k..]).out).Ran?
    ensures |fin.slots| == |fields|
    ensures DecLoop(fields, st, InOrder(FieldParts(fields, m)[k..]).out) == Ran(fin, [], false)
    ensures forall h ::
              0 <= h < |fields| && (forall j :: k <= j < |fields| && Sends(fields, m, j) ==> Home(fields, j) != h) ==>
                fin.slots[h] == st.slots[h]
    ensures forall j ::
              k <= j < |fields| && Sends(fields, m, j) && SameSeen(fields, Home(fields, j), fin.slots, m) ==>
                RowStorable(fields[j], m[Home(fields, j)])
    decreases fields, 4, |fields| - k
  {
    hide EncSlot, SeenSlot, DecLoop, Underway, Home, RowStorable, InOrder, FieldParts, Sends;
    var parts := FieldParts(fields, m);
    if k == |fields| {
      NoRows(fields, st, parts[k..]);
      fin := st;
    } else {
      var c := InOrder(parts[k + 1..]).out;
      RowBytes(fields, m, d, k, st);
      var st' := RowEnds(fields, m, d, k, st, c);
      fin := RowsEnd(fields, m, d, k + 1, st');
      LaterRows(fields, m, d, k, st);
    }
  }

  lemma NoRows(fields: seq<Field>, st: State, parts: seq<Enc>)
    requires |st.slots| == |fields| && parts == []
    ensures DecLoop(fields, st, InOrder(parts).out) == Ran(st, [], false)
  {
  }

  lemma RowBytes(fields: seq<Field>, m: seq<Slot>, d: seq<Slot>, k: nat, st: State)
    requires Underway(fields, m, d, k, st) && k < |fields| == |m|
    ensures var parts := FieldParts(fields, m);
            && |parts| == |fields| && parts[k] == EncSlot(fields[k], m[Home(fields, k)])
            && InOrder(parts[k..]) == Then(parts[k], InOrder(parts[k + 1..]))
  {
    hide EncSlot, InOrder, Home, WellFormed, TypedMessage, Settled;
    var parts := FieldParts(fields, m);
    assert parts[k..] == [parts[k]] + parts[k + 1..];
    InOrderFront(parts[k], parts[k + 1..]);
  }

  /** No later row of the slot of a row that sends does. */
  lemma LaterRows(fields: seq<Field>, m: seq<Slot>, d: seq<Slot>, k: nat, st: State)
    requires Underway(fields, m, d, k, st) && k < |fields| == |m|
    ensures Sends(fields, m, k) ==>
      forall j :: k + 1 <= j < |fields| && Sends(fields, m, j) ==> Home(fields, j) != Home(fields, k)
  {
    hide Home, Sends, TypedMessage, Settled, WellFormedField, DistinctTags;
    FieldOf(fields, k);
    forall j | k + 1 <= j < |fields| && Sends(fields, m, j) && Sends(fields, m, k)
        ensures Home(fields, j) != Home(fields, k) {
      if Home(fields, j) == Home(fields, k) {
        OneSends(fields, m, k, j);
      }
    }
  }

  /** The slot h of m, when all that is sent from it came back. */
  lemma SlotReturns(fields: seq<Field>, m: seq<Slot>, d: seq<Slot>, fin: State, h: nat)
    requires WellFormed(fields) && TypedMessage(fields, m) && TypedMessage(fields, d) && Settled(fields, d)
    requires h < |fields| == |m| == |d| == |fin.slots| && (Home(fields, h) == h ==> EncSlot(fields[h], m[h]).ok)
    requires SeenSlot(fields, h, fin.slots[h]) == SeenSlot(fields, h, m[h])
    requires (forall j :: 0 <= j < |fields| && Sends(fields, m, j) ==> Home(fields, j) != h) ==> fin.slots[h] == d[h]
    requires forall j ::
               0 <= j < |fields| && Sends(fields, m, j) && Home(fields, j) == h ==> RowStorable(fields[j], m[h])
    ensures StorableSlot(fields, h, m[h])
  {
    hide WellFormed, TypedMessage, Settled, SeenSlot, EncSlot, Sends, RowStorable, StorableSlot, Home, TypedSlot,
      WellFormedField;
    HomeSlot(fields, m, h);
    if m[h].Union? {
      UnionReturns(fields, m, d, fin, h);
    } else if !m[h].Hole? {
      if Sends(fields, m, h) {
        assert RowStorable(fields[h], m[h]);
      }
      OwnSlotReturns(fields, m, h);
    }
  }

  lemma HomeSlot(fields: seq<Field>, m: seq<Slot>, h: nat)
    requires WellFormed(fields) && TypedMessage(fields, m) && h < |fields| == |m|
    ensures !m[h].Hole? ==> Home(fields, h) == h
    ensures m[h].Hole? ==> StorableSlot(fields, h, m[h])
    ensures m[h].Union? ==> fields[h].htype.Oneof?
  {
    hide WellFormed, TypedValue, Storable, Home;
    assert TypedSlot(fields, h, m[h]);
  }

  lemma OwnSlotReturns(fields: seq<Field>, m: seq<Slot>, h: nat)
    requires WellFormed(fields) && TypedMessage(fields, m) && h < |fields| == |m| && Home(fields, h) == h
    requires !m[h].Union? && EncSlot(fields[h], m[h]).ok
    requires Sends(fields, m, h) ==> RowStorable(fields[h], m[h])
    ensures StorableSlot(fields, h, m[h])
  {
    hide WellFormed, TypedMessage, TypedValue, Storable, Home, IsDefaultValue, EncRecord, RecordParts, ItemParts,
      InOrder, TagBytes, WellFormedField, DistinctTags;
    TypedAt(fields, m, h);
    if fields[h].htype.Repeated? {
      ArraySent(fields, m, h);
      EmptyParts(fields[h]);
    }
  }

  /** A union whose tag is no member's is not sent, so it comes back without a tag. */
  lemma UnionReturns(fields: seq<Field>, m: seq<Slot>, d: seq<Slot>, fin: State, h: nat)
    requires WellFormed(fields) && TypedMessage(fields, m) && TypedMessage(fields, d) && Settled(fields, d)
    requires h < |fields| == |m| == |d| == |fin.slots| && m[h].Union? && Home(fields, h) == h && fields[h].htype.Oneof?
    requires SeenSlot(fields, h, fin.slots[h]) == SeenSlot(fields, h, m[h])
    requires (forall j :: 0 <= j < |fields| && Sends(fields, m, j) ==> Home(fields, j) != h) ==> fin.slots[h] == d[h]
    requires forall j ::
               0 <= j < |fields| && Sends(fields, m, j) && Home(fields, j) == h ==> RowStorable(fields[j], m[h])
    ensures StorableSlot(fields, h, m[h])
  {
    hide WellFormed, TypedMessage, Settled, SeenValue, TypedValue, WellFormedField, Storable, Home, FindTag;
    SettledAt(fields, d, h);
    if m[h].which != 0 {
      if j :| 0 <= j < |fields| && Sends(fields, m, j) && Home(fields, j) == h {
        MemberSends(fields, m, h, j);
      } else {
        assert false;
      }
    }
  }

  lemma MemberSends(fields: seq<Field>, m: seq<Slot>, h: nat, j: nat)
    requires WellFormed(fields) && j < |fields| == |m| && h < |fields| && Home(fields, j) == h && fields[h].htype.Oneof?
    requires Sends(fields, m, j) && m[h].Union?
    ensures FindTag(fields, m[h].which) == Some(j) && !fields[j].htype.Repeated?
    ensures RowStorable(fields[j], m[h]) == Storable(fields[j], m[h].v)
  {
    hide WellFormed, WellFormedField, Storable, Home, FindTag, IsDefaultValue;
    FieldOf(fields, j);
    NotExtension(fields[j]);
    FindTagUnique(fields, j);
  }

  /** A message that comes back as it is seen is a valid one. */
  lemma {:induction false} MessageReturns(fields: seq<Field>, m: seq<Slot>, d: seq<Slot>)
    requires WellFormed(fields) && TypedMessage(fields, m) && TypedMessage(fields, d) && Settled(fields, d)
    requires EncMessage(fields, m).ok && |EncMessage(fields, m).out| < TOO_LONG
    requires DecNoInit(fields, d, EncMessage(fields, m).out).Ok?
    requires SeenMessage(fields, DecNoInit(fields, d, EncMessage(fields, m).out).value) == SeenMessage(fields, m)
    ensures StorableMessage(fields, m)
    decreases fields, 5
  {
    hide WellFormed, TypedMessage, Settled, DecLoop, SeenSlot, StorableSlot, InOrder, FieldParts, Sends,
      RowStorable, Complete, EncSlot, Home;
    var parts := FieldParts(fields, m);
    LengthOf(fields, m);
    LengthOf(fields, d);
    PartsOf(fields, m);
    StartsUnderway(fields, m, d);
    assert parts[0..] == parts;
    var fin := RowsEnd(fields, m, d, 0, Start(d));
    forall h | 0 <= h < |fields| ensures StorableSlot(fields, h, m[h]) {
      assert SeenMessage(fields, fin.slots)[h] == SeenMessage(fields, m)[h];
      SlotIsSent(fields, m, d, h);
      SlotReturns(fields, m, d, fin, h);
    }
  }

  lemma StartsUnderway(fields: seq<Field>, m: seq<Slot>, d: seq<Slot>)
    requires WellFormed(fields) && TypedMessage(fields, m) && TypedMessage(fields, d) && Settled(fields, d)
    ensures Underway(fields, m, d, 0, Start(d))
  {
    hide WellFormed, Settled, Sends, Home;
    LengthOf(fields, m);
    LengthOf(fields, d);
  }

  /** A message is encoded when each of its rows is. */
  lemma SlotIsSent(fields: seq<Field>, m: seq<Slot>, d: seq<Slot>, h: nat)
    requires WellFormed(fields) && TypedMessage(fields, m) && TypedMessage(fields, d) && Settled(fields, d)
    requires EncMessage(fields, m).ok && h < |fields| == |m|
    ensures Home(fields, h) == h ==> EncSlot(fields[h], m[h]).ok
  {
    hide WellFormed, TypedMessage, Settled, InOrder, EncSlot, Home, Sends;
    var parts := FieldParts(fields, m);
    StartsUnderway(fields, m, d);
    InOrderStep(parts, h);
    InOrderBegins(parts, h + 1);
    assert parts[h] == EncSlot(fields[h], SlotAt(m, Home(fields, h)));
  }

  /** The round trip is exact: a message, of less than 2^63 bytes when it is encoded, comes back exactly when it
      is valid. */
  lemma ReturnsExactly(fields: seq<Field>, m: seq<Slot>, d: seq<Slot>)
    requires WellFormed(fields) && TypedMessage(fields, m) && TypedMessage(fields, d) && Settled(fields, d)
    ensures |EncMessage(fields, m).out| < TOO_LONG ==> (Returns(fields, m, d) <==> StorableMessage(fields, m))
  {
    hide WellFormed, TypedMessage, Settled, DecNoInit, EncMessage, StorableMessage, SeenMessage;
    if StorableMessage(fields, m) {
      MessageRoundTrip(fields, m, d);
    } else if |EncMessage(fields, m).out| < TOO_LONG && Returns(fields, m, d) {
      MessageReturns(fields, m, d);
    }
  }
}
