/** When a message that was decoded, from any bytes, can be encoded and decoded again. */
module Acceptance {
  import opened Platform
  import opened Descriptor
  import opened Encoding
  import opened Decoding
  import opened Typing
  import opened RoundTrip
  import opened Exactness
  import opened Bounds

  // ---------------------------------------------------------------- what can be encoded

  /** Bytes that fit their field; in a message, those of the rows that are sent. */
  predicate Encodable(f: Field, v: Value)
    decreases f, 0
  {
    match f.ltype
    case LBytes => v.Blob? && BytesFit(f, |v.bs|)
    case LSubmessage => v.Message? && MessageEncodable(f.sub, v.slots)
    case _ => true
  }

  /** No count beyond its array, and every item that is sent encodable. */
  predicate RowEncodable(f: Field, s: Slot)
    decreases f, 1
  {
    if f.htype.Repeated? then
      var count := if s.Arr? then s.count else |ItemsOf(s)|;
      count <= |ItemsOf(s)| && forall i :: 0 <= i < count ==> Encodable(f, ItemsOf(s)[i])
    else Speaks(f, s) ==> Encodable(f, ValueOf(s))
  }

  predicate MessageEncodable(fields: seq<Field>, slots: seq<Slot>)
    decreases fields, 2
  {
    |slots| == |fields| && forall k :: 0 <= k < |fields| ==> RowEncodable(fields[k], slots[Home(fields, k)])
  }

  /** A series succeeds when every part of it does. */
  lemma {:induction false} InOrderOk(parts: seq<Enc>)
    ensures InOrder(parts).ok <==> forall i :: 0 <= i < |parts| ==> parts[i].ok
  {
    if parts != [] {
      InOrderOk(parts[..|parts| - 1]);
    }
  }

  /** A typed value is encoded exactly when its bytes fit. */
  lemma {:induction false} ValueEncodes(f: Field, v: Value)
    requires WellFormedField(f) && TypedValue(f, v)
    ensures EncValue(f, v).ok <==> Encodable(f, v)
    decreases f, 0
  {
    hide WellFormed, TypedMessage, MessageEncodable, EncMessage;
    if f.ltype.LSubmessage? {
      MessageEncodes(f.sub, v.slots);
    }
  }

  lemma {:induction false} ItemsEncode(f: Field, items: seq<Value>)
    requires WellFormedField(f) && forall i :: 0 <= i < |items| ==> TypedValue(f, items[i])
    ensures InOrder(ItemParts(f, items)).ok <==> forall i :: 0 <= i < |items| ==> Encodable(f, items[i])
    ensures InOrder(RecordParts(f, items)).ok <==> forall i :: 0 <= i < |items| ==> Encodable(f, items[i])
    decreases f, 1
  {
    hide WellFormedField, TypedValue, Encodable, EncValue, InOrder, TagBytes;
    InOrderOk(ItemParts(f, items));
    InOrderOk(RecordParts(f, items));
    NotExtension(f);
    forall i | 0 <= i < |items|
      ensures ItemParts(f, items)[i].ok == RecordParts(f, items)[i].ok == Encodable(f, items[i])
    {
      ValueEncodes(f, items[i]);
    }
  }

  lemma {:induction false} RowEncodes(fields: seq<Field>, m: seq<Slot>, k: nat)
    requires WellFormed(fields) && TypedMessage(fields, m) && k < |fields| == |m|
    ensures EncSlot(fields[k], m[Home(fields, k)]).ok <==> RowEncodable(fields[k], m[Home(fields, k)])
    decreases fields, 0
  {
    hide WellFormed, TypedMessage, WellFormedField, TypedValue, Encodable, EncValue, IsDefaultValue, InOrder,
      ItemParts, RecordParts, TagBytes, DistinctTags, Home;
    TypedAt(fields, m, k);
    NotExtension(fields[k]);
    if fields[k].htype.Repeated? {
      ArrayEncodes(fields[k], m[Home(fields, k)]);
      HomeOfHome(fields, k);
    } else {
      SingleSent(fields, m, k);
      if Speaks(fields[k], m[Home(fields, k)]) {
        ValueEncodes(fields[k], ValueOf(m[Home(fields, k)]));
      }
    }
  }

  lemma {:induction false} ArrayEncodes(f: Field, s: Slot)
    requires WellFormedField(f) && f.htype.Repeated? && (if f.sizeOffset == 0 then s.Fixed? else s.Arr?)
    requires |s.items| == f.arraySize && forall i :: 0 <= i < |s.items| ==> TypedValue(f, s.items[i])
    ensures EncSlot(f, s).ok <==> RowEncodable(f, s)
    decreases f, 2
  {
    hide WellFormedField, TypedValue, Encodable, EncValue, InOrder, ItemParts, RecordParts, TagBytes;
    var count := if s.Arr? then s.count else |s.items|;
    if count <= |s.items| {
      ItemsEncode(f, s.items[..count]);
      assert forall i :: 0 <= i < count ==> s.items[..count][i] == s.items[i];
    }
  }

  /** A typed message is encoded exactly when no count exceeds its array and all bytes that are sent fit. */
  lemma {:induction false} MessageEncodes(fields: seq<Field>, m: seq<Slot>)
    requires WellFormed(fields) && TypedMessage(fields, m)
    ensures EncMessage(fields, m).ok <==> MessageEncodable(fields, m)
    decreases fields, 1
  {
    hide WellFormed, TypedMessage, EncSlot, RowEncodable, InOrder, Home;
    LengthOf(fields, m);
    var parts := FieldParts(fields, m);
    InOrderOk(parts);
    forall k | 0 <= k < |fields| ensures parts[k].ok <==> RowEncodable(fields[k], m[Home(fields, k)]) {
      RowEncodes(fields, m, k);
    }
  }

  /** Accepted and not encodable: a bytes item of size 200 in a field of 10, in a fixed-count array that no record
      was for. */
  lemma AcceptedNotEncodable()
    ensures var f := Field(1, LBytes, Repeated, Static, 0, 0, 10, 1, [], None, 0);
            var prior := [Fixed([Blob(Zeros(200))])];
            && WellFormed([f]) && Roomy([f]) && TypedMessage([f], prior)
            && Dec([f], prior, []) == Ok(prior, []) && !EncMessage([f], prior).ok
  {
    hide Zeros, EncMessage, MessageEncodable, DecLoop;
    var f := Field(1, LBytes, Repeated, Static, 0, 0, 10, 1, [], None, 0);
    var fields, prior := [f], [Fixed([Blob(Zeros(200))])];
    assert WellFormedField(f) && RoomyField(f);
    assert TypedValue(f, Blob(Zeros(200)));
    assert Home(fields, 0) == 0 && TypedSlot(fields, 0, prior[0]);
    assert SetDefaults(fields, prior) == prior;
    NothingToRead(fields, prior);
    MessageEncodes(fields, prior);
    TooLong(fields, prior);
  }

  lemma NothingToRead(fields: seq<Field>, slots: seq<Slot>)
    requires |slots| == |fields|
    ensures DecLoop(fields, Start(slots), []) == Ran(Start(slots), [], false)
  {
  }

  lemma TooLong(fields: seq<Field>, slots: seq<Slot>)
    requires |fields| == |slots| == 1 && fields[0].ltype.LBytes? && fields[0].htype.Repeated?
        && fields[0].dataSize < 200
    requires slots[0] == Fixed([Blob(Zeros(200))])
    ensures !MessageEncodable(fields, slots)
  {
    hide Zeros;
    assert Home(fields, 0) == 0;
    assert !Encodable(fields[0], ItemsOf(slots[0])[0]);
    assert !RowEncodable(fields[0], slots[Home(fields, 0)]);
  }

  // ---------------------------------------------------------------- decoded again

  /** The length prefixes of embedded messages and packed arrays are 32-bit numbers, and fixed-count arrays hold
      what the decoder would store. */
  predicate Returnable(f: Field, v: Value)
    decreases f, 0
  {
    f.ltype.LSubmessage? ==>
      v.Message? && MessageReturnable(f.sub, v.slots) && |EncMessage(f.sub, v.slots).out| < TWO_32
  }

  predicate SlotReturnable(fields: seq<Field>, k: nat, s: Slot)
    requires k < |fields|
    decreases fields, 1
  {
    match s
    case One(v) => (fields[k].htype.Optional? && IsDefaultValue(fields[k], v)) || Returnable(fields[k], v)
    case Opt(has, v) => has ==> Returnable(fields[k], v)
    case Arr(count, items) =>
      count <= |items| ==>
        && (forall i :: 0 <= i < count ==> Returnable(fields[k], items[i]))
        && (Packable(fields[k].ltype) ==> |InOrder(ItemParts(fields[k], items[..count])).out| < TWO_32)
    case Fixed(items) => StorableItems(fields[k], items)
    case Union(which, v) => which == 0 || (var j := FindTag(fields, which); j.Some? ==> Returnable(fields[j.value], v))
    case Hole => true
  }

  predicate MessageReturnable(fields: seq<Field>, slots: seq<Slot>)
    decreases fields, 2
  {
    |slots| == |fields| && forall k :: 0 <= k < |fields| ==> SlotReturnable(fields, k, slots[k])
  }

  lemma {:induction false} ValueStorable(f: Field, v: Value)
    requires InBounds(f, v)
    ensures Storable(f, v) <==> Returnable(f, v)
    decreases f, 0
  {
    hide MessageInBounds, MessageReturnable, StorableMessage, EncMessage;
    if f.ltype.LSubmessage? {
      MessageStorable(f.sub, v.slots);
    }
  }

  lemma {:induction false} SlotStorable(fields: seq<Field>, k: nat, s: Slot)
    requires k < |fields| && SlotInBounds(fields, k, s)
    ensures StorableSlot(fields, k, s) <==> SlotReturnable(fields, k, s)
    decreases fields, 1
  {
    hide InBounds, Storable, Returnable, IsDefaultValue, InOrder, ItemParts, Home, FindTag;
    match s {
      case One(v) => ValueStorable(fields[k], v);
      case Opt(has, v) =>
        if has {
          ValueStorable(fields[k], v);
        }
      case Arr(count, items) =>
        forall i | 0 <= i < count ensures Storable(fields[k], items[i]) <==> Returnable(fields[k], items[i]) {
          ValueStorable(fields[k], items[i]);
        }
        forall i | 0 <= i < count ensures items[..count][i] == items[i] {
        }
      case Fixed(_) =>
      case Union(which, v) =>
        if which != 0 {
          ValueStorable(fields[FindTag(fields, which).value], v);
        }
      case Hole =>
    }
  }

  lemma {:induction false} MessageStorable(fields: seq<Field>, m: seq<Slot>)
    requires MessageInBounds(fields, m)
    ensures StorableMessage(fields, m) <==> MessageReturnable(fields, m)
    decreases fields, 2
  {
    hide SlotInBounds, StorableSlot, SlotReturnable;
    forall k | 0 <= k < |fields| ensures StorableSlot(fields, k, m[k]) <==> SlotReturnable(fields, k, m[k]) {
      SlotStorable(fields, k, m[k]);
    }
  }

  /** A message that was decoded from any bytes, into anything, can be encoded exactly when its bytes fit, and comes
      back from that, seen as it is, exactly when it is returnable. */
  lemma AcceptedFromAnything(fields: seq<Field>, prior: seq<Slot>, bs: seq<byte>, d: seq<Slot>)
    requires WellFormed(fields) && Roomy(fields) && TypedMessage(fields, prior) && TypedMessage(fields, d)
    requires Dec(fields, prior, bs).Ok?
    ensures var m := Dec(fields, prior, bs).value;
            && (EncMessage(fields, m).ok <==> MessageEncodable(fields, m))
            && (|EncMessage(fields, m).out| < TOO_LONG ==>
              (Returns(fields, m, SetDefaults(fields, d)) <==> MessageReturnable(fields, m)))
  {
    hide WellFormed, Roomy, TypedMessage, MessageInBounds, Dec, EncMessage, MessageEncodable, MessageReturnable,
      StorableMessage, Returns, SetDefaults;
    var m := Dec(fields, prior, bs).value;
    AcceptedInBounds(fields, prior, bs);
    MessageEncodes(fields, m);
    MessageStorable(fields, m);
    DefaultsTyped(fields, d);
    DefaultsIdempotent(fields, d);
    ReturnsExactly(fields, m, SetDefaults(fields, d));
  }

  // ---------------------------------------------------------------- with fixed-count arrays within bounds

  /** Embedded messages and packed arrays that are sent are shorter than 2^32 bytes. */
  predicate Short(f: Field, v: Value)
    decreases f, 0
  {
    f.ltype.LSubmessage? ==>
      v.Message? && MessageShort(f.sub, v.slots) && |EncMessage(f.sub, v.slots).out| < TWO_32
  }

  predicate ItemsShort(f: Field, items: seq<Value>)
    decreases f, 1
  {
    && (forall i :: 0 <= i < |items| ==> Short(f, items[i]))
    && (Packable(f.ltype) ==> |InOrder(ItemParts(f, items)).out| < TWO_32)
  }

  predicate SlotShort(fields: seq<Field>, k: nat, s: Slot)
    requires k < |fields|
    decreases fields, 1
  {
    match s
    case One(v) => (fields[k].htype.Optional? && IsDefaultValue(fields[k], v)) || Short(fields[k], v)
    case Opt(has, v) => has ==> Short(fields[k], v)
    case Arr(count, items) => count <= |items| ==> ItemsShort(fields[k], items[..count])
    case Fixed(items) => ItemsShort(fields[k], items)
    case Union(which, v) => which == 0 || (var j := FindTag(fields, which); j.Some? ==> Short(fields[j.value], v))
    case Hole => true
  }

  predicate MessageShort(fields: seq<Field>, slots: seq<Slot>)
    decreases fields, 2
  {
    |slots| == |fields| && forall k :: 0 <= k < |fields| ==> SlotShort(fields, k, slots[k])
  }

  lemma {:induction false} ValueShort(f: Field, v: Value)
    requires InBounds(f, v) && FixedInBounds(f, v)
    ensures Storable(f, v) <==> Short(f, v)
    decreases f, 0
  {
    hide MessageInBounds, MessageFixedInBounds, MessageShort, StorableMessage, EncMessage;
    if f.ltype.LSubmessage? {
      MessageShortens(f.sub, v.slots);
    }
  }

  lemma {:induction false} ItemsShorten(f: Field, items: seq<Value>)
    requires forall i :: 0 <= i < |items| ==> InBounds(f, items[i]) && FixedInBounds(f, items[i])
    ensures StorableItems(f, items) <==> ItemsShort(f, items)
    decreases f, 1
  {
    hide InBounds, FixedInBounds, Storable, Short, InOrder, ItemParts;
    forall i | 0 <= i < |items| ensures Storable(f, items[i]) <==> Short(f, items[i]) {
      ValueShort(f, items[i]);
    }
  }

  lemma {:induction false} SlotShortens(fields: seq<Field>, k: nat, s: Slot)
    requires k < |fields| && SlotInBounds(fields, k, s) && SlotFixedInBounds(fields, k, s)
    ensures StorableSlot(fields, k, s) <==> SlotShort(fields, k, s)
    decreases fields, 1
  {
    hide InBounds, FixedInBounds, Storable, Short, StorableItems, ItemsShort, IsDefaultValue, Home, FindTag;
    match s {
      case One(v) => ValueShort(fields[k], v);
      case Opt(has, v) =>
        if has {
          ValueShort(fields[k], v);
        }
      case Arr(count, items) => ItemsShorten(fields[k], items[..count]);
      case Fixed(items) => ItemsShorten(fields[k], items);
      case Union(which, v) =>
        if which != 0 {
          ValueShort(fields[FindTag(fields, which).value], v);
        }
      case Hole =>
    }
  }

  lemma {:induction false} MessageShortens(fields: seq<Field>, m: seq<Slot>)
    requires MessageInBounds(fields, m) && MessageFixedInBounds(fields, m)
    ensures StorableMessage(fields, m) <==> MessageShort(fields, m)
    decreases fields, 2
  {
    hide SlotInBounds, SlotFixedInBounds, StorableSlot, SlotShort;
    forall k | 0 <= k < |fields| ensures StorableSlot(fields, k, m[k]) <==> SlotShort(fields, k, m[k]) {
      SlotShortens(fields, k, m[k]);
    }
  }

  lemma {:induction false} BoundedEncodable(f: Field, v: Value)
    requires WellFormedField(f) && TypedValue(f, v) && InBounds(f, v) && FixedInBounds(f, v)
    ensures Encodable(f, v)
    decreases f, 0
  {
    hide WellFormed, TypedMessage, MessageInBounds, MessageFixedInBounds, MessageEncodable;
    if f.ltype.LSubmessage? {
      BoundedMessageEncodable(f.sub, v.slots);
    }
  }

  lemma {:induction false} BoundedRowEncodable(fields: seq<Field>, m: seq<Slot>, k: nat)
    requires TypedMessage(fields, m) && MessageInBounds(fields, m) && MessageFixedInBounds(fields, m)
    requires WellFormed(fields) && k < |fields| == |m|
    ensures RowEncodable(fields[k], m[Home(fields, k)])
    decreases fields, 0
  {
    hide TypedMessage, MessageInBounds, MessageFixedInBounds, TypedValue, InBounds, FixedInBounds, Encodable,
      IsDefaultValue, DistinctTags, Home, FindTag, WellFormed, WellFormedField;
    var f, s := fields[k], m[Home(fields, k)];
    FieldOf(fields, k);
    NotExtension(f);
    TagNotZero(f);
    SlotsAt(fields, m, k);
    FixedAt(fields, m, k);
    HomeOfHome(fields, k);
    FindTagUnique(fields, k);
    if f.htype.Repeated? {
      var count := if s.Arr? then s.count else |ItemsOf(s)|;
      forall i | 0 <= i < count ensures Encodable(f, ItemsOf(s)[i]) {
        BoundedEncodable(f, ItemsOf(s)[i]);
      }
    } else if Speaks(f, s) {
      BoundedEncodable(f, ValueOf(s));
    }
  }

  /** Within bounds, fixed-count arrays included, everything can be encoded. */
  lemma {:induction false} BoundedMessageEncodable(fields: seq<Field>, m: seq<Slot>)
    requires WellFormed(fields) && TypedMessage(fields, m)
    requires MessageInBounds(fields, m) && MessageFixedInBounds(fields, m)
    ensures MessageEncodable(fields, m)
    decreases fields, 1
  {
    hide WellFormed, TypedMessage, MessageInBounds, MessageFixedInBounds, RowEncodable, Home;
    LengthOf(fields, m);
    forall k | 0 <= k < |fields| ensures RowEncodable(fields[k], m[Home(fields, k)]) {
      BoundedRowEncodable(fields, m, k);
    }
  }

  lemma TagNotZero(f: Field)
    requires WellFormedField(f)
    ensures f.tag != 0
  {
  }

  /** What pb_decode accepts, from any bytes, into a struct whose fixed-count arrays are within bounds, can be encoded
      without condition; and it comes back from that, seen as it is, exactly when its embedded messages and packed
      arrays are shorter than 2^32 bytes. */
  lemma AcceptedReturns(fields: seq<Field>, prior: seq<Slot>, bs: seq<byte>, d: seq<Slot>)
    requires WellFormed(fields) && Roomy(fields) && TypedMessage(fields, prior) && TypedMessage(fields, d)
    requires MessageFixedInBounds(fields, prior) && Dec(fields, prior, bs).Ok?
    ensures var m := Dec(fields, prior, bs).value;
            && EncMessage(fields, m).ok
            && (|EncMessage(fields, m).out| < TOO_LONG ==>
              (Returns(fields, m, SetDefaults(fields, d)) <==> MessageShort(fields, m)))
  {
    hide WellFormed, Roomy, TypedMessage, MessageInBounds, MessageFixedInBounds, Dec, EncMessage, MessageEncodable,
      MessageShort, StorableMessage, Returns, SetDefaults;
    var m := Dec(fields, prior, bs).value;
    AcceptedInBounds(fields, prior, bs);
    AcceptedFixed(fields, prior, bs);
    BoundedMessageEncodable(fields, m);
    MessageEncodes(fields, m);
    MessageShortens(fields, m);
    DefaultsTyped(fields, d);
    DefaultsIdempotent(fields, d);
    ReturnsExactly(fields, m, SetDefaults(fields, d));
  }

  /** A struct that was cleared is such a struct. */
  lemma AcceptedFromZero(fields: seq<Field>, bs: seq<byte>, d: seq<Slot>)
    requires WellFormed(fields) && Roomy(fields) && TypedMessage(fields, d)
    requires Dec(fields, ZeroSlots(fields), bs).Ok?
    ensures var m := Dec(fields, ZeroSlots(fields), bs).value;
            && EncMessage(fields, m).ok
            && (|EncMessage(fields, m).out| < TOO_LONG ==>
              (Returns(fields, m, SetDefaults(fields, d)) <==> MessageShort(fields, m)))
  {
    hide WellFormed, Roomy, TypedMessage, MessageFixedInBounds, Dec, EncMessage, MessageShort, Returns,
      SetDefaults, ZeroSlots;
    ZeroMessageTyped(fields);
    ZeroSlotsInBounds(fields);
    AcceptedReturns(fields, ZeroSlots(fields), bs, d);
  }
}
