/** What the decoder accepts, from any bytes, stays within its storage, and can be sent again. */
module Bounds {
  import opened Platform
  import opened Descriptor
  import opened Encoding
  import opened Decoding
  import opened Typing
  import opened RoundTrip
  import opened Exactness

  // ---------------------------------------------------------------- within bounds

  /** Bytes that fit their field, strings with their terminator in the buffer, at every depth. */
  predicate InBounds(f: Field, v: Value)
    decreases f, 0
  {
    match f.ltype
    case LBytes => v.Blob? && BytesFit(f, |v.bs|)
    case LString => v.Blob? && 0 in v.bs
    case LSubmessage => v.Message? && MessageInBounds(f.sub, v.slots)
    case _ => true
  }

  /** No count beyond its array, no union tag but zero or a member's. A message is in bounds even while its
      has_ flag is false, because the next record is merged into it; the items of a fixed-count array that was
      not received are whatever they were. */
  predicate SlotInBounds(fields: seq<Field>, k: nat, s: Slot)
    requires k < |fields|
    decreases fields, 1
  {
    match s
    case One(v) => InBounds(fields[k], v)
    case Opt(has, v) => has || fields[k].ltype.LSubmessage? ==> InBounds(fields[k], v)
    case Arr(count, items) => count <= |items| && forall i :: 0 <= i < count ==> InBounds(fields[k], items[i])
    case Fixed(items) => true
    case Union(which, v) =>
      which == 0 ||
      (var j := FindTag(fields, which); j.Some? && Home(fields, j.value) == k && InBounds(fields[j.value], v))
    case Hole => true
  }

  predicate MessageInBounds(fields: seq<Field>, slots: seq<Slot>)
    decreases fields, 2
  {
    |slots| == |fields| && forall k :: 0 <= k < |fields| ==> SlotInBounds(fields, k, slots[k])
  }

  /** Every field has room for a value of length zero, and for its default. */
  predicate RoomyField(f: Field)
    decreases f
  {
    && (f.ltype.LString? ==> f.dataSize >= 1)
    && (f.ltype.LBytes? ==> BytesFit(f, 0))
    && (f.ltype.LSubmessage? ==> Roomy(f.sub))
    && (f.initial.Some? ==> InBounds(f, f.initial.value))
  }

  predicate Roomy(fields: seq<Field>)
    decreases fields
  {
    forall k :: 0 <= k < |fields| ==> RoomyField(fields[k])
  }

  // ---------------------------------------------------------------- defaults

  lemma {:induction false} DefaultInBounds(f: Field, v: Value)
    requires RoomyField(f)
    ensures InBounds(f, DefaultValue(f, v))
    decreases f, 0
  {
    hide Roomy, MessageInBounds, SetDefaults;
    if f.ltype.LSubmessage? {
      RoomySub(f);
      DefaultsInBounds(f.sub, SlotsOf(v));
    } else if f.ltype.LString? && f.initial == None {
      assert Zeros(f.dataSize)[0] == 0;
    }
  }

  /** Room is what it takes: without it the default itself is out of bounds. */
  lemma RoomyExactly(f: Field, v: Value)
    requires WellFormedField(f) && !f.ltype.LSubmessage?
    ensures RoomyField(f) <==> InBounds(f, DefaultValue(f, v))
  {
    hide TypedMessage, WellFormed;
    if f.ltype.LString? && f.dataSize >= 1 {
      assert Zeros(f.dataSize)[0] == 0;
    }
    if f.ltype.LBytes? && f.initial.Some? && InBounds(f, f.initial.value) {
      FitsWithout(f, |f.initial.value.bs|);
    }
  }

  lemma FitsWithout(f: Field, n: nat)
    requires f.dataSize <= PB_SIZE_MAX && n <= SIZE_MAX && BytesFit(f, n)
    ensures BytesFit(f, 0)
  {
    WrappedSum(n, BYTES_OFFSET);
  }

  lemma RoomySub(f: Field)
    requires RoomyField(f) && f.ltype.LSubmessage?
    ensures Roomy(f.sub)
  {
  }

  lemma {:induction false} DefaultsInBounds(fields: seq<Field>, slots: seq<Slot>)
    requires Roomy(fields)
    ensures MessageInBounds(fields, SetDefaults(fields, slots))
    decreases fields, 1
  {
    hide RoomyField, InBounds, DefaultSlot, Home, SlotInBounds;
    var d := SetDefaults(fields, slots);
    forall k | 0 <= k < |fields| ensures SlotInBounds(fields, k, d[k]) {
      DefaultInBounds(fields[k], ValueOf(SlotAt(slots, k)));
      DefaultSlotInBounds(fields, k, Home(fields, k) != k, SlotAt(slots, k));
    }
  }

  lemma DefaultSlotInBounds(fields: seq<Field>, k: nat, hole: bool, s: Slot)
    requires k < |fields| && InBounds(fields[k], DefaultValue(fields[k], ValueOf(s)))
    ensures SlotInBounds(fields, k, DefaultSlot(fields[k], hole, s))
  {
    hide InBounds, DefaultValue, FindTag, Home;
  }

  // ---------------------------------------------------------------- the decoder keeps the bounds

  lemma BlobInBounds(f: Field, b: seq<byte>)
    requires StoreBlob(f, b).Some?
    ensures InBounds(f, StoreBlob(f, b).value)
  {
    if f.ltype.LString? {
      var bs := StoreBlob(f, b).value.bs;
      assert bs[|b|] == 0;
    }
  }

  lemma PackableInBounds(f: Field, v: Value)
    requires Packable(f.ltype)
    ensures InBounds(f, v)
  {
  }

  lemma {:induction false} ValueInBounds(f: Field, prior: Value, bs: seq<byte>)
    requires WellFormedField(f) && RoomyField(f)
    requires f.ltype.LSubmessage? ==> TypedValue(f, prior) && (f.htype.Repeated? || InBounds(f, prior))
    requires DecValue(f, prior, bs).Ok?
    ensures InBounds(f, DecValue(f, prior, bs).value)
    decreases |bs|, 0
  {
    hide DecScalar, DecDelimited, StoreBlob, DecNoInit, TypedMessage, WellFormed, SetDefaults, MessageInBounds,
      Roomy;
    if Packable(f.ltype) {
      PackableInBounds(f, DecValue(f, prior, bs).value);
    } else {
      var b := DecDelimited(bs).value;
      if f.ltype.LSubmessage? {
        RoomySub(f);
        DefaultsTyped(f.sub, SlotsOf(prior));
        DefaultsInBounds(f.sub, SlotsOf(prior));
        NoInitInBounds(f.sub, Embedded(f, prior), b);
      } else {
        BlobInBounds(f, b);
      }
    }
  }

  /** The count stays within the array, and what it counts within bounds. */
  predicate FilledInBounds(f: Field, a: Filled) {
    a.count <= |a.items| && forall i :: 0 <= i < a.count ==> InBounds(f, a.items[i])
  }

  lemma {:induction false} PackedInBounds(f: Field, a: Filled, b: seq<byte>)
    requires Packable(f.ltype) && a.count <= |a.items| && DecPacked(f, a, b).Some?
    ensures FilledInBounds(f, DecPacked(f, a, b).value)
    decreases |b|
  {
    hide DecScalar;
    if b != [] {
      var d := DecScalar(f, b);
      PackedInBounds(f, Filled(a.items[a.count := d.value], a.count + 1), d.rest);
    }
  }

  lemma {:induction false} RepeatedInBounds(f: Field, wireType: nat, a: Filled, bs: seq<byte>)
    requires WellFormedField(f) && RoomyField(f) && f.htype.Repeated? && FilledInBounds(f, a)
    requires forall i :: 0 <= i < |a.items| ==> TypedValue(f, a.items[i])
    requires DecRepeated(f, wireType, a, bs).Ok?
    ensures FilledInBounds(f, DecRepeated(f, wireType, a, bs).value)
    decreases |bs|, 1
  {
    hide DecValue, DecPacked, DecDelimited, TypedValue, WellFormedField, RoomyField, InBounds;
    if wireType == WT_STRING && Packable(f.ltype) {
      PackedInBounds(f, a, DecDelimited(bs).value);
    } else {
      ValueInBounds(f, a.items[a.count], bs);
    }
  }

  lemma TargetInBounds(fields: seq<Field>, k: nat, slots: seq<Slot>)
    requires WellFormed(fields) && Roomy(fields) && k < |fields| && !fields[k].htype.Repeated?
        && fields[k].ltype.LSubmessage?
    requires TypedMessage(fields, slots) && MessageInBounds(fields, slots)
    ensures |slots| == |fields| && InBounds(fields[k], Target(fields[k], slots[Home(fields, k)]))
  {
    hide MessageInBounds, TypedMessage, SetDefaults, Roomy, WellFormed;
    var f := fields[k];
    RoomyAt(fields, k);
    SlotsAt(fields, slots, k);
    if f.htype.Oneof? {
      RoomySub(f);
      DefaultsInBounds(f.sub, ZeroSlots(f.sub));
    }
  }

  lemma RoomyAt(fields: seq<Field>, k: nat)
    requires WellFormed(fields) && Roomy(fields) && k < |fields|
    ensures RoomyField(fields[k]) && WellFormedField(fields[k]) && DistinctTags(fields)
  {
  }

  lemma SlotsAt(fields: seq<Field>, slots: seq<Slot>, k: nat)
    requires TypedMessage(fields, slots) && MessageInBounds(fields, slots) && k < |fields|
    ensures var h := Home(fields, k);
            |slots| == |fields| && TypedSlot(fields, h, slots[h]) && SlotInBounds(fields, h, slots[h])
  {
    hide TypedSlot, SlotInBounds;
  }

  lemma StoredInBounds(fields: seq<Field>, k: nat, s: Slot, v: Value)
    requires WellFormed(fields) && k < |fields| && !fields[k].htype.Repeated? && InBounds(fields[k], v)
    requires TypedSlot(fields, Home(fields, k), s)
    ensures SlotInBounds(fields, Home(fields, k), Stored(fields[k], s, v))
  {
    hide InBounds, TypedValue, WellFormedField, Home, FindTag;
    FieldOf(fields, k);
    NotExtension(fields[k]);
    FindTagUnique(fields, k);
  }

  lemma {:induction false} FieldInBounds(fields: seq<Field>, k: nat, wireType: nat, st: State, bs: seq<byte>)
    requires WellFormed(fields) && Roomy(fields) && k < |fields|
    requires TypedMessage(fields, st.slots) && MessageInBounds(fields, st.slots)
    requires DecField(fields[k], wireType, Home(fields, k), st, bs).Ok?
    ensures MessageInBounds(fields, DecField(fields[k], wireType, Home(fields, k), st, bs).value.slots)
    decreases |bs|, 2
  {
    hide DecValue, DecRepeated, TypedValue, WellFormedField, RoomyField, Target, Stored, WellFormed, Roomy,
      InBounds, Home, TypedMessage, DistinctTags;
    var f, h := fields[k], Home(fields, k);
    var s := st.slots[h];
    RoomyAt(fields, k);
    SlotsAt(fields, st.slots, k);
    if f.htype.Repeated? {
      var a := Filled(ItemsOf(s), if s.Arr? then s.count else st.fixedCount);
      if s.Arr? {
        RepeatedInBounds(f, wireType, a, bs);
      }
    } else {
      if f.ltype.LSubmessage? {
        TargetInBounds(fields, k, st.slots);
        TargetTyped(fields, k, s);
      }
      ValueInBounds(f, Target(f, s), bs);
      StoredInBounds(fields, k, s, DecValue(f, Target(f, s), bs).value);
    }
  }

  lemma {:induction false} TurnInBounds(fields: seq<Field>, st: State, bs: seq<byte>)
    requires WellFormed(fields) && Roomy(fields) && TypedMessage(fields, st.slots) && MessageInBounds(fields, st.slots)
    requires DecTurn(fields, st, bs).Next?
    ensures MessageInBounds(fields, DecTurn(fields, st, bs).st.slots)
    decreases |bs|, 3
  {
    hide DecTag, FindTag, SkipField, DecField, TypedMessage, WellFormed, Roomy, MessageInBounds;
    var t := DecTag(bs);
    if FindTag(fields, t.tag).Some? {
      var k := FindTag(fields, t.tag).value;
      FieldInBounds(fields, k, t.wireType, Mark(fields, k, Track(fields, k, st).value), t.rest);
    }
  }

  lemma {:induction false} LoopInBounds(fields: seq<Field>, st: State, bs: seq<byte>)
    requires WellFormed(fields) && Roomy(fields) && TypedMessage(fields, st.slots) && MessageInBounds(fields, st.slots)
    requires DecLoop(fields, st, bs).Ran?
    ensures MessageInBounds(fields, DecLoop(fields, st, bs).st.slots)
    decreases |bs|, 4
  {
    hide DecTurn, TypedSlot, SlotInBounds, WellFormed, Roomy;
    if bs != [] && DecTurn(fields, st, bs).Next? {
      TurnTyped(fields, st, bs);
      TurnInBounds(fields, st, bs);
      LoopInBounds(fields, DecTurn(fields, st, bs).st, DecTurn(fields, st, bs).rest);
    }
  }

  /** pb_decode_noinit keeps a struct within its bounds, whatever bytes it accepts. */
  lemma {:induction false} NoInitInBounds(fields: seq<Field>, slots: seq<Slot>, bs: seq<byte>)
    requires WellFormed(fields) && Roomy(fields) && TypedMessage(fields, slots) && MessageInBounds(fields, slots)
    requires DecNoInit(fields, slots, bs).Ok?
    ensures MessageInBounds(fields, DecNoInit(fields, slots, bs).value)
    decreases |bs|, 5
  {
    hide DecLoop, TypedMessage, MessageInBounds, WellFormed, Roomy;
    LoopInBounds(fields, Start(slots), bs);
  }

  /** pb_decode brings any struct of the right types within its bounds. */
  lemma AcceptedInBounds(fields: seq<Field>, prior: seq<Slot>, bs: seq<byte>)
    requires WellFormed(fields) && Roomy(fields) && TypedMessage(fields, prior)
    requires Dec(fields, prior, bs).Ok?
    ensures TypedMessage(fields, Dec(fields, prior, bs).value) && MessageInBounds(fields, Dec(fields, prior, bs).value)
  {
    hide DecNoInit, SetDefaults, TypedMessage, MessageInBounds, WellFormed, Roomy;
    DefaultsTyped(fields, prior);
    DefaultsInBounds(fields, prior);
    NoInitTyped(fields, SetDefaults(fields, prior), bs);
    NoInitInBounds(fields, SetDefaults(fields, prior), bs);
  }

  // ---------------------------------------------------------------- fixed-count arrays

  /** All fixed-count arrays of the storage hold items within bounds, at every depth; so do those of messages that
      are not in use, but will be reset, not cleared, before they are. */
  predicate FixedInBounds(f: Field, v: Value)
    decreases f, 0
  {
    f.ltype.LSubmessage? ==> v.Message? && MessageFixedInBounds(f.sub, v.slots)
  }

  predicate SlotFixedInBounds(fields: seq<Field>, k: nat, s: Slot)
    requires k < |fields|
    decreases fields, 1
  {
    match s
    case One(v) => FixedInBounds(fields[k], v)
    case Opt(_, v) => FixedInBounds(fields[k], v)
    case Arr(_, items) => forall i :: 0 <= i < |items| ==> FixedInBounds(fields[k], items[i])
    case Fixed(items) =>
      forall i :: 0 <= i < |items| ==> InBounds(fields[k], items[i]) && FixedInBounds(fields[k], items[i])
    case Union(which, v) =>
      which == 0 || (var j := FindTag(fields, which); j.Some? ==> FixedInBounds(fields[j.value], v))
    case Hole => true
  }

  predicate MessageFixedInBounds(fields: seq<Field>, slots: seq<Slot>)
    decreases fields, 2
  {
    |slots| == |fields| && forall k :: 0 <= k < |fields| ==> SlotFixedInBounds(fields, k, slots[k])
  }

  lemma {:induction false} DefaultsFixed(fields: seq<Field>, slots: seq<Slot>)
    requires TypedMessage(fields, slots) && MessageFixedInBounds(fields, slots)
    ensures MessageFixedInBounds(fields, SetDefaults(fields, slots))
    decreases fields, 1
  {
    hide DefaultSlot, SlotFixedInBounds, TypedSlot;
    forall k | 0 <= k < |fields| ensures SlotFixedInBounds(fields, k, SetDefaults(fields, slots)[k]) {
      DefaultSlotFixed(fields, k, slots[k]);
    }
  }

  lemma {:induction false} DefaultSlotFixed(fields: seq<Field>, k: nat, s: Slot)
    requires k < |fields| && TypedSlot(fields, k, s) && SlotFixedInBounds(fields, k, s)
    ensures SlotFixedInBounds(fields, k, DefaultSlot(fields[k], Home(fields, k) != k, s))
    decreases fields, 0
  {
    hide Home, InBounds, SetDefaults, MessageFixedInBounds, TypedMessage, FindTag;
    var f := fields[k];
    if (s.One? || s.Opt?) && f.ltype.LSubmessage? {
      DefaultsFixed(f.sub, s.v.slots);
    }
  }

  /** Storage that was cleared is within bounds, fixed-count arrays and all. */
  lemma {:induction false} ZeroInBounds(f: Field)
    requires RoomyField(f)
    ensures InBounds(f, ZeroValue(f)) && FixedInBounds(f, ZeroValue(f))
    decreases f, 0
  {
    hide Roomy, MessageInBounds, MessageFixedInBounds, ZeroSlots;
    if f.ltype.LSubmessage? {
      RoomySub(f);
      ZeroSlotsInBounds(f.sub);
    } else if f.ltype.LString? {
      assert Zeros(f.dataSize)[0] == 0;
    }
  }

  lemma {:induction false} ZeroSlotsInBounds(fields: seq<Field>)
    requires Roomy(fields)
    ensures MessageInBounds(fields, ZeroSlots(fields)) && MessageFixedInBounds(fields, ZeroSlots(fields))
    decreases fields, 1
  {
    hide InBounds, FixedInBounds, ZeroValue, RoomyField, Home;
    forall k | 0 <= k < |fields|
      ensures SlotInBounds(fields, k, ZeroSlots(fields)[k]) && SlotFixedInBounds(fields, k, ZeroSlots(fields)[k])
    {
      ZeroInBounds(fields[k]);
    }
  }

  lemma {:induction false} ValueFixed(f: Field, prior: Value, bs: seq<byte>)
    requires WellFormedField(f) && RoomyField(f)
    requires f.ltype.LSubmessage? ==>
      TypedValue(f, prior) && FixedInBounds(f, prior) && (f.htype.Repeated? || InBounds(f, prior))
    requires DecValue(f, prior, bs).Ok?
    ensures FixedInBounds(f, DecValue(f, prior, bs).value)
    decreases |bs|, 0
  {
    hide DecScalar, DecDelimited, StoreBlob, DecNoInit, TypedMessage, WellFormed, SetDefaults, MessageInBounds,
      Roomy, MessageFixedInBounds;
    if f.ltype.LSubmessage? {
      RoomySub(f);
      DefaultsTyped(f.sub, SlotsOf(prior));
      DefaultsInBounds(f.sub, SlotsOf(prior));
      DefaultsFixed(f.sub, SlotsOf(prior));
      NoInitFixed(f.sub, Embedded(f, prior), DecDelimited(bs).value);
    }
  }

  /** Packed records hold numbers, which are always within bounds. */
  lemma PackableFixed(f: Field, v: Value)
    requires Packable(f.ltype)
    ensures InBounds(f, v) && FixedInBounds(f, v)
  {
  }

  lemma {:induction false} RepeatedFixed(f: Field, wireType: nat, a: Filled, bs: seq<byte>)
    requires WellFormedField(f) && RoomyField(f) && f.htype.Repeated?
    requires forall i :: 0 <= i < |a.items| ==> TypedValue(f, a.items[i]) && FixedInBounds(f, a.items[i])
    requires DecRepeated(f, wireType, a, bs).Ok?
    ensures var items := DecRepeated(f, wireType, a, bs).value.items;
            && (forall i :: 0 <= i < |items| ==> FixedInBounds(f, items[i]))
            && ((forall i :: 0 <= i < |a.items| ==> InBounds(f, a.items[i])) ==>
              forall i :: 0 <= i < |items| ==> InBounds(f, items[i]))
    decreases |bs|, 1
  {
    hide DecValue, DecPacked, DecDelimited, TypedValue, WellFormedField, RoomyField, InBounds, FixedInBounds;
    var items := DecRepeated(f, wireType, a, bs).value.items;
    if wireType == WT_STRING && Packable(f.ltype) {
      forall i | 0 <= i < |items| ensures InBounds(f, items[i]) && FixedInBounds(f, items[i]) {
        PackableFixed(f, items[i]);
      }
    } else {
      ValueFixed(f, a.items[a.count], bs);
      ValueInBounds(f, a.items[a.count], bs);
    }
  }

  lemma TargetFixed(fields: seq<Field>, k: nat, slots: seq<Slot>)
    requires WellFormed(fields) && Roomy(fields) && k < |fields| && !fields[k].htype.Repeated?
    requires fields[k].ltype.LSubmessage? && TypedMessage(fields, slots) && MessageFixedInBounds(fields, slots)
    ensures |slots| == |fields| && FixedInBounds(fields[k], Target(fields[k], slots[Home(fields, k)]))
  {
    hide TypedMessage, SetDefaults, Roomy, WellFormed, MessageFixedInBounds;
    var f := fields[k];
    RoomyAt(fields, k);
    FixedAt(fields, slots, k);
    if f.htype.Oneof? {
      RoomySub(f);
      ZeroSlotsTyped(f);
      ZeroSlotsInBounds(f.sub);
      DefaultsFixed(f.sub, ZeroSlots(f.sub));
    }
  }

  lemma FixedAt(fields: seq<Field>, slots: seq<Slot>, k: nat)
    requires TypedMessage(fields, slots) && MessageFixedInBounds(fields, slots) && k < |fields|
    ensures var h := Home(fields, k);
            |slots| == |fields| && TypedSlot(fields, h, slots[h]) && SlotFixedInBounds(fields, h, slots[h])
  {
    hide TypedSlot, SlotFixedInBounds;
  }

  lemma StoredFixed(fields: seq<Field>, k: nat, s: Slot, v: Value)
    requires WellFormed(fields) && k < |fields| && !fields[k].htype.Repeated? && FixedInBounds(fields[k], v)
    requires TypedSlot(fields, Home(fields, k), s)
    ensures SlotFixedInBounds(fields, Home(fields, k), Stored(fields[k], s, v))
  {
    hide InBounds, FixedInBounds, TypedValue, WellFormedField, Home, FindTag;
    FieldOf(fields, k);
    NotExtension(fields[k]);
    FindTagUnique(fields, k);
  }

  lemma {:induction false} FieldFixed(fields: seq<Field>, k: nat, wireType: nat, st: State, bs: seq<byte>)
    requires WellFormed(fields) && Roomy(fields) && k < |fields|
    requires TypedMessage(fields, st.slots) && MessageInBounds(fields, st.slots)
    requires MessageFixedInBounds(fields, st.slots)
    requires DecField(fields[k], wireType, Home(fields, k), st, bs).Ok?
    ensures MessageFixedInBounds(fields, DecField(fields[k], wireType, Home(fields, k), st, bs).value.slots)
    decreases |bs|, 2
  {
    hide DecValue, DecRepeated, TypedValue, WellFormedField, RoomyField, Target, Stored, WellFormed, Roomy,
      InBounds, FixedInBounds, Home, TypedMessage, DistinctTags, MessageInBounds;
    var f, h := fields[k], Home(fields, k);
    var s := st.slots[h];
    RoomyAt(fields, k);
    FixedAt(fields, st.slots, k);
    if f.htype.Repeated? {
      RepeatedFixed(f, wireType, Filled(ItemsOf(s), if s.Arr? then s.count else st.fixedCount), bs);
    } else {
      if f.ltype.LSubmessage? {
        TargetInBounds(fields, k, st.slots);
        TargetFixed(fields, k, st.slots);
        TargetTyped(fields, k, s);
      }
      ValueFixed(f, Target(f, s), bs);
      StoredFixed(fields, k, s, DecValue(f, Target(f, s), bs).value);
    }
  }

  lemma {:induction false} TurnFixed(fields: seq<Field>, st: State, bs: seq<byte>)
    requires WellFormed(fields) && Roomy(fields) && TypedMessage(fields, st.slots) && MessageInBounds(fields, st.slots)
    requires MessageFixedInBounds(fields, st.slots) && DecTurn(fields, st, bs).Next?
    ensures MessageFixedInBounds(fields, DecTurn(fields, st, bs).st.slots)
    decreases |bs|, 3
  {
    hide DecTag, FindTag, SkipField, DecField, TypedMessage, WellFormed, Roomy, MessageInBounds,
      MessageFixedInBounds;
    var t := DecTag(bs);
    if FindTag(fields, t.tag).Some? {
      var k := FindTag(fields, t.tag).value;
      FieldFixed(fields, k, t.wireType, Mark(fields, k, Track(fields, k, st).value), t.rest);
    }
  }

  lemma {:induction false} LoopFixed(fields: seq<Field>, st: State, bs: seq<byte>)
    requires WellFormed(fields) && Roomy(fields) && TypedMessage(fields, st.slots) && MessageInBounds(fields, st.slots)
    requires MessageFixedInBounds(fields, st.slots) && DecLoop(fields, st, bs).Ran?
    ensures MessageFixedInBounds(fields, DecLoop(fields, st, bs).st.slots)
    decreases |bs|, 4
  {
    hide DecTurn, TypedSlot, SlotInBounds, SlotFixedInBounds, WellFormed, Roomy;
    if bs != [] && DecTurn(fields, st, bs).Next? {
      TurnTyped(fields, st, bs);
      TurnInBounds(fields, st, bs);
      TurnFixed(fields, st, bs);
      LoopFixed(fields, DecTurn(fields, st, bs).st, DecTurn(fields, st, bs).rest);
    }
  }

  /** pb_decode_noinit leaves a fixed-count array untouched or fills it, so its items stay within bounds. */
  lemma {:induction false} NoInitFixed(fields: seq<Field>, slots: seq<Slot>, bs: seq<byte>)
    requires WellFormed(fields) && Roomy(fields) && TypedMessage(fields, slots) && MessageInBounds(fields, slots)
    requires MessageFixedInBounds(fields, slots) && DecNoInit(fields, slots, bs).Ok?
    ensures MessageFixedInBounds(fields, DecNoInit(fields, slots, bs).value)
    decreases |bs|, 5
  {
    hide DecLoop, TypedMessage, MessageInBounds, MessageFixedInBounds, WellFormed, Roomy;
    LoopFixed(fields, Start(slots), bs);
  }

  /** pb_decode keeps the items of fixed-count arrays within bounds, whatever bytes it accepts. */
  lemma AcceptedFixed(fields: seq<Field>, prior: seq<Slot>, bs: seq<byte>)
    requires WellFormed(fields) && Roomy(fields) && TypedMessage(fields, prior) && MessageFixedInBounds(fields, prior)
    requires Dec(fields, prior, bs).Ok?
    ensures MessageFixedInBounds(fields, Dec(fields, prior, bs).value)
  {
    hide DecNoInit, SetDefaults, TypedMessage, MessageInBounds, MessageFixedInBounds, WellFormed, Roomy;
    DefaultsTyped(fields, prior);
    DefaultsInBounds(fields, prior);
    DefaultsFixed(fields, prior);
    NoInitFixed(fields, SetDefaults(fields, prior), bs);
  }
}
