/** Which values a field without presence of its own leaves out (proto3). */
module Elision {
  import opened Bits
  import opened Descriptor
  import opened Encoding
  import opened Typing
  import opened RoundTrip

  // ---------------------------------------------------------------- zero values

  /** A number that is zero, no bytes, a string that ends before it begins, fixed-length bytes of length zero, a
      message in which every row is absent, empty or zero in turn. */
  predicate Blank(f: Field, v: Value)
    decreases f, 0
  {
    match v
    case Number(n) => n == 0
    case Blob(bs) =>
      if f.ltype.LFixedLengthBytes? then f.dataSize == 0
      else bs == [] || (f.ltype.LString? && bs[0] == 0)
    case Message(slots) => BlankMessage(f.sub, slots)
  }

  predicate BlankRow(f: Field, s: Slot)
    decreases f, 1
  {
    match s
    case One(v) => f.htype.Optional? && Blank(f, v)
    case Opt(has, _) => !has
    case Arr(count, _) => count == 0
    case Union(which, _) => which == 0
    case Fixed(_) | Hole => false
  }

  predicate BlankMessage(fields: seq<Field>, slots: seq<Slot>)
    decreases fields
  {
    forall k :: 0 <= k < |fields| ==> BlankRow(fields[k], SlotAt(slots, Home(fields, k)))
  }

  lemma {:induction false} ZeroDigits(size: nat)
    ensures AllZero(LittleEndian(0, size))
  {
    if size > 0 {
      ZeroDigits(size - 1);
    }
  }

  /** The bytes of a number are all zero exactly if it is. */
  lemma ZeroBytes(f: Field, n: int)
    requires TypedValue(f, Number(n)) && GoodSize(f.ltype, f.dataSize)
    ensures AllZero(StorageBytes(n, f.dataSize)) <==> n == 0
  {
    hide AllZero, LittleEndian, Pow2;
    if n == 0 {
      ZeroDigits(f.dataSize);
      assert n % Pow2(8 * f.dataSize) == 0;
    } else if AllZero(StorageBytes(n, f.dataSize)) {
      ZeroNumber(f, n);
    }
  }

  lemma {:induction false} BlankExactly(f: Field, v: Value)
    requires WellFormedField(f) && TypedValue(f, v)
    ensures IsDefaultValue(f, v) <==> Blank(f, v)
    decreases f, 0
  {
    hide AllZero, StorageBytes, TypedMessage, WellFormed, IsDefaultMessage, BlankMessage, SignedFits, UnsignedFits;
    if v.Number? {
      ZeroBytes(f, v.n);
    } else if v.Message? {
      BlankMessageExactly(f.sub, v.slots);
    }
  }

  lemma {:induction false} BlankMessageExactly(fields: seq<Field>, slots: seq<Slot>)
    requires WellFormed(fields) && TypedMessage(fields, slots)
    ensures IsDefaultMessage(fields, slots) <==> BlankMessage(fields, slots)
    decreases fields, 1
  {
    hide IsDefaultValue, Blank, TypedValue, WellFormedField;
    forall k | 0 <= k < |fields|
      ensures var s := SlotAt(slots, Home(fields, k)); IsDefaultSlot(fields[k], s) <==> BlankRow(fields[k], s)
    {
      var h := Home(fields, k);
      assert TypedSlot(fields, h, slots[h]);
      FieldOf(fields, k);
      if !fields[k].htype.Oneof? && slots[h].One? {
        BlankExactly(fields[k], slots[h].v);
      }
      HomeOfHome(fields, k);
    }
  }

  lemma RecordNotEmpty(f: Field, v: Value)
    ensures EncRecord(f, v) != Nothing
  {
    hide EncValue;
    TagNotEmpty(WireType(f.ltype), f.tag);
  }

  /** A singular proto3 field is left out exactly when it is zero, and sent otherwise. */
  lemma ElidedExactly(f: Field, v: Value)
    requires WellFormedField(f) && TypedValue(f, v) && f.htype.Optional? && f.sizeOffset == 0
    ensures EncSlot(f, One(v)) == Nothing <==> Blank(f, v)
    ensures !Blank(f, v) ==> EncSlot(f, One(v)) == EncRecord(f, v)
  {
    hide IsDefaultValue, Blank, EncRecord, TypedValue, WellFormedField;
    BlankExactly(f, v);
    RecordNotEmpty(f, v);
  }

  // ---------------------------------------------------------------- messages without bytes

  lemma {:induction false} AllNothing(parts: seq<Enc>)
    ensures InOrder(parts) == Nothing <==> forall i :: 0 <= i < |parts| ==> parts[i] == Nothing
  {
    if parts != [] {
      var front := parts[..|parts| - 1];
      AllNothing(front);
      assert forall i :: 0 <= i < |front| ==> parts[i] == front[i];
      assert forall i :: 0 <= i < |parts| ==> parts[i] == if i < |front| then front[i] else parts[|parts| - 1];
    }
  }

  lemma ArrayNothing(f: Field, items: seq<Value>, count: nat)
    ensures EncArray(f, items, count) == Nothing <==> count == 0
  {
    hide ItemParts, EncRecord, EncValue;
    if 0 < count <= f.arraySize && count <= |items| {
      if Packable(f.ltype) {
        TagNotEmpty(WT_STRING, f.tag);
      } else {
        RecordNotEmpty(f, items[0]);
        var parts := RecordParts(f, items[..count]);
        AllNothing(parts);
        assert parts[0] == EncRecord(f, items[0]);
      }
    }
  }

  /** A row that emits nothing counts as empty, but for a union that holds another member. */
  lemma RowNothing(f: Field, s: Slot)
    requires match f.htype
             case Required => s.One?
             case Optional => s.One? || s.Opt?
             case Repeated => s.Arr? || (s.Fixed? && f.arraySize > 0)
             case Oneof => s.Union? && f.tag != 0
    ensures EncSlot(f, s) == Nothing <==> if f.htype.Oneof? then s.which != f.tag else IsDefaultSlot(f, s)
  {
    hide EncRecord, EncArray, IsDefaultValue;
    RecordNotEmpty(f, ValueOf(s));
    if s.Arr? {
      ArrayNothing(f, s.items, s.count);
    } else if s.Fixed? {
      ArrayNothing(f, s.items, f.arraySize);
    }
  }

  /** Every union holds nothing or one of its members, and no array of fixed count has count zero. */
  predicate Regular(fields: seq<Field>, slots: seq<Slot>) {
    && |slots| == |fields|
    && (forall k :: 0 <= k < |fields| && slots[k].Union? && slots[k].which != 0 ==>
          exists j :: 0 <= j < |fields| && Home(fields, j) == k && fields[j].tag == slots[k].which)
    && forall k :: 0 <= k < |fields| && IsFixedCount(fields[k]) ==> fields[k].arraySize > 0
  }

  lemma RowOfMessage(fields: seq<Field>, slots: seq<Slot>, k: nat)
    requires WellFormed(fields) && TypedMessage(fields, slots) && Regular(fields, slots) && k < |fields|
    ensures var f, s := fields[k], SlotAt(slots, Home(fields, k));
            EncSlot(f, s) == Nothing <==> if f.htype.Oneof? then s.Union? && s.which != f.tag else IsDefaultSlot(f, s)
    ensures fields[k].htype.Oneof? ==> SlotAt(slots, Home(fields, k)).Union?
  {
    hide TypedValue, EncSlot, IsDefaultSlot, DistinctTags;
    var h := Home(fields, k);
    FieldOf(fields, k);
    HomeOfHome(fields, k);
    assert TypedSlot(fields, h, slots[h]);
    RowNothing(fields[k], slots[h]);
  }

  /** In a union that holds a member, some row emits a record. */
  lemma MemberSpeaks(fields: seq<Field>, slots: seq<Slot>, k: nat) returns (j: nat)
    requires WellFormed(fields) && TypedMessage(fields, slots) && Regular(fields, slots) && k < |fields|
    requires fields[k].htype.Oneof? && SlotAt(slots, Home(fields, k)).Union? && slots[Home(fields, k)].which != 0
    ensures j < |fields| && EncSlot(fields[j], SlotAt(slots, Home(fields, j))) != Nothing
  {
    hide EncSlot, TypedSlot, WellFormedField, DistinctTags, Home;
    var h := Home(fields, k);
    j :| 0 <= j < |fields| && Home(fields, j) == h && fields[j].tag == slots[h].which;
    RowOfMessage(fields, slots, j);
  }

  lemma NothingIsDefault(fields: seq<Field>, slots: seq<Slot>, k: nat)
    requires WellFormed(fields) && TypedMessage(fields, slots) && Regular(fields, slots) && k < |fields|
    requires forall i :: 0 <= i < |fields| ==> EncSlot(fields[i], SlotAt(slots, Home(fields, i))) == Nothing
    ensures IsDefaultSlot(fields[k], SlotAt(slots, Home(fields, k)))
  {
    hide EncSlot, TypedMessage, WellFormed, Home, Regular;
    RowOfMessage(fields, slots, k);
    if fields[k].htype.Oneof? && SlotAt(slots, Home(fields, k)).which != 0 {
      var j := MemberSpeaks(fields, slots, k);
    }
  }

  lemma DefaultIsNothing(fields: seq<Field>, slots: seq<Slot>, k: nat)
    requires WellFormed(fields) && TypedMessage(fields, slots) && Regular(fields, slots) && k < |fields|
    requires IsDefaultSlot(fields[k], SlotAt(slots, Home(fields, k)))
    ensures EncSlot(fields[k], SlotAt(slots, Home(fields, k))) == Nothing
  {
    hide EncSlot, TypedMessage, WellFormedField, Home, Regular;
    RowOfMessage(fields, slots, k);
    NoTagZero(fields);
  }

  lemma MessageNothing(fields: seq<Field>, slots: seq<Slot>)
    requires WellFormed(fields) && TypedMessage(fields, slots) && Regular(fields, slots)
    ensures EncMessage(fields, slots) == Nothing <==> IsDefaultMessage(fields, slots)
  {
    hide EncSlot, IsDefaultSlot, Home, InOrder, TypedMessage, WellFormed, Regular;
    var parts := FieldParts(fields, slots);
    AllNothing(parts);
    assert forall i :: 0 <= i < |fields| ==> parts[i] == EncSlot(fields[i], SlotAt(slots, Home(fields, i)));
    if EncMessage(fields, slots) == Nothing {
      forall k | 0 <= k < |fields| ensures IsDefaultSlot(fields[k], SlotAt(slots, Home(fields, k))) {
        NothingIsDefault(fields, slots, k);
      }
    }
    if IsDefaultMessage(fields, slots) {
      forall k | 0 <= k < |parts| ensures parts[k] == Nothing {
        DefaultIsNothing(fields, slots, k);
      }
    }
  }

  /** An embedded proto3 message is left out exactly when it has no bytes to send. */
  lemma ElidedWithoutBytes(f: Field, v: Value)
    requires WellFormedField(f) && TypedValue(f, v) && f.htype.Optional? && f.sizeOffset == 0 && f.ltype.LSubmessage?
    requires Regular(f.sub, v.slots)
    ensures EncSlot(f, One(v)) == Nothing <==> EncMessage(f.sub, v.slots) == Nothing
  {
    hide TypedMessage, EncRecord, EncMessage, WellFormed, Regular, IsDefaultMessage;
    MessageNothing(f.sub, v.slots);
    RecordNotEmpty(f, v);
  }
}
