/** When pb_encode stays within its buffer: it counts in size_t, and not every sum it forms is checked for wrapping. */
module Guards {
  import opened Platform
  import opened Varint
  import opened Descriptor
  import opened Encoding
  import opened Cost

  /* On a buffer stream, w bytes of a window of max have been written when something is about to be emitted. */

  /** pb_encode_submessage: the size of the body can be counted, and so can the sum that its guard forms once the
      length is written. */
  predicate BodyGuarded(body: Enc, w: nat, max: nat) {
    body.ok ==>
      && |body.out| <= SIZE_MAX
      && (w + |VarintBytes(|body.out|)| <= max ==> w + |VarintBytes(|body.out|)| + |body.out| <= SIZE_MAX)
  }

  predicate ValueGuarded(f: Field, v: Value, w: nat, max: nat) {
    f.ltype.LSubmessage? && v.Message? ==> BodyGuarded(EncMessage(f.sub, v.slots), w, max)
  }

  predicate RecordGuarded(f: Field, v: Value, w: nat, max: nat) {
    w + |TagOf(f).out| <= max ==> ValueGuarded(f, v, w + |TagOf(f).out|, max)
  }

  /** Part i of a series is come to: all before it has been emitted, and fits. */
  predicate Reaches(parts: seq<Enc>, i: nat, w: nat, max: nat)
    requires i <= |parts|
  {
    InOrder(parts[..i]).ok && w + |InOrder(parts[..i]).out| <= max
  }

  predicate RecordsGuarded(f: Field, items: seq<Value>, w: nat, max: nat) {
    forall i :: 0 <= i < |items| && Reaches(RecordParts(f, items), i, w, max) ==>
      RecordGuarded(f, items[i], w + |InOrder(RecordParts(f, items)[..i]).out|, max)
  }

  /** The length of a packed array can be counted. */
  predicate PackedGuarded(f: Field, items: seq<Value>, w: nat, max: nat) {
    var e := InOrder(ItemParts(f, items));
    items != [] && w + |TagBytes(WT_STRING, f.tag)| <= max && e.ok ==> |e.out| <= SIZE_MAX
  }

  predicate ItemsGuarded(f: Field, items: seq<Value>, w: nat, max: nat) {
    if f.htype.Repeated? && Packable(f.ltype) then PackedGuarded(f, items, w, max) else RecordsGuarded(f, items, w, max)
  }

  /** So for every row that is come to. Inside a message nothing more is asked, since its window has just its size. */
  predicate MessageGuarded(fields: seq<Field>, slots: seq<Slot>, w: nat, max: nat) {
    var parts := FieldParts(fields, slots);
    forall k :: 0 <= k < |fields| && Reaches(parts, k, w, max) ==>
      ItemsGuarded(fields[k], ItemsSent(fields[k], SlotAt(slots, Home(fields, k))), w + |InOrder(parts[..k]).out|, max)
  }

  // ---------------------------------------------------------------- what can be counted is guarded

  lemma CountedPart(parts: seq<Enc>, i: nat)
    requires i < |parts| && InOrder(parts[..i]).ok
    ensures |InOrder(parts[..i]).out| + |parts[i].out| <= |InOrder(parts).out|
  {
    hide InOrder;
    InOrderStep(parts, i);
    InOrderBegins(parts, i + 1);
  }

  lemma CountedRecord(f: Field, v: Value, w: nat, max: nat)
    requires w + |EncRecord(f, v).out| <= SIZE_MAX
    ensures RecordGuarded(f, v, w, max)
  {
    hide VarintBytes, EncMessage;
  }

  lemma CountedRecords(f: Field, items: seq<Value>, w: nat, max: nat)
    requires w + |InOrder(RecordParts(f, items)).out| <= SIZE_MAX
    ensures RecordsGuarded(f, items, w, max)
  {
    hide InOrder, EncRecord, RecordGuarded;
    var parts := RecordParts(f, items);
    forall i | 0 <= i < |items| && Reaches(parts, i, w, max)
      ensures RecordGuarded(f, items[i], w + |InOrder(parts[..i]).out|, max)
    {
      CountedPart(parts, i);
      CountedRecord(f, items[i], w + |InOrder(parts[..i]).out|, max);
    }
  }

  /** The storage of a row has the shape that the row's type asks for. */
  predicate RowShaped(f: Field, s: Slot) {
    match f.htype
    case Required => s.One?
    case Optional => if f.sizeOffset == 0 then s.One? else s.Opt?
    case Repeated => (if f.sizeOffset == 0 then s.Fixed? else s.Arr?) && |s.items| == f.arraySize
    case Oneof => s.Union?
  }

  lemma RowTyped(fields: seq<Field>, slots: seq<Slot>, k: nat)
    requires k < |fields| && TypedMessage(fields, slots)
    ensures Home(fields, k) < |slots| && RowShaped(fields[k], slots[Home(fields, k)])
    ensures fields[k].htype.Optional? ==> TypedValue(fields[k], slots[Home(fields, k)].v)
  {
    hide TypedValue;
    HomeOfHome(fields, k);
    assert TypedSlot(fields, Home(fields, k), slots[Home(fields, k)]);
  }

  lemma CountedItems(f: Field, s: Slot, w: nat, max: nat)
    requires RowShaped(f, s) && w + |EncSlot(f, s).out| <= SIZE_MAX
    ensures ItemsGuarded(f, ItemsSent(f, s), w, max)
  {
    hide InOrder, ItemParts, RecordParts, EncSlot, EncRecord, IsDefaultValue, RecordsGuarded, ItemsSent;
    var items := ItemsSent(f, s);
    SentAlike(f, s);
    if f.htype.Repeated? && Packable(f.ltype) {
      PackedCounted(f, items, EncSlot(f, s));
    } else {
      CountedRecords(f, items, w, max);
    }
  }

  lemma PackedCounted(f: Field, items: seq<Value>, e: Enc)
    requires e == Then(Enc(true, TagBytes(WT_STRING, f.tag)), Delimited(InOrder(ItemParts(f, items))))
          || items == []
    ensures items != [] && InOrder(ItemParts(f, items)).ok ==> |InOrder(ItemParts(f, items)).out| <= |e.out|
  {
    hide InOrder, ItemParts, TagBytes, VarintBytes;
  }

  /** The items that are sent, as records or as one packed record, are what the row emits. */
  lemma SentAlike(f: Field, s: Slot)
    requires RowShaped(f, s)
    ensures var items := ItemsSent(f, s);
            if f.htype.Repeated? && Packable(f.ltype) then
              items == [] || EncSlot(f, s)
                == Then(Enc(true, TagBytes(WT_STRING, f.tag)), Delimited(InOrder(ItemParts(f, items))))
            else
              if items == [] then InOrder(RecordParts(f, items)) == Nothing
              else EncSlot(f, s) == InOrder(RecordParts(f, items))
  {
    hide TagBytes, IsDefaultValue, EncRecord, Delimited;
    if !f.htype.Repeated? && ItemsSent(f, s) != [] {
      OneRecord(f, ItemsSent(f, s)[0]);
    } else if s.Fixed? {
      assert s.items[..f.arraySize] == s.items;
    }
  }

  lemma OneRecord(f: Field, v: Value)
    ensures InOrder(RecordParts(f, [v])) == EncRecord(f, v)
  {
    hide EncRecord;
    var parts := RecordParts(f, [v]);
    assert parts == [EncRecord(f, v)] && parts[..0] == [] && InOrder([]) == Nothing;
    assert [] + EncRecord(f, v).out == EncRecord(f, v).out;
  }

  /** What can be counted to its end is guarded. */
  lemma CountedMessage(fields: seq<Field>, slots: seq<Slot>, w: nat, max: nat)
    requires TypedMessage(fields, slots) && w + |EncMessage(fields, slots).out| <= SIZE_MAX
    ensures MessageGuarded(fields, slots, w, max)
  {
    hide InOrder, EncSlot, ItemsGuarded, ItemsSent, Home, TypedMessage, RowShaped;
    var parts := FieldParts(fields, slots);
    forall k | 0 <= k < |fields| && Reaches(parts, k, w, max)
      ensures ItemsGuarded(fields[k], ItemsSent(fields[k], SlotAt(slots, Home(fields, k))),
                w + |InOrder(parts[..k]).out|, max)
    {
      CountedPart(parts, k);
      RowTyped(fields, slots, k);
      CountedItems(fields[k], SlotAt(slots, Home(fields, k)), w + |InOrder(parts[..k]).out|, max);
    }
  }

  /** Fields that are neither messages nor packed ask for nothing: pb_write finds a wrapped sum by itself. */
  lemma PlainGuarded(fields: seq<Field>, slots: seq<Slot>, w: nat, max: nat)
    requires forall k :: 0 <= k < |fields| ==>
      !fields[k].ltype.LSubmessage? && !(fields[k].htype.Repeated? && Packable(fields[k].ltype))
    ensures MessageGuarded(fields, slots, w, max)
  {
    hide ItemsSent, Home, InOrder, TagOf;
    var parts := FieldParts(fields, slots);
    forall k | 0 <= k < |fields| && Reaches(parts, k, w, max)
      ensures ItemsGuarded(fields[k], ItemsSent(fields[k], SlotAt(slots, Home(fields, k))),
                w + |InOrder(parts[..k]).out|, max)
    {
    }
  }
}
