/** Without pointers the heap changes nothing: there, what HeapDecoding says is what Decoding says. */
module PlainTables {
  import opened Platform
  import opened Varint
  import opened Descriptor
  import opened Decoding
  import opened Typing
  import opened RoundTrip
  import opened Heap
  import opened HeapDefaults
  import opened HeapDecoding

  // ---------------------------------------------------------------- one struct for the other

  /** The same storage, as the heap modules describe it. */
  function ItemOf(f: Field, v: Value): Item
    decreases f, 0
  {
    if f.ltype.LSubmessage? then Struct(RowsOfSlots(f.sub, SlotsOf(v))) else Raw(v)
  }

  function RowOfSlot(f: Field, s: Slot): Row
    decreases f, 1
  {
    match s
    case Opt(has, v) => Inline(if has then 1 else 0, [ItemOf(f, v)])
    case Arr(count, items) => Inline(count, Raws(items))
    case Fixed(items) => Inline(0, Raws(items))
    case _ => Inline(0, [ItemOf(f, ValueOf(s))])
  }

  function RowsOfSlots(fields: seq<Field>, slots: seq<Slot>): (r: seq<Row>)
    ensures |r| == |fields|
    decreases fields, 2
  {
    seq(|fields|, k requires 0 <= k < |fields| => RowOfSlot(fields[k], SlotAt(slots, k)))
  }

  /** Tables of both worlds: static rows, no unions, no arrays of messages. */
  predicate PlainTable(fields: seq<Field>) {
    WellFormed(fields) && Allocatable(fields)
  }

  lemma PlainRowAt(fields: seq<Field>, slots: seq<Slot>, k: nat)
    requires PlainTable(fields) && TypedMessage(fields, slots) && k < |fields|
    ensures WellFormed(fields) && |slots| == |fields| && Home(fields, k) == k && TypedSlot(fields, k, slots[k])
    ensures WellFormedField(fields[k]) && AllocatableField(fields[k]) && !fields[k].htype.Oneof?
    ensures !fields[k].atype.Pointer? && (fields[k].htype.Repeated? ==> !fields[k].ltype.LSubmessage?)
    ensures !fields[k].ltype.LExtension? && (fields[k].ltype.LSubmessage? ==> PlainTable(fields[k].sub))
  {
    hide TypedSlot, TypedValue, DistinctTags;
  }

  // ---------------------------------------------------------------- defaults

  lemma {:induction false} SameDefaults(fields: seq<Field>, slots: seq<Slot>)
    requires PlainTable(fields) && TypedMessage(fields, slots)
    ensures Defaults(fields, RowsOfSlots(fields, slots)) == RowsOfSlots(fields, SetDefaults(fields, slots))
    decreases fields, 1
  {
    hide PlainTable, TypedMessage, RowOfSlot, DefaultRow, DefaultSlot;
    var d := SetDefaults(fields, slots);
    forall k | 0 <= k < |fields|
      ensures DefaultRow(fields[k], RowOfSlot(fields[k], SlotAt(slots, k))) == RowOfSlot(fields[k], d[k])
    {
      PlainRowAt(fields, slots, k);
      SameDefaultRow(fields, k, slots[k]);
    }
    assert Defaults(fields, RowsOfSlots(fields, slots)) == RowsOfSlots(fields, d);
  }

  lemma {:induction false} SameDefaultRow(fields: seq<Field>, k: nat, s: Slot)
    requires k < |fields| && Home(fields, k) == k && TypedSlot(fields, k, s) && !fields[k].htype.Oneof?
    requires !fields[k].atype.Pointer? && (fields[k].ltype.LSubmessage? ==> PlainTable(fields[k].sub))
    requires fields[k].htype.Repeated? ==> !fields[k].ltype.LSubmessage?
    ensures DefaultRow(fields[k], RowOfSlot(fields[k], s)) == RowOfSlot(fields[k], DefaultSlot(fields[k], false, s))
    decreases fields, 0
  {
    hide PlainTable, Home, Defaults, RowsOfSlots, SetDefaults, TypedMessage;
    var f := fields[k];
    if !f.htype.Repeated? {
      var v := ValueOf(s);
      if f.ltype.LSubmessage? {
        SameDefaults(f.sub, v.slots);
      }
      assert DefaultItem(f, ItemOf(f, v)) == ItemOf(f, DefaultValue(f, v));
      var r := DefaultRow(f, RowOfSlot(f, s));
      assert r.items == [DefaultItem(f, ItemOf(f, v))];
    }
  }

  // ---------------------------------------------------------------- records

  lemma {:induction false} SameItem(f: Field, prior: Value, bs: seq<byte>)
    requires WellFormedField(f) && !f.htype.Repeated? && !f.atype.Pointer? && !f.htype.Oneof?
    requires f.ltype.LSubmessage? ==> TypedValue(f, prior) && PlainTable(f.sub)
    ensures var r := DecValue(f, prior, bs);
            ReadItem(f, ItemOf(f, prior), bs) == if r.Ok? then Ok(ItemOf(f, r.value), r.rest) else Fail
    decreases |bs|, 0
  {
    hide DecScalar, DecDelimited, StoreBlob, DecNoInit, ReadNoInit, TypedMessage, PlainTable, RowsOfSlots,
      WellFormed;
    if f.ltype.LSubmessage? && DecDelimited(bs).Ok? {
      SameNoInit(f.sub, prior.slots, DecDelimited(bs).value);
    }
  }

  lemma RawValues(values: seq<Value>)
    ensures ValuesOf(Raws(values)) == values
  {
  }

  /** decode_field on a static row. */
  lemma {:induction false} SameField(fields: seq<Field>, k: nat, wireType: nat, st: State, bs: seq<byte>)
    requires PlainTable(fields) && TypedMessage(fields, st.slots) && k < |fields| == |st.slots|
    ensures var r := DecField(fields[k], wireType, Home(fields, k), st, bs);
            && (r.Ok? ==> r.value == st.(slots := st.slots[k := r.value.slots[k]], fixedCount := r.value.fixedCount))
            && ReadField(fields[k], wireType, RowOfSlot(fields[k], st.slots[k]), st.fixedCount, bs)
            == if r.Ok? then Ok(Counted(RowOfSlot(fields[k], r.value.slots[k]), r.value.fixedCount), r.rest) else Fail
    decreases |bs|, 2
  {
    hide DecRepeated, DecValue, ReadItem, TypedValue, WellFormed, WellFormedField, PlainTable, TypedMessage, Home,
      ItemOf, Raws, ValuesOf, SetDefaults, ZeroSlots;
    PlainRowAt(fields, st.slots, k);
    var f, s := fields[k], st.slots[k];
    if f.htype.Repeated? {
      RawValues(s.items);
    } else {
      if f.ltype.LSubmessage? {
        TargetTyped(fields, k, s);
      }
      SameItem(f, Target(f, s), bs);
    }
  }

  // ---------------------------------------------------------------- messages

  /** What the heap modules keep of the decoder's state. */
  function Book(st: State): State {
    st.(slots := [])
  }

  lemma SameMarks(fields: seq<Field>, k: nat, st: State)
    requires k < |fields|
    ensures var t := Track(fields, k, st);
            && Track(fields, k, Book(st)) == (if t.Some? then Some(Book(t.value)) else None)
            && (t.Some? ==> t.value.slots == st.slots)
    ensures Mark(fields, k, Book(st)) == Book(Mark(fields, k, st)) && Mark(fields, k, st).slots == st.slots
    ensures Complete(fields, Book(st)) == Complete(fields, st)
  {
  }

  lemma {:induction false} SameTurn(fields: seq<Field>, st: State, bs: seq<byte>)
    requires PlainTable(fields) && TypedMessage(fields, st.slots) && |fields| == |st.slots|
    ensures var t := DecTurn(fields, st, bs);
            ReadTurn(fields, RowsOfSlots(fields, st.slots), Book(st), bs) == TurnImage(fields, t)
    decreases |bs|, 3
  {
    hide DecTag, FindTag, SkipField, DecRow, ReadRow, TypedMessage, PlainTable, RowsOfSlots, DecVarint32;
    var t := DecTag(bs);
    if t.Tag? && FindTag(fields, t.tag).Some? {
      SameRow(fields, FindTag(fields, t.tag).value, t.wireType, st, t.rest);
    }
  }

  function TurnImage(fields: seq<Field>, t: Turn): HeapTurn {
    match t
    case Next(st, rest) => Onward(RowsOfSlots(fields, st.slots), Book(st), rest)
    case Stop(rest) => Halt(rest)
    case Error => Wrong
  }

  lemma {:induction false} SameRow(fields: seq<Field>, k: nat, wireType: nat, st: State, bs: seq<byte>)
    requires PlainTable(fields) && TypedMessage(fields, st.slots) && k < |fields| == |st.slots|
    ensures ReadRow(fields, k, wireType, RowsOfSlots(fields, st.slots), Book(st), bs)
         == TurnImage(fields, DecRow(fields, k, wireType, st, bs))
    decreases |bs|, 3
  {
    hide DecField, ReadField, TypedMessage, PlainTable, RowOfSlot, Complete, Home;
    SameMarks(fields, k, st);
    var t := Track(fields, k, st);
    if t.Some? {
      SameMarks(fields, k, t.value);
      var marked := Mark(fields, k, t.value);
      SameField(fields, k, wireType, marked, bs);
      var r := DecField(fields[k], wireType, Home(fields, k), marked, bs);
      if r.Ok? {
        RowsUpdate(fields, st.slots, k, r.value.slots[k]);
      }
    }
  }

  lemma RowsUpdate(fields: seq<Field>, slots: seq<Slot>, k: nat, s: Slot)
    requires k < |fields| == |slots|
    ensures RowsOfSlots(fields, slots[k := s]) == RowsOfSlots(fields, slots)[k := RowOfSlot(fields[k], s)]
    ensures RowsOfSlots(fields, slots)[k] == RowOfSlot(fields[k], slots[k])
  {
    hide RowOfSlot;
  }

  lemma {:induction false} SameLoop(fields: seq<Field>, st: State, bs: seq<byte>)
    requires PlainTable(fields) && TypedMessage(fields, st.slots) && |fields| == |st.slots|
    ensures var r := DecLoop(fields, st, bs);
            ReadLoop(fields, RowsOfSlots(fields, st.slots), Book(st), bs)
            == if r.Ran? then Over(RowsOfSlots(fields, r.st.slots), Book(r.st), r.rest, r.stopped) else Failed
    decreases |bs|, 4
  {
    hide DecTurn, ReadTurn, TypedMessage, WellFormed, Allocatable, RowsOfSlots;
    if bs != [] {
      SameTurn(fields, st, bs);
      var t := DecTurn(fields, st, bs);
      if t.Next? {
        TurnTyped(fields, st, bs);
        SameLoop(fields, t.st, t.rest);
      }
    }
  }

  lemma {:induction false} SameNoInit(fields: seq<Field>, slots: seq<Slot>, bs: seq<byte>)
    requires PlainTable(fields) && TypedMessage(fields, slots)
    ensures var r := DecNoInit(fields, slots, bs);
            ReadNoInit(fields, RowsOfSlots(fields, slots), bs)
            == if r.Ok? then Ok(RowsOfSlots(fields, r.value), r.rest) else Fail
    decreases |bs|, 5
  {
    hide DecLoop, ReadLoop, TypedMessage, PlainTable, Complete, RowsOfSlots;
    LengthOf(fields, slots);
    SameLoop(fields, Start(slots), bs);
    var r := DecLoop(fields, Start(slots), bs);
    if r.Ran? && fields != [] {
      SameMarks(fields, 0, r.st);
    } else if r.Ran? {
      NoMarks(fields, r.st);
    }
  }

  lemma NoMarks(fields: seq<Field>, st: State)
    ensures Complete(fields, Book(st)) == Complete(fields, st)
  {
  }

  /** pb_decode on a table without pointers: the two specifications agree in verdict, struct and rest. */
  lemma SameDecode(fields: seq<Field>, slots: seq<Slot>, bs: seq<byte>)
    requires PlainTable(fields) && TypedMessage(fields, slots)
    ensures var r := Dec(fields, slots, bs);
            Read(fields, RowsOfSlots(fields, slots), bs)
            == if r.Ok? then Ok(RowsOfSlots(fields, r.value), r.rest) else Fail
  {
    hide DecNoInit, ReadNoInit, TypedMessage, WellFormed, Allocatable, SetDefaults, Defaults, RowsOfSlots;
    SameDefaults(fields, slots);
    DefaultsTyped(fields, slots);
    SameNoInit(fields, SetDefaults(fields, slots), bs);
  }
}
