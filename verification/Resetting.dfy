/** What a reset struct holds, row by row. */
module Resetting {
  import opened Platform
  import opened Varint
  import opened Descriptor
  import opened FieldIter
  import opened Encoding
  import opened Decoding
  import opened Typing
  import opened RoundTrip
  import opened LastWins
  import opened Heap
  import opened HeapDefaults

  // ---------------------------------------------------------------- static storage

  /** The default of the field where it has one; otherwise zero, no bytes, or all bytes zero; a message, row by
      row. */
  predicate ResetValue(f: Field, v: Value)
    decreases f, 0
  {
    if f.ltype.LSubmessage? then v.Message? && ResetMessage(f.sub, v.slots)
    else match f.initial
      case Some(initial) => v == initial
      case None =>
        match v
        case Number(n) => n == 0
        case Blob(bs) => |bs| == (if f.ltype.LBytes? then 0 else f.dataSize) && forall i :: 0 <= i < |bs| ==> bs[i] == 0
        case Message(_) => false
  }

  /** Neither present nor counted nor chosen, but with the value it is reset to. */
  predicate ResetSlot(f: Field, s: Slot)
    decreases f, 1
  {
    match s
    case One(v) => (f.htype.Required? || f.htype.Optional?) && ResetValue(f, v)
    case Opt(has, v) => f.htype.Optional? && !has && ResetValue(f, v)
    case Arr(count, _) => f.htype.Repeated? && count == 0
    case Fixed(_) => f.htype.Repeated?
    case Union(which, _) => f.htype.Oneof? && which == 0
    case Hole => f.htype.Oneof?
  }

  predicate ResetMessage(fields: seq<Field>, slots: seq<Slot>)
    decreases fields
  {
    |slots| == |fields| && forall k :: 0 <= k < |fields| ==> ResetSlot(fields[k], slots[k])
  }

  lemma {:induction false} DefaultValueResets(f: Field, v: Value)
    requires WellFormedField(f) && TypedValue(f, v)
    ensures ResetValue(f, DefaultValue(f, v))
    decreases f, 0
  {
    hide TypedMessage, WellFormed, ResetMessage, SetDefaults, SignedFits, UnsignedFits;
    if f.ltype.LSubmessage? {
      DefaultsReset(f.sub, v.slots);
    }
  }

  /** pb_message_set_to_defaults makes every row as it should be after a reset; the contents of arrays and unions
      stay. */
  lemma {:induction false} DefaultsReset(fields: seq<Field>, slots: seq<Slot>)
    requires WellFormed(fields) && TypedMessage(fields, slots)
    ensures ResetMessage(fields, SetDefaults(fields, slots))
    ensures forall k :: 0 <= k < |fields| && fields[k].htype.Repeated? ==>
              ItemsOf(SetDefaults(fields, slots)[k]) == ItemsOf(slots[k])
    ensures forall k :: 0 <= k < |fields| && slots[k].Union? ==> SetDefaults(fields, slots)[k] == Union(0, slots[k].v)
    decreases fields, 1
  {
    hide DefaultValue, ResetValue, TypedValue, WellFormedField, Home;
    var d := SetDefaults(fields, slots);
    forall k | 0 <= k < |fields|
      ensures ResetSlot(fields[k], d[k])
      ensures fields[k].htype.Repeated? ==> ItemsOf(d[k]) == ItemsOf(slots[k])
      ensures slots[k].Union? ==> d[k] == Union(0, slots[k].v)
    {
      FieldOf(fields, k);
      assert TypedSlot(fields, k, slots[k]);
      if fields[k].htype.Required? || fields[k].htype.Optional? {
        DefaultValueResets(fields[k], ValueOf(slots[k]));
      }
    }
  }

  lemma {:induction false} ResetValueStays(f: Field, v: Value)
    requires WellFormedField(f) && TypedValue(f, v) && ResetValue(f, v)
    ensures DefaultValue(f, v) == v
    decreases f, 0
  {
    hide TypedMessage, WellFormed, ResetMessage, SetDefaults, SignedFits, UnsignedFits;
    if f.ltype.LSubmessage? {
      ResetStays(f.sub, v.slots);
    } else if f.initial == None && v.Blob? {
      assert v.bs == Zeros(|v.bs|);
    }
  }

  lemma {:induction false} ResetStays(fields: seq<Field>, slots: seq<Slot>)
    requires WellFormed(fields) && TypedMessage(fields, slots) && ResetMessage(fields, slots)
    ensures SetDefaults(fields, slots) == slots
    decreases fields, 1
  {
    hide DefaultValue, ResetValue, TypedValue, WellFormedField, Home;
    forall k | 0 <= k < |fields| ensures SetDefaults(fields, slots)[k] == slots[k] {
      FieldOf(fields, k);
      assert TypedSlot(fields, k, slots[k]) && ResetSlot(fields[k], slots[k]);
      if fields[k].htype.Required? || fields[k].htype.Optional? {
        ResetValueStays(fields[k], ValueOf(slots[k]));
      }
    }
  }

  /** The structs that a reset leaves as they are are the reset ones. */
  lemma SettledExactly(fields: seq<Field>, slots: seq<Slot>)
    requires WellFormed(fields) && TypedMessage(fields, slots)
    ensures Settled(fields, slots) <==> ResetMessage(fields, slots)
  {
    hide SetDefaults, ResetMessage, TypedMessage, WellFormed;
    DefaultsReset(fields, slots);
    if ResetMessage(fields, slots) {
      ResetStays(fields, slots);
    }
  }

  lemma {:induction false} FirstRequired(fields: seq<Field>, k: nat)
    returns (j: nat)
    requires k < |fields| && fields[k].htype.Required?
    ensures j <= k && fields[j].htype.Required? && CountRequired(fields, j) == 0
  {
    if CountRequired(fields, k) == 0 {
      j := k;
    } else {
      var i := EarlierRequired(fields, k);
      j := FirstRequired(fields, i);
    }
  }

  lemma {:induction false} EarlierRequired(fields: seq<Field>, k: nat)
    returns (i: nat)
    requires k <= |fields| && CountRequired(fields, k) > 0
    ensures i < k && fields[i].htype.Required?
  {
    if fields[k - 1].htype.Required? {
      i := k - 1;
    } else {
      i := EarlierRequired(fields, k - 1);
    }
  }

  /** No bytes make a reset struct, unless something is required. */
  lemma EmptyInput(fields: seq<Field>, prior: seq<Slot>)
    requires WellFormed(fields) && TypedMessage(fields, prior)
    ensures var r := Dec(fields, prior, []);
            && (r.Ok? <==> forall k :: 0 <= k < |fields| ==> !fields[k].htype.Required?)
            && (r.Ok? ==> r.rest == [] && ResetMessage(fields, r.value))
  {
    hide SetDefaults, ResetMessage, TypedMessage, WellFormed, CountRequired;
    DefaultsReset(fields, prior);
    forall k | 0 <= k < |fields| && fields[k].htype.Required?
      ensures Dec(fields, prior, []).Fail?
    {
      var j := FirstRequired(fields, k);
      assert j !in Start(SetDefaults(fields, prior)).seen;
    }
  }

  /** Where the body of a message record is read into: an array entry starts as a reset struct, anything else as what
      is there. */
  lemma MessageStarts(f: Field, prior: Value, body: seq<byte>, c: seq<byte>)
    returns (d: seq<Slot>)
    requires WellFormedField(f) && TypedValue(f, prior) && f.ltype.LSubmessage? && |body| < TWO_32
    ensures if f.htype.Repeated? then ResetMessage(f.sub, d) else d == prior.slots
    ensures var r := DecNoInit(f.sub, d, body);
            DecValue(f, prior, VarintBytes(|body|) + body + c) == if r.Ok? then Ok(Message(r.value), c) else Fail
  {
    hide DecNoInit, DecDelimited, VarintBytes, SetDefaults, ResetMessage, WellFormed, TypedMessage;
    d := Embedded(f, prior);
    DefaultsReset(f.sub, prior.slots);
    DelimitedRoundTrip(body, c);
    assert VarintBytes(|body|) + body + c == StringBytes(body) + c;
  }

  /** The message of a union starts as a reset struct, whatever the union held, and becomes its member. */
  lemma UnionMessageStarts(fields: seq<Field>, k: nat, wireType: nat, st: State, body: seq<byte>, c: seq<byte>)
    returns (d: seq<Slot>)
    requires WellFormed(fields) && k < |fields| == |st.slots| && wireType < 8 && |body| < TWO_32
    requires fields[k].htype.Oneof? && fields[k].ltype.LSubmessage?
    ensures ResetMessage(fields[k].sub, d)
    ensures var f, h := fields[k], Home(fields, k);
            var r := DecNoInit(f.sub, d, body);
            DecLoop(fields, st, Nested(f, wireType, body) + c) ==
              if r.Ok? then DecLoop(fields, st.(slots := st.slots[h := Union(f.tag, Message(r.value))]), c) else Broken
  {
    hide DecNoInit, DecRow, DecLoop, DecValue, VarintBytes, SetDefaults, ZeroSlots, ResetMessage, WellFormed, Record,
      TypedMessage, Home;
    var f, target := fields[k], Target(fields[k], st.slots[Home(fields, k)]);
    FieldOf(fields, k);
    ZeroSlotsTyped(f);
    DefaultsTyped(f.sub, ZeroSlots(f.sub));
    DefaultsReset(f.sub, ZeroSlots(f.sub));
    d := MessageStarts(f, target, body, c);
    RecordLoop(fields, k, wireType, st, VarintBytes(|body|) + body, c);
    UnionTurn(fields, k, wireType, st, VarintBytes(|body|) + body + c);
  }

  lemma UnionTurn(fields: seq<Field>, k: nat, wireType: nat, st: State, bs: seq<byte>)
    requires k < |fields| == |st.slots| && fields[k].htype.Oneof?
    ensures var f, h := fields[k], Home(fields, k);
            var r := DecValue(f, Target(f, st.slots[h]), bs);
            DecRow(fields, k, wireType, st, bs) ==
              if r.Ok? then Next(st.(slots := st.slots[h := Union(f.tag, r.value)]), r.rest) else Error
  {
    hide DecValue, Target, Home;
  }

  // ---------------------------------------------------------------- storage with pointers

  predicate ResetItem(f: Field, it: Item)
    decreases it
  {
    match it
    case Raw(v) => ResetValue(f, v)
    case Struct(rows) => ResetRows(f.sub, rows)
    case Text(_) => false
  }

  /** Pointers are NULL, counts and has_ flags zero, single items reset. */
  predicate ResetRow(f: Field, row: Row)
    decreases row
  {
    match row
    case Indirect(size, p) => f.atype.Pointer? && p == Null && (f.htype.Repeated? ==> size == 0)
    case Inline(size, items) =>
      if f.htype.Repeated? then f.sizeOffset != 0 ==> size == 0
      else size == 0 && |items| == 1 && ResetItem(f, items[0])
  }

  predicate ResetRows(fields: seq<Field>, rows: seq<Row>)
    decreases rows
  {
    |rows| == |fields| && forall k :: 0 <= k < |fields| ==> ResetRow(fields[k], rows[k])
  }

  lemma ZeroValueResets(f: Field)
    requires !f.ltype.LSubmessage? && f.initial == None
    ensures ResetValue(f, ZeroValue(f))
  {
  }

  lemma {:induction false} DefaultItemResets(f: Field, it: Item)
    requires AllocatableField(f) && !f.atype.Pointer? && ShapedItem(f, it)
    ensures ResetItem(f, DefaultItem(f, it))
    decreases it, 0
  {
    hide Allocatable, Shaped, Defaults, ResetRows, ResetValue, ZeroValue;
    if it.Struct? {
      DefaultRowsReset(f.sub, it.rows);
    } else if f.initial == None {
      ZeroValueResets(f);
    } else {
      InitialResets(f);
    }
  }

  lemma InitialResets(f: Field)
    requires !f.ltype.LSubmessage? && f.initial.Some?
    ensures ResetValue(f, f.initial.value)
  {
  }

  /** The same reset where fields lie behind pointers, whatever the pointers were; the items of arrays stay. */
  lemma {:induction false} DefaultRowsReset(fields: seq<Field>, rows: seq<Row>)
    requires Allocatable(fields) && Shaped(fields, rows)
    ensures ResetRows(fields, Defaults(fields, rows))
    ensures forall k :: 0 <= k < |fields| && fields[k].htype.Repeated? && !fields[k].atype.Pointer? ==>
              rows[k].Inline? && Defaults(fields, rows)[k] == Inline(Defaults(fields, rows)[k].size, rows[k].items)
    decreases rows, 1
  {
    hide AllocatableField, DistinctTags, DefaultItem, ShapedItem, ResetItem;
    var d := Defaults(fields, rows);
    forall k | 0 <= k < |fields|
      ensures ResetRow(fields[k], d[k])
      ensures fields[k].htype.Repeated? && !fields[k].atype.Pointer? ==>
                rows[k].Inline? && d[k] == Inline(d[k].size, rows[k].items)
    {
      assert ShapedRow(fields[k], rows[k]) && d[k] == DefaultRow(fields[k], rows[k]);
      if !fields[k].htype.Repeated? && rows[k].Inline? {
        DefaultItemResets(fields[k], rows[k].items[0]);
      }
    }
  }

  /** A message behind a pointer starts as a reset one, whatever was in the memory. */
  lemma InitializedResets(f: Field, raw: Item)
    requires AllocatableField(f) && f.ltype.LSubmessage?
    ensures Initialized(f, raw).Struct? && ResetRows(SubTable(f), Initialized(f, raw).rows)
  {
    hide Allocatable, Defaults, Cleared, ResetRows;
    AllocatableSub(f);
    ClearedShaped(SubTable(f));
    DefaultRowsReset(SubTable(f), Cleared(SubTable(f)));
  }
}
