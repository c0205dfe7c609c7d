/** What every run of the decoder keeps: each slot holds storage of the type its row gives it. */
module Typing {
  import opened Platform
  import opened Varint
  import opened ZigZag
  import opened Descriptor
  import opened Encoding
  import opened Decoding

  lemma {:induction false} ZeroValueTyped(f: Field)
    requires WellFormedField(f)
    ensures TypedValue(f, ZeroValue(f))
    decreases f, 0
  {
    if f.ltype.LSubmessage? {
      ZeroMessageTyped(f.sub);
    }
  }

  lemma {:induction false} ZeroMessageTyped(fields: seq<Field>)
    requires WellFormed(fields)
    ensures TypedMessage(fields, ZeroSlots(fields))
    decreases fields, 1
  {
    hide ZeroValue, TypedValue, WellFormedField;
    NoTagZero(fields);
    forall k | 0 <= k < |fields| ensures TypedSlot(fields, k, ZeroSlots(fields)[k]) {
      ZeroValueTyped(fields[k]);
    }
  }

  lemma NoTagZero(fields: seq<Field>)
    requires WellFormed(fields)
    ensures forall j :: 0 <= j < |fields| ==> fields[j].tag != 0
  {
    forall j | 0 <= j < |fields| ensures fields[j].tag != 0 { assert WellFormedField(fields[j]); }
  }

  lemma ZeroSlotsTyped(f: Field)
    requires WellFormedField(f) && f.ltype.LSubmessage?
    ensures TypedMessage(f.sub, ZeroSlots(f.sub))
  {
    ZeroValueTyped(f);
  }

  lemma {:induction false} DefaultValueTyped(f: Field, v: Value)
    requires WellFormedField(f) && (f.ltype.LSubmessage? ==> TypedValue(f, v))
    ensures TypedValue(f, DefaultValue(f, v))
    decreases f, 0
  {
    if f.ltype.LSubmessage? {
      DefaultsTyped(f.sub, v.slots);
    } else {
      ZeroValueTyped(f);
    }
  }

  lemma {:induction false} DefaultsTyped(fields: seq<Field>, slots: seq<Slot>)
    requires WellFormed(fields) && TypedMessage(fields, slots)
    ensures TypedMessage(fields, SetDefaults(fields, slots))
    decreases fields, 1
  {
    NoTagZero(fields);
    forall k | 0 <= k < |fields|
      ensures TypedSlot(fields, k, SetDefaults(fields, slots)[k])
    {
      assert TypedSlot(fields, k, slots[k]);
      var f := fields[k];
      if !f.htype.Repeated? && !f.htype.Oneof? {
        DefaultValueTyped(f, ValueOf(slots[k]));
      }
    }
  }

  // ---------------------------------------------------------------- decoding

  lemma {:induction false} LittleEndianBound(bs: seq<byte>)
    requires |bs| == 4 || |bs| == 8
    ensures FromLittleEndian(bs) < if |bs| == 4 then TWO_32 else TWO_64
  {
    if |bs| == 4 {
      Bound4(bs);
    } else {
      Bound4(bs[4..]);
      assert FromLittleEndian(bs[3..]) == bs[3] + 256 * FromLittleEndian(bs[4..]) by { assert bs[3..][1..] == bs[4..]; }
      assert FromLittleEndian(bs[2..]) == bs[2] + 256 * FromLittleEndian(bs[3..]) by { assert bs[2..][1..] == bs[3..]; }
      assert FromLittleEndian(bs[1..]) == bs[1] + 256 * FromLittleEndian(bs[2..]) by { assert bs[1..][1..] == bs[2..]; }
    }
  }

  lemma Bound4(bs: seq<byte>)
    requires |bs| == 4
    ensures FromLittleEndian(bs) < TWO_32
  {
    assert FromLittleEndian(bs[3..]) == bs[3] + 256 * FromLittleEndian([]) by { assert bs[3..][1..] == []; }
    assert FromLittleEndian(bs[2..]) == bs[2] + 256 * FromLittleEndian(bs[3..]) by { assert bs[2..][1..] == bs[3..]; }
    assert FromLittleEndian(bs[1..]) == bs[1] + 256 * FromLittleEndian(bs[2..]) by { assert bs[1..][1..] == bs[2..]; }
  }

  lemma ScalarTyped(f: Field, bs: seq<byte>)
    requires DecScalar(f, bs).Ok?
    ensures TypedValue(f, DecScalar(f, bs).value)
  {
    hide DecVarint, DecVarint32, FromLittleEndian, SignedFits, UnsignedFits, DecodeZigZag;
    if f.ltype.LFixed32? {
      LittleEndianBound(bs[..4]);
    } else if f.ltype.LFixed64? {
      LittleEndianBound(bs[..8]);
    }
  }

  lemma BlobTyped(f: Field, b: seq<byte>)
    requires WellFormedField(f) && StoreBlob(f, b).Some?
    ensures TypedValue(f, StoreBlob(f, b).value)
  {
  }

  lemma {:induction false} ValueTyped(f: Field, prior: Value, bs: seq<byte>)
    requires WellFormedField(f) && (f.ltype.LSubmessage? ==> TypedValue(f, prior))
    requires DecValue(f, prior, bs).Ok?
    ensures TypedValue(f, DecValue(f, prior, bs).value)
    decreases |bs|, 0
  {
    hide DecScalar, DecDelimited, StoreBlob, DecNoInit, TypedMessage, WellFormed, SetDefaults;
    if Packable(f.ltype) {
      ScalarTyped(f, bs);
    } else {
      var b := DecDelimited(bs).value;
      if f.ltype.LSubmessage? {
        DefaultsTyped(f.sub, SlotsOf(prior));
        NoInitTyped(f.sub, Embedded(f, prior), b);
      } else {
        BlobTyped(f, b);
      }
    }
  }

  lemma {:induction false} PackedTyped(f: Field, a: Filled, b: seq<byte>)
    requires forall i :: 0 <= i < |a.items| ==> TypedValue(f, a.items[i])
    requires DecPacked(f, a, b).Some?
    ensures var a' := DecPacked(f, a, b).value;
            |a'.items| == |a.items| && forall i :: 0 <= i < |a'.items| ==> TypedValue(f, a'.items[i])
    decreases |b|
  {
    hide DecScalar, TypedValue;
    if b != [] {
      ScalarTyped(f, b);
      PackedTyped(f, Filled(a.items[a.count := DecScalar(f, b).value], a.count + 1), DecScalar(f, b).rest);
    }
  }

  lemma {:induction false} RepeatedTyped(f: Field, wireType: nat, a: Filled, bs: seq<byte>)
    requires WellFormedField(f) && forall i :: 0 <= i < |a.items| ==> TypedValue(f, a.items[i])
    requires DecRepeated(f, wireType, a, bs).Ok?
    ensures var a' := DecRepeated(f, wireType, a, bs).value;
            |a'.items| == |a.items| && forall i :: 0 <= i < |a'.items| ==> TypedValue(f, a'.items[i])
    decreases |bs|, 1
  {
    hide DecValue, DecPacked, DecDelimited, TypedValue, WellFormedField;
    if wireType == WT_STRING && Packable(f.ltype) {
      PackedTyped(f, a, DecDelimited(bs).value);
    } else {
      ValueTyped(f, a.items[a.count], bs);
    }
  }

  lemma TargetTyped(fields: seq<Field>, k: nat, s: Slot)
    requires WellFormed(fields) && k < |fields| && TypedSlot(fields, Home(fields, k), s)
    requires !fields[k].htype.Repeated? && fields[k].ltype.LSubmessage?
    ensures TypedValue(fields[k], Target(fields[k], s))
  {
    var f := fields[k];
    assert WellFormedField(f);
    if f.htype.Oneof? {
      ZeroSlotsTyped(f);
      DefaultsTyped(f.sub, ZeroSlots(f.sub));
    }
  }

  lemma StoredTyped(fields: seq<Field>, k: nat, s: Slot, v: Value)
    requires DistinctTags(fields) && k < |fields| && TypedSlot(fields, Home(fields, k), s)
    requires !fields[k].htype.Repeated? && TypedValue(fields[k], v)
    ensures TypedSlot(fields, Home(fields, k), Stored(fields[k], s, v))
  {
    hide TypedValue, DistinctTags;
    if fields[k].htype.Oneof? {
      forall j | 0 <= j < |fields| && Home(fields, j) == Home(fields, k) && fields[j].tag == fields[k].tag
        ensures TypedValue(fields[j], v)
      {
        SameTag(fields, j, k);
      }
    }
  }

  lemma SameTag(fields: seq<Field>, i: nat, j: nat)
    requires DistinctTags(fields) && i < |fields| && j < |fields| && fields[i].tag == fields[j].tag
    ensures i == j
  {
  }

  lemma {:induction false} FieldTyped(fields: seq<Field>, k: nat, wireType: nat, st: State, bs: seq<byte>)
    requires WellFormed(fields) && TypedMessage(fields, st.slots) && k < |fields|
    requires DecField(fields[k], wireType, Home(fields, k), st, bs).Ok?
    ensures TypedMessage(fields, DecField(fields[k], wireType, Home(fields, k), st, bs).value.slots)
    decreases |bs|, 2
  {
    hide DecValue, DecRepeated, TypedValue, WellFormedField, Target, Stored;
    var f, h := fields[k], Home(fields, k);
    var s := st.slots[h];
    assert WellFormedField(f);
    assert TypedSlot(fields, h, s);
    if f.htype.Repeated? {
      RepeatedTyped(f, wireType, Filled(ItemsOf(s), if s.Arr? then s.count else st.fixedCount), bs);
    } else {
      if f.ltype.LSubmessage? {
        TargetTyped(fields, k, s);
      }
      ValueTyped(f, Target(f, s), bs);
      StoredTyped(fields, k, s, DecValue(f, Target(f, s), bs).value);
    }
  }

  lemma {:induction false} TurnTyped(fields: seq<Field>, st: State, bs: seq<byte>)
    requires WellFormed(fields) && TypedMessage(fields, st.slots) && DecTurn(fields, st, bs).Next?
    ensures TypedMessage(fields, DecTurn(fields, st, bs).st.slots)
    decreases |bs|, 3
  {
    hide DecTag, FindTag, SkipField, DecField, TypedMessage, WellFormed;
    var t := DecTag(bs);
    if FindTag(fields, t.tag).Some? {
      var k := FindTag(fields, t.tag).value;
      FieldTyped(fields, k, t.wireType, Mark(fields, k, Track(fields, k, st).value), t.rest);
    }
  }

  /** Every state the decoder reaches is typed. */
  lemma {:induction false} LoopTyped(fields: seq<Field>, st: State, bs: seq<byte>)
    requires WellFormed(fields) && TypedMessage(fields, st.slots) && DecLoop(fields, st, bs).Ran?
    ensures TypedMessage(fields, DecLoop(fields, st, bs).st.slots)
    decreases |bs|, 4
  {
    hide DecTurn, TypedSlot, WellFormed;
    if bs != [] && DecTurn(fields, st, bs).Next? {
      TurnTyped(fields, st, bs);
      LoopTyped(fields, DecTurn(fields, st, bs).st, DecTurn(fields, st, bs).rest);
    }
  }

  lemma {:induction false} NoInitTyped(fields: seq<Field>, slots: seq<Slot>, bs: seq<byte>)
    requires WellFormed(fields) && TypedMessage(fields, slots) && DecNoInit(fields, slots, bs).Ok?
    ensures TypedMessage(fields, DecNoInit(fields, slots, bs).value)
    decreases |bs|, 5
  {
    LoopTyped(fields, Start(slots), bs);
  }
}
