/** What concatenating byte strings does to the decoder. */
module Merging {
  import opened Platform
  import opened Varint
  import opened Descriptor
  import opened Encoding
  import opened Decoding
  import opened Locality
  import opened Typing
  import opened RoundTrip
  import opened WireFormat

  /** The same state with more required rows marked as met. */
  function WithSeen(st: State, more: set<nat>): State {
    st.(seen := more + st.seen)
  }

  function RunWithSeen(r: Run, more: set<nat>): Run {
    if r.Ran? then r.(st := WithSeen(r.st, more)) else r
  }

  function TurnWithSeen(t: Turn, more: set<nat>): Turn {
    if t.Next? then t.(st := WithSeen(t.st, more)) else t
  }

  lemma RowSeen(fields: seq<Field>, k: nat, wireType: nat, st: State, bs: seq<byte>, more: set<nat>)
    requires |st.slots| == |fields| && k < |fields|
    ensures DecRow(fields, k, wireType, WithSeen(st, more), bs)
         == TurnWithSeen(DecRow(fields, k, wireType, st, bs), more)
  {
    hide DecRepeated, DecValue, Target, Stored, Home;
    assert more + (st.seen + {k}) == (more + st.seen) + {k};
  }

  lemma TurnSeen(fields: seq<Field>, st: State, bs: seq<byte>, more: set<nat>)
    requires |st.slots| == |fields|
    ensures DecTurn(fields, WithSeen(st, more), bs) == TurnWithSeen(DecTurn(fields, st, bs), more)
  {
    hide DecTag, DecRow, FindTag, SkipField, DecVarint32;
    var t := DecTag(bs);
    if t.Tag? && FindTag(fields, t.tag).Some? {
      RowSeen(fields, FindTag(fields, t.tag).value, t.wireType, st, t.rest, more);
    }
  }

  /** The decoder never reads which required rows it has met before it is done. */
  lemma {:induction false} LoopSeen(fields: seq<Field>, st: State, bs: seq<byte>, more: set<nat>)
    requires |st.slots| == |fields|
    ensures DecLoop(fields, WithSeen(st, more), bs) == RunWithSeen(DecLoop(fields, st, bs), more)
    decreases |bs|
  {
    hide DecTurn;
    if bs != [] {
      TurnSeen(fields, st, bs, more);
      var t := DecTurn(fields, st, bs);
      if t.Next? {
        LoopSeen(fields, t.st, t.rest, more);
      }
    }
  }

  predicate NoFixedCount(fields: seq<Field>) {
    forall k :: 0 <= k < |fields| ==> !IsFixedCount(fields[k])
  }

  lemma RowUncounted(fields: seq<Field>, k: nat, wireType: nat, st: State, bs: seq<byte>)
    requires NoFixedCount(fields) && TypedMessage(fields, st.slots) && k < |fields|
    requires DecRow(fields, k, wireType, st, bs).Next?
    ensures var st' := DecRow(fields, k, wireType, st, bs).st;
            st'.fixedField == st.fixedField && st'.fixedCount == st.fixedCount
  {
    hide DecRepeated, DecValue, Target, Stored, TypedValue;
    assert TypedSlot(fields, Home(fields, k), st.slots[Home(fields, k)]);
  }

  /** Without fixed-count arrays nothing but the struct and the marks passes from record to record. */
  lemma {:induction false} LoopUncounted(fields: seq<Field>, st: State, bs: seq<byte>)
    requires NoFixedCount(fields) && WellFormed(fields) && TypedMessage(fields, st.slots)
    requires DecLoop(fields, st, bs).Ran?
    ensures var st' := DecLoop(fields, st, bs).st;
            st'.fixedField == st.fixedField && st'.fixedCount == st.fixedCount
    decreases |bs|
  {
    hide DecRow, DecTag, FindTag, SkipField, TypedSlot, WellFormed, IsFixedCount;
    if bs != [] {
      var t := DecTurn(fields, st, bs);
      if t.Next? {
        TurnTyped(fields, st, bs);
        var tag := DecTag(bs);
        if FindTag(fields, tag.tag).Some? && fields != [] {
          RowUncounted(fields, FindTag(fields, tag.tag).value, tag.wireType, st, tag.rest);
        }
        LoopUncounted(fields, t.st, t.rest);
      }
    }
  }

  /** Decoding a + b is decoding a and then decoding b into the result, except that the required
      rows may be met in either part. */
  lemma MergeHomomorphism(fields: seq<Field>, m: seq<Slot>, a: seq<byte>, b: seq<byte>)
    requires WellFormed(fields) && TypedMessage(fields, m) && NoFixedCount(fields)
    requires DecLoop(fields, Start(m), a).Ran? && !DecLoop(fields, Start(m), a).stopped
    ensures var first := DecLoop(fields, Start(m), a).st;
            DecLoop(fields, Start(m), a + b) == RunWithSeen(DecLoop(fields, Start(first.slots), b), first.seen)
  {
    hide DecLoop;
    var first := DecLoop(fields, Start(m), a).st;
    LoopConcat(fields, Start(m), a, b);
    LoopUncounted(fields, Start(m), a);
    LoopSeen(fields, Start(first.slots), b, first.seen);
    assert first.seen + {} == first.seen;
  }

  /** Last one wins, merged: if m decodes a to m1 and m1 decodes b to m2, m decodes a + b to m2. */
  lemma DecodeConcat(fields: seq<Field>, m: seq<Slot>, a: seq<byte>, b: seq<byte>)
    requires WellFormed(fields) && TypedMessage(fields, m) && NoFixedCount(fields)
    requires DecNoInit(fields, m, a).Ok? && !DecLoop(fields, Start(m), a).stopped
    ensures var m1 := DecNoInit(fields, m, a).value;
            DecNoInit(fields, m1, b).Ok? ==> DecNoInit(fields, m, a + b) == DecNoInit(fields, m1, b)
    ensures var first := DecLoop(fields, Start(m), a).st;
            var second := DecLoop(fields, Start(first.slots), b);
            DecNoInit(fields, m, a + b).Ok? <==> second.Ran? && RequiredMet(fields, first.seen + second.st.seen)
  {
    hide DecLoop;
    var first := DecLoop(fields, Start(m), a).st;
    MergeHomomorphism(fields, m, a, b);
    LoopUncounted(fields, Start(m), a);
    LoopTyped(fields, Start(m), a);
    var second := DecLoop(fields, Start(first.slots), b);
    if second.Ran? {
      LoopUncounted(fields, Start(first.slots), b);
    }
  }

  /** A zero byte where a record could begin ends the message: what follows it is not read. */
  lemma ZeroByteEnds(fields: seq<Field>, m: seq<Slot>, a: seq<byte>, c: seq<byte>)
    requires |m| == |fields|
    requires DecLoop(fields, Start(m), a).Ran? && !DecLoop(fields, Start(m), a).stopped
    ensures var r := DecNoInit(fields, m, a);
            DecNoInit(fields, m, a + [0] + c) == if r.Ok? then Ok(r.value, c) else Fail
  {
    hide DecTurn;
    var run := DecLoop(fields, Start(m), a);
    LoopConcat(fields, Start(m), a, [0] + c);
    assert a + [0] + c == a + ([0] + c);
    ZeroTurn(fields, run.st, c);
  }

  lemma ZeroTurn(fields: seq<Field>, st: State, c: seq<byte>)
    requires |st.slots| == |fields|
    ensures DecTurn(fields, st, [0] + c) == Stop(c)
  {
    assert ([0] + c)[0] == 0 && ([0] + c)[1..] == c;
  }

  /** u is one record of a field the table does not have. */
  predicate UnknownRecord(fields: seq<Field>, u: seq<byte>) {
    var t := DecTag(u);
    && t.Tag?
    && FindTag(fields, t.tag).None? && !(fields == [] && t.tag == 0)
    && SkipField(t.wireType, t.rest).Ok? && SkipField(t.wireType, t.rest).rest == []
  }

  /** Any tag outside the table makes one, with exactly the payloads of its wire type; a length that size_t cannot
      hold is the exception, see InStream.SkipStringExact. */
  lemma UnknownTagMakesOne(fields: seq<Field>, tag: nat, wireType: nat, payload: seq<byte>)
    requires tag < 0x2000_0000 && FindTag(fields, tag).None? && wireType < 8 && |payload| <= SIZE_MAX
    requires tag > 0 || (wireType > 0 && fields != [])
    ensures IsPayload(wireType, payload) ==> UnknownRecord(fields, VarintBytes(8 * tag + wireType) + payload)
    ensures var announced := DecVarint32(payload);
            UnknownRecord(fields, VarintBytes(8 * tag + wireType) + payload)
            ==> IsPayload(wireType, payload) || (wireType == 2 && announced.Ok? && announced.value > SIZE_MAX)
  {
    hide DecTag, FindTag, SkipField, VarintBytes, DecVarint32, IsVarint;
    TagRoundTrip(wireType, tag, payload);
    assert payload[|payload|..] == [] && payload[..|payload|] == payload;
    if wireType == 2 && IsPayload(2, payload) {
      AnnouncedLength(payload);
    }
    if !(wireType == 2 && DecVarint32(payload).Ok? && DecVarint32(payload).value > SIZE_MAX) {
      SkipExactly(wireType, payload, |payload|);
    }
  }

  /** In an empty table the tag zero is the exception: whatever its wire type, a varint is read. */
  lemma StrayRecord(st: State, wireType: nat, p: seq<byte>, c: seq<byte>)
    requires st.slots == [] && 1 <= wireType < 8 && IsVarint(p) && |p| < 5
    ensures DecLoop([], st, [wireType] + p + c) == DecLoop([], st, c)
  {
    hide DecVarint32, IsVarint, FindTag, VarintBytes;
    TagRoundTrip(wireType, 0, p + c);
    assert TagBytes(wireType, 0) == [wireType] by { SmallTag(wireType); }
    assert [wireType] + p + c == [wireType] + (p + c);
    Varint32Read(p, c);
    assert DecTurn([], st, [wireType] + (p + c)) == Next(st, c);
  }

  lemma SmallTag(wireType: nat)
    requires wireType < 8
    ensures TagBytes(wireType, 0) == [wireType]
  {
  }

  /** Such a record changes nothing, wherever between two records it stands: neither the verdict
      nor the struct nor what is left unread. */
  lemma UnknownIsTransparent(fields: seq<Field>, m: seq<Slot>, a: seq<byte>, u: seq<byte>, c: seq<byte>)
    requires |m| == |fields| && UnknownRecord(fields, u)
    requires DecLoop(fields, Start(m), a).Ran? && !DecLoop(fields, Start(m), a).stopped
    ensures DecNoInit(fields, m, a + u + c) == DecNoInit(fields, m, a + c)
  {
    hide DecTurn;
    var st := DecLoop(fields, Start(m), a).st;
    LoopConcat(fields, Start(m), a, u + c);
    LoopConcat(fields, Start(m), a, c);
    assert a + u + c == a + (u + c);
    SkipsUnknown(fields, st, u);
    TurnLocal(fields, st, u, c);
    assert [] + c == c;
  }

  lemma SkipsUnknown(fields: seq<Field>, st: State, u: seq<byte>)
    requires |st.slots| == |fields| && UnknownRecord(fields, u)
    ensures DecTurn(fields, st, u) == Next(st, [])
    ensures u != []
  {
    hide DecTag, FindTag, SkipField;
  }

  /** A message in a union is not merged: each of its records starts from a cleared struct, whatever
      the union held before, be it the same message. */
  lemma UnionMessageIsReplaced(fields: seq<Field>, k: nat, wireType: nat, st: State, s: Slot, bs: seq<byte>)
    requires k < |fields| == |st.slots| && fields[k].htype.Oneof? && fields[k].ltype.LSubmessage?
    ensures DecRow(fields, k, wireType, st.(slots := st.slots[Home(fields, k) := s]), bs)
        == DecRow(fields, k, wireType, st, bs)
  {
    hide DecValue, Home, SetDefaults, ZeroSlots;
    var h, f := Home(fields, k), fields[k];
    forall v: Value ensures st.slots[h := s][h := Stored(f, s, v)] == st.slots[h := Stored(f, st.slots[h], v)] {
      assert Stored(f, s, v) == Stored(f, st.slots[h], v);
    }
  }

  /** Why fixed-count arrays are left out above: one that is full, as it has to be when decoding ends,
      refuses every further element, so two accepted byte strings with its elements are not accepted
      one after the other. */
  lemma FullArrayRefusesMore(fields: seq<Field>, k: nat, wireType: nat, st: State, bs: seq<byte>)
    requires WellFormed(fields) && TypedMessage(fields, st.slots) && k < |fields| && IsFixedCount(fields[k])
    requires st.fixedField == Some(k) && st.fixedCount == fields[k].arraySize
    requires DecRow(fields, k, wireType, st, bs).Next?
    ensures wireType == WT_STRING && Packable(fields[k].ltype) && DecDelimited(bs).Ok? && DecDelimited(bs).value == []
  {
    hide DecDelimited, DecRepeated, TypedValue, WellFormed;
    assert TypedSlot(fields, k, st.slots[k]);
    var a := Filled(st.slots[k].items, st.fixedCount);
    FullArray(fields[k], wireType, a, bs);
    assert DecRepeated(fields[k], wireType, a, bs).Ok?;
  }

  lemma FullArray(f: Field, wireType: nat, a: Filled, bs: seq<byte>)
    requires a.count == f.arraySize && DecRepeated(f, wireType, a, bs).Ok?
    ensures wireType == WT_STRING && Packable(f.ltype) && DecDelimited(bs).Ok? && DecDelimited(bs).value == []
  {
    hide DecDelimited, DecValue, DecScalar;
  }
}
