/** What a record does to a struct that has already received something: it replaces a value, merges into a message,
    continues an array, or is refused. */
module LastWins {
  import opened Platform
  import opened Varint
  import opened Descriptor
  import opened Encoding
  import opened Decoding
  import opened Typing
  import opened Merging
  import opened RoundTrip

  /** The record of row f with that payload; the wire type is the sender's choice. */
  function Record(f: Field, wireType: nat, payload: seq<byte>): seq<byte> {
    VarintBytes(8 * f.tag + wireType) + payload
  }

  lemma RecordLoop(fields: seq<Field>, k: nat, wireType: nat, st: State, payload: seq<byte>, c: seq<byte>)
    requires WellFormed(fields) && k < |fields| == |st.slots| && wireType < 8
    ensures DecLoop(fields, st, Record(fields[k], wireType, payload) + c)
         == match DecRow(fields, k, wireType, st, payload + c)
            case Next(st', rest) => DecLoop(fields, st', rest)
            case _ => Broken
  {
    hide DecRow, DecTurn, WellFormed, VarintBytes;
    var bs := Record(fields[k], wireType, payload) + c;
    assert bs == TagBytes(wireType, fields[k].tag) + (payload + c);
    RecordTurn(fields, k, wireType, st, payload + c);
  }

  // ---------------------------------------------------------------- single values

  /** The storage of a row after v has arrived: present, and showing v. */
  predicate Holding(f: Field, s: Slot, v: Value) {
    && (match s
        case One(_) => f.htype.Required? || (f.htype.Optional? && f.sizeOffset == 0)
        case Opt(has, _) => has && f.htype.Optional? && f.sizeOffset != 0
        case Union(which, _) => which == f.tag && f.htype.Oneof?
        case _ => false)
    && SeenValue(f, s.v) == SeenValue(f, v)
  }

  lemma SingleValue(f: Field, v: Value, c: seq<byte>)
    returns (v': Value)
    requires WellFormedField(f) && !f.ltype.LSubmessage? && TypedValue(f, v) && Storable(f, v)
    ensures EncValue(f, v).ok && SeenValue(f, v') == SeenValue(f, v)
    ensures forall prior :: DecValue(f, prior, EncValue(f, v).out + c) == Ok(v', c)
  {
    hide DecValue, EncValue, Storable, TypedValue, SeenValue, WellFormedField;
    var bs := EncValue(f, v).out + c;
    ValueRoundTrip(f, v, Number(0), c);
    v' := DecValue(f, Number(0), bs).value;
    forall prior ensures DecValue(f, prior, bs) == Ok(v', c) {
      IgnoresPrior(f, Number(0), prior, bs);
    }
  }

  lemma SingleRecord(fields: seq<Field>, k: nat, wireType: nat, st: State, v: Value, v': Value, c: seq<byte>)
    requires WellFormed(fields) && k < |fields| == |st.slots| && wireType < 8 && !fields[k].htype.Repeated?
    requires forall prior :: DecValue(fields[k], prior, EncValue(fields[k], v).out + c) == Ok(v', c)
    ensures DecLoop(fields, st, Record(fields[k], wireType, EncValue(fields[k], v).out) + c)
         == DecLoop(fields, WithItem(fields, k, st, v'), c)
  {
    hide DecValue, EncValue, DecRow, Home, Target, Record, DecLoop, WellFormed, WithItem;
    RecordLoop(fields, k, wireType, st, EncValue(fields[k], v).out, c);
    SingleTurn(fields, k, wireType, st, EncValue(fields[k], v).out + c, v', c);
  }

  lemma IgnoresPrior(f: Field, prior: Value, other: Value, bs: seq<byte>)
    requires !f.ltype.LSubmessage?
    ensures DecValue(f, prior, bs) == DecValue(f, other, bs)
  {
  }

  /** Whatever the row held and whatever wire type the tag claims: after its record the row is present and shows the
      value, and nothing else has changed but the mark of a required row. */
  lemma RecordStores(fields: seq<Field>, k: nat, wireType: nat, st: State, v: Value, c: seq<byte>)
    returns (st': State)
    requires WellFormed(fields) && TypedMessage(fields, st.slots) && k < |fields| && wireType < 8
    requires !fields[k].htype.Repeated? && !fields[k].ltype.LSubmessage?
    requires TypedValue(fields[k], v) && Storable(fields[k], v)
    ensures EncValue(fields[k], v).ok && |st.slots| == |st'.slots| == |fields|
    ensures DecLoop(fields, st, Record(fields[k], wireType, EncValue(fields[k], v).out) + c) == DecLoop(fields, st', c)
    ensures Holding(fields[k], st'.slots[Home(fields, k)], v)
    ensures forall h :: 0 <= h < |fields| && h != Home(fields, k) ==> st'.slots[h] == st.slots[h]
    ensures st'.seen == if fields[k].htype.Required? then st.seen + {k} else st.seen
    ensures st'.fixedField == st.fixedField && st'.fixedCount == st.fixedCount
  {
    hide EncValue, DecValue, Storable, TypedValue, TypedSlot, SeenValue, WellFormedField, DistinctTags, Record, Home,
      DecLoop, Stored, Holding;
    var f, h := fields[k], Home(fields, k);
    LengthOf(fields, st.slots);
    var v' := SingleValue(f, v, c);
    st' := WithItem(fields, k, st, v');
    SingleRecord(fields, k, wireType, st, v, v', c);
    assert TypedSlot(fields, h, st.slots[h]);
    StoredHolds(fields, k, st.slots[h], v', v);
  }

  lemma StoredHolds(fields: seq<Field>, k: nat, s: Slot, v': Value, v: Value)
    requires k < |fields| && TypedSlot(fields, Home(fields, k), s) && !fields[k].htype.Repeated?
    requires SeenValue(fields[k], v') == SeenValue(fields[k], v)
    ensures Holding(fields[k], Stored(fields[k], s, v'), v)
  {
    hide TypedValue, SeenValue, Home;
    SameLayout(fields, k);
  }

  lemma SameLayout(fields: seq<Field>, k: nat)
    requires k < |fields|
    ensures Home(fields, Home(fields, k)) == Home(fields, k)
    ensures !fields[k].htype.Oneof? ==> Home(fields, k) == k
    ensures fields[k].htype.Oneof? <==> fields[Home(fields, k)].htype.Oneof?
  {
    HomeOfHome(fields, k);
  }

  /** Of two records for one row, or for two members of one union, only the last counts. */
  lemma LastOneWins(fields: seq<Field>, j: nat, k: nat, first: nat, second: nat, st: State, u: Value, v: Value,
      c: seq<byte>)
    requires WellFormed(fields) && TypedMessage(fields, st.slots) && j < |fields| && k < |fields|
    requires first < 8 && second < 8 && Home(fields, j) == Home(fields, k)
    requires forall i :: i == j || i == k ==> !fields[i].htype.Repeated? && !fields[i].ltype.LSubmessage?
    requires TypedValue(fields[j], u) && Storable(fields[j], u)
    requires TypedValue(fields[k], v) && Storable(fields[k], v)
    ensures EncValue(fields[j], u).ok && EncValue(fields[k], v).ok
    ensures var x := Record(fields[j], first, EncValue(fields[j], u).out);
            var y := Record(fields[k], second, EncValue(fields[k], v).out);
            DecLoop(fields, st, x + y + c) == DecLoop(fields, st, y + c)
  {
    hide EncValue, DecValue, Storable, TypedValue, TypedSlot, SeenValue, WellFormedField, DistinctTags, Record, Home,
      DecLoop, WithItem;
    LengthOf(fields, st.slots);
    var y := Record(fields[k], second, EncValue(fields[k], v).out);
    var u' := SingleValue(fields[j], u, y + c);
    var v' := SingleValue(fields[k], v, c);
    var x := Record(fields[j], first, EncValue(fields[j], u).out);
    assert x + y + c == x + (y + c);
    SingleRecord(fields, j, first, st, u, u', y + c);
    KeepsLength(fields, j, st, u');
    SingleRecord(fields, k, second, WithItem(fields, j, st, u'), v, v', c);
    SingleRecord(fields, k, second, st, v, v', c);
    Overwritten(fields, j, k, st, u', v');
  }

  lemma KeepsLength(fields: seq<Field>, k: nat, st: State, v: Value)
    requires k < |fields| == |st.slots|
    ensures |WithItem(fields, k, st, v).slots| == |fields|
  {
  }

  lemma Overwritten(fields: seq<Field>, j: nat, k: nat, st: State, u: Value, v: Value)
    requires j < |fields| && k < |fields| == |st.slots| && Home(fields, j) == Home(fields, k)
    ensures WithItem(fields, k, WithItem(fields, j, st, u), v) == WithItem(fields, k, st, v)
  {
    var h := Home(fields, k);
    if fields[k].htype.Oneof? {
      assert fields[j].htype.Oneof? && !fields[j].htype.Required?;
    } else {
      assert j == k;
      assert (st.seen + {k}) + {k} == st.seen + {k};
    }
    var s, t := Stored(fields[k], Stored(fields[j], st.slots[h], u), v), Stored(fields[k], st.slots[h], v);
    assert s == t;
    assert st.slots[h := Stored(fields[j], st.slots[h], u)][h := s] == st.slots[h := t];
  }

  /** The wire type says which records are packed, and nothing else. */
  lemma WireTypeIgnored(fields: seq<Field>, k: nat, left: nat, right: nat, st: State, bs: seq<byte>)
    requires k < |fields| == |st.slots|
    requires fields[k].htype.Repeated? && Packable(fields[k].ltype) ==> left != 2 && right != 2
    ensures DecRow(fields, k, left, st, bs) == DecRow(fields, k, right, st, bs)
  {
    hide DecField, Home;
    forall st': State | |st'.slots| == |fields|
      ensures DecField(fields[k], left, Home(fields, k), st', bs)
          == DecField(fields[k], right, Home(fields, k), st', bs)
    {
      FieldIgnores(fields[k], left, right, Home(fields, k), st', bs);
    }
  }

  lemma FieldIgnores(f: Field, left: nat, right: nat, h: nat, st: State, bs: seq<byte>)
    requires h < |st.slots| && (f.htype.Repeated? && Packable(f.ltype) ==> left != 2 && right != 2)
    ensures DecField(f, left, h, st, bs) == DecField(f, right, h, st, bs)
  {
    hide DecValue, DecRepeated, Target, Stored;
    if f.htype.Repeated? {
      var s := st.slots[h];
      RepeatedIgnores(f, left, right, Filled(ItemsOf(s), if s.Arr? then s.count else st.fixedCount), bs);
    }
  }

  lemma RepeatedIgnores(f: Field, left: nat, right: nat, a: Filled, bs: seq<byte>)
    requires Packable(f.ltype) ==> left != 2 && right != 2
    ensures DecRepeated(f, left, a, bs) == DecRepeated(f, right, a, bs)
  {
    hide DecValue, DecPacked, DecDelimited;
  }

  // ---------------------------------------------------------------- messages

  /** The message record of row k with that body. */
  function Nested(f: Field, wireType: nat, body: seq<byte>): seq<byte> {
    Record(f, wireType, VarintBytes(|body|) + body)
  }

  lemma NestedRow(fields: seq<Field>, k: nat, wireType: nat, st: State, body: seq<byte>, c: seq<byte>)
    requires k < |fields| == |st.slots| && fields[k].ltype.LSubmessage? && |body| < TWO_32
    requires fields[k].htype.Required? || fields[k].htype.Optional?
    ensures var f := fields[k];
            var r := DecNoInit(f.sub, SlotsOf(ValueOf(st.slots[k])), body);
            DecRow(fields, k, wireType, st, VarintBytes(|body|) + body + c)
            == if r.Ok? then Next(WithItem(fields, k, st, Message(r.value)), c) else Error
  {
    hide DecValue, VarintBytes, Home, Stored;
    SameLayout(fields, k);
    NestedValue(fields[k], ValueOf(st.slots[k]), body, c);
  }

  lemma NestedValue(f: Field, prior: Value, body: seq<byte>, c: seq<byte>)
    requires f.ltype.LSubmessage? && |body| < TWO_32 && !f.htype.Repeated?
    ensures var r := DecNoInit(f.sub, SlotsOf(prior), body);
            DecValue(f, prior, VarintBytes(|body|) + body + c)
            == if r.Ok? then Ok(Message(r.value), c) else Fail
  {
    hide DecNoInit, DecDelimited, VarintBytes;
    DelimitedRoundTrip(body, c);
    assert VarintBytes(|body|) + body + c == StringBytes(body) + c;
  }

  lemma SameRow(fields: seq<Field>, k: nat, st: State, u: Value, v: Value)
    requires k < |fields| == |st.slots| && (fields[k].htype.Required? || fields[k].htype.Optional?)
    ensures ValueOf(WithItem(fields, k, st, u).slots[k]) == u
    ensures WithItem(fields, k, WithItem(fields, k, st, u), v) == WithItem(fields, k, st, v)
  {
    Overwritten(fields, k, k, st, u, v);
  }

  lemma NothingToComplete(fields: seq<Field>, slots: seq<Slot>, bs: seq<byte>)
    requires NoFixedCount(fields) && WellFormed(fields) && TypedMessage(fields, slots)
    requires DecLoop(fields, Start(slots), bs).Ran? && forall i :: 0 <= i < |fields| ==> !fields[i].htype.Required?
    ensures DecNoInit(fields, slots, bs).Ok?
  {
    hide DecLoop, TypedMessage, WellFormed;
    LengthOf(fields, slots);
    LoopUncounted(fields, Start(slots), bs);
  }

  /** Two records of an embedded message merge: where the second body can follow the first, they do what one record
      with both bodies does. That asks for no more than that both records are accepted; and if nothing in the message
      is required, also for no more than that the first runs to its end. */
  lemma EmbeddedMerges(fields: seq<Field>, k: nat, wireType: nat, st: State, x: seq<byte>, y: seq<byte>, c: seq<byte>)
    requires WellFormed(fields) && TypedMessage(fields, st.slots) && k < |fields| && wireType < 8
    requires fields[k].ltype.LSubmessage? && (fields[k].htype.Required? || fields[k].htype.Optional?)
    requires |x| + |y| < TWO_32 && NoFixedCount(fields[k].sub) && |st.slots| == |fields|
    requires var sub, prior := fields[k].sub, SlotsOf(ValueOf(st.slots[k]));
             && |prior| == |sub|
             && DecLoop(sub, Start(prior), x).Ran? && !DecLoop(sub, Start(prior), x).stopped
             && ((forall i :: 0 <= i < |sub| ==> !sub[i].htype.Required?) ||
                 (DecNoInit(sub, prior, x).Ok? && DecNoInit(sub, DecNoInit(sub, prior, x).value, y).Ok?))
    ensures var f := fields[k];
            DecLoop(fields, st, Nested(f, wireType, x) + Nested(f, wireType, y) + c)
            == DecLoop(fields, st, Nested(f, wireType, x + y) + c)
  {
    hide DecRow, VarintBytes, DecLoop, Record, WellFormed, TypedMessage, DecNoInit;
    var f, prior := fields[k], SlotsOf(ValueOf(st.slots[k]));
    PriorTyped(fields, k, st.slots);
    BodiesConcat(f.sub, prior, x, y);
    var m := DecNoInit(f.sub, prior, x).value;
    var rest := Nested(f, wireType, y) + c;
    assert Nested(f, wireType, x) + Nested(f, wireType, y) + c == Nested(f, wireType, x) + rest;
    RecordLoop(fields, k, wireType, st, VarintBytes(|x|) + x, rest);
    NestedRow(fields, k, wireType, st, x, rest);
    var st1 := WithItem(fields, k, st, Message(m));
    RecordLoop(fields, k, wireType, st1, VarintBytes(|y|) + y, c);
    NestedRow(fields, k, wireType, st1, y, c);
    RecordLoop(fields, k, wireType, st, VarintBytes(|x + y|) + (x + y), c);
    NestedRow(fields, k, wireType, st, x + y, c);
    var last := DecNoInit(f.sub, m, y);
    if last.Ok? {
      SameRow(fields, k, st, Message(m), Message(last.value));
    } else {
      SameRow(fields, k, st, Message(m), Number(0));
    }
  }

  lemma PriorTyped(fields: seq<Field>, k: nat, slots: seq<Slot>)
    requires WellFormed(fields) && TypedMessage(fields, slots) && k < |fields| == |slots|
    requires fields[k].ltype.LSubmessage? && (fields[k].htype.Required? || fields[k].htype.Optional?)
    ensures WellFormed(fields[k].sub) && TypedMessage(fields[k].sub, SlotsOf(ValueOf(slots[k])))
  {
    hide TypedMessage;
    FieldOf(fields, k);
    assert TypedSlot(fields, k, slots[k]) by { SlotTyped(fields, slots, k); }
  }

  lemma SlotTyped(fields: seq<Field>, slots: seq<Slot>, k: nat)
    requires TypedMessage(fields, slots) && k < |fields|
    ensures |slots| == |fields| && TypedSlot(fields, k, slots[k])
  {
  }

  lemma BodiesConcat(fields: seq<Field>, m: seq<Slot>, x: seq<byte>, y: seq<byte>)
    requires WellFormed(fields) && TypedMessage(fields, m) && NoFixedCount(fields) && |m| == |fields|
    requires DecLoop(fields, Start(m), x).Ran? && !DecLoop(fields, Start(m), x).stopped
    requires (forall i :: 0 <= i < |fields| ==> !fields[i].htype.Required?) ||
             (DecNoInit(fields, m, x).Ok? && DecNoInit(fields, DecNoInit(fields, m, x).value, y).Ok?)
    ensures DecNoInit(fields, m, x).Ok?
    ensures var last := DecNoInit(fields, DecNoInit(fields, m, x).value, y);
            if last.Ok? then DecNoInit(fields, m, x + y) == last else DecNoInit(fields, m, x + y).Fail?
  {
    hide DecLoop, WellFormed, TypedMessage;
    if forall i :: 0 <= i < |fields| ==> !fields[i].htype.Required? {
      NothingToComplete(fields, m, x);
    }
    DecodeConcat(fields, m, x, y);
    NoInitTyped(fields, m, x);
    var m1 := DecNoInit(fields, m, x).value;
    if DecNoInit(fields, m1, y).Fail? && DecLoop(fields, Start(m1), y).Ran? {
      NothingToComplete(fields, m1, y);
    }
  }

  /** A record for one member of a union leaves no trace once a record for a member has followed. */
  lemma UnionKeepsLast(fields: seq<Field>, j: nat, k: nat, first: nat, second: nat, st: State, x: seq<byte>,
      y: seq<byte>)
    requires j < |fields| && k < |fields| == |st.slots| && Home(fields, j) == Home(fields, k)
    requires fields[k].htype.Oneof? && DecRow(fields, j, first, st, x).Next?
    ensures DecRow(fields, k, second, DecRow(fields, j, first, st, x).st, y) == DecRow(fields, k, second, st, y)
  {
    hide DecValue, SetDefaults, ZeroSlots, Home;
    var h, f := Home(fields, k), fields[k];
    var s := DecRow(fields, j, first, st, x).st.slots[h];
    assert fields[j].htype.Oneof?;
    assert DecRow(fields, j, first, st, x).st == st.(slots := st.slots[h := s]);
    if !f.ltype.LSubmessage? {
      IgnoresPrior(f, ValueOf(s), ValueOf(st.slots[h]), y);
    }
    forall v: Value ensures st.slots[h := s][h := Union(f.tag, v)] == st.slots[h := Union(f.tag, v)] {
    }
  }

  // ---------------------------------------------------------------- arrays without a counter

  /** The number of items of row k that the decoder has counted. */
  function CountedSoFar(st: State, k: nat): nat {
    if st.fixedField == Some(k) then st.fixedCount else 0
  }

  /** While one such array is incomplete, every record of another is refused, packed or not. */
  lemma OtherArrayRefused(fields: seq<Field>, j: nat, k: nat, wireType: nat, st: State, bs: seq<byte>)
    requires WellFormed(fields) && |st.slots| == |fields| && j < |fields| && k < |fields| && j != k && wireType < 8
    requires fields[k].htype.Repeated? && fields[k].sizeOffset == 0
    requires st.fixedField == Some(j) && st.fixedCount != fields[j].arraySize
    ensures DecLoop(fields, st, Record(fields[k], wireType, bs)) == Broken
  {
    hide WellFormed, Record, DecLoop, DecField;
    RecordLoop(fields, k, wireType, st, bs, []);
    assert Record(fields[k], wireType, bs) + [] == Record(fields[k], wireType, bs);
  }

  /** One item of an array of fixed count: refused if another such array is incomplete, or this one is full; otherwise
      stored behind the items counted so far, and that is none where another array came in between. */
  lemma FixedItem(fields: seq<Field>, k: nat, wireType: nat, st: State, v: Value, c: seq<byte>)
    returns (v': Value)
    requires WellFormed(fields) && TypedMessage(fields, st.slots) && k < |fields| && wireType < 8
    requires fields[k].htype.Repeated? && fields[k].sizeOffset == 0
    requires Packable(fields[k].ltype) ==> wireType != 2
    requires TypedValue(fields[k], v) && Storable(fields[k], v)
    ensures EncValue(fields[k], v).ok && |st.slots| == |fields| && st.slots[k].Fixed?
    ensures SeenValue(fields[k], v') == SeenValue(fields[k], v)
    ensures var n, items := CountedSoFar(st, k), st.slots[k].items;
            var otherOpen := st.fixedField.Some? && st.fixedField.value != k &&
              (st.fixedField.value >= |fields| || st.fixedCount != fields[st.fixedField.value].arraySize);
            DecLoop(fields, st, Record(fields[k], wireType, EncValue(fields[k], v).out) + c)
            == if otherOpen || n >= fields[k].arraySize then Broken
               else DecLoop(fields, State(st.slots[k := Fixed(if n < |items| then items[n := v'] else items)], st.seen,
                                          Some(k), n + 1), c)
  {
    hide EncValue, Storable, TypedValue, SeenValue, WellFormed, Record, DecRow, DecLoop;
    var f, items := fields[k], st.slots[k].items;
    SlotTyped(fields, st.slots, k);
    FieldOf(fields, k);
    RecordLoop(fields, k, wireType, st, EncValue(f, v).out, c);
    var n := CountedSoFar(st, k);
    var bs := EncValue(f, v).out + c;
    if n < f.arraySize {
      ReceivesItem(f, items[n]);
      ValueRoundTrip(f, v, items[n], c);
      v' := DecValue(f, items[n], bs).value;
    } else {
      v' := v;
      EncodesItem(f, v);
    }
    FixedTurn(fields, k, wireType, st, bs, v', c);
  }

  lemma FixedTurn(fields: seq<Field>, k: nat, wireType: nat, st: State, bs: seq<byte>, v: Value, c: seq<byte>)
    requires k < |fields| == |st.slots| && fields[k].htype.Repeated? && fields[k].sizeOffset == 0
    requires st.slots[k].Fixed? && |st.slots[k].items| == fields[k].arraySize
    requires Packable(fields[k].ltype) ==> wireType != 2
    requires var n := CountedSoFar(st, k);
             n < fields[k].arraySize ==> DecValue(fields[k], st.slots[k].items[n], bs) == Ok(v, c)
    ensures var n, items := CountedSoFar(st, k), st.slots[k].items;
            var otherOpen := st.fixedField.Some? && st.fixedField.value != k &&
              (st.fixedField.value >= |fields| || st.fixedCount != fields[st.fixedField.value].arraySize);
            DecRow(fields, k, wireType, st, bs) ==
              if otherOpen || n >= fields[k].arraySize then Error
              else Next(State(st.slots[k := Fixed(items[n := v])], st.seen, Some(k), n + 1), c)
  {
    hide DecRepeated, Home;
    SameLayout(fields, k);
    var n, items, t := CountedSoFar(st, k), st.slots[k].items, Track(fields, k, st);
    FixedOne(fields[k], wireType, items, n, bs, v, c);
    if t.Some? {
      assert t.value == State(st.slots, st.seen, Some(k), n);
      assert Mark(fields, k, t.value) == t.value;
    }
  }

  lemma FixedOne(f: Field, wireType: nat, items: seq<Value>, n: nat, bs: seq<byte>, v: Value, c: seq<byte>)
    requires |items| == f.arraySize && (Packable(f.ltype) ==> wireType != 2)
    requires n < f.arraySize ==> DecValue(f, items[n], bs) == Ok(v, c)
    ensures DecRepeated(f, wireType, Filled(items, n), bs)
         == if n >= f.arraySize then Fail else Ok(Filled(items[n := v], n + 1), c)
  {
    hide DecValue;
  }

  lemma EncodesItem(f: Field, v: Value)
    requires WellFormedField(f) && TypedValue(f, v) && Storable(f, v)
    ensures EncValue(f, v).ok
  {
    hide DecValue, EncValue, Storable, TypedValue, SetDefaults;
    if f.ltype.LSubmessage? {
      SettledOf(f);
      ValueRoundTrip(f, v, Message(SetDefaults(f.sub, ZeroSlots(f.sub))), []);
    } else {
      ValueRoundTrip(f, v, Number(0), []);
    }
  }

  lemma SettledOf(f: Field)
    requires WellFormedField(f) && f.ltype.LSubmessage?
    ensures Receives(f, Message(SetDefaults(f.sub, ZeroSlots(f.sub))))
  {
    hide SetDefaults, ZeroSlots;
    ZeroSlotsTyped(f);
    DefaultsTyped(f.sub, ZeroSlots(f.sub));
    DefaultsIdempotent(f.sub, ZeroSlots(f.sub));
  }
}
