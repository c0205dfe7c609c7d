/** Decoding inverts encoding where fields lie behind pointers, over tables that may lead back to themselves. */
module HeapRoundTrip {
  import opened Platform
  import opened Varint
  import opened Descriptor
  import opened Encoding
  import opened Decoding
  import opened RoundTrip
  import opened WireFormat
  import opened LastWins
  import opened Heap
  import opened HeapDefaults
  import opened HeapDecoding
  import opened HeapLaws
  import opened HeapEncoding

  // ---------------------------------------------------------------- texts

  /** Bytes and strings behind a pointer, from any payload: the block holds the bytes, behind a string's a NUL, in an
      allocation that has room for that and, for bytes, the size field before them. Refused exactly if there is no
      such size. */
  lemma TextBehindPointer(f: Field, it: Item, b: seq<byte>, c: seq<byte>)
    requires IsText(f) && |b| < TWO_32
    ensures var r := ReadItem(f, it, VarintBytes(|b|) + b + c);
            && (r.Ok? <==> if f.ltype.LString? then |b| + 1 < TWO_32 && |b| + 1 <= SIZE_MAX
                           else |b| <= PB_SIZE_MAX && |b| + BYTES_OFFSET <= SIZE_MAX)
            && (r.Ok? ==>
                 && r.rest == c && r.value.Text? && TextBlock(r.value.p)
                 && var text := r.value.p.items[0].v.bs;
                    && |text| == (if f.ltype.LString? then |b| + 1 else |b|)
                    && text[..|b|] == b && (f.ltype.LString? ==> text[|b|] == 0)
                    && TextAllocation(f, |b|) == Some(|text| + if f.ltype.LBytes? then BYTES_OFFSET else 0))
  {
    hide VarintBytes, DecDelimited, ReadNoInit, TextAllocation, SIZE_MAX;
    DelimitedRoundTrip(b, c);
    assert VarintBytes(|b|) + b + c == StringBytes(b) + c;
    TextRoom(f, |b|);
  }

  lemma TextRoom(f: Field, n: nat)
    requires IsText(f) && n < TWO_32
    ensures TextAllocation(f, n) ==
      if f.ltype.LString? then (if n + 1 < TWO_32 && n + 1 <= SIZE_MAX then Some(n + 1) else None)
      else if n <= PB_SIZE_MAX && n + BYTES_OFFSET <= SIZE_MAX then Some(n + BYTES_OFFSET) else None
  {
    hide SIZE_MAX, WrapSize;
    if f.ltype.LString? {
      assert (n + 1) % TWO_32 == if n + 1 == TWO_32 then 0 else n + 1;
      PbSizeFits(0);
      if n + 1 > SIZE_MAX {
        WrapsBelow(n + 1);
      }
    } else if n <= PB_SIZE_MAX {
      PbSizeFits(n);
      WrappedSum(n, BYTES_OFFSET);
    }
  }

  lemma PbSizeFits(n: nat)
    requires n <= PB_SIZE_MAX
    ensures n <= SIZE_MAX && BYTES_OFFSET <= SIZE_MAX
  {
  }

  /** So in a single pointer and in an array. */
  lemma TextStored(f: Field, row: Row, b: seq<byte>, c: seq<byte>)
    requires IsText(f) && |b| < TWO_32 && TextAllocation(f, |b|).Some?
    ensures var r := ReadSingle(f, row, VarintBytes(|b|) + b + c);
            && r.Ok? && r.rest == c && r.value.Indirect? && TextBlock(r.value.p)
            && r.value.p.items[0].v.bs == if f.ltype.LString? then b + [0] else b
    ensures var r := ReadNext(f, row, VarintBytes(|b|) + b + c);
            var used := ItemsOfRow(row);
            && (r.Ok? <==> |used| < PB_SIZE_MAX)
            && (r.Ok? ==>
                 && r.rest == c && r.value.Indirect? && r.value.p.Block? && r.value.size == |used| + 1
                 && |r.value.p.items| == |used| + 1 && r.value.p.items[..|used|] == used
                 && r.value.p.items[|used|].Text? && TextBlock(r.value.p.items[|used|].p)
                 && r.value.p.items[|used|].p.items[0].v.bs == if f.ltype.LString? then b + [0] else b)
  {
    hide VarintBytes, ReadItem, TextAllocation, SIZE_MAX;
    var bs := VarintBytes(|b|) + b + c;
    TextBehindPointer(f, Initialized(f, Junk), b, c);
    TextRoom(f, |b|);
    var text := ReadItem(f, Initialized(f, Junk), bs).value.p.items[0].v.bs;
    assert text == if f.ltype.LString? then text[..|b|] + [text[|b|]] else text[..|b|];
  }

  lemma TextReturns(f: Field, p: Pointer, it: Item, c: seq<byte>)
    requires IsText(f) && SendableText(f, p)
    ensures EncText(f, p).ok
    ensures var r := ReadItem(f, it, EncText(f, p).out + c);
            && r.Ok? && r.rest == c && r.value.Text? && TextBlock(r.value.p)
            && TextIn(f, r.value.p) == TextIn(f, p)
  {
    hide VarintBytes, ReadItem, TextAllocation, SIZE_MAX, UpToNul;
    var b := TextIn(f, p);
    if f.ltype.LBytes? && p.Block? {
      WrappedSum(|b|, BYTES_OFFSET);
    }
    ShortText(f, p);
    TextBehindPointer(f, it, b, c);
    assert EncText(f, p) == Enc(true, VarintBytes(|b|) + b);
    var r := ReadItem(f, it, VarintBytes(|b|) + b + c);
    var text := r.value.p.items[0].v.bs;
    if f.ltype.LString? {
      FirstNul(text, |b|);
    } else {
      assert text == text[..|b|];
    }
  }

  lemma ShortText(f: Field, p: Pointer)
    requires IsText(f) && SendableText(f, p)
    ensures var b := TextIn(f, p);
            && |b| < TWO_32 && |b| + 1 <= SIZE_MAX && (f.ltype.LString? ==> |b| + 1 < TWO_32 && 0 !in b)
            && (f.ltype.LBytes? ==> |b| <= PB_SIZE_MAX && |b| + BYTES_OFFSET <= SIZE_MAX)
  {
  }

  // ---------------------------------------------------------------- reset structs

  /** A struct as pb_message_set_to_defaults leaves it. */
  predicate SettledRows(fields: seq<Field>, rows: seq<Row>) {
    Shaped(fields, rows) && Defaults(fields, rows) == rows
  }

  predicate SettledRow(f: Field, row: Row) {
    ShapedRow(f, row) && DefaultRow(f, row) == row
  }

  lemma SettledRowAt(fields: seq<Field>, rows: seq<Row>, k: nat)
    requires SettledRows(fields, rows) && k < |fields|
    ensures |rows| == |fields| && SettledRow(fields[k], rows[k])
  {
    hide ShapedRow, DefaultRow;
    assert Defaults(fields, rows)[k] == DefaultRow(fields[k], rows[k]);
  }

  lemma {:induction false} HeapDefaultsIdempotent(fields: seq<Field>, rows: seq<Row>)
    requires Allocatable(fields) && Shaped(fields, rows)
    ensures SettledRows(fields, Defaults(fields, rows))
    decreases rows, 1
  {
    hide AllocatableField, DistinctTags, DefaultRow, ShapedRow, SoundRow, Owned;
    var d := Defaults(fields, rows);
    DefaultsSound(fields, rows);
    SoundIsShaped(fields, d);
    forall k | 0 <= k < |rows| ensures DefaultRow(fields[k], d[k]) == d[k] {
      HeapRowIdempotent(fields[k], rows[k]);
    }
    assert Defaults(fields, d) == d;
  }

  lemma {:induction false} HeapRowIdempotent(f: Field, row: Row)
    requires AllocatableField(f) && ShapedRow(f, row)
    ensures DefaultRow(f, DefaultRow(f, row)) == DefaultRow(f, row)
    decreases row, 0
  {
    hide Allocatable, Shaped, Defaults, ZeroValue;
    if row.Inline? && !f.htype.Repeated? {
      var it := row.items[0];
      assert ShapedItem(f, it);
      if it.Struct? {
        HeapDefaultsIdempotent(f.sub, it.rows);
      }
      assert DefaultItem(f, DefaultItem(f, it)) == DefaultItem(f, it) by { DefaultItemAgain(f, it); }
      var d := DefaultRow(f, row);
      assert d.items == [DefaultItem(f, it)];
      assert DefaultRow(f, d).items == [DefaultItem(f, d.items[0])];
    }
  }

  lemma DefaultItemAgain(f: Field, it: Item)
    requires it.Struct? ==> SettledRows(f.sub, Defaults(f.sub, it.rows))
    ensures DefaultItem(f, DefaultItem(f, it)) == DefaultItem(f, it)
  {
    hide Shaped, Defaults, ZeroValue;
  }

  /** The storage a message is read into is as after a reset. */
  predicate Landing(f: Field, it: Item) {
    f.ltype.LSubmessage? ==> SettledRows(SubTable(f), Entered(f, it))
  }

  lemma InitializedLanding(f: Field)
    requires AllocatableField(f)
    ensures Landing(f, Initialized(f, Junk))
  {
    hide Allocatable, SettledRows, Defaults, Cleared;
    if f.ltype.LSubmessage? {
      AllocatableSub(f);
      ClearedShaped(SubTable(f));
      HeapDefaultsIdempotent(SubTable(f), Cleared(SubTable(f)));
      SettledAgain(SubTable(f), Defaults(SubTable(f), Cleared(SubTable(f))));
    }
  }

  lemma SettledAgain(fields: seq<Field>, rows: seq<Row>)
    requires SettledRows(fields, rows)
    ensures Defaults(fields, rows) == rows
  {
  }

  lemma MemberLanding(f: Field, row: Row)
    requires AllocatableField(f) && !f.atype.Pointer? && !f.htype.Repeated? && SettledRow(f, row)
    ensures row.Inline? && |row.items| == 1 && Landing(f, row.items[0])
    ensures ShapedItem(f, row.items[0]) && DefaultItem(f, row.items[0]) == row.items[0] && row.size == 0
  {
    hide Allocatable, Shaped, Defaults, ZeroValue;
    var it := row.items[0];
    assert ShapedItem(f, it);
    assert DefaultRow(f, row).items[0] == DefaultItem(f, it);
    if f.ltype.LSubmessage? {
      assert SubTable(f) == f.sub && Entered(f, it) == it.rows;
    }
  }

  // ---------------------------------------------------------------- zero values

  lemma StaticField(f: Field)
    requires AllocatableField(f) && !f.atype.Pointer? && !f.ltype.LSubmessage? && f.initial == None
    ensures WellFormedField(f)
  {
  }

  lemma {:induction false} ElidedItem(f: Field, it: Item, into: Item)
    requires AllocatableField(f) && !f.atype.Pointer? && f.initial == None
    requires SoundItem(f, it) && IsDefaultItem(f, it) && ComparableItem(f, it) && SendableMember(f, it)
    requires ShapedItem(f, into) && DefaultItem(f, into) == into
    ensures SeenItem(f, into) == SeenItem(f, it)
    decreases it, 3
  {
    hide Allocatable, Sound, Shaped, IsDefaultRows, ComparableRows, SendableRows, SeenRows, Defaults, EncRows,
      IsDefaultValue, TypedValue, Storable, ZeroValue;
    match it {
      case Raw(v) =>
        StaticField(f);
        ElidedValue(f, v, Number(0));
      case Struct(rows) =>
        AllocatableSub(f);
        ElidedRows(f.sub, rows, into.rows);
      case Text(_) =>
    }
  }

  lemma {:induction false} ElidedRows(fields: seq<Field>, rows: seq<Row>, into: seq<Row>)
    requires Allocatable(fields) && Sound(fields, rows) && SettledRows(fields, into)
    requires IsDefaultRows(fields, rows) && ComparableRows(fields, rows) && SendableRows(fields, rows)
    ensures SeenRows(fields, into) == SeenRows(fields, rows)
    decreases rows, 2
  {
    hide AllocatableField, DistinctTags, SoundRow, SettledRow, IsDefaultRow, ComparableRow, SendableRow, SeenRow,
      ShapedRow, DefaultRow;
    forall k | 0 <= k < |fields| ensures SeenRow(fields[k], into[k]) == SeenRow(fields[k], rows[k]) {
      SettledRowAt(fields, into, k);
      ElidedRow(fields[k], rows[k], into[k]);
    }
    assert SeenRows(fields, into) == SeenRows(fields, rows);
  }

  lemma {:induction false} ElidedRow(f: Field, row: Row, into: Row)
    requires AllocatableField(f) && SoundRow(f, row) && SettledRow(f, into)
    requires IsDefaultRow(f, row) && ComparableRow(f, row) && SendableRow(f, row)
    ensures SeenRow(f, into) == SeenRow(f, row)
    decreases row, 1
  {
    hide Allocatable, SoundItem, ShapedItem, DefaultItem, IsDefaultItem, SendableMember, SendableItem, SeenItem,
      StorableItems, TypedValue, InOrder, ItemParts, SendableText, ComparableItem;
    if row.Inline? && !f.htype.Repeated? {
      MemberLanding(f, into);
      if f.sizeOffset == 0 {
        ElidedItem(f, row.items[0], into.items[0]);
      }
    }
    if row.Inline? {
      assert SeenRow(f, into).items == SeenRow(f, row).items;
    } else if row.p.Block? {
      assert SeenRow(f, row).p.items == [];
    }
  }

  // ---------------------------------------------------------------- single items

  /** A field of the same type in the struct itself, required: its plain values are coded alike. */
  function Twin(f: Field): Field {
    f.(atype := Static, htype := Required, initial := None)
  }

  lemma TwinCodes(f: Field, v: Value, b: seq<byte>)
    requires !f.ltype.LSubmessage?
    ensures EncValue(Twin(f), v) == EncValue(f, v) && SeenValue(Twin(f), v) == SeenValue(f, v)
    ensures TypedValue(Twin(f), v) == TypedValue(f, v) && Storable(Twin(f), v) == Storable(f, v)
    ensures StoreBlob(Twin(f), b) == StoreBlob(f, b)
  {
  }

  lemma TwinWellFormed(f: Field)
    requires AllocatableField(f) && !f.ltype.LSubmessage?
    ensures WellFormedField(Twin(f))
  {
  }

  lemma PlainReturns(f: Field, v: Value, into: Item, c: seq<byte>)
    returns (v': Value)
    requires AllocatableField(f) && !f.ltype.LSubmessage? && !IsText(f) && TypedValue(f, v) && Storable(f, v)
    ensures EncValue(f, v).ok && SeenValue(f, v') == SeenValue(f, v)
    ensures ReadItem(f, into, EncValue(f, v).out + c) == Ok(Raw(v'), c)
    ensures forall prior :: DecValue(f, prior, EncValue(f, v).out + c) == Ok(v', c)
  {
    hide DecScalar, DecDelimited, StoreBlob, EncValue, SeenValue, TypedValue, Storable, WellFormedField, UpToNul,
      AllocatableField;
    RowLimits(f);
    if Packable(f.ltype) {
      ScalarRoundTrip(f, v, c);
      SeenTwice(f, v);
      v' := SeenValue(f, v);
    } else {
      var b := TextOfValue(f, v);
      TwinWellFormed(f);
      TwinCodes(f, v, b);
      TwinTyped(f, v);
      BlobRoundTrip(Twin(f), v);
      v' := StoreBlob(f, b).value;
      TwinCodes(f, v', b);
      DelimitedRoundTrip(b, c);
    }
  }

  function TextOfValue(f: Field, v: Value): seq<byte> {
    if !v.Blob? then [] else if f.ltype.LString? then UpToNul(v.bs) else v.bs
  }

  lemma TwinTyped(f: Field, v: Value)
    requires TypedValue(f, v) && Storable(f, v) && !Packable(f.ltype) && !f.ltype.LSubmessage?
    ensures v.Blob? && (f.ltype.LBytes? ==> BytesFit(Twin(f), |v.bs|)) && Twin(f).ltype == f.ltype
    ensures TextOfValue(f, v) == if f.ltype.LString? then UpToNul(v.bs) else v.bs
  {
  }

  lemma RowLimits(f: Field)
    requires AllocatableField(f)
    ensures GoodSize(f.ltype, f.dataSize) && !f.ltype.LExtension? && 1 <= f.tag < 0x2000_0000 && !f.htype.Oneof?
    ensures f.atype.Pointer? && f.htype.Repeated? ==> f.sizeOffset != 0
    ensures !f.atype.Callback? && (f.htype.Repeated? && !f.atype.Pointer? ==> !f.ltype.LSubmessage?)
  {
  }

  /** An item comes back, into storage that is reset or will be, showing the same. */
  lemma {:induction false} ItemReturns(f: Field, it: Item, into: Item, c: seq<byte>)
    returns (it': Item)
    requires AllocatableField(f) && SoundItem(f, it) && SendableItem(f, it) && Landing(f, into)
    ensures EncItem(f, it).ok && SeenItem(f, it') == SeenItem(f, it)
    ensures ReadItem(f, into, EncItem(f, it).out + c) == Ok(it', c)
    ensures it'.Text? <==> IsText(f)
    decreases it, 5
  {
    hide AllocatableField, Sound, SendableRows, EncRows, EncValue, EncText, SeenValue, SeenRows, TypedValue, Storable,
      StringBytes, DecDelimited, ReadNoInit, SettledRows, Entered, SendableText, TextIn, IsText, TextBlock;
    match it {
      case Raw(v) =>
        var v' := PlainReturns(f, v, into, c);
        it' := Raw(v');
      case Struct(rows) =>
        RowLimits(f);
        AllocatableSub(f);
        var rows' := MessageReturns(SubTable(f), rows, Entered(f, into));
        DelimitedRoundTrip(EncRows(SubTable(f), rows).out, c);
        it' := Struct(rows');
        StructRead(f, into, EncRows(SubTable(f), rows).out, rows', c);
      case Text(p) =>
        TextReturns(f, p, into, c);
        it' := ReadItem(f, into, EncText(f, p).out + c).value;
    }
  }

  lemma StructRead(f: Field, into: Item, body: seq<byte>, rows: seq<Row>, c: seq<byte>)
    requires f.ltype.LSubmessage? && ReadNoInit(SubTable(f), Entered(f, into), body) == Ok(rows, [])
    requires DecDelimited(StringBytes(body) + c) == Ok(body, c)
    ensures ReadItem(f, into, StringBytes(body) + c) == Ok(Struct(rows), c)
    ensures !IsText(f)
  {
    hide DecDelimited, ReadNoInit, Entered, StringBytes;
  }

  // ---------------------------------------------------------------- records

  /** After row k its mark is set, and no array of fixed count is incomplete. */
  predicate Booked(fields: seq<Field>, k: nat, before: State, after: State)
    requires k < |fields|
  {
    && before.seen <= after.seen && (fields[k].htype.Required? ==> k in after.seen)
    && FixedDone(fields, after) && (after.fixedField.Some? ==> after.fixedField.value <= k)
  }

  lemma MarkBooks(fields: seq<Field>, k: nat, book: State)
    requires k < |fields| && FixedDone(fields, book) && (book.fixedField.Some? ==> book.fixedField.value < k)
    ensures Booked(fields, k, book, Mark(fields, k, book))
  {
  }

  // ---------------------------------------------------------------- rows with one item

  /** A member of the struct itself is read in place. */
  lemma MemberRead(f: Field, wireType: nat, row: Row, counter: nat, bs: seq<byte>, it: Item, rest: seq<byte>)
    requires !f.atype.Pointer? && !f.htype.Repeated? && row.Inline? && |row.items| == 1
    requires ReadItem(f, row.items[0], bs) == Ok(it, rest)
    ensures ReadField(f, wireType, row, counter, bs) == Ok(
              Counted(Inline(if f.htype.Optional? && f.sizeOffset != 0 then 1 else row.size, [it]), counter), rest)
  {
    hide ReadItem, DecRepeated;
  }

  /** A single pointer gets a new block, whatever it led to. */
  lemma PointeeRead(f: Field, wireType: nat, row: Row, counter: nat, bs: seq<byte>, it: Item, rest: seq<byte>)
    requires f.atype.Pointer? && !f.htype.Repeated?
    requires ReadItem(f, Initialized(f, Junk), bs) == Ok(it, rest)
    ensures ReadField(f, wireType, row, counter, bs)
         == Ok(Counted(Indirect(row.size, if it.Text? then it.p else Block(0, [it])), counter), rest)
  {
    hide ReadItem, Initialized;
    assert ReadSingle(f, row, bs) == Ok(Indirect(row.size, if it.Text? then it.p else Block(0, [it])), rest);
  }

  lemma MemberSeen(f: Field, size: nat, it: Item, row: Row)
    requires !f.htype.Repeated? && row.Inline? && |row.items| == 1 && SeenItem(f, it) == SeenItem(f, row.items[0])
    requires f.htype.Optional? && f.sizeOffset != 0 ==> size == 1 && row.size != 0
    requires f.htype.Optional? || f.htype.Required?
    ensures SeenRow(f, Inline(size, [it])) == SeenRow(f, row)
  {
    hide SeenItem;
    assert SeenRow(f, Inline(size, [it])).items == SeenRow(f, row).items;
  }

  lemma PointeeSeen(f: Field, size: nat, it: Item, row: Row)
    requires !f.htype.Repeated? && row.Indirect? && row.p.Block?
    requires if IsText(f) then it.Text? && TextBlock(it.p) && SeenItem(f, it) == SeenItem(f, Text(row.p))
             else !it.Text? && |row.p.items| == 1 && SeenItem(f, it) == SeenItem(f, row.p.items[0])
    ensures SeenRow(f, Indirect(size, if it.Text? then it.p else Block(0, [it]))) == SeenRow(f, row)
  {
    hide TextIn;
    if !IsText(f) {
      assert SeenRow(f, Indirect(size, Block(0, [it]))).p.items == SeenRow(f, row).p.items;
    }
  }

  /** The row emits nothing. */
  predicate Silent(f: Field, row: Row) {
    match row
    case Inline(size, items) =>
      f.htype.Optional? && if f.sizeOffset != 0 then size == 0 else |items| == 1 && IsDefaultItem(f, items[0])
    case Indirect(_, p) => p.Null?
  }

  lemma SilentReturns(f: Field, sent: Row, row: Row)
    requires AllocatableField(f) && !f.htype.Repeated? && SoundRow(f, sent) && SendableRow(f, sent)
        && SettledRow(f, row)
    requires Silent(f, sent)
    ensures EncRow(f, sent) == Nothing && SeenRow(f, row) == SeenRow(f, sent) && f.htype.Optional?
  {
    hide Allocatable, SoundItem, ShapedItem, DefaultItem, IsDefaultItem, SendableMember, SendableItem, SeenItem,
      TypedValue, SendableText, ComparableItem, EncItem;
    RowLimits(f);
    if sent.Inline? {
      MemberLanding(f, row);
      if f.sizeOffset == 0 {
        ElidedItem(f, sent.items[0], row.items[0]);
      }
      assert SeenRow(f, row).items == SeenRow(f, sent).items;
    }
  }

  lemma MemberSent(f: Field, sent: Row)
    requires AllocatableField(f) && !f.htype.Repeated? && SoundRow(f, sent) && SendableRow(f, sent)
    requires sent.Inline? && !Silent(f, sent)
    ensures |sent.items| == 1 && SoundItem(f, sent.items[0]) && SendableItem(f, sent.items[0]) && !f.atype.Pointer?
    ensures EncRow(f, sent) == Then(TagOf(f), EncItem(f, sent.items[0]))
    ensures f.htype.Optional? && f.sizeOffset != 0 ==> sent.size != 0
  {
    hide Allocatable, SoundItem, IsDefaultItem, TypedValue, SendableText, ComparableItem, EncItem, Storable,
      IsDefaultValue, SendableRows, EncRows;
    if sent.items[0].Raw? {
      ElidedIsDefault(f, sent.items[0]);
    }
  }

  lemma ElidedIsDefault(f: Field, it: Item)
    requires it.Raw?
    ensures IsDefaultItem(f, it) == IsDefaultValue(f, it.v)
  {
  }

  lemma PointeeSent(f: Field, sent: Row)
    requires AllocatableField(f) && !f.htype.Repeated? && SoundRow(f, sent) && SendableRow(f, sent)
    requires sent.Indirect? && !Silent(f, sent)
    ensures f.atype.Pointer? && sent.p.Block?
    ensures IsText(f) ==> SendableText(f, sent.p) && EncRow(f, sent) == Then(TagOf(f), EncText(f, sent.p))
    ensures !IsText(f) ==>
              && |sent.p.items| == 1 && SoundItem(f, sent.p.items[0]) && SendableItem(f, sent.p.items[0])
              && EncRow(f, sent) == Then(TagOf(f), EncItem(f, sent.p.items[0]))
  {
    hide Allocatable, SoundItem, TypedValue, SendableText, ComparableItem, EncItem, SendableItem;
  }

  lemma TaggedBytes(f: Field, e: Enc)
    requires !f.ltype.LExtension? && e.ok
    ensures Then(TagOf(f), e).ok && Then(TagOf(f), e).out == TagBytes(WireType(f.ltype), f.tag) + (e.out + [])
  {
    hide TagBytes;
    assert e.out + [] == e.out;
  }

  /** A row with one item: one record or none. */
  lemma {:induction false} SingleReturns(fields: seq<Field>, k: nat, rows: seq<Row>, book: State, sent: Row)
    returns (row: Row, book': State)
    requires Allocatable(fields) && k < |fields| == |rows| && !fields[k].htype.Repeated?
    requires SoundRow(fields[k], sent) && SendableRow(fields[k], sent) && SettledRow(fields[k], rows[k])
    requires FixedDone(fields, book) && (book.fixedField.Some? ==> book.fixedField.value < k)
    ensures EncRow(fields[k], sent).ok && SeenRow(fields[k], row) == SeenRow(fields[k], sent)
    ensures ReadLoop(fields, rows, book, EncRow(fields[k], sent).out) == Over(rows[k := row], book', [], false)
    ensures Booked(fields, k, book, book')
    decreases sent, 2
  {
    hide Allocatable, AllocatableField, SoundRow, SendableRow, SettledRow, SeenRow, EncRow, EncItem, EncText, ReadRow,
      ReadItem, ReadField, ReadTurn, Silent, SeenItem, TagBytes, Initialized, Landing, FixedDone, SendableText,
      TextBlock, IsText, SoundItem, SendableItem, Booked, TextIn, Mark;
    var f := fields[k];
    var w := WireType(f.ltype);
    FieldAt(fields, k);
    RowLimits(f);
    if Silent(f, sent) {
      SilentReturns(f, sent, rows[k]);
      row, book' := rows[k], book;
      SilentBooks(fields, k, book);
      assert rows[k := rows[k]] == rows;
    } else {
      book' := Mark(fields, k, book);
      MarkBooks(fields, k, book);
      if sent.Inline? {
        MemberSent(f, sent);
        MemberLanding(f, rows[k]);
        var it := ItemReturns(f, sent.items[0], rows[k].items[0], []);
        row := Inline(if f.htype.Optional? && f.sizeOffset != 0 then 1 else rows[k].size, [it]);
        var bs := EncItem(f, sent.items[0]).out + [];
        MemberRead(f, w, rows[k], book.fixedCount, bs, it, []);
        MemberSeen(f, row.size, it, sent);
        TaggedBytes(f, EncItem(f, sent.items[0]));
        RecordRead(fields, k, w, rows, book, bs);
        RowRead(fields, k, w, rows, book, bs, row, []);
      } else {
        var it, e := PointeeReturns(f, sent);
        row := Indirect(rows[k].size, if it.Text? then it.p else Block(0, [it]));
        PointeeRead(f, w, rows[k], book.fixedCount, e.out + [], it, []);
        TaggedBytes(f, e);
        RecordRead(fields, k, w, rows, book, e.out + []);
        RowRead(fields, k, w, rows, book, e.out + [], row, []);
        PointeeSeen(f, rows[k].size, it, sent);
      }
    }
  }

  lemma FieldAt(fields: seq<Field>, k: nat)
    requires Allocatable(fields) && k < |fields|
    ensures AllocatableField(fields[k])
  {
    hide AllocatableField;
  }

  lemma SilentBooks(fields: seq<Field>, k: nat, book: State)
    requires k < |fields| && fields[k].htype.Optional?
    requires FixedDone(fields, book) && (book.fixedField.Some? ==> book.fixedField.value < k)
    ensures Booked(fields, k, book, book)
  {
    hide FixedDone;
  }

  lemma {:induction false} PointeeReturns(f: Field, sent: Row)
    returns (it: Item, e: Enc)
    requires AllocatableField(f) && !f.htype.Repeated? && SoundRow(f, sent) && SendableRow(f, sent)
    requires sent.Indirect? && !Silent(f, sent)
    ensures e.ok && EncRow(f, sent) == Then(TagOf(f), e) && f.atype.Pointer? && sent.p.Block?
    ensures ReadItem(f, Initialized(f, Junk), e.out + []) == Ok(it, [])
    ensures if IsText(f) then it.Text? && TextBlock(it.p) && SeenItem(f, it) == SeenItem(f, Text(sent.p))
            else !it.Text? && |sent.p.items| == 1 && SeenItem(f, it) == SeenItem(f, sent.p.items[0])
    decreases sent, 1
  {
    hide AllocatableField, SoundRow, SendableRow, SettledRow, SeenRow, EncRow, EncText, ReadItem, Silent, Initialized,
      Landing, SendableText, TextBlock, IsText, SoundItem, SendableItem, TextIn, EncItem;
    PointeeSent(f, sent);
    if IsText(f) {
      e := EncText(f, sent.p);
      TextReturns(f, sent.p, Initialized(f, Junk), []);
      it := ReadItem(f, Initialized(f, Junk), e.out + []).value;
    } else {
      e := EncItem(f, sent.p.items[0]);
      InitializedLanding(f);
      it := ItemReturns(f, sent.p.items[0], Initialized(f, Junk), []);
    }
  }

  // ---------------------------------------------------------------- arrays in the struct itself

  /** The row while the array holds a. */
  function Holds(f: Field, size: nat, a: Filled): Row {
    Inline(if f.sizeOffset != 0 then a.count else size, Raws(a.items))
  }

  /** The decoder's counter then. */
  function Counting(f: Field, k: nat, book: State, a: Filled): State {
    if f.sizeOffset == 0 then book.(fixedField := Some(k), fixedCount := a.count) else book
  }

  lemma RawsBack(values: seq<Value>, items: seq<Item>)
    ensures ValuesOf(Raws(values)) == values
    ensures (forall i :: 0 <= i < |items| ==> items[i].Raw?) ==> Raws(ValuesOf(items)) == items
  {
  }

  lemma StaticRead(f: Field, wireType: nat, size: nat, a: Filled, counter: nat, bs: seq<byte>, a': Filled,
      rest: seq<byte>)
    requires f.htype.Repeated? && DecRepeated(f, wireType, a, bs) == Ok(a', rest)
    requires f.sizeOffset == 0 ==> counter == a.count
    ensures ReadStatic(f, wireType, Holds(f, size, a), counter, bs)
         == Ok(Counted(Holds(f, size, a'), if f.sizeOffset == 0 then a'.count else counter), rest)
  {
    hide DecRepeated, Raws, ValuesOf;
    RawsBack(a.items, []);
  }

  lemma ArrayTurn(fields: seq<Field>, k: nat, wireType: nat, rows: seq<Row>, book: State, size: nat, a: Filled,
      bs: seq<byte>, a': Filled, rest: seq<byte>)
    requires k < |fields| == |rows| && fields[k].htype.Repeated? && !fields[k].atype.Pointer?
    requires DecRepeated(fields[k], wireType, a, bs) == Ok(a', rest)
    ensures ReadRow(fields, k, wireType, rows[k := Holds(fields[k], size, a)], Counting(fields[k], k, book, a), bs)
         == Onward(rows[k := Holds(fields[k], size, a')], Counting(fields[k], k, book, a'), rest)
  {
    hide ReadStatic, Holds;
    StaticRead(fields[k], wireType, size, a, Counting(fields[k], k, book, a).fixedCount, bs, a', rest);
    assert rows[k := Holds(fields[k], size, a)][k := Holds(fields[k], size, a')]
        == rows[k := Holds(fields[k], size, a')];
  }

  lemma ArrayFirst(fields: seq<Field>, k: nat, wireType: nat, rows: seq<Row>, book: State, a: Filled, bs: seq<byte>)
    requires k < |fields| == |rows| && fields[k].htype.Repeated? && a.count == 0
    requires FixedDone(fields, book) && book.fixedField != Some(k)
    ensures ReadRow(fields, k, wireType, rows, book, bs)
         == ReadRow(fields, k, wireType, rows, Counting(fields[k], k, book, a), bs)
  {
    hide ReadField;
  }

  /** Before its records an array of a reset struct has no items. */
  lemma ArrayBefore(f: Field, row: Row)
    requires AllocatableField(f) && f.htype.Repeated? && !f.atype.Pointer? && SettledRow(f, row)
    ensures row.Inline? && |ValuesOf(row.items)| == f.arraySize
    ensures Holds(f, row.size, Filled(ValuesOf(row.items), 0)) == row
  {
    hide Allocatable, Shaped;
    RowLimits(f);
    forall i | 0 <= i < |row.items| ensures row.items[i].Raw? { assert ShapedItem(f, row.items[i]); }
    RawsBack([], row.items);
  }

  /** The values of an array that are sent. */
  function SentValues(f: Field, sent: Row): seq<Value> {
    var count := if f.sizeOffset != 0 then sent.size else f.arraySize;
    if sent.Inline? && count <= |sent.items| then ValuesOf(sent.items[..count]) else []
  }

  lemma ArraySent(f: Field, sent: Row)
    requires AllocatableField(f) && f.htype.Repeated? && !f.atype.Pointer?
    requires SoundRow(f, sent) && SendableRow(f, sent)
    ensures sent.Inline? && f.sizeOffset != 0 ==> sent.size == |SentValues(f, sent)|
    ensures f.sizeOffset == 0 ==> |SentValues(f, sent)| == f.arraySize == |sent.items|
    ensures |SentValues(f, sent)| <= f.arraySize && StorableItems(f, SentValues(f, sent))
    ensures forall i :: 0 <= i < |SentValues(f, sent)| ==> TypedValue(f, SentValues(f, sent)[i])
    ensures var values := SentValues(f, sent);
            EncRow(f, sent) ==
              if values == [] then Nothing
              else if Packable(f.ltype) then
                Then(Enc(true, TagBytes(WT_STRING, f.tag)), Delimited(InOrder(ItemParts(f, values))))
              else InOrder(RecordParts(f, values))
  {
    hide Allocatable, SoundItem, TypedValue, StorableItems, ItemParts, RecordParts, InOrder, TagBytes, ComparableItem;
    var count := if f.sizeOffset != 0 then sent.size else f.arraySize;
    assert ValuesOf(sent.items)[..count] == ValuesOf(sent.items[..count]);
  }

  lemma ArraySeen(f: Field, sent: Row, size: nat, a: Filled)
    requires AllocatableField(f) && f.htype.Repeated? && !f.atype.Pointer?
    requires SoundRow(f, sent) && SendableRow(f, sent)
    requires a.count == |SentValues(f, sent)| <= |a.items| == f.arraySize
    requires SeenItems(f, a.items[..a.count]) == SeenItems(f, SentValues(f, sent))
    ensures SeenRow(f, Holds(f, size, a)) == SeenRow(f, sent)
  {
    hide Allocatable, SoundItem, TypedValue, StorableItems, ComparableItem, SeenValue;
    ArraySent(f, sent);
    var x, y := SeenRow(f, Holds(f, size, a)), SeenRow(f, sent);
    var values := SentValues(f, sent);
    assert |x.items| == |y.items| == a.count;
    forall i | 0 <= i < a.count ensures x.items[i] == y.items[i] {
      assert SeenItems(f, a.items[..a.count])[i] == SeenItems(f, values)[i];
      assert sent.items[i].Raw? && values[i] == sent.items[i].v;
      assert x.items[i] == SeenItem(f, Raws(a.items)[i]) && y.items[i] == SeenItem(f, sent.items[i]);
    }
    assert x.items == y.items;
  }

  /** The records of the first i values are appended. */
  lemma {:induction false} UnpackedMany(fields: seq<Field>, k: nat, rows: seq<Row>, book: State, size: nat, a0: Filled,
      values: seq<Value>, i: nat)
    returns (a: Filled)
    requires Allocatable(fields) && k < |fields| == |rows| && fields[k].htype.Repeated? && !fields[k].atype.Pointer?
    requires !Packable(fields[k].ltype) && i <= |values| <= |a0.items| == fields[k].arraySize && a0.count == 0
    requires forall j :: 0 <= j < |values| ==> TypedValue(fields[k], values[j]) && Storable(fields[k], values[j])
    ensures a.count == i && |a.items| == |a0.items|
    ensures SeenItems(fields[k], a.items[..i]) == SeenItems(fields[k], values[..i])
    ensures |RecordParts(fields[k], values)| == |values| && InOrder(RecordParts(fields[k], values)[..i]).ok
    ensures ReadLoop(fields, rows[k := Holds(fields[k], size, a0)], Counting(fields[k], k, book, a0),
                     InOrder(RecordParts(fields[k], values)[..i]).out)
         == Over(rows[k := Holds(fields[k], size, a)], Counting(fields[k], k, book, a), [], false)
    decreases i
  {
    hide Allocatable, AllocatableField, DecRepeated, EncValue, TypedValue, Storable, SeenValue, ReadTurn, ReadRow,
      ReadItem, TagBytes, Raws, Holds, Counting;
    var f, parts := fields[k], RecordParts(fields[k], values);
    if i == 0 {
      a := a0;
      assert InOrder(parts[..0]) == Nothing;
      assert SeenItems(f, a.items[..0]) == SeenItems(f, values[..0]);
    } else {
      var b := UnpackedMany(fields, k, rows, book, size, a0, values, i - 1);
      FieldAt(fields, k);
      RowLimits(f);
      NotText(f);
      var v' := PlainReturns(f, values[i - 1], Junk, []);
      var bs := EncValue(f, values[i - 1]).out + [];
      a := Filled(b.items[i - 1 := v'], i);
      OneRepeated(f, WireType(f.ltype), b, bs, v');
      var before, now := rows[k := Holds(f, size, b)], rows[k := Holds(f, size, a)];
      ArrayTurn(fields, k, WireType(f.ltype), rows, book, size, b, bs, a, []);
      RecordRead(fields, k, WireType(f.ltype), before, Counting(f, k, book, b), bs);
      TaggedBytes(f, EncValue(f, values[i - 1]));
      InOrderStep(parts, i - 1);
      assert parts[i - 1] == Then(TagOf(f), EncValue(f, values[i - 1]));
      HeapLoopConcat(fields, rows[k := Holds(f, size, a0)], Counting(f, k, book, a0),
        InOrder(parts[..i - 1]).out, parts[i - 1].out);
      SeenOneMore(f, b.items, a.items, values, i, v');
    }
  }

  lemma NotText(f: Field)
    requires !f.atype.Pointer?
    ensures !IsText(f)
  {
  }

  lemma OneRepeated(f: Field, wireType: nat, a: Filled, bs: seq<byte>, v: Value)
    requires !Packable(f.ltype) && a.count < |a.items| == f.arraySize
    requires DecValue(f, a.items[a.count], bs) == Ok(v, [])
    ensures DecRepeated(f, wireType, a, bs) == Ok(Filled(a.items[a.count := v], a.count + 1), [])
  {
    hide DecValue;
  }

  lemma SeenOneMore(f: Field, before: seq<Value>, now: seq<Value>, values: seq<Value>, i: nat, v: Value)
    requires 0 < i <= |before| && i <= |values| && now == before[i - 1 := v]
    requires SeenItems(f, before[..i - 1]) == SeenItems(f, values[..i - 1])
    requires SeenValue(f, v) == SeenValue(f, values[i - 1])
    ensures SeenItems(f, now[..i]) == SeenItems(f, values[..i])
  {
    hide SeenValue;
    forall j | 0 <= j < i ensures SeenItems(f, now[..i])[j] == SeenItems(f, values[..i])[j] {
      if j < i - 1 {
        assert SeenItems(f, before[..i - 1])[j] == SeenItems(f, values[..i - 1])[j];
      }
    }
  }

  lemma PackedOnce(fields: seq<Field>, k: nat, rows: seq<Row>, book: State, size: nat, a0: Filled, values: seq<Value>)
    returns (a: Filled)
    requires Allocatable(fields) && k < |fields| == |rows| && fields[k].htype.Repeated? && !fields[k].atype.Pointer?
    requires Packable(fields[k].ltype) && |values| <= |a0.items| == fields[k].arraySize && a0.count == 0
    requires forall j :: 0 <= j < |values| ==> TypedValue(fields[k], values[j])
    requires |InOrder(ItemParts(fields[k], values)).out| < TWO_32
    ensures a.count == |values| && |a.items| == |a0.items|
    ensures SeenItems(fields[k], a.items[..a.count]) == SeenItems(fields[k], values)
    ensures InOrder(ItemParts(fields[k], values)).ok
    ensures ReadLoop(fields, rows[k := Holds(fields[k], size, a0)], Counting(fields[k], k, book, a0),
                     TagBytes(WT_STRING, fields[k].tag) + (StringBytes(InOrder(ItemParts(fields[k], values)).out) + []))
         == Over(rows[k := Holds(fields[k], size, a)], Counting(fields[k], k, book, a), [], false)
  {
    hide Allocatable, AllocatableField, DecDelimited, DecPacked, TypedValue, SeenValue, ReadTurn, ReadRow, TagBytes,
      StringBytes, Raws, Holds, Counting, ItemParts, InOrder;
    var f, e := fields[k], InOrder(ItemParts(fields[k], values)).out;
    FieldAt(fields, k);
    RowLimits(f);
    PackedRoundTrip(f, a0, values);
    DelimitedRoundTrip(e, []);
    a := Append(a0, SeenItems(f, values));
    SeenTwiceItems(f, values);
    assert a.items[..a.count] == SeenItems(f, values);
    var bs := StringBytes(e) + [];
    assert DecRepeated(f, WT_STRING, a0, bs) == Ok(a, []);
    ArrayTurn(fields, k, WT_STRING, rows, book, size, a0, bs, a, []);
    RecordRead(fields, k, WT_STRING, rows[k := Holds(f, size, a0)], Counting(f, k, book, a0), bs);
  }

  lemma CountingBooks(fields: seq<Field>, k: nat, book: State, a: Filled)
    requires k < |fields| && fields[k].htype.Repeated? && (fields[k].sizeOffset == 0 ==> a.count == fields[k].arraySize)
    requires FixedDone(fields, book) && (book.fixedField.Some? ==> book.fixedField.value < k)
    ensures Booked(fields, k, book, Counting(fields[k], k, book, a))
  {
  }

  lemma FirstRecord(fields: seq<Field>, k: nat, wireType: nat, rows: seq<Row>, book: State, a: Filled, bs: seq<byte>)
    requires Allocatable(fields) && k < |fields| == |rows| && fields[k].htype.Repeated? && a.count == 0 && wireType < 8
    requires FixedDone(fields, book) && book.fixedField != Some(k)
    ensures ReadLoop(fields, rows, book, TagBytes(wireType, fields[k].tag) + bs)
         == ReadLoop(fields, rows, Counting(fields[k], k, book, a), TagBytes(wireType, fields[k].tag) + bs)
  {
    hide Allocatable, ReadLoop, ReadRow, TagBytes, Counting, FixedDone;
    RecordRead(fields, k, wireType, rows, book, bs);
    RecordRead(fields, k, wireType, rows, Counting(fields[k], k, book, a), bs);
    ArrayFirst(fields, k, wireType, rows, book, a, bs);
  }

  /** An array in the struct itself: one packed record, or a record per value. */
  lemma ArrayReturns(fields: seq<Field>, k: nat, rows: seq<Row>, book: State, sent: Row)
    returns (row: Row, book': State)
    requires Allocatable(fields) && k < |fields| == |rows| && fields[k].htype.Repeated? && !fields[k].atype.Pointer?
    requires SoundRow(fields[k], sent) && SendableRow(fields[k], sent) && SettledRow(fields[k], rows[k])
    requires FixedDone(fields, book) && (book.fixedField.Some? ==> book.fixedField.value < k)
    ensures EncRow(fields[k], sent).ok && SeenRow(fields[k], row) == SeenRow(fields[k], sent)
    ensures ReadLoop(fields, rows, book, EncRow(fields[k], sent).out) == Over(rows[k := row], book', [], false)
    ensures Booked(fields, k, book, book')
  {
    hide Allocatable, AllocatableField, SoundRow, SendableRow, SettledRow, SeenRow, EncRow, ReadTurn, TagBytes,
      StringBytes, FixedDone, Booked, Holds, Counting, ItemParts, RecordParts, InOrder, EncValue, TypedValue, Storable,
      SeenValue, ValuesOf, SentValues;
    var f, values := fields[k], SentValues(fields[k], sent);
    FieldAt(fields, k);
    RowLimits(f);
    ArraySent(f, sent);
    ArrayBefore(f, rows[k]);
    var size, a0 := rows[k].size, Filled(ValuesOf(rows[k].items), 0);
    assert rows[k := rows[k]] == rows;
    var a;
    if values == [] {
      a := a0;
      row, book' := rows[k], book;
      NothingCounted(fields, k, book);
      assert SeenItems(f, a0.items[..0]) == SeenItems(f, values);
    } else if Packable(f.ltype) {
      a := PackedOnce(fields, k, rows, book, size, a0, values);
      var payload := StringBytes(InOrder(ItemParts(f, values)).out) + [];
      FirstRecord(fields, k, WT_STRING, rows, book, a0, payload);
      assert EncRow(f, sent).out == TagBytes(WT_STRING, f.tag) + payload;
      row, book' := Holds(f, size, a), Counting(f, k, book, a);
      CountingBooks(fields, k, book, a);
    } else {
      a := UnpackedMany(fields, k, rows, book, size, a0, values, |values|);
      var parts := RecordParts(f, values);
      assert parts[..|values|] == parts && values[..|values|] == values;
      assert a.items[..a.count] == a.items[..|values|];
      FrontRecord(f, values);
      var rest := InOrder(RecordParts(f, values[1..])).out;
      FirstRecord(fields, k, WireType(f.ltype), rows, book, a0, EncValue(f, values[0]).out + rest);
      row, book' := Holds(f, size, a), Counting(f, k, book, a);
      CountingBooks(fields, k, book, a);
    }
    ArraySeen(f, sent, size, a);
  }

  lemma NothingCounted(fields: seq<Field>, k: nat, book: State)
    requires k < |fields| && fields[k].htype.Repeated?
    requires FixedDone(fields, book) && (book.fixedField.Some? ==> book.fixedField.value < k)
    ensures Booked(fields, k, book, book)
  {
    hide FixedDone;
  }

  lemma FrontRecord(f: Field, values: seq<Value>)
    requires values != [] && !f.ltype.LExtension? && InOrder(RecordParts(f, values)).ok
    ensures InOrder(RecordParts(f, values)).out
         == TagBytes(WireType(f.ltype), f.tag) + (EncValue(f, values[0]).out + InOrder(RecordParts(f, values[1..])).out)
  {
    hide TagBytes, EncValue, InOrder, RecordParts;
    RecordPartsFront(f, values);
    var rest := InOrder(RecordParts(f, values[1..]));
    RecordOk(f, values[0], rest);
    RecordBytes(f, values[0], rest.out);
  }

  // ---------------------------------------------------------------- arrays behind pointers

  /** The row while the array has that many items. */
  function Gathered(got: seq<Item>): Row {
    if got == [] then Indirect(0, Null) else Indirect(|got|, Block(0, got))
  }

  lemma PointerRecord(fields: seq<Field>, k: nat, wireType: nat, rows: seq<Row>, book: State, bs: seq<byte>, row: Row)
    requires Allocatable(fields) && k < |fields| == |rows| && wireType < 8
    requires fields[k].atype.Pointer? && fields[k].htype.Repeated?
    requires ReadPointer(fields[k], wireType, rows[k], bs) == Ok(row, [])
    ensures ReadLoop(fields, rows, book, TagBytes(wireType, fields[k].tag) + bs)
        == Over(rows[k := row], book, [], false)
  {
    hide TagBytes, ReadPointer, Allocatable, ReadTurn;
    AllocatableRow(fields, k);
    PointerTurn(fields, k, wireType, rows, book, bs);
    TagNotEmpty(wireType, fields[k].tag);
  }

  lemma GatheredOne(f: Field, wireType: nat, got: seq<Item>, bs: seq<byte>, it: Item)
    requires f.htype.Repeated? && !Packable(f.ltype) && |got| < PB_SIZE_MAX
    requires ReadItem(f, Initialized(f, Junk), bs) == Ok(it, [])
    ensures ReadPointer(f, wireType, Gathered(got), bs) == Ok(Gathered(got + [it]), [])
  {
    hide ReadItem, Initialized;
    assert ItemsOfRow(Gathered(got)) == got;
  }

  /** The records of the first i items are appended, each in a new place. */
  lemma {:induction false} PointerMany(fields: seq<Field>, k: nat, rows: seq<Row>, book: State, items: seq<Item>,
      n: nat,
      i: nat)
    returns (got: seq<Item>)
    requires Allocatable(fields) && k < |fields| == |rows| && fields[k].htype.Repeated? && fields[k].atype.Pointer?
    requires !Packable(fields[k].ltype) && i <= n <= |items| && n <= PB_SIZE_MAX && rows[k] == Gathered([])
    requires forall j :: 0 <= j < n ==> SoundItem(fields[k], items[j]) && SendableItem(fields[k], items[j])
    ensures |got| == i && forall j :: 0 <= j < i ==> SeenItem(fields[k], got[j]) == SeenItem(fields[k], items[j])
    ensures InOrder(PointerParts(fields[k], items, n)[..i]).ok
    ensures ReadLoop(fields, rows, book, InOrder(PointerParts(fields[k], items, n)[..i]).out)
         == Over(rows[k := Gathered(got)], book, [], false)
    decreases items, 6, i
  {
    hide Allocatable, AllocatableField, SoundItem, SendableItem, SeenItem, EncItem, ReadTurn, ReadPointer, ReadItem,
      TagBytes, Initialized, Landing, Gathered;
    var f, parts := fields[k], PointerParts(fields[k], items, n);
    if i == 0 {
      got := [];
      assert InOrder(parts[..0]) == Nothing;
      assert rows[k := rows[k]] == rows;
    } else {
      var before := PointerMany(fields, k, rows, book, items, n, i - 1);
      FieldAt(fields, k);
      RowLimits(f);
      InitializedLanding(f);
      var it := ItemReturns(f, items[i - 1], Initialized(f, Junk), []);
      got := before + [it];
      var bs := EncItem(f, items[i - 1]).out + [];
      GatheredOne(f, WireType(f.ltype), before, bs, it);
      var mid := rows[k := Gathered(before)];
      PointerRecord(fields, k, WireType(f.ltype), mid, book, bs, Gathered(got));
      TaggedBytes(f, EncItem(f, items[i - 1]));
      InOrderStep(parts, i - 1);
      assert parts[i - 1] == Then(TagOf(f), EncItem(f, items[i - 1]));
      HeapLoopConcat(fields, rows, book, InOrder(parts[..i - 1]).out, parts[i - 1].out);
      assert mid[k := Gathered(got)] == rows[k := Gathered(got)];
    }
  }

  lemma PointersSent(f: Field, sent: Row)
    requires f.htype.Repeated? && f.atype.Pointer? && SoundRow(f, sent) && SendableRow(f, sent)
    ensures sent.Indirect? && sent.size <= PB_SIZE_MAX && sent.size <= |ItemsOfPointer(sent.p)|
    ensures var items := ItemsOfPointer(sent.p);
            && (forall i :: 0 <= i < sent.size ==> SoundItem(f, items[i]) && SendableItem(f, items[i]))
            && (Packable(f.ltype) ==> |InOrder(ItemParts(f, ValuesOf(items[..sent.size]))).out| < TWO_32)
            && EncRow(f, sent) ==
                 if sent.size == 0 then Nothing
                 else if Packable(f.ltype) then
                   Then(Enc(true, TagBytes(WT_STRING, f.tag)),
                        Delimited(InOrder(ItemParts(f, ValuesOf(items[..sent.size])))))
                 else InOrder(PointerParts(f, items, sent.size))
  {
    hide SoundItem, SendableItem, ItemParts, InOrder, PointerParts, TagBytes, ComparableItem;
    if sent.size == 0 {
      assert ItemParts(f, ValuesOf(ItemsOfPointer(sent.p)[..0])) == [] by { hide SendableRow; NoParts(f, sent); }
      assert InOrder([]) == Nothing by { NoSeries(); }
    }
  }

  lemma NoParts(f: Field, sent: Row)
    requires sent.Indirect?
    ensures ItemParts(f, ValuesOf(ItemsOfPointer(sent.p)[..0])) == []
  {
  }

  lemma NoSeries()
    ensures InOrder([]) == Nothing
  {
  }

  lemma GatheredSeen(f: Field, got: seq<Item>, sent: Row)
    requires f.htype.Repeated? && sent.Indirect? && |got| == sent.size <= |ItemsOfPointer(sent.p)|
    requires forall i :: 0 <= i < |got| ==> SeenItem(f, got[i]) == SeenItem(f, ItemsOfPointer(sent.p)[i])
    ensures SeenRow(f, Gathered(got)) == SeenRow(f, sent)
  {
    hide SeenItem;
    assert SeenRow(f, Gathered(got)).p.items == SeenRow(f, sent).p.items;
  }

  lemma PointerPacked(f: Field, values: seq<Value>)
    returns (got: seq<Item>)
    requires Packable(f.ltype) && GoodSize(f.ltype, f.dataSize) && f.htype.Repeated? && 0 < |values| <= PB_SIZE_MAX
    requires forall i :: 0 <= i < |values| ==> TypedValue(f, values[i])
    requires |InOrder(ItemParts(f, values)).out| < TWO_32
    ensures InOrder(ItemParts(f, values)).ok
    ensures |got| == |values| && forall i :: 0 <= i < |got| ==> SeenItem(f, got[i]) == Raw(SeenValue(f, values[i]))
    ensures ReadPointer(f, WT_STRING, Gathered([]), StringBytes(InOrder(ItemParts(f, values)).out) + [])
         == Ok(Gathered(got), [])
  {
    hide DecDelimited, ReadElements, TypedValue, SeenValue, StringBytes, ItemParts, InOrder;
    ElementsRead(f, 0, values);
    DelimitedRoundTrip(InOrder(ItemParts(f, values)).out, []);
    got := Raws(SeenItems(f, values));
    forall i | 0 <= i < |got| ensures SeenItem(f, got[i]) == Raw(SeenValue(f, values[i])) {
      SeenTwice(f, values[i]);
    }
    assert [] + got == got;
  }

  /** An array behind a pointer. */
  lemma {:induction false} PointersReturn(fields: seq<Field>, k: nat, rows: seq<Row>, book: State, sent: Row)
    returns (row: Row)
    requires Allocatable(fields) && k < |fields| == |rows| && fields[k].htype.Repeated? && fields[k].atype.Pointer?
    requires SoundRow(fields[k], sent) && SendableRow(fields[k], sent) && SettledRow(fields[k], rows[k])
    ensures EncRow(fields[k], sent).ok && SeenRow(fields[k], row) == SeenRow(fields[k], sent)
    ensures ReadLoop(fields, rows, book, EncRow(fields[k], sent).out) == Over(rows[k := row], book, [], false)
    decreases sent, 2
  {
    hide Allocatable, AllocatableField, SoundRow, SendableRow, SeenRow, EncRow, ReadTurn, TagBytes, StringBytes,
      ItemParts, PointerParts, InOrder, SoundItem, SendableItem, SeenItem, ReadPointer, Gathered, SeenValue, ValuesOf;
    var f := fields[k];
    FieldAt(fields, k);
    RowLimits(f);
    PointersSent(f, sent);
    var items := ItemsOfPointer(sent.p);
    EmptyBefore(f, rows[k]);
    assert rows[k := rows[k]] == rows;
    var got;
    if sent.size == 0 {
      got := [];
    } else if Packable(f.ltype) {
      var values := ValuesOf(items[..sent.size]);
      ValuesSent(f, items, sent.size);
      got := PointerPacked(f, values);
      var payload := StringBytes(InOrder(ItemParts(f, values)).out) + [];
      PointerRecord(fields, k, WT_STRING, rows, book, payload, Gathered(got));
      assert EncRow(f, sent).out == TagBytes(WT_STRING, f.tag) + payload;
    } else {
      got := PointerMany(fields, k, rows, book, items, sent.size, sent.size);
      var parts := PointerParts(f, items, sent.size);
      assert parts[..sent.size] == parts;
    }
    row := Gathered(got);
    GatheredSeen(f, got, sent);
  }

  lemma EmptyBefore(f: Field, row: Row)
    requires f.htype.Repeated? && f.atype.Pointer? && SettledRow(f, row)
    ensures row == Gathered([])
  {
  }

  lemma ValuesSent(f: Field, items: seq<Item>, n: nat)
    requires n <= |items| && Packable(f.ltype)
    requires forall i :: 0 <= i < n ==> SoundItem(f, items[i]) && SendableItem(f, items[i])
    ensures |ValuesOf(items[..n])| == n
    ensures forall i :: 0 <= i < n ==> TypedValue(f, ValuesOf(items[..n])[i])
    ensures forall i :: 0 <= i < n ==> SeenItem(f, items[i]) == Raw(SeenValue(f, ValuesOf(items[..n])[i]))
  {
    hide TypedValue, Storable, SeenValue;
    forall i | 0 <= i < n
      ensures TypedValue(f, ValuesOf(items[..n])[i])
      ensures SeenItem(f, items[i]) == Raw(SeenValue(f, ValuesOf(items[..n])[i]))
    {
      assert SoundItem(f, items[i]) && SendableItem(f, items[i]);
      assert items[i].Raw?;
    }
  }

  // ---------------------------------------------------------------- messages

  /** The first k rows have come back, the others are as they were, and nothing is incomplete. */
  predicate Reached(fields: seq<Field>, sent: seq<Row>, before: seq<Row>, rows: seq<Row>, book: State, k: nat) {
    && |rows| == |sent| == |before| == |fields| && k <= |fields|
    && (forall h :: 0 <= h < k ==> SeenRow(fields[h], rows[h]) == SeenRow(fields[h], sent[h]))
    && (forall h :: k <= h < |fields| ==> rows[h] == before[h])
    && (forall h :: 0 <= h < k && fields[h].htype.Required? ==> h in book.seen)
    && FixedDone(fields, book) && (book.fixedField.Some? ==> book.fixedField.value < k)
  }

  lemma {:induction false} RowReturns(fields: seq<Field>, k: nat, rows: seq<Row>, book: State, sent: Row)
    returns (row: Row, book': State)
    requires Allocatable(fields) && k < |fields| == |rows|
    requires SoundRow(fields[k], sent) && SendableRow(fields[k], sent) && SettledRow(fields[k], rows[k])
    requires FixedDone(fields, book) && (book.fixedField.Some? ==> book.fixedField.value < k)
    ensures EncRow(fields[k], sent).ok && SeenRow(fields[k], row) == SeenRow(fields[k], sent)
    ensures ReadLoop(fields, rows, book, EncRow(fields[k], sent).out) == Over(rows[k := row], book', [], false)
    ensures Booked(fields, k, book, book')
    decreases sent, 3
  {
    hide Allocatable, SoundRow, SendableRow, SettledRow, SeenRow, EncRow, ReadLoop, FixedDone, Booked;
    if !fields[k].htype.Repeated? {
      row, book' := SingleReturns(fields, k, rows, book, sent);
    } else if fields[k].atype.Pointer? {
      row := PointersReturn(fields, k, rows, book, sent);
      book' := book;
      NothingCounted(fields, k, book);
    } else {
      row, book' := ArrayReturns(fields, k, rows, book, sent);
    }
  }

  lemma {:induction false} RowsReturn(fields: seq<Field>, sent: seq<Row>, before: seq<Row>, k: nat)
    returns (rows: seq<Row>, book: State)
    requires Allocatable(fields) && Sound(fields, sent) && SendableRows(fields, sent) && SettledRows(fields, before)
    requires k <= |fields|
    ensures |RowParts(fields, sent)| == |fields| == |before| && InOrder(RowParts(fields, sent)[..k]).ok
    ensures ReadLoop(fields, before, Start([]), InOrder(RowParts(fields, sent)[..k]).out) == Over(rows, book, [], false)
    ensures Reached(fields, sent, before, rows, book, k)
    decreases sent, 4, k
  {
    hide Allocatable, SoundRow, SendableRow, SettledRow, SettledRows, SeenRow, EncRow, ReadTurn, Booked;
    var parts := RowParts(fields, sent);
    assert |before| == |fields| by { SettledLength(fields, before); }
    if k == 0 {
      rows, book := before, Start([]);
      assert InOrder(parts[..0]) == Nothing;
    } else {
      var rows0, book0 := RowsReturn(fields, sent, before, k - 1);
      SettledRowAt(fields, before, k - 1);
      var row;
      row, book := RowReturns(fields, k - 1, rows0, book0, sent[k - 1]);
      rows := rows0[k - 1 := row];
      InOrderStep(parts, k - 1);
      assert parts[k - 1] == EncRow(fields[k - 1], sent[k - 1]);
      HeapLoopConcat(fields, before, Start([]), InOrder(parts[..k - 1]).out, parts[k - 1].out);
      ReachedNext(fields, sent, before, rows0, book0, k - 1, row, book);
    }
  }

  lemma SettledLength(fields: seq<Field>, rows: seq<Row>)
    requires SettledRows(fields, rows)
    ensures |rows| == |fields|
  {
  }

  lemma ReachedNext(fields: seq<Field>, sent: seq<Row>, before: seq<Row>, rows: seq<Row>, book: State, k: nat, row: Row,
      book': State)
    requires Reached(fields, sent, before, rows, book, k) && k < |fields|
    requires SeenRow(fields[k], row) == SeenRow(fields[k], sent[k]) && Booked(fields, k, book, book')
    ensures Reached(fields, sent, before, rows[k := row], book', k + 1)
  {
    hide SeenRow, FixedDone;
  }

  lemma ReachedAll(fields: seq<Field>, sent: seq<Row>, before: seq<Row>, rows: seq<Row>, book: State)
    requires Reached(fields, sent, before, rows, book, |fields|)
    ensures SeenRows(fields, rows) == SeenRows(fields, sent) && Complete(fields, book)
  {
    hide SeenRow;
    assert SeenRows(fields, rows) == SeenRows(fields, sent);
  }

  /** pb_decode_noinit on what pb_encode wrote, into a struct that has been reset. */
  lemma {:induction false} MessageReturns(fields: seq<Field>, sent: seq<Row>, before: seq<Row>)
    returns (rows: seq<Row>)
    requires Allocatable(fields) && Sound(fields, sent) && SendableRows(fields, sent) && SettledRows(fields, before)
    ensures EncRows(fields, sent).ok && SeenRows(fields, rows) == SeenRows(fields, sent)
    ensures ReadNoInit(fields, before, EncRows(fields, sent).out) == Ok(rows, [])
    decreases sent, 5
  {
    hide Allocatable, Sound, SendableRows, SettledRows, SeenRows, ReadLoop, Reached, Complete, EncRow;
    var book;
    rows, book := RowsReturn(fields, sent, before, |fields|);
    var parts := RowParts(fields, sent);
    assert parts[..|fields|] == parts;
    ReachedAll(fields, sent, before, rows, book);
  }

  /** pb_decode undoes pb_encode, for every table with pointers, recursive ones included, and whatever garbage the
      receiving struct held: it accepts, reads everything, and shows the message that was sent. */
  lemma HeapDecodeUndoesEncode(fields: seq<Field>, sent: seq<Row>, prior: seq<Row>)
    requires Allocatable(fields) && Sound(fields, sent) && SendableRows(fields, sent) && Shaped(fields, prior)
    ensures EncRows(fields, sent).ok
    ensures var r := Read(fields, prior, EncRows(fields, sent).out);
            r.Ok? && r.rest == [] && SeenRows(fields, r.value) == SeenRows(fields, sent)
  {
    hide Allocatable, Sound, SendableRows, SettledRows, SeenRows, EncRows, ReadNoInit, Defaults, Shaped;
    HeapDefaultsIdempotent(fields, prior);
    var rows := MessageReturns(fields, sent, Defaults(fields, prior));
  }

  // ---------------------------------------------------------------- what was there before

  lemma MemberStored(f: Field, wireType: nat, row: Row, counter: nat, it: Item, c: seq<byte>)
    returns (row': Row)
    requires AllocatableField(f) && !f.atype.Pointer? && !f.htype.Repeated? && !f.ltype.LSubmessage?
    requires ShapedRow(f, row) && SoundItem(f, it) && SendableItem(f, it)
    ensures EncItem(f, it).ok
    ensures ReadField(f, wireType, row, counter, EncItem(f, it).out + c) == Ok(Counted(row', counter), c)
    ensures row.Inline? && row'.Inline? && row'.size == if f.htype.Optional? && f.sizeOffset != 0 then 1 else row.size
    ensures |row'.items| == 1 && SeenItem(f, row'.items[0]) == SeenItem(f, it)
  {
    hide EncItem, ReadItem, ReadField, SeenItem, SoundItem, SendableItem, AllocatableField, SettledRows;
    var it' := ItemReturns(f, it, row.items[0], c);
    row' := Inline(if f.htype.Optional? && f.sizeOffset != 0 then 1 else row.size, [it']);
    MemberRead(f, wireType, row, counter, EncItem(f, it).out + c, it', c);
  }

  lemma PointeeStored(f: Field, wireType: nat, row: Row, counter: nat, it: Item, c: seq<byte>)
    returns (row': Row)
    requires AllocatableField(f) && f.atype.Pointer? && !f.htype.Repeated?
    requires SoundItem(f, it) && SendableItem(f, it)
    ensures EncItem(f, it).ok
    ensures ReadField(f, wireType, row, counter, EncItem(f, it).out + c) == Ok(Counted(row', counter), c)
    ensures row'.Indirect? && row'.p.Block? && |row'.p.items| == 1
    ensures if IsText(f) then it.Text? && TextIn(f, row'.p) == TextIn(f, it.p)
            else SeenItem(f, row'.p.items[0]) == SeenItem(f, it)
  {
    hide EncItem, EncText, ReadItem, ReadField, SendableItem, SendableText, AllocatableField, Initialized, TextIn,
      Sound,
      SendableRows, SeenRows, SeenValue, TypedValue, Storable, Landing, Plain;
    if IsText(f) {
      assert SendableText(f, it.p) && EncItem(f, it) == EncText(f, it.p) by { TextItem(f, it); }
      TextReturns(f, it.p, Initialized(f, Junk), c);
      var it' := ReadItem(f, Initialized(f, Junk), EncText(f, it.p).out + c).value;
      row' := Indirect(row.size, it'.p);
      PointeeRead(f, wireType, row, counter, EncItem(f, it).out + c, it', c);
    } else {
      InitializedLanding(f);
      var it' := ItemReturns(f, it, Initialized(f, Junk), c);
      row' := Indirect(row.size, Block(0, [it']));
      PointeeRead(f, wireType, row, counter, EncItem(f, it).out + c, it', c);
    }
  }

  lemma TextItem(f: Field, it: Item)
    requires IsText(f) && it.Text? && SendableItem(f, it)
    ensures SendableText(f, it.p) && EncItem(f, it) == EncText(f, it.p)
  {
  }

  /** Whatever the row held: after its record a member shows what was sent and is present, a pointer leads to a block
      of its own that does; a message behind a pointer is not merged. Nothing else has changed but the mark of a
      required row. */
  lemma HeapRecordStores(fields: seq<Field>, k: nat, wireType: nat, rows: seq<Row>, book: State, it: Item, c: seq<byte>)
    returns (row: Row)
    requires Allocatable(fields) && k < |fields| == |rows| && wireType < 8 && !fields[k].htype.Repeated?
    requires ShapedRow(fields[k], rows[k]) && SoundItem(fields[k], it) && SendableItem(fields[k], it)
    requires fields[k].ltype.LSubmessage? ==> fields[k].atype.Pointer?
    ensures EncItem(fields[k], it).ok
    ensures var seen := if fields[k].htype.Required? then book.seen + {k} else book.seen;
            ReadLoop(fields, rows, book, Record(fields[k], wireType, EncItem(fields[k], it).out) + c)
            == ReadLoop(fields, rows[k := row], book.(seen := seen), c)
    ensures if !fields[k].atype.Pointer? then
              && row.Inline? && |row.items| == 1 && SeenItem(fields[k], row.items[0]) == SeenItem(fields[k], it)
              && (fields[k].htype.Optional? && fields[k].sizeOffset != 0 ==> row.size == 1)
            else
              && row.Indirect? && row.p.Block? && |row.p.items| == 1
              && if IsText(fields[k]) then it.Text? && TextIn(fields[k], row.p) == TextIn(fields[k], it.p)
                 else SeenItem(fields[k], row.p.items[0]) == SeenItem(fields[k], it)
  {
    hide EncItem, ReadItem, ReadField, ReadTurn, ReadRow, SeenItem, SoundItem, SendableItem, AllocatableField,
      Allocatable, ShapedRow, TextIn, VarintBytes, IsText;
    var f := fields[k];
    FieldAt(fields, k);
    RowLimits(f);
    var payload := EncItem(f, it).out + c;
    if f.atype.Pointer? {
      row := PointeeStored(f, wireType, rows[k], book.fixedCount, it, c);
    } else {
      row := MemberStored(f, wireType, rows[k], book.fixedCount, it, c);
    }
    RecordRead(fields, k, wireType, rows, book, payload);
    RowRead(fields, k, wireType, rows, book, payload, row, c);
    assert Record(f, wireType, EncItem(f, it).out) + c == TagBytes(wireType, f.tag) + payload;
  }
}
