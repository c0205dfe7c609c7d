/** What Merging and Packing say of static storage, for fields behind pointers. */
module HeapLaws {
  import opened Platform
  import opened Varint
  import opened Descriptor
  import opened Encoding
  import opened Decoding
  import opened Locality
  import opened Merging
  import opened RoundTrip
  import opened LastWins
  import opened Packing
  import opened Heap
  import opened HeapDefaults
  import opened HeapDecoding

  // ---------------------------------------------------------------- one record after the other

  lemma ItemLocal(f: Field, it: Item, bs: seq<byte>, c: seq<byte>)
    requires ReadItem(f, it, bs).Ok?
    ensures ReadItem(f, it, bs + c) == Ok(ReadItem(f, it, bs).value, ReadItem(f, it, bs).rest + c)
  {
    hide DecScalar, DecDelimited, ReadNoInit, StoreBlob, Entered, TextAllocation;
    if Packable(f.ltype) {
      ScalarLocal(f, bs, c);
    } else {
      DelimitedLocal(bs, c);
    }
  }

  lemma PointerLocal(f: Field, wireType: nat, row: Row, bs: seq<byte>, c: seq<byte>)
    requires ReadPointer(f, wireType, row, bs).Ok?
    ensures ReadPointer(f, wireType, row, bs + c)
         == Ok(ReadPointer(f, wireType, row, bs).value, ReadPointer(f, wireType, row, bs).rest + c)
  {
    hide DecDelimited, ReadItem, ReadElements, Initialized;
    if f.htype.Repeated? && wireType == WT_STRING && Packable(f.ltype) {
      DelimitedLocal(bs, c);
    } else {
      ItemLocal(f, Initialized(f, Junk), bs, c);
    }
  }

  lemma StaticLocal(f: Field, wireType: nat, row: Row, counter: nat, bs: seq<byte>, c: seq<byte>)
    requires ReadStatic(f, wireType, row, counter, bs).Ok?
    ensures ReadStatic(f, wireType, row, counter, bs + c)
         == Ok(ReadStatic(f, wireType, row, counter, bs).value, ReadStatic(f, wireType, row, counter, bs).rest + c)
  {
    hide DecRepeated, ReadItem, ValuesOf, Raws;
    if f.htype.Repeated? {
      var size := if f.sizeOffset != 0 then row.size else counter;
      RepeatedLocal(f, wireType, Filled(ValuesOf(ItemsOfRow(row)), size), bs, c);
    } else {
      ItemLocal(f, ItemsOfRow(row)[0], bs, c);
    }
  }

  lemma HeapRowLocal(fields: seq<Field>, k: nat, wireType: nat, rows: seq<Row>, book: State, bs: seq<byte>,
      c: seq<byte>)
    requires k < |fields| == |rows| && ReadRow(fields, k, wireType, rows, book, bs).Onward?
    ensures var t := ReadRow(fields, k, wireType, rows, book, bs);
            ReadRow(fields, k, wireType, rows, book, bs + c) == Onward(t.rows, t.book, t.rest + c)
  {
    hide ReadStatic, ReadPointer, Track, Mark;
    var counter := Mark(fields, k, Track(fields, k, book).value).fixedCount;
    if fields[k].atype.Pointer? {
      PointerLocal(fields[k], wireType, rows[k], bs, c);
    } else {
      StaticLocal(fields[k], wireType, rows[k], counter, bs, c);
    }
  }

  lemma HeapTurnLocal(fields: seq<Field>, rows: seq<Row>, book: State, bs: seq<byte>, c: seq<byte>)
    requires |rows| == |fields| && !ReadTurn(fields, rows, book, bs).Wrong?
    ensures ReadTurn(fields, rows, book, bs + c)
         == ReadTurn(fields, rows, book, bs).(rest := ReadTurn(fields, rows, book, bs).rest + c)
  {
    hide DecTag, ReadRow, FindTag, SkipField, DecVarint32;
    TagLocal(bs, c);
    var t := DecTag(bs);
    if t.Tag? {
      if fields == [] && t.tag == 0 {
        Varint32Local(t.rest, c);
      } else if FindTag(fields, t.tag).None? {
        SkipLocal(t.wireType, t.rest, c);
      } else {
        HeapRowLocal(fields, FindTag(fields, t.tag).value, t.wireType, rows, book, t.rest, c);
      }
    }
  }

  /** Reading a and then b is reading a + b, unless a ends the message early: whatever of the struct lies behind
      pointers, and wherever the cursor stood in between. */
  lemma {:induction false} HeapLoopConcat(fields: seq<Field>, rows: seq<Row>, book: State, a: seq<byte>, b: seq<byte>)
    requires |rows| == |fields| && ReadLoop(fields, rows, book, a).Over?
    ensures var r := ReadLoop(fields, rows, book, a);
            ReadLoop(fields, rows, book, a + b)
            == if r.stopped then Over(r.rows, r.book, r.rest + b, true) else ReadLoop(fields, r.rows, r.book, b)
    decreases |a|
  {
    hide ReadTurn;
    if a == [] {
      assert a + b == b;
    } else {
      HeapTurnLocal(fields, rows, book, a, b);
      var t := ReadTurn(fields, rows, book, a);
      if t.Onward? {
        HeapLoopConcat(fields, t.rows, t.book, t.rest, b);
      }
    }
  }

  lemma HeapSkipsUnknown(fields: seq<Field>, rows: seq<Row>, book: State, u: seq<byte>)
    requires |rows| == |fields| && UnknownRecord(fields, u)
    ensures u != [] && ReadTurn(fields, rows, book, u) == Onward(rows, book, [])
  {
    hide DecTag, FindTag, SkipField;
  }

  /** An unknown record changes nothing, wherever between two records it stands. */
  lemma UnknownIsTransparentToHeap(fields: seq<Field>, rows: seq<Row>, a: seq<byte>, u: seq<byte>, c: seq<byte>)
    requires |rows| == |fields| && UnknownRecord(fields, u)
    requires ReadLoop(fields, rows, Start([]), a).Over? && !ReadLoop(fields, rows, Start([]), a).stopped
    ensures ReadNoInit(fields, rows, a + u + c) == ReadNoInit(fields, rows, a + c)
  {
    hide ReadTurn, UnknownRecord;
    var r := ReadLoop(fields, rows, Start([]), a);
    HeapLoopConcat(fields, rows, Start([]), a, u + c);
    HeapLoopConcat(fields, rows, Start([]), a, c);
    assert a + u + c == a + (u + c);
    HeapSkipsUnknown(fields, r.rows, r.book, u);
    HeapTurnLocal(fields, r.rows, r.book, u, c);
    assert [] + c == c;
  }

  // ---------------------------------------------------------------- records

  lemma AllocatableRow(fields: seq<Field>, k: nat)
    requires Allocatable(fields) && k < |fields|
    ensures DistinctTags(fields) && 1 <= fields[k].tag < 0x2000_0000 && !fields[k].ltype.LExtension?
    ensures GoodSize(fields[k].ltype, fields[k].dataSize)
    ensures fields[k].atype.Pointer? && fields[k].htype.Repeated? ==> !IsFixedCount(fields[k])
  {
    assert AllocatableField(fields[k]);
  }

  /** A loop over one record and what follows it. */
  lemma RecordRead(fields: seq<Field>, k: nat, wireType: nat, rows: seq<Row>, book: State, bs: seq<byte>)
    requires Allocatable(fields) && k < |fields| == |rows| && wireType < 8
    ensures ReadLoop(fields, rows, book, TagBytes(wireType, fields[k].tag) + bs)
         == match ReadRow(fields, k, wireType, rows, book, bs)
            case Onward(rows', book', rest) => ReadLoop(fields, rows', book', rest)
            case _ => Failed
  {
    hide DecTag, TagBytes, ReadRow, FindTag, Allocatable;
    AllocatableRow(fields, k);
    TagRoundTrip(wireType, fields[k].tag, bs);
    FindTagUnique(fields, k);
    TagNotEmpty(wireType, fields[k].tag);
  }

  lemma RowRead(fields: seq<Field>, k: nat, wireType: nat, rows: seq<Row>, book: State, bs: seq<byte>, row: Row,
      rest: seq<byte>)
    requires k < |fields| == |rows| && !IsFixedCount(fields[k])
    requires ReadField(fields[k], wireType, rows[k], book.fixedCount, bs) == Ok(Counted(row, book.fixedCount), rest)
    ensures ReadRow(fields, k, wireType, rows, book, bs) == Onward(rows[k := row], Mark(fields, k, book), rest)
  {
    hide ReadField;
  }

  // ---------------------------------------------------------------- bodies that follow one another

  function HeapRunWithSeen(r: HeapRun, more: set<nat>): HeapRun {
    if r.Over? then r.(book := WithSeen(r.book, more)) else r
  }

  function HeapTurnWithSeen(t: HeapTurn, more: set<nat>): HeapTurn {
    if t.Onward? then t.(book := WithSeen(t.book, more)) else t
  }

  lemma HeapTurnSeen(fields: seq<Field>, rows: seq<Row>, book: State, bs: seq<byte>, more: set<nat>)
    requires |rows| == |fields|
    ensures ReadTurn(fields, rows, WithSeen(book, more), bs)
         == HeapTurnWithSeen(ReadTurn(fields, rows, book, bs), more)
  {
    hide DecTag, FindTag, SkipField, DecVarint32, ReadField;
    var t := DecTag(bs);
    if t.Tag? && FindTag(fields, t.tag).Some? {
      var k := FindTag(fields, t.tag).value;
      assert more + (book.seen + {k}) == (more + book.seen) + {k};
    }
  }

  lemma {:induction false} HeapLoopSeen(fields: seq<Field>, rows: seq<Row>, book: State, bs: seq<byte>, more: set<nat>)
    requires |rows| == |fields|
    ensures ReadLoop(fields, rows, WithSeen(book, more), bs)
         == HeapRunWithSeen(ReadLoop(fields, rows, book, bs), more)
    decreases |bs|
  {
    hide ReadTurn;
    if bs != [] {
      HeapTurnSeen(fields, rows, book, bs, more);
      var t := ReadTurn(fields, rows, book, bs);
      if t.Onward? {
        HeapLoopSeen(fields, t.rows, t.book, t.rest, more);
      }
    }
  }

  lemma HeapTurnUncounted(fields: seq<Field>, rows: seq<Row>, book: State, bs: seq<byte>)
    requires NoFixedCount(fields) && |rows| == |fields| && ReadTurn(fields, rows, book, bs).Onward?
    ensures var after := ReadTurn(fields, rows, book, bs).book;
            after.fixedField == book.fixedField && after.fixedCount == book.fixedCount && after.slots == book.slots
  {
    hide DecTag, FindTag, SkipField, DecVarint32, ReadField;
    var t := DecTag(bs);
    if FindTag(fields, t.tag).Some? {
      var k := FindTag(fields, t.tag).value;
      assert !IsFixedCount(fields[k]);
      FieldUncounted(fields[k], t.wireType, rows[k], book.fixedCount, t.rest);
    }
  }

  lemma FieldUncounted(f: Field, wireType: nat, row: Row, counter: nat, bs: seq<byte>)
    requires !IsFixedCount(f) && ReadField(f, wireType, row, counter, bs).Ok?
    ensures ReadField(f, wireType, row, counter, bs).value.counter == counter
  {
    hide ReadItem, DecRepeated, ReadPointer, Raws, ValuesOf;
  }

  lemma {:induction false} HeapLoopUncounted(fields: seq<Field>, rows: seq<Row>, book: State, bs: seq<byte>)
    requires NoFixedCount(fields) && |rows| == |fields| && ReadLoop(fields, rows, book, bs).Over?
    ensures var after := ReadLoop(fields, rows, book, bs).book;
            after.fixedField == book.fixedField && after.fixedCount == book.fixedCount && after.slots == book.slots
    decreases |bs|
  {
    hide ReadTurn, NoFixedCount;
    if bs != [] {
      var t := ReadTurn(fields, rows, book, bs);
      if t.Onward? {
        HeapTurnUncounted(fields, rows, book, bs);
        HeapLoopUncounted(fields, t.rows, t.book, t.rest);
      }
    }
  }

  /** Two bodies, one after the other into the same struct, are one body, where both are accepted; and if nothing is
      required, wherever the first runs to its end. */
  lemma HeapBodiesConcat(fields: seq<Field>, rows: seq<Row>, x: seq<byte>, y: seq<byte>)
    requires NoFixedCount(fields) && |rows| == |fields|
    requires ReadLoop(fields, rows, Start([]), x).Over? && !ReadLoop(fields, rows, Start([]), x).stopped
    requires (forall i :: 0 <= i < |fields| ==> !fields[i].htype.Required?) ||
             (ReadNoInit(fields, rows, x).Ok? && ReadNoInit(fields, ReadNoInit(fields, rows, x).value, y).Ok?)
    ensures ReadNoInit(fields, rows, x).Ok?
    ensures ReadNoInit(fields, rows, x + y) == ReadNoInit(fields, ReadNoInit(fields, rows, x).value, y)
  {
    hide ReadLoop;
    var first := ReadLoop(fields, rows, Start([]), x);
    HeapLoopConcat(fields, rows, Start([]), x, y);
    HeapLoopUncounted(fields, rows, Start([]), x);
    HeapLoopSeen(fields, first.rows, Start([]), y, first.book.seen);
    assert first.book.seen + {} == first.book.seen;
    assert first.book == WithSeen(Start([]), first.book.seen);
    var second := ReadLoop(fields, first.rows, Start([]), y);
    if second.Over? {
      HeapLoopUncounted(fields, first.rows, Start([]), y);
    }
  }

  lemma NestedRead(f: Field, wireType: nat, row: Row, counter: nat, body: seq<byte>, c: seq<byte>)
    requires f.ltype.LSubmessage? && !f.htype.Repeated? && !f.atype.Pointer? && |body| < TWO_32
    requires row.Inline? && |row.items| == 1
    ensures var r := ReadNoInit(f.sub, RowsOf(row.items[0]), body);
            var size := if f.htype.Optional? && f.sizeOffset != 0 then 1 else row.size;
            ReadField(f, wireType, row, counter, VarintBytes(|body|) + body + c)
            == if r.Ok? then Ok(Counted(Inline(size, [Struct(r.value)]), counter), c) else Fail
  {
    hide ReadItem, VarintBytes, DecRepeated;
    NestedItem(f, row.items[0], body, c);
  }

  lemma NestedItem(f: Field, it: Item, body: seq<byte>, c: seq<byte>)
    requires f.ltype.LSubmessage? && !f.htype.Repeated? && !f.atype.Pointer? && |body| < TWO_32
    ensures var r := ReadNoInit(f.sub, RowsOf(it), body);
            ReadItem(f, it, VarintBytes(|body|) + body + c) == if r.Ok? then Ok(Struct(r.value), c) else Fail
  {
    hide ReadNoInit, DecDelimited, VarintBytes;
    DelimitedRoundTrip(body, c);
    assert VarintBytes(|body|) + body + c == StringBytes(body) + c;
    assert SubTable(f) == f.sub;
  }

  lemma NestedReadRow(fields: seq<Field>, k: nat, wireType: nat, rows: seq<Row>, book: State, body: seq<byte>,
      c: seq<byte>)
    requires Allocatable(fields) && k < |fields| == |rows| && wireType < 8 && |body| < TWO_32
    requires fields[k].ltype.LSubmessage? && !fields[k].htype.Repeated? && !fields[k].atype.Pointer?
    requires rows[k].Inline? && |rows[k].items| == 1
    ensures var f := fields[k];
            var r := ReadNoInit(f.sub, RowsOf(rows[k].items[0]), body);
            var size := if f.htype.Optional? && f.sizeOffset != 0 then 1 else rows[k].size;
            ReadLoop(fields, rows, book, Nested(f, wireType, body) + c) ==
              if r.Ok? then ReadLoop(fields, rows[k := Inline(size, [Struct(r.value)])], Mark(fields, k, book), c)
              else Failed
  {
    hide ReadNoInit, ReadField, ReadTurn, VarintBytes, Allocatable;
    var f := fields[k];
    var payload := VarintBytes(|body|) + body + c;
    assert Nested(f, wireType, body) + c == TagBytes(wireType, f.tag) + payload;
    NestedRead(f, wireType, rows[k], book.fixedCount, body, c);
    RecordRead(fields, k, wireType, rows, book, payload);
    var r := ReadNoInit(f.sub, RowsOf(rows[k].items[0]), body);
    if r.Ok? {
      var size := if f.htype.Optional? && f.sizeOffset != 0 then 1 else rows[k].size;
      RowRead(fields, k, wireType, rows, book, payload, Inline(size, [Struct(r.value)]), c);
    }
  }

  /** Two records of a message inside the struct merge here as well, pointers in it included. */
  lemma EmbeddedMergesInHeap(fields: seq<Field>, k: nat, wireType: nat, rows: seq<Row>, book: State, x: seq<byte>,
      y: seq<byte>, c: seq<byte>)
    requires Allocatable(fields) && k < |fields| == |rows| && wireType < 8 && |x| + |y| < TWO_32
    requires fields[k].ltype.LSubmessage? && !fields[k].htype.Repeated? && !fields[k].atype.Pointer?
    requires NoFixedCount(fields[k].sub) && rows[k].Inline? && |rows[k].items| == 1
    requires var sub, prior := fields[k].sub, RowsOf(rows[k].items[0]);
             && |prior| == |sub|
             && ReadLoop(sub, prior, Start([]), x).Over? && !ReadLoop(sub, prior, Start([]), x).stopped
             && ((forall i :: 0 <= i < |sub| ==> !sub[i].htype.Required?) ||
                 (ReadNoInit(sub, prior, x).Ok? && ReadNoInit(sub, ReadNoInit(sub, prior, x).value, y).Ok?))
    ensures var f := fields[k];
            ReadLoop(fields, rows, book, Nested(f, wireType, x) + Nested(f, wireType, y) + c)
            == ReadLoop(fields, rows, book, Nested(f, wireType, x + y) + c)
  {
    hide ReadNoInit, ReadLoop, VarintBytes, Allocatable, Nested;
    var f, prior := fields[k], RowsOf(rows[k].items[0]);
    HeapBodiesConcat(f.sub, prior, x, y);
    var m := ReadNoInit(f.sub, prior, x).value;
    var size := if f.htype.Optional? && f.sizeOffset != 0 then 1 else rows[k].size;
    var rest := Nested(f, wireType, y) + c;
    assert Nested(f, wireType, x) + Nested(f, wireType, y) + c == Nested(f, wireType, x) + rest;
    NestedReadRow(fields, k, wireType, rows, book, x, rest);
    var rows1 := rows[k := Inline(size, [Struct(m)])];
    NestedReadRow(fields, k, wireType, rows1, Mark(fields, k, book), y, c);
    NestedReadRow(fields, k, wireType, rows, book, x + y, c);
    MarkTwice(fields, k, book);
    var last := ReadNoInit(f.sub, m, y);
    if last.Ok? {
      var row := Inline(size, [Struct(last.value)]);
      assert rows1[k := row] == rows[k := row];
    }
  }

  lemma MarkTwice(fields: seq<Field>, k: nat, book: State)
    requires k < |fields|
    ensures Mark(fields, k, Mark(fields, k, book)) == Mark(fields, k, book)
  {
    assert (book.seen + {k}) + {k} == book.seen + {k};
  }

  // ---------------------------------------------------------------- arrays that grow

  /** An array behind a pointer with more elements. */
  function Extended(row: Row, more: seq<Value>): Row {
    var used := ItemsOfRow(row);
    if more == [] then row else Indirect(|used| + |more|, Block(0, used + Raws(more)))
  }

  lemma ExtendedTwice(row: Row, x: seq<Value>, y: seq<Value>)
    ensures Extended(Extended(row, x), y) == Extended(row, x + y)
    ensures |ItemsOfRow(Extended(row, x))| == |ItemsOfRow(row)| + |x|
  {
    assert Raws(x + y) == Raws(x) + Raws(y);
    assert x + [] == x && [] + y == y;
    assert (ItemsOfRow(row) + Raws(x)) + Raws(y) == ItemsOfRow(row) + (Raws(x) + Raws(y));
  }

  /** The elements of a packed record are read back, and refused exactly when pb_size_t cannot count them. */
  lemma {:induction false} ElementsRead(f: Field, size: nat, items: seq<Value>)
    requires Packable(f.ltype) && GoodSize(f.ltype, f.dataSize) && size <= PB_SIZE_MAX
    requires forall i :: 0 <= i < |items| ==> TypedValue(f, items[i])
    ensures InOrder(ItemParts(f, items)).ok
    ensures ReadElements(f, size, InOrder(ItemParts(f, items)).out)
         == if size + |items| <= PB_SIZE_MAX then Some(SeenItems(f, items)) else None
    decreases |items|
  {
    hide DecScalar, EncValue, TypedValue, InOrder, ItemParts, SeenValue;
    if items == [] {
      EmptyParts(f);
      assert SeenItems(f, items) == [];
    } else {
      var rest := InOrder(ItemParts(f, items[1..])).out;
      ItemPartsFront(f, items);
      ScalarRoundTrip(f, items[0], rest);
      ScalarRoundTrip(f, items[0], []);
      NotEmpty(f, EncValue(f, items[0]).out, rest);
      assert InOrder(ItemParts(f, items)).out == EncValue(f, items[0]).out + rest;
      ElementsRead(f, if size < PB_SIZE_MAX then size + 1 else size, items[1..]);
      assert SeenItems(f, items) == [SeenValue(f, items[0])] + SeenItems(f, items[1..]);
    }
  }

  /** What one piece does to the array. */
  lemma PieceRead(f: Field, row: Row, p: Piece, rest: seq<byte>)
    requires f.atype.Pointer? && f.htype.Repeated? && Packable(f.ltype) && GoodSize(f.ltype, f.dataSize)
    requires |ItemsOfRow(row)| <= PB_SIZE_MAX && GoodPiece(f, p)
    ensures var wireType := if p.Packed? then WT_STRING else WireType(f.ltype);
            var payload := if p.Packed? then StringBytes(InOrder(ItemParts(f, p.items)).out)
                else EncValue(f, p.item).out;
            ReadPointer(f, wireType, row, payload + rest)
            == if |ItemsOfRow(row)| + |ItemsOfPiece(p)| <= PB_SIZE_MAX
               then Ok(Extended(row, SeenItems(f, ItemsOfPiece(p))), rest) else Fail
  {
    hide DecScalar, DecDelimited, ReadElements, EncValue, TypedValue, ItemParts, InOrder, StringBytes, SeenValue,
      Raws;
    match p {
      case Packed(items) =>
        assert ItemsOfPiece(p) == items;
        forall i | 0 <= i < |items| ensures TypedValue(f, items[i]) { assert TypedValue(f, ItemsOfPiece(p)[i]); }
        ElementsRead(f, |ItemsOfRow(row)|, items);
        DelimitedRoundTrip(InOrder(ItemParts(f, items)).out, rest);
      case Single(v) =>
        assert TypedValue(f, ItemsOfPiece(p)[0]);
        ScalarRoundTrip(f, v, rest);
        assert ItemsOfPiece(p) == [v] && SeenItems(f, [v]) == [SeenValue(f, v)];
        RawOne(SeenValue(f, v));
        assert WireType(f.ltype) != WT_STRING;
        assert ReadItem(f, Initialized(f, Junk), EncValue(f, v).out + rest) == Ok(Raw(SeenValue(f, v)), rest);
    }
  }

  lemma RawOne(v: Value)
    ensures Raws([v]) == [Raw(v)]
  {
  }

  /** The rows of a struct while the array of row k holds row. */
  lemma PieceReadTurn(fields: seq<Field>, k: nat, rows: seq<Row>, book: State, p: Piece, rest: seq<byte>)
    requires Allocatable(fields) && k < |fields| == |rows|
    requires fields[k].atype.Pointer? && fields[k].htype.Repeated? && Packable(fields[k].ltype)
    requires |ItemsOfRow(rows[k])| <= PB_SIZE_MAX && GoodPiece(fields[k], p)
    ensures var f := fields[k];
            ReadLoop(fields, rows, book, PieceBytes(f, p) + rest)
            == if |ItemsOfRow(rows[k])| + |ItemsOfPiece(p)| <= PB_SIZE_MAX
               then ReadLoop(fields, rows[k := Extended(rows[k], SeenItems(f, ItemsOfPiece(p)))], book, rest)
               else Failed
  {
    hide ReadTurn, ReadPointer, TagBytes, StringBytes, ItemParts, InOrder, EncValue, GoodPiece, SeenItems,
      Allocatable, AllocatableField, Extended, ItemsOfPiece, ItemsOfRow;
    var f := fields[k];
    AllocatableRow(fields, k);
    var wireType := if p.Packed? then WT_STRING else WireType(f.ltype);
    var payload := if p.Packed? then StringBytes(InOrder(ItemParts(f, p.items)).out) else EncValue(f, p.item).out;
    PieceRead(f, rows[k], p, rest);
    assert PieceBytes(f, p) + rest == TagBytes(wireType, f.tag) + (payload + rest);
    PointerTurn(fields, k, wireType, rows, book, payload + rest);
    TagNotEmpty(wireType, f.tag);
  }

  /** A record whose tag is that of an array behind a pointer is handed to it. */
  lemma PointerTurn(fields: seq<Field>, k: nat, wireType: nat, rows: seq<Row>, book: State, bs: seq<byte>)
    requires DistinctTags(fields) && k < |fields| == |rows| && wireType < 8
    requires 1 <= fields[k].tag < 0x2000_0000 && !fields[k].ltype.LExtension?
    requires fields[k].atype.Pointer? && fields[k].htype.Repeated? && !IsFixedCount(fields[k])
    ensures var r := ReadPointer(fields[k], wireType, rows[k], bs);
            ReadTurn(fields, rows, book, TagBytes(wireType, fields[k].tag) + bs)
            == if r.Ok? then Onward(rows[k := r.value], book, r.rest) else Wrong
  {
    hide DecTag, TagBytes, ReadPointer, FindTag;
    TagRoundTrip(wireType, fields[k].tag, bs);
    FindTagUnique(fields, k);
    assert Track(fields, k, book) == Some(book) && Mark(fields, k, book) == book;
    var r := ReadPointer(fields[k], wireType, rows[k], bs);
    assert ReadField(fields[k], wireType, rows[k], book.fixedCount, bs)
        == if r.Ok? then Ok(Counted(r.value, book.fixedCount), r.rest) else Fail;
  }

  /** However a sequence of elements is split into packed and single records, an array behind a pointer grows by
      them in order, and refuses them exactly when pb_size_t cannot count the total. */
  lemma {:induction false} SplitDoesNotMatterToHeap(fields: seq<Field>, k: nat, rows: seq<Row>, book: State,
      pieces: seq<Piece>)
    requires Allocatable(fields) && k < |fields| == |rows|
    requires fields[k].atype.Pointer? && fields[k].htype.Repeated? && Packable(fields[k].ltype)
    requires |ItemsOfRow(rows[k])| <= PB_SIZE_MAX
    requires forall i :: 0 <= i < |pieces| ==> GoodPiece(fields[k], pieces[i])
    ensures var f := fields[k];
            ReadLoop(fields, rows, book, Wire(f, pieces))
            == if |ItemsOfRow(rows[k])| + |Flatten(pieces)| <= PB_SIZE_MAX
               then Over(rows[k := Extended(rows[k], SeenItems(f, Flatten(pieces)))], book, [], false)
               else Failed
    decreases |pieces|
  {
    hide ReadTurn, GoodPiece, SeenValue, Allocatable, PieceBytes, ItemsOfPiece, Extended, ItemsOfRow;
    var f := fields[k];
    if pieces == [] {
      NotExtended(rows[k]);
      assert SeenItems(f, []) == [];
    } else {
      var p := pieces[0];
      PieceReadTurn(fields, k, rows, book, p, Wire(f, pieces[1..]));
      if |ItemsOfRow(rows[k])| + |ItemsOfPiece(p)| <= PB_SIZE_MAX {
        var first, later := SeenItems(f, ItemsOfPiece(p)), SeenItems(f, Flatten(pieces[1..]));
        ExtendedTwice(rows[k], first, later);
        SeenConcat(f, ItemsOfPiece(p), Flatten(pieces[1..]));
        var rows' := rows[k := Extended(rows[k], first)];
        SplitDoesNotMatterToHeap(fields, k, rows', book, pieces[1..]);
        assert rows'[k := Extended(rows'[k], later)] == rows[k := Extended(rows'[k], later)];
      }
    }
  }

  lemma NotExtended(row: Row)
    ensures Extended(row, []) == row
  {
  }
}
