/** What pb_decode makes of a byte string when fields lie behind pointers: Decoding, with blocks that grow
    instead of arrays that overflow, and with messages behind pointers read anew instead of merged. */
module HeapDecoding {
  import opened Platform
  import opened Varint
  import opened Descriptor
  import opened Encoding
  import opened Decoding
  import opened Heap
  import opened HeapDefaults

  // ---------------------------------------------------------------- structs without addresses

  /** The contents of a struct: which block lies where, and what room it has beyond its items, is left out. */
  function Bare(f: Field, it: Item): Item
    decreases it, 3
  {
    match it
    case Raw(_) => it
    case Struct(rows) => Struct(BareRows(SubTable(f), rows))
    case Text(p) => Text(if p.Block? then Block(0, p.items) else Null)
  }

  function BareRow(f: Field, row: Row): Row
    decreases row, 1
  {
    match row
    case Inline(size, items) => Inline(size, seq(|items|, i requires 0 <= i < |items| => Bare(f, items[i])))
    case Indirect(size, Null) => row
    case Indirect(size, Block(_, items)) =>
      var n := if f.htype.Repeated? && size <= |items| then size else |items|;
      Indirect(size, Block(0, seq(n, i requires 0 <= i < n => Bare(f, items[i]))))
  }

  function BareRows(fields: seq<Field>, rows: seq<Row>): (r: seq<Row>)
    ensures |r| == |rows|
    decreases rows, 2
  {
    seq(|rows|, k requires 0 <= k < |rows| => if k < |fields| then BareRow(fields[k], rows[k]) else rows[k])
  }

  // ---------------------------------------------------------------- items

  function RowsOf(it: Item): seq<Row> {
    if it.Struct? then it.rows else []
  }

  function ItemsOfRow(row: Row): seq<Item> {
    match row case Inline(_, items) => items case Indirect(_, p) => ItemsOfPointer(p)
  }

  function ValuesOf(items: seq<Item>): (r: seq<Value>)
    ensures |r| == |items|
  {
    seq(|items|, i requires 0 <= i < |items| => if items[i].Raw? then items[i].v else Number(0))
  }

  function Raws(values: seq<Value>): (r: seq<Item>)
    ensures |r| == |values|
    ensures forall i :: 0 <= i < |r| ==> r[i].Raw?
  {
    seq(|values|, i requires 0 <= i < |values| => Raw(values[i]))
  }

  /** The bytes of a string on the heap, with its terminator, or those of a bytes field. */
  function TextBytes(f: Field, b: seq<byte>): seq<byte> {
    if f.ltype.LString? then b + [0] else b
  }

  /** The allocation for a text of that many bytes: a header or a terminator goes with it. */
  function TextAllocation(f: Field, size: nat): Option<nat> {
    if f.ltype.LBytes? then
      if size > PB_SIZE_MAX || size > BytesAllocSize(size) then None else Some(BytesAllocSize(size))
    else
      var bytes := WrapSize((size + 1) % TWO_32);
      if bytes < size then None else Some(bytes)
  }

  /** PB_DECODERS[PB_LTYPE(f.type)] into the storage it. */
  function ReadItem(f: Field, it: Item, bs: seq<byte>): (r: Parsed<Item>)
    ensures r.Ok? ==> |r.rest| < |bs|
    decreases |bs|, 0
  {
    if Packable(f.ltype) then
      match DecScalar(f, bs) case Fail => Fail case Ok(v, rest) => Ok(Raw(v), rest)
    else
      match DecDelimited(bs)
      case Fail => Fail
      case Ok(b, rest) =>
        if f.ltype.LSubmessage? then
          match ReadNoInit(SubTable(f), Entered(f, it), b)
          case Fail => Fail
          case Ok(rows, _) => Ok(Struct(rows), rest)
        else if IsText(f) then
          if TextAllocation(f, |b|).None? then Fail else Ok(Text(Block(0, [Raw(Blob(TextBytes(f, b)))])), rest)
        else
          match StoreBlob(f, b)
          case None => Fail
          case Some(v) => Ok(Raw(v), rest)
  }

  /** pb_dec_submessage resets array entries and merges into anything else. */
  function Entered(f: Field, it: Item): seq<Row> {
    if f.htype.Repeated? then Defaults(SubTable(f), RowsOf(it)) else RowsOf(it)
  }

  // ---------------------------------------------------------------- fields

  /** A row and the counter of fixed-count arrays. */
  datatype Counted = Counted(row: Row, counter: nat)

  /** decode_static_field. */
  function ReadStatic(f: Field, wireType: nat, row: Row, counter: nat, bs: seq<byte>): (r: Parsed<Counted>)
    ensures r.Ok? ==> |r.rest| < |bs|
    decreases |bs|, 1
  {
    var counted := f.sizeOffset != 0;
    if f.htype.Repeated? then
      match DecRepeated(f, wireType, Filled(ValuesOf(ItemsOfRow(row)), if counted then row.size else counter), bs)
      case Fail => Fail
      case Ok(a, rest) =>
        var items := Raws(a.items);
        var inSlot, besides := Counted(Inline(a.count, items), counter), Counted(Inline(row.size, items), a.count);
        Ok(if counted then inSlot else besides, rest)
    else if ItemsOfRow(row) == [] then Fail
    else
      match ReadItem(f, ItemsOfRow(row)[0], bs)
      case Fail => Fail
      case Ok(it, rest) =>
        Ok(Counted(Inline(if f.htype.Optional? && counted then 1 else row.size, [it]), counter), rest)
  }

  /** decode_pointer_field for a required or optional field: what was there is replaced. */
  function ReadSingle(f: Field, row: Row, bs: seq<byte>): (r: Parsed<Row>)
    ensures r.Ok? ==> |r.rest| < |bs|
    decreases |bs|, 1
  {
    match ReadItem(f, Initialized(f, Junk), bs)
    case Fail => Fail
    case Ok(it, rest) => Ok(Indirect(row.size, if it.Text? then it.p else Block(0, [it])), rest)
  }

  /** The elements of a packed record, for an array that has size of them. */
  function ReadElements(f: Field, size: nat, b: seq<byte>): Option<seq<Value>>
    decreases |b|
  {
    if b == [] then Some([])
    else if size >= PB_SIZE_MAX then None
    else
      match DecScalar(f, b)
      case Fail => None
      case Ok(v, rest) => match ReadElements(f, size + 1, rest) case None => None case Some(vs) => Some([v] + vs)
  }

  /** decode_pointer_field for an array, a packed record. */
  function ReadPacked(f: Field, row: Row, bs: seq<byte>): (r: Parsed<Row>)
    ensures r.Ok? ==> |r.rest| < |bs|
  {
    var used := ItemsOfRow(row);
    match DecDelimited(bs)
    case Fail => Fail
    case Ok(b, rest) =>
      match ReadElements(f, |used|, b)
      case None => Fail
      case Some(vs) =>
        Ok(if vs == [] then row else Indirect(|used| + |vs|, Block(0, used + Raws(vs))), rest)
  }

  /** decode_pointer_field for an array, one item. */
  function ReadNext(f: Field, row: Row, bs: seq<byte>): (r: Parsed<Row>)
    ensures r.Ok? ==> |r.rest| < |bs|
    decreases |bs|, 1
  {
    var used := ItemsOfRow(row);
    if |used| >= PB_SIZE_MAX then Fail
    else
      match ReadItem(f, Initialized(f, Junk), bs)
      case Fail => Fail
      case Ok(it, rest) => Ok(Indirect(|used| + 1, Block(0, used + [it])), rest)
  }

  function ReadPointer(f: Field, wireType: nat, row: Row, bs: seq<byte>): (r: Parsed<Row>)
    ensures r.Ok? ==> |r.rest| < |bs|
    decreases |bs|, 2
  {
    if !f.htype.Repeated? then ReadSingle(f, row, bs)
    else if wireType == WT_STRING && Packable(f.ltype) then ReadPacked(f, row, bs)
    else ReadNext(f, row, bs)
  }

  /** decode_field. */
  function ReadField(f: Field, wireType: nat, row: Row, counter: nat, bs: seq<byte>): (r: Parsed<Counted>)
    ensures r.Ok? ==> |r.rest| < |bs|
    decreases |bs|, 3
  {
    if !f.atype.Pointer? then ReadStatic(f, wireType, row, counter, bs)
    else
      match ReadPointer(f, wireType, row, bs)
      case Fail => Fail
      case Ok(r, rest) => Ok(Counted(r, counter), rest)
  }

  // ---------------------------------------------------------------- messages

  /** One turn of the loop. The marks and the counter are those of Decoding, whose slots are not used. */
  datatype HeapTurn = Onward(rows: seq<Row>, book: State, rest: seq<byte>) | Halt(rest: seq<byte>) | Wrong

  function ReadTurn(fields: seq<Field>, rows: seq<Row>, book: State, bs: seq<byte>): (r: HeapTurn)
    requires |rows| == |fields|
    ensures r.Onward? ==> |r.rest| < |bs| && |r.rows| == |fields|
    ensures r.Halt? ==> |r.rest| < |bs|
    decreases |bs|, 4
  {
    match DecTag(bs)
    case BadTag => Wrong
    case Terminator(rest) => Halt(rest)
    case Tag(wireType, tag, rest) =>
      if fields == [] && tag == 0 then
        match DecVarint32(rest) case Fail => Wrong case Ok(_, rest') => Onward(rows, book, rest')
      else
        match FindTag(fields, tag)
        case None => (match SkipField(wireType, rest) case Fail => Wrong case Ok(_, rest') => Onward(rows, book, rest'))
        case Some(k) => ReadRow(fields, k, wireType, rows, book, rest)
  }

  /** A record that is for row k. */
  function ReadRow(fields: seq<Field>, k: nat, wireType: nat, rows: seq<Row>, book: State, rest: seq<byte>)
    : (r: HeapTurn)
    requires k < |fields| == |rows|
    ensures !r.Halt?
    ensures r.Onward? ==> |r.rest| < |rest| && |r.rows| == |fields|
    decreases |rest|, 4
  {
    match Track(fields, k, book)
    case None => Wrong
    case Some(tracked) =>
      var marked := Mark(fields, k, tracked);
      match ReadField(fields[k], wireType, rows[k], marked.fixedCount, rest)
      case Fail => Wrong
      case Ok(c, rest') => Onward(rows[k := c.row], marked.(fixedCount := c.counter), rest')
  }

  datatype HeapRun = Over(rows: seq<Row>, book: State, rest: seq<byte>, stopped: bool) | Failed

  function ReadLoop(fields: seq<Field>, rows: seq<Row>, book: State, bs: seq<byte>): (r: HeapRun)
    requires |rows| == |fields|
    ensures r.Over? ==> |r.rest| <= |bs| && |r.rows| == |fields|
    decreases |bs|, 5
  {
    if bs == [] then Over(rows, book, [], false)
    else
      match ReadTurn(fields, rows, book, bs)
      case Wrong => Failed
      case Halt(rest) => Over(rows, book, rest, true)
      case Onward(rows', book', rest) => ReadLoop(fields, rows', book', rest)
  }

  /** pb_decode_noinit. */
  function ReadNoInit(fields: seq<Field>, rows: seq<Row>, bs: seq<byte>): (r: Parsed<seq<Row>>)
    ensures r.Ok? ==> |r.rest| <= |bs|
    decreases |bs|, 6
  {
    if |rows| != |fields| then Fail
    else
      match ReadLoop(fields, rows, Start([]), bs)
      case Failed => Fail
      case Over(rows', book, rest, _) => if Complete(fields, book) then Ok(rows', rest) else Fail
  }

  /** pb_decode. */
  function Read(fields: seq<Field>, rows: seq<Row>, bs: seq<byte>): Parsed<seq<Row>> {
    ReadNoInit(fields, Defaults(fields, rows), bs)
  }

  // ---------------------------------------------------------------- outcomes

  /** A decoder has done what spec says, or it has an excuse: an allocation that was denied on its way. */
  ghost predicate Outcome<T(!new)>(spec: Parsed<T>, ok: bool, value: T, rest: seq<byte>, excused: bool) {
    if ok then spec == Ok(value, rest) else spec.Ok? ==> excused
  }

  // ---------------------------------------------------------------- contents of what is reset or allocated

  lemma {:induction false} BareDefaults(fields: seq<Field>, rows: seq<Row>)
    requires Allocatable(fields) && Shaped(fields, rows)
    ensures BareRows(fields, Defaults(fields, rows)) == Defaults(fields, BareRows(fields, rows))
    decreases rows, 2
  {
    hide AllocatableField, DistinctTags, ShapedRow, BareRow, DefaultRow;
    forall k | 0 <= k < |rows|
      ensures BareRow(fields[k], DefaultRow(fields[k], rows[k])) == DefaultRow(fields[k], BareRow(fields[k], rows[k]))
    {
      BareDefaultRow(fields[k], rows[k]);
    }
    assert BareRows(fields, Defaults(fields, rows)) == Defaults(fields, BareRows(fields, rows));
  }

  lemma {:induction false} BareDefaultRow(f: Field, row: Row)
    requires AllocatableField(f) && ShapedRow(f, row)
    ensures BareRow(f, DefaultRow(f, row)) == DefaultRow(f, BareRow(f, row))
    decreases row, 1
  {
    hide Allocatable, Shaped, BareRows, Defaults;
    if row.Inline? {
      var r, q := BareRow(f, DefaultRow(f, row)), DefaultRow(f, BareRow(f, row));
      assert |r.items| == |q.items| == |row.items|;
      forall i | 0 <= i < |row.items| ensures r.items[i] == q.items[i] {
        assert ShapedItem(f, row.items[i]);
        var it := row.items[i];
        assert r.items[i] == Bare(f, if f.htype.Repeated? then it else DefaultItem(f, it));
        assert q.items[i] == if f.htype.Repeated? then Bare(f, it) else DefaultItem(f, Bare(f, it));
        if f.ltype.LSubmessage? && !f.htype.Repeated? {
          BareDefaults(f.sub, row.items[i].rows);
          assert Bare(f, DefaultItem(f, row.items[i])) == DefaultItem(f, Bare(f, row.items[i]));
        }
      }
      assert r.items == q.items;
    }
  }

  lemma {:induction false} BareCleared(fields: seq<Field>)
    requires Allocatable(fields)
    ensures BareRows(fields, Cleared(fields)) == Cleared(fields)
    decreases fields, 2
  {
    hide AllocatableField, DistinctTags, BareRow, ClearedRow;
    forall k | 0 <= k < |fields| ensures BareRow(fields[k], ClearedRow(fields[k])) == ClearedRow(fields[k]) {
      BareClearedRow(fields[k]);
    }
    assert BareRows(fields, Cleared(fields)) == Cleared(fields);
  }

  lemma {:induction false} BareClearedRow(f: Field)
    requires AllocatableField(f)
    ensures BareRow(f, ClearedRow(f)) == ClearedRow(f)
    decreases f, 1
  {
    hide Allocatable, BareRows, Cleared;
    if !f.atype.Pointer? {
      if f.ltype.LSubmessage? {
        AllocatableSub(f);
        BareCleared(f.sub);
      }
      assert Bare(f, ClearedItem(f)) == ClearedItem(f);
      var r, q := BareRow(f, ClearedRow(f)), ClearedRow(f);
      assert forall i :: 0 <= i < |q.items| ==> q.items[i] == ClearedItem(f) && r.items[i] == Bare(f, ClearedItem(f));
      assert r.items == q.items;
    }
  }

  /** A fresh item holds no address. */
  lemma BareInitialized(f: Field, raw: Item)
    requires AllocatableField(f) && raw.Raw?
    ensures Bare(f, Initialized(f, raw)) == Initialized(f, raw)
  {
    hide Allocatable, BareRows, Defaults, Cleared, Shaped;
    if f.ltype.LSubmessage? {
      AllocatableSub(f);
      ClearedShaped(SubTable(f));
      BareDefaults(SubTable(f), Cleared(SubTable(f)));
      BareCleared(SubTable(f));
    }
  }

  /** Only a message is read into what is there. */
  lemma ReadIgnores(f: Field, it: Item, other: Item, bs: seq<byte>)
    requires f.ltype.LSubmessage? ==> it == other
    ensures ReadItem(f, it, bs) == ReadItem(f, other, bs)
  {
    hide DecScalar, DecDelimited, ReadNoInit, StoreBlob, TextAllocation;
  }

  lemma InitializedSame(f: Field, raw: Item, bs: seq<byte>)
    requires AllocatableField(f) && raw.Raw?
    ensures ReadItem(f, Bare(f, Initialized(f, raw)), bs) == ReadItem(f, Initialized(f, Junk), bs)
  {
    hide ReadItem, Bare, Allocatable, AllocatableField;
    BareInitialized(f, raw);
    ReadIgnores(f, Initialized(f, raw), Initialized(f, Junk), bs);
  }

  lemma BareUpdate(fields: seq<Field>, rows: seq<Row>, k: nat, row: Row)
    requires k < |rows| == |fields|
    ensures BareRows(fields, rows[k := row]) == BareRows(fields, rows)[k := BareRow(fields[k], row)]
    ensures BareRows(fields, rows)[k] == BareRow(fields[k], rows[k])
  {
    hide BareRow;
  }
}
