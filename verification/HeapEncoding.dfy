/** What pb_encode emits for a struct with fields behind pointers, and what such a struct shows. */
module HeapEncoding {
  import opened Platform
  import opened Descriptor
  import opened Encoding
  import opened RoundTrip
  import opened Heap
  import opened HeapDecoding

  // ---------------------------------------------------------------- bytes

  /** The block of a text: one storage of bytes. */
  predicate TextBlock(p: Pointer) {
    p.Block? && |p.items| == 1 && p.items[0].Raw? && p.items[0].v.Blob?
  }

  /** pb_enc_string and pb_enc_bytes for a pointer; NULL counts as empty. */
  function EncText(f: Field, p: Pointer): Enc {
    if p.Null? then Enc(true, StringBytes([]))
    else if !TextBlock(p) then Rejected
    else
      var bs := p.items[0].v.bs;
      if f.ltype.LString? then Enc(true, StringBytes(UpToNul(bs)))
      else if BytesAllocSize(|bs|) < |bs| then Rejected
      else Enc(true, StringBytes(bs))
  }

  /** PB_ENCODERS[PB_LTYPE(f.type)] for the storage it. */
  function EncItem(f: Field, it: Item): Enc
    decreases it, 3
  {
    match it
    case Raw(v) => if f.ltype.LSubmessage? || IsText(f) then Rejected else EncValue(f, v)
    case Struct(rows) => if f.ltype.LSubmessage? then Delimited(EncRows(SubTable(f), rows)) else Rejected
    case Text(p) => if IsText(f) then EncText(f, p) else Rejected
  }

  /** The first n items of an array behind a pointer, with a tag each. */
  function PointerParts(f: Field, items: seq<Item>, n: nat): (r: seq<Enc>)
    requires n <= |items|
    ensures |r| == n
    decreases items, 4
  {
    seq(n, i requires 0 <= i < n => Then(TagOf(f), EncItem(f, items[i])))
  }

  /** encode_basic_field. A single pointer has no has_ flag: it is present unless it is NULL. The items of arrays
      in the struct itself are no messages. */
  function EncRow(f: Field, row: Row): Enc
    decreases row, 1
  {
    match row
    case Inline(size, items) =>
      if f.htype.Repeated? then EncArray(f, ValuesOf(items), if f.sizeOffset != 0 then size else f.arraySize)
      else if |items| != 1 then Rejected
      else if f.htype.Optional? && (if f.sizeOffset != 0 then size == 0 else IsDefaultItem(f, items[0])) then Nothing
      else Then(TagOf(f), EncItem(f, items[0]))
    case Indirect(size, Null) => if f.htype.Required? || (f.htype.Repeated? && size > 0) then Rejected else Nothing
    case Indirect(size, Block(id, items)) =>
      if f.htype.Repeated? then
        if size == 0 then Nothing
        else if size > |items| then Rejected
        else if Packable(f.ltype) then
          Then(Enc(true, TagBytes(WT_STRING, f.tag)), Delimited(InOrder(ItemParts(f, ValuesOf(items[..size])))))
        else InOrder(PointerParts(f, items, size))
      else if IsText(f) then Then(TagOf(f), EncText(f, row.p))
      else if |items| != 1 then Rejected
      else Then(TagOf(f), EncItem(f, items[0]))
  }

  /** pb_check_proto3_default_value for a member without presence of its own. */
  predicate IsDefaultItem(f: Field, it: Item)
    decreases it, 3
  {
    match it
    case Raw(v) => IsDefaultValue(f, v)
    case Struct(rows) => f.ltype.LSubmessage? && IsDefaultRows(f.sub, rows)
    case Text(_) => false
  }

  /** The same for any member. Where a single pointer leads to a number, the code compares some bytes of the address
      with zero, see Comparable. */
  predicate IsDefaultRow(f: Field, row: Row)
    decreases row, 1
  {
    if f.htype.Required? then false
    else if f.htype.Repeated? then f.sizeOffset != 0 && row.size == 0
    else
      match row
      case Indirect(_, p) => p.Null?
      case Inline(size, items) =>
        if f.sizeOffset != 0 then size == 0 else |items| == 1 && IsDefaultItem(f, items[0])
  }

  predicate IsDefaultRows(fields: seq<Field>, rows: seq<Row>)
    decreases rows, 2
  {
    forall k :: 0 <= k < |fields| && k < |rows| ==> IsDefaultRow(fields[k], rows[k])
  }

  function RowParts(fields: seq<Field>, rows: seq<Row>): (r: seq<Enc>)
    ensures |r| == |rows|
    decreases rows, 2
  {
    seq(|rows|, k requires 0 <= k < |rows| => if k < |fields| then EncRow(fields[k], rows[k]) else Rejected)
  }

  /** pb_encode. */
  function EncRows(fields: seq<Field>, rows: seq<Row>): Enc
    decreases rows, 3
  {
    InOrder(RowParts(fields, rows))
  }

  // ---------------------------------------------------------------- what a program can see

  /** The bytes of a text up to its terminator; none behind NULL. */
  function TextIn(f: Field, p: Pointer): seq<byte> {
    if !TextBlock(p) then []
    else if f.ltype.LString? then UpToNul(p.items[0].v.bs) else p.items[0].v.bs
  }

  function SeenItem(f: Field, it: Item): Item
    decreases it, 3
  {
    match it
    case Raw(v) => Raw(SeenValue(f, v))
    case Struct(rows) => Struct(SeenRows(SubTable(f), rows))
    case Text(p) => Raw(Blob(TextIn(f, p)))
  }

  function Least(a: nat, b: nat): (r: nat)
    ensures r <= a && r <= b
  {
    if a <= b then a else b
  }

  /** No item without its has_ flag, none past the count, no addresses. */
  function SeenRow(f: Field, row: Row): Row
    decreases row, 1
  {
    match row
    case Inline(size, items) =>
      var counted := f.sizeOffset != 0 && !f.htype.Required?;
      var n := if !counted then |items| else if f.htype.Repeated? then Least(size, |items|)
               else if size == 0 then 0 else |items|;
      var shown := if !counted then 0 else if f.htype.Repeated? || size == 0 then size else 1;
      Inline(shown, seq(n, i requires 0 <= i < n => SeenItem(f, items[i])))
    case Indirect(size, Null) => Indirect(0, if f.htype.Repeated? then Block(0, []) else Null)
    case Indirect(size, Block(_, items)) =>
      if IsText(f) && !f.htype.Repeated? then Indirect(0, Block(0, [Raw(Blob(TextIn(f, row.p)))]))
      else
        var n := if f.htype.Repeated? then Least(size, |items|) else |items|;
        Indirect(if f.htype.Repeated? then size else 0,
                 Block(0, seq(n, i requires 0 <= i < n => SeenItem(f, items[i]))))
  }

  function SeenRows(fields: seq<Field>, rows: seq<Row>): (r: seq<Row>)
    ensures |r| == |rows|
    decreases rows, 2
  {
    seq(|rows|, k requires 0 <= k < |rows| => if k < |fields| then SeenRow(fields[k], rows[k]) else rows[k])
  }

  // ---------------------------------------------------------------- what a program may send

  /** A text the allocator can be asked for again: a string with its terminator, bytes that pb_size_t can count. */
  predicate SendableText(f: Field, p: Pointer) {
    p.Block? ==>
      && TextBlock(p)
      && var bs := p.items[0].v.bs;
         if f.ltype.LString? then 0 in bs && |UpToNul(bs)| + 1 <= SIZE_MAX && |UpToNul(bs)| + 1 < TWO_32
         else |bs| <= PB_SIZE_MAX && |bs| + BYTES_OFFSET <= SIZE_MAX
  }

  predicate SendableItem(f: Field, it: Item)
    decreases it, 3
  {
    match it
    case Raw(v) => TypedValue(f, v) && Storable(f, v)
    case Struct(rows) => SendableRows(SubTable(f), rows) && |EncRows(SubTable(f), rows).out| < TWO_32
    case Text(p) => SendableText(f, p)
  }

  /** A value of a static member: one that can be sent, or that is left out. */
  predicate SendableMember(f: Field, it: Item)
    decreases it, 4
  {
    if it.Raw? then TypedValue(f, it.v)
        && (Storable(f, it.v) || (f.htype.Optional? && f.sizeOffset == 0 && IsDefaultValue(f, it.v)))
    else SendableItem(f, it)
  }

  /** A member without presence of its own has no default of its own; a single pointer has no has_ flag; and where
      a message is compared with zero, no address is. */
  predicate SendableField(f: Field, row: Row) {
    && (f.htype.Optional? && f.sizeOffset == 0 ==> f.initial == None)
    && (f.atype.Pointer? && !f.htype.Repeated? ==> f.sizeOffset == 0)
    && (f.htype.Optional? && f.sizeOffset == 0 && row.Inline? && |row.items| == 1 ==> ComparableItem(f, row.items[0]))
  }

  predicate SendableRow(f: Field, row: Row)
    decreases row, 1
  {
    && SendableField(f, row)
    && match row
       case Inline(size, items) =>
         if f.htype.Repeated? then
           var count := if f.sizeOffset != 0 then size else f.arraySize;
           && count <= |items|
           && (forall i :: 0 <= i < |items| ==> items[i].Raw?)
           && (forall i :: 0 <= i < count ==> TypedValue(f, items[i].v))
           && StorableItems(f, ValuesOf(items[..count]))
         else if f.htype.Optional? && f.sizeOffset != 0 && size == 0 then true
         else |items| == 1 && SendableMember(f, items[0])
       case Indirect(size, Null) => !f.htype.Required?
       case Indirect(size, Block(_, items)) =>
         if f.htype.Repeated? then
           && size <= |items|
           && (forall i :: 0 <= i < size ==> SendableItem(f, items[i]))
           && (Packable(f.ltype) ==> |InOrder(ItemParts(f, ValuesOf(items[..size]))).out| < TWO_32)
         else if IsText(f) then SendableText(f, row.p)
         else |items| == 1 && SendableItem(f, items[0])
  }

  predicate SendableRows(fields: seq<Field>, rows: seq<Row>)
    decreases rows, 2
  {
    forall k :: 0 <= k < |fields| && k < |rows| ==> SendableRow(fields[k], rows[k])
  }

  /** No single pointer leads to a number, in the message and those inside its struct that have no presence of their
      own. */
  predicate ComparableItem(f: Field, it: Item)
    decreases it, 3
  {
    it.Struct? ==> ComparableRows(f.sub, it.rows)
  }

  predicate ComparableRow(f: Field, row: Row)
    decreases row, 1
  {
    && (f.atype.Pointer? && !f.htype.Repeated? ==> !Packable(f.ltype))
    && (f.htype.Optional? && f.sizeOffset == 0 && row.Inline? && |row.items| == 1 ==> ComparableItem(f, row.items[0]))
  }

  predicate ComparableRows(fields: seq<Field>, rows: seq<Row>)
    decreases rows, 2
  {
    forall k :: 0 <= k < |fields| && k < |rows| ==> ComparableRow(fields[k], rows[k])
  }
}
