/** What pb_encode emits for a message, as bytes. */
module Encoding {
  import opened Platform
  import opened Bits
  import opened Varint
  import opened ZigZag
  import opened Descriptor

  /** The outcome of an encoder on a stream that never fills up: whether it succeeds, and what it
      has emitted by the time it returns. */
  datatype Enc = Enc(ok: bool, out: seq<byte>)

  const Nothing := Enc(true, [])
  const Rejected := Enc(false, [])

  /** One encoder after another: the second runs when the first succeeded. */
  function Then(a: Enc, b: Enc): Enc {
    if a.ok then Enc(b.ok, a.out + b.out) else a
  }

  /** A series of encoders, each run if all before it succeeded. */
  function InOrder(parts: seq<Enc>): Enc {
    if parts == [] then Nothing else Then(InOrder(parts[..|parts| - 1]), parts[|parts| - 1])
  }

  /** PB_WT_VARINT, PB_WT_64BIT, PB_WT_STRING, PB_WT_32BIT. */
  const WT_VARINT := 0
  const WT_64BIT := 1
  const WT_STRING := 2
  const WT_32BIT := 5

  /** The switch of pb_encode_tag_for_field; extensions have no wire type. */
  function WireType(l: LType): (w: nat)
    ensures w < 8
  {
    match l
    case LBool | LVarint | LUVarint | LSVarint => WT_VARINT
    case LFixed32 => WT_32BIT
    case LFixed64 => WT_64BIT
    case _ => WT_STRING
  }

  function TagBytes(wireType: nat, tag: nat): seq<byte> {
    VarintBytes(8 * tag + wireType)
  }

  function TagOf(f: Field): Enc {
    if f.ltype.LExtension? then Rejected else Enc(true, TagBytes(WireType(f.ltype), f.tag))
  }

  function LittleEndian(n: nat, size: nat): (bs: seq<byte>)
    ensures |bs| == size
  {
    if size == 0 then [] else [n % 256] + LittleEndian(n / 256, size - 1)
  }

  /** pb_encode_string. */
  function StringBytes(bs: seq<byte>): seq<byte> {
    VarintBytes(|bs|) + bs
  }

  predicate KnownSize(size: nat) {
    size == 1 || size == 2 || size == 4 || size == 8
  }

  /** PB_BYTES_ARRAY_T_ALLOCSIZE, in size_t. */
  function BytesAllocSize(n: nat): nat {
    WrapSize(n + BYTES_OFFSET)
  }

  predicate BytesFit(f: Field, n: nat) {
    n <= BytesAllocSize(n) <= f.dataSize
  }

  /** The PB_ENCODERS table. */
  function EncValue(f: Field, v: Value): Enc
    decreases f, 0
  {
    match f.ltype
    case LBool => if v.Number? then Enc(true, VarintBytes(if v.n != 0 then 1 else 0)) else Rejected
    case LVarint | LUVarint =>
      if v.Number? && KnownSize(f.dataSize) then Enc(true, VarintBytes(v.n % TWO_64)) else Rejected
    case LSVarint => if v.Number? && KnownSize(f.dataSize) then Enc(true, VarintBytes(Interleave(v.n))) else Rejected
    case LFixed32 => if v.Number? && v.n >= 0 then Enc(true, LittleEndian(v.n, 4)) else Rejected
    case LFixed64 => if v.Number? && v.n >= 0 then Enc(true, LittleEndian(v.n, 8)) else Rejected
    case LBytes => if v.Blob? && BytesFit(f, |v.bs|) then Enc(true, StringBytes(v.bs)) else Rejected
    case LString => if v.Blob? then Enc(true, StringBytes(UpToNul(v.bs))) else Rejected
    case LFixedLengthBytes => if v.Blob? then Enc(true, StringBytes(v.bs)) else Rejected
    case LSubmessage =>
      if v.Message? then Delimited(EncMessage(f.sub, v.slots)) else Rejected
    case LExtension => Rejected
  }

  /** pb_encode_submessage and packed arrays: sized first, so a failing body leaves no trace. */
  function Delimited(body: Enc): Enc {
    if body.ok then Enc(true, StringBytes(body.out)) else Rejected
  }

  function EncRecord(f: Field, v: Value): Enc
    decreases f, 1
  {
    Then(TagOf(f), EncValue(f, v))
  }

  /** Items one after another, without tags and with a tag each. */
  function ItemParts(f: Field, items: seq<Value>): seq<Enc>
    decreases f, 1
  {
    seq(|items|, i requires 0 <= i < |items| => EncValue(f, items[i]))
  }

  function RecordParts(f: Field, items: seq<Value>): seq<Enc>
    decreases f, 2
  {
    seq(|items|, i requires 0 <= i < |items| => EncRecord(f, items[i]))
  }

  /** encode_array on static storage: packed whenever the type allows it. */
  function EncArray(f: Field, items: seq<Value>, count: nat): Enc
    decreases f, 3
  {
    if count == 0 then Nothing
    else if count > f.arraySize || count > |items| then Rejected
    else if Packable(f.ltype) then
      Then(Enc(true, TagBytes(WT_STRING, f.tag)), Delimited(InOrder(ItemParts(f, items[..count]))))
    else InOrder(RecordParts(f, items[..count]))
  }

  /** encode_basic_field on the storage s of the row's home. */
  function EncSlot(f: Field, s: Slot): Enc
    decreases f, 4
  {
    match f.htype
    case Required => if s.One? then EncRecord(f, s.v) else Rejected
    case Optional =>
      if s.Opt? then (if s.has then EncRecord(f, s.v) else Nothing)
      else if s.One? then (if IsDefaultValue(f, s.v) then Nothing else EncRecord(f, s.v))
      else Rejected
    case Repeated =>
      if s.Arr? then EncArray(f, s.items, s.count)
      else if s.Fixed? then EncArray(f, s.items, f.arraySize)
      else Rejected
    case Oneof => if s.Union? then (if s.which == f.tag then EncRecord(f, s.v) else Nothing) else Rejected
  }

  /** The bytes of a number of that storage size, negative ones in two's complement. */
  function StorageBytes(n: int, size: nat): (bs: seq<byte>)
    ensures |bs| == size
  {
    LittleEndian(n % Pow2(8 * size), size)
  }

  predicate AllZero(bs: seq<byte>) {
    forall i :: 0 <= i < |bs| ==> bs[i] == 0
  }

  /** pb_check_proto3_default_value for a member without presence of its own. */
  predicate IsDefaultValue(f: Field, v: Value)
    decreases f, 0
  {
    match f.ltype
    case LBytes => v == Blob([])
    case LString => v.Blob? && UpToNul(v.bs) == []
    case LFixedLengthBytes => f.dataSize == 0
    case LSubmessage => v.Message? && IsDefaultMessage(f.sub, v.slots)
    case _ => v.Number? && AllZero(StorageBytes(v.n, f.dataSize))
  }

  predicate IsDefaultSlot(f: Field, s: Slot)
    decreases f, 1
  {
    match s
    case One(v) => f.htype.Optional? && IsDefaultValue(f, v)
    case Opt(has, _) => !has
    case Arr(count, _) => count == 0
    case Fixed(_) => false
    case Union(which, _) => which == 0
    case Hole => false
  }

  predicate IsDefaultMessage(fields: seq<Field>, slots: seq<Slot>)
    decreases fields
  {
    forall k :: 0 <= k < |fields| ==> IsDefaultSlot(fields[k], SlotAt(slots, Home(fields, k)))
  }

  /** What encode_field emits row by row. */
  function FieldParts(fields: seq<Field>, slots: seq<Slot>): seq<Enc>
    decreases fields, 0
  {
    seq(|fields|, k requires 0 <= k < |fields| => EncSlot(fields[k], SlotAt(slots, Home(fields, k))))
  }

  /** pb_encode. */
  function EncMessage(fields: seq<Field>, slots: seq<Slot>): Enc
    decreases fields, 1
  {
    InOrder(FieldParts(fields, slots))
  }

  // ---------------------------------------------------------------- series

  /** e is how e' begins; a failure is final. */
  predicate Begins(e: Enc, e': Enc) {
    e.out <= e'.out && (!e.ok ==> e' == e)
  }

  lemma InOrderStep(parts: seq<Enc>, i: nat)
    requires i < |parts|
    ensures InOrder(parts[..i + 1]) == Then(InOrder(parts[..i]), parts[i])
  {
    assert parts[..i + 1][..i] == parts[..i];
  }

  lemma {:induction false} InOrderBegins(parts: seq<Enc>, i: nat)
    requires i <= |parts|
    ensures Begins(InOrder(parts[..i]), InOrder(parts))
    decreases |parts| - i
  {
    if i == |parts| {
      assert parts[..i] == parts;
    } else {
      InOrderStep(parts, i);
      InOrderBegins(parts, i + 1);
    }
  }

  lemma {:induction false} InOrderFront(p: Enc, parts: seq<Enc>)
    ensures InOrder([p] + parts) == Then(p, InOrder(parts))
  {
    if parts == [] {
      assert [p] + parts == [p] && [p][..0] == [];
      assert [] + p.out == p.out && p.out + [] == p.out;
    } else {
      var n := |parts| - 1;
      assert ([p] + parts)[..n + 1] == [p] + parts[..n];
      InOrderFront(p, parts[..n]);
      assert p.out + InOrder(parts[..n]).out + parts[n].out == p.out + (InOrder(parts[..n]).out + parts[n].out);
    }
  }
}
