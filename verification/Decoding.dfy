/** What pb_decode makes of a byte string, as a function of the table, the struct and the bytes. */
module Decoding {
  import opened Platform
  import opened Varint
  import opened ZigZag
  import opened Descriptor
  import opened FieldIter
  import opened Encoding

  // ---------------------------------------------------------------- records

  /** pb_decode_tag: a tag, the zero byte that ends a message, or an error. */
  datatype TagResult = Tag(wireType: nat, tag: nat, rest: seq<byte>) | Terminator(rest: seq<byte>) | BadTag

  function DecTag(bs: seq<byte>): (r: TagResult)
    ensures !r.BadTag? ==> |r.rest| < |bs|
    ensures r.Tag? ==> r.wireType < 8
  {
    match DecVarint32(bs)
    case Fail => BadTag
    case Ok(temp, rest) => if temp == 0 then Terminator(rest) else Tag(temp % 8, temp / 8, rest)
  }

  /** A length and that many bytes: pb_make_string_substream and pb_close_string_substream. */
  function DecDelimited(bs: seq<byte>): (r: Parsed<seq<byte>>)
    ensures r.Ok? ==> |r.rest| < |bs| && |r.value| < |bs|
  {
    match DecVarint32(bs)
    case Fail => Fail
    case Ok(size, rest) => if size > |rest| then Fail else Ok(rest[..size], rest[size..])
  }

  function Take(bs: seq<byte>, n: nat): (r: Parsed<seq<byte>>)
    ensures r.Ok? ==> |r.value| == n && |r.rest| == |bs| - n
  {
    if |bs| < n then Fail else Ok(bs[..n], bs[n..])
  }

  /** pb_skip_string: the length goes through size_t on its way to pb_read. */
  function SkipString(bs: seq<byte>): (r: Parsed<seq<byte>>)
    ensures r.Ok? ==> |r.rest| < |bs|
  {
    match DecVarint32(bs)
    case Fail => Fail
    case Ok(size, rest) => Take(rest, WrapSize(size))
  }

  /** pb_skip_field; the value is what was skipped, without its length. */
  function SkipField(wireType: nat, bs: seq<byte>): (r: Parsed<seq<byte>>)
    ensures r.Ok? ==> |r.rest| < |bs|
  {
    if wireType == WT_VARINT then
      match VarintEnd(bs)
      case None => Fail
      case Some(n) => Take(bs, n)
    else if wireType == WT_64BIT then Take(bs, 8)
    else if wireType == WT_STRING then SkipString(bs)
    else if wireType == WT_32BIT then Take(bs, 4)
    else Fail
  }

  // ---------------------------------------------------------------- items

  function FromLittleEndian(bs: seq<byte>): nat {
    if bs == [] then 0 else bs[0] + 256 * FromLittleEndian(bs[1..])
  }

  /** pb_dec_varint, pb_dec_uvarint and pb_dec_svarint after the varint: the number the field
      stores, if it can. */
  function Narrow(f: Field, u: nat): Option<int>
    requires u < TWO_64
  {
    if !KnownSize(f.dataSize) then None
    else if f.ltype.LUVarint? then (if UnsignedFits(u, f.dataSize) then Some(u) else None)
    else
      var n := if f.ltype.LSVarint? then DecodeZigZag(u)
               else if f.dataSize == 8 then ToSigned64(u) else ToSigned32(Low32(u));
      if SignedFits(n, f.dataSize) then Some(n) else None
  }

  /** The decoders of the packable types. */
  function DecScalar(f: Field, bs: seq<byte>): (r: Parsed<Value>)
    ensures r.Ok? ==> |r.rest| < |bs| && r.value.Number?
  {
    match f.ltype
    case LBool =>
      (match DecVarint32(bs) case Fail => Fail case Ok(u, rest) => Ok(Number(if u != 0 then 1 else 0), rest))
    case LVarint | LUVarint | LSVarint =>
      (match DecVarint(bs)
       case Fail => Fail
       case Ok(u, rest) => match Narrow(f, u) case None => Fail case Some(n) => Ok(Number(n), rest))
    case LFixed32 => (match Take(bs, 4) case Fail => Fail case Ok(b, rest) => Ok(Number(FromLittleEndian(b)), rest))
    case LFixed64 => (match Take(bs, 8) case Fail => Fail case Ok(b, rest) => Ok(Number(FromLittleEndian(b)), rest))
    case _ => Fail
  }

  /** pb_dec_bytes, pb_dec_string and pb_dec_fixed_length_bytes: the new storage. What lies past a
      string's terminator is shown as zero. */
  function StoreBlob(f: Field, b: seq<byte>): Option<Value> {
    match f.ltype
    case LBytes => if |b| <= PB_SIZE_MAX && BytesFit(f, |b|) then Some(Blob(b)) else None
    case LString => if |b| + 1 < TWO_32 && |b| + 1 <= f.dataSize then Some(Blob(b + Zeros(f.dataSize - |b|))) else None
    case LFixedLengthBytes =>
      if |b| > PB_SIZE_MAX then None
      else if |b| == 0 then Some(Blob(Zeros(f.dataSize)))
      else if |b| == f.dataSize then Some(Blob(b)) else None
    case _ => None
  }

  /** PB_DECODERS[PB_LTYPE(f.type)] into the storage prior. */
  function DecValue(f: Field, prior: Value, bs: seq<byte>): (r: Parsed<Value>)
    ensures r.Ok? ==> |r.rest| < |bs|
    decreases |bs|, 0
  {
    if Packable(f.ltype) then DecScalar(f, bs)
    else
      match DecDelimited(bs)
      case Fail => Fail
      case Ok(b, rest) =>
        if f.ltype.LSubmessage? then
          match DecNoInit(f.sub, Embedded(f, prior), b)
          case Fail => Fail
          case Ok(slots, _) => Ok(Message(slots), rest)
        else
          match StoreBlob(f, b)
          case None => Fail
          case Some(v) => Ok(v, rest)
  }

  /** pb_dec_submessage resets array entries first and merges into anything else. */
  function Embedded(f: Field, prior: Value): seq<Slot> {
    if f.htype.Repeated? then SetDefaults(f.sub, SlotsOf(prior)) else SlotsOf(prior)
  }

  // ---------------------------------------------------------------- fields

  /** An array being filled: its storage and how many items it has. */
  datatype Filled = Filled(items: seq<Value>, count: nat)

  /** The items of one packed record. */
  function DecPacked(f: Field, a: Filled, b: seq<byte>): Option<Filled>
    decreases |b|
  {
    if b == [] then Some(a)
    else if a.count >= f.arraySize || a.count >= |a.items| then None
    else
      match DecScalar(f, b)
      case Fail => None
      case Ok(v, rest) => DecPacked(f, Filled(a.items[a.count := v], a.count + 1), rest)
  }

  /** The REPEATED case of decode_static_field: whatever comes as a string and can be packed is. */
  function DecRepeated(f: Field, wireType: nat, a: Filled, bs: seq<byte>): (r: Parsed<Filled>)
    ensures r.Ok? ==> |r.rest| < |bs|
    decreases |bs|, 1
  {
    if wireType == WT_STRING && Packable(f.ltype) then
      match DecDelimited(bs)
      case Fail => Fail
      case Ok(b, rest) => match DecPacked(f, a, b) case None => Fail case Some(a') => Ok(a', rest)
    else if a.count >= f.arraySize || a.count >= |a.items| then Fail
    else
      match DecValue(f, a.items[a.count], bs)
      case Fail => Fail
      case Ok(v, rest) => Ok(Filled(a.items[a.count := v], a.count + 1), rest)
  }

  /** The local variables of pb_decode_noinit: the struct, the required rows that were met (by
      row), and the fixed-count array being filled. */
  datatype State = State(slots: seq<Slot>, seen: set<nat>, fixedField: Option<nat>, fixedCount: nat)

  /** decode_static_field for row k, whose storage is the slot h. */
  function DecField(f: Field, wireType: nat, h: nat, st: State, bs: seq<byte>): (r: Parsed<State>)
    requires h < |st.slots|
    ensures r.Ok? ==> |r.rest| < |bs| && |r.value.slots| == |st.slots|
    decreases |bs|, 2
  {
    var s := st.slots[h];
    match f.htype
    case Repeated =>
      var a := Filled(ItemsOf(s), if s.Arr? then s.count else st.fixedCount);
      (match DecRepeated(f, wireType, a, bs)
       case Fail => Fail
       case Ok(a', rest) =>
         if s.Arr? then Ok(st.(slots := st.slots[h := Arr(a'.count, a'.items)]), rest)
         else if s.Fixed? then Ok(st.(slots := st.slots[h := Fixed(a'.items)], fixedCount := a'.count), rest)
         else Fail)
    case _ =>
      match DecValue(f, Target(f, s), bs)
      case Fail => Fail
      case Ok(v, rest) => Ok(st.(slots := st.slots[h := Stored(f, s, v)]), rest)
  }

  /** The storage a single item is decoded into: a union member is cleared first if it is a message. */
  function Target(f: Field, s: Slot): Value {
    if f.htype.Oneof? && f.ltype.LSubmessage? then Message(SetDefaults(f.sub, ZeroSlots(f.sub))) else ValueOf(s)
  }

  function Stored(f: Field, s: Slot, v: Value): Slot {
    if f.htype.Oneof? then Union(f.tag, v) else if s.Opt? then Opt(true, v) else One(v)
  }

  // ---------------------------------------------------------------- messages

  /** The last fixed-count array is complete. */
  predicate FixedDone(fields: seq<Field>, st: State) {
    st.fixedField.Some? ==> st.fixedField.value < |fields| && st.fixedCount == fields[st.fixedField.value].arraySize
  }

  /** The required rows the decoder keeps track of have all been met. */
  predicate RequiredMet(fields: seq<Field>, seen: set<nat>) {
    forall k :: 0 <= k < |fields| && fields[k].htype.Required? && CountRequired(fields, k) < MAX_REQUIRED_FIELDS
        ==> k in seen
  }

  /** A fixed-count array has no counter in the struct; the decoder starts one, provided the
      previous such array is complete. */
  function Track(fields: seq<Field>, k: nat, st: State): Option<State>
    requires k < |fields|
  {
    if !IsFixedCount(fields[k]) || st.fixedField == Some(k) then Some(st)
    else if !FixedDone(fields, st) then None
    else Some(st.(fixedField := Some(k), fixedCount := 0))
  }

  function Mark(fields: seq<Field>, k: nat, st: State): State
    requires k < |fields|
  {
    if fields[k].htype.Required? then st.(seen := st.seen + {k}) else st
  }

  /** One turn of the loop. */
  datatype Turn = Next(st: State, rest: seq<byte>) | Stop(rest: seq<byte>) | Error

  function DecTurn(fields: seq<Field>, st: State, bs: seq<byte>): (r: Turn)
    requires |st.slots| == |fields|
    ensures r.Next? ==> |r.rest| < |bs| && |r.st.slots| == |fields|
    ensures r.Stop? ==> |r.rest| < |bs|
    decreases |bs|, 3
  {
    match DecTag(bs)
    case BadTag => Error
    case Terminator(rest) => Stop(rest)
    case Tag(wireType, tag, rest) =>
      if fields == [] && tag == 0 then DecStray(st, rest)
      else
        match FindTag(fields, tag)
        case None => (match SkipField(wireType, rest) case Fail => Error case Ok(_, rest') => Next(st, rest'))
        case Some(k) => DecRow(fields, k, wireType, st, rest)
  }

  /** A record that is for row k. */
  function DecRow(fields: seq<Field>, k: nat, wireType: nat, st: State, rest: seq<byte>): (r: Turn)
    requires |st.slots| == |fields| && k < |fields|
    ensures !r.Stop?
    ensures r.Next? ==> |r.rest| < |rest| && |r.st.slots| == |fields|
    decreases |rest|, 3
  {
    match Track(fields, k, st)
    case None => Error
    case Some(st') =>
      match DecField(fields[k], wireType, Home(fields, k), Mark(fields, k, st'), rest)
      case Fail => Error
      case Ok(st'', rest') => Next(st'', rest')
  }

  /** An empty table matches tag zero with its terminator, which reads as a required bool. */
  function DecStray(st: State, rest: seq<byte>): (r: Turn)
    ensures !r.Stop?
    ensures r.Next? ==> |r.rest| < |rest| && r.st == st
  {
    match DecVarint32(rest) case Fail => Error case Ok(_, rest') => Next(st, rest')
  }

  /** The loop: until the bytes are used up, a terminator is met, or something is wrong. */
  datatype Run = Ran(st: State, rest: seq<byte>, stopped: bool) | Broken

  function DecLoop(fields: seq<Field>, st: State, bs: seq<byte>): (r: Run)
    requires |st.slots| == |fields|
    ensures r.Ran? ==> |r.rest| <= |bs| && |r.st.slots| == |fields|
    ensures r.Ran? && !r.stopped ==> r.rest == []
    decreases |bs|, 4
  {
    if bs == [] then Ran(st, [], false)
    else
      match DecTurn(fields, st, bs)
      case Error => Broken
      case Stop(rest) => Ran(st, rest, true)
      case Next(st', rest) => DecLoop(fields, st', rest)
  }

  function Start(slots: seq<Slot>): State {
    State(slots, {}, None, 0)
  }

  /** The checks after the loop. */
  predicate Complete(fields: seq<Field>, st: State) {
    FixedDone(fields, st) && RequiredMet(fields, st.seen)
  }

  /** pb_decode_noinit. */
  function DecNoInit(fields: seq<Field>, slots: seq<Slot>, bs: seq<byte>): (r: Parsed<seq<Slot>>)
    ensures r.Ok? ==> |r.rest| <= |bs| && |r.value| == |fields|
    decreases |bs|, 5
  {
    if |slots| != |fields| then Fail
    else
      match DecLoop(fields, Start(slots), bs)
      case Broken => Fail
      case Ran(st, rest, _) => if Complete(fields, st) then Ok(st.slots, rest) else Fail
  }

  /** pb_decode. */
  function Dec(fields: seq<Field>, slots: seq<Slot>, bs: seq<byte>): Parsed<seq<Slot>> {
    DecNoInit(fields, SetDefaults(fields, slots), bs)
  }
}
