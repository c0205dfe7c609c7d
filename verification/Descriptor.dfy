/** Field descriptor tables and the message structs they describe.

    A struct is a sequence of slots, one for each row of its table. The members of a union share
    storage, so only the first of them has a slot of its own; the others own a Hole. */
module Descriptor {
  import opened Platform

  /** PB_LTYPE_*, in the order of their numbers. */
  datatype LType =
    | LBool | LVarint | LUVarint | LSVarint | LFixed32 | LFixed64
    | LBytes | LString | LSubmessage | LExtension | LFixedLengthBytes

  /** PB_HTYPE_* and PB_ATYPE_*. */
  datatype HType = Required | Optional | Repeated | Oneof
  datatype AType = Static | Pointer | Callback

  /** pb_field_t. Its ptr is initial, the default value, or for a submessage the table of that message:
      sub for a message inside the struct, where nesting ends some time; behind a pointer, where it need not,
      the number of a table of the program. */
  datatype Field = Field(tag: nat, ltype: LType, htype: HType, atype: AType,
                         dataOffset: nat, sizeOffset: int, dataSize: nat, arraySize: nat,
                         sub: seq<Field>, initial: Option<Value>, link: nat)

  /** The storage of one item: the number a scalar holds, the bytes of a blob (all of a string's
      buffer, what lies after its terminator included), or an embedded struct. */
  datatype Value = Number(n: int) | Blob(bs: seq<byte>) | Message(slots: seq<Slot>)

  /** The storage behind one row: a bare member; a member with its has_ flag; an array with its
      _count; an array without one; a union with its which_ tag. */
  datatype Slot =
    | One(v: Value)
    | Opt(has: bool, v: Value)
    | Arr(count: nat, items: seq<Value>)
    | Fixed(items: seq<Value>)
    | Union(which: nat, v: Value)
    | Hole

  predicate Packable(l: LType) {
    l.LBool? || l.LVarint? || l.LUVarint? || l.LSVarint? || l.LFixed32? || l.LFixed64?
  }

  predicate IsFixedCount(f: Field) {
    f.htype.Repeated? && f.sizeOffset == 0
  }

  // ---------------------------------------------------------------- looking fields up

  predicate Matches(f: Field, tag: nat) {
    f.tag == tag && !f.ltype.LExtension?
  }

  /** The first row from k on that carries the tag and is no extension placeholder. */
  function FindFrom(fields: seq<Field>, tag: nat, k: nat): (r: Option<nat>)
    requires k <= |fields|
    ensures r.Some? ==> k <= r.value < |fields| && Matches(fields[r.value], tag)
    ensures forall j :: k <= j < (if r.Some? then r.value else |fields|) ==> !Matches(fields[j], tag)
    decreases |fields| - k
  {
    if k == |fields| then None
    else if Matches(fields[k], tag) then Some(k)
    else FindFrom(fields, tag, k + 1)
  }

  function FindTag(fields: seq<Field>, tag: nat): (r: Option<nat>)
    ensures r.Some? ==> r.value < |fields| && Matches(fields[r.value], tag)
  {
    FindFrom(fields, tag, 0)
  }

  predicate DistinctTags(fields: seq<Field>) {
    forall i, j :: 0 <= i < j < |fields| ==> fields[i].tag != fields[j].tag
  }

  /** Row k lies in the same union as row k-1: PB_DATAOFFSET_UNION marks it. */
  predicate SharesUnion(fields: seq<Field>, k: nat)
    requires k < |fields|
  {
    k > 0 && fields[k - 1].htype.Oneof? && fields[k].htype.Oneof? && fields[k].dataOffset == PB_SIZE_MAX
  }

  /** The row whose slot holds the storage of row k. */
  function Home(fields: seq<Field>, k: nat): (h: nat)
    requires k < |fields|
    ensures h <= k && !SharesUnion(fields, h)
    ensures fields[k].htype.Oneof? <==> fields[h].htype.Oneof?
    ensures !fields[k].htype.Oneof? ==> h == k
  {
    if SharesUnion(fields, k) then Home(fields, k - 1) else k
  }

  lemma HomeOfHome(fields: seq<Field>, k: nat)
    requires k < |fields|
    ensures Home(fields, Home(fields, k)) == Home(fields, k)
  {
  }

  /** The rows of a union are those that follow one another and are marked; the next unmarked row begins another. */
  lemma {:induction false} UnionRun(fields: seq<Field>, j: nat, k: nat)
    requires j <= k < |fields| && forall i :: j <= i <= k ==> fields[i].htype.Oneof?
    requires forall i :: j < i <= k ==> fields[i].dataOffset == PB_SIZE_MAX
    ensures Home(fields, k) == Home(fields, j)
    ensures fields[j].dataOffset != PB_SIZE_MAX ==> Home(fields, k) == j
  {
    if j < k {
      UnionRun(fields, j, k - 1);
    }
  }

  // ---------------------------------------------------------------- storage

  function Zeros(n: nat): (bs: seq<byte>)
    ensures |bs| == n
  {
    seq(n, _ => 0)
  }

  function SlotAt(slots: seq<Slot>, k: nat): Slot {
    if k < |slots| then slots[k] else Hole
  }

  function SlotsOf(v: Value): seq<Slot> {
    if v.Message? then v.slots else []
  }

  function ItemsOf(s: Slot): seq<Value> {
    match s case Arr(_, items) => items case Fixed(items) => items case _ => []
  }

  function ValueOf(s: Slot): Value {
    match s case One(v) => v case Opt(_, v) => v case Union(_, v) => v case _ => Number(0)
  }

  /** memset(item, 0, data_size). */
  function ZeroValue(f: Field): Value
    decreases f, 0
  {
    match f.ltype
    case LString | LFixedLengthBytes => Blob(Zeros(f.dataSize))
    case LBytes => Blob([])
    case LSubmessage => Message(ZeroSlots(f.sub))
    case _ => Number(0)
  }

  function ZeroSlots(fields: seq<Field>): seq<Slot>
    decreases fields, 2
  {
    seq(|fields|, k requires 0 <= k < |fields| => ZeroSlot(fields[k], Home(fields, k) != k))
  }

  function ZeroSlot(f: Field, hole: bool): Slot
    decreases f, 1
  {
    if hole then Hole
    else match f.htype
      case Required => One(ZeroValue(f))
      case Optional => if f.sizeOffset == 0 then One(ZeroValue(f)) else Opt(false, ZeroValue(f))
      case Repeated =>
        var items := seq(f.arraySize, _ => ZeroValue(f));
        if f.sizeOffset == 0 then Fixed(items) else Arr(0, items)
      case Oneof => Union(0, Number(0))
  }

  /** pb_message_set_to_defaults. */
  function SetDefaults(fields: seq<Field>, slots: seq<Slot>): (r: seq<Slot>)
    ensures |r| == |fields|
    decreases fields, 2
  {
    seq(|fields|, k requires 0 <= k < |fields| => DefaultSlot(fields[k], Home(fields, k) != k, SlotAt(slots, k)))
  }

  /** pb_field_set_to_default: arrays and unions only have their count and tag reset. */
  function DefaultSlot(f: Field, hole: bool, prior: Slot): Slot
    decreases f, 1
  {
    if hole then Hole
    else match f.htype
      case Required => One(DefaultValue(f, ValueOf(prior)))
      case Optional =>
        if f.sizeOffset == 0 then One(DefaultValue(f, ValueOf(prior))) else Opt(false, DefaultValue(f, ValueOf(prior)))
      case Repeated => if f.sizeOffset == 0 then Fixed(ItemsOf(prior)) else Arr(0, ItemsOf(prior))
      case Oneof => Union(0, ValueOf(prior))
  }

  function DefaultValue(f: Field, prior: Value): Value
    decreases f, 0
  {
    if f.ltype.LSubmessage? then Message(SetDefaults(f.sub, SlotsOf(prior)))
    else if f.initial.Some? then f.initial.value
    else ZeroValue(f)
  }

  // ---------------------------------------------------------------- well-formed tables, typed structs

  predicate SignedFits(n: int, size: nat) {
    match size
    case 1 => -0x80 <= n < 0x80
    case 2 => -0x8000 <= n < 0x8000
    case 4 => -0x8000_0000 <= n < 0x8000_0000
    case _ => -0x8000_0000_0000_0000 <= n < 0x8000_0000_0000_0000
  }

  predicate UnsignedFits(n: int, size: nat) {
    match size
    case 1 => 0 <= n < 0x100
    case 2 => 0 <= n < 0x1_0000
    case 4 => 0 <= n < 0x1_0000_0000
    case _ => 0 <= n < 0x1_0000_0000_0000_0000
  }

  /** The storage sizes the scalar codecs know. */
  predicate GoodSize(l: LType, size: nat) {
    match l
    case LVarint | LUVarint | LSVarint => size == 1 || size == 2 || size == 4 || size == 8
    case LFixed32 => size == 4
    case LFixed64 => size == 8
    case LBool => size == 1
    case _ => true
  }

  predicate TypedValue(f: Field, v: Value)
    decreases f, 0
  {
    match f.ltype
    case LBool => v.Number? && 0 <= v.n < 256
    case LVarint | LSVarint => v.Number? && SignedFits(v.n, f.dataSize)
    case LUVarint => v.Number? && UnsignedFits(v.n, f.dataSize)
    case LFixed32 => v.Number? && 0 <= v.n < TWO_32
    case LFixed64 => v.Number? && 0 <= v.n < TWO_64
    case LBytes => v.Blob? && |v.bs| <= PB_SIZE_MAX
    case LString | LFixedLengthBytes => v.Blob? && |v.bs| == f.dataSize <= PB_SIZE_MAX
    case LSubmessage => v.Message? && TypedMessage(f.sub, v.slots)
    case LExtension => false
  }

  /** The storage s of row k has the type its table gives it. */
  predicate TypedSlot(fields: seq<Field>, k: nat, s: Slot)
    requires k < |fields|
    decreases fields, 1
  {
    var f := fields[k];
    if Home(fields, k) != k then s.Hole?
    else match f.htype
      case Required => s.One? && TypedValue(f, s.v)
      case Optional => (if f.sizeOffset == 0 then s.One? else s.Opt?) && TypedValue(f, s.v)
      case Repeated =>
        && (if f.sizeOffset == 0 then s.Fixed? else s.Arr?)
        && |s.items| == f.arraySize
        && forall i :: 0 <= i < |s.items| ==> TypedValue(f, s.items[i])
      case Oneof =>
        && s.Union?
        && forall j :: 0 <= j < |fields| && Home(fields, j) == k && fields[j].tag == s.which
            ==> TypedValue(fields[j], s.v)
  }

  predicate TypedMessage(fields: seq<Field>, slots: seq<Slot>)
    decreases fields, 2
  {
    && |slots| == |fields|
    && forall k :: 0 <= k < |fields| ==> TypedSlot(fields, k, slots[k])
  }

  /** A row of static storage as the generator writes it. */
  predicate WellFormedField(f: Field)
    decreases f
  {
    && 1 <= f.tag < 0x2000_0000
    && f.atype.Static?
    && !f.ltype.LExtension?
    && f.dataSize <= PB_SIZE_MAX && f.arraySize <= PB_SIZE_MAX
    && GoodSize(f.ltype, f.dataSize)
    && (f.htype.Oneof? ==> f.sizeOffset != 0)
    && (f.ltype.LSubmessage? ==> WellFormed(f.sub) && f.initial == None)
    && (f.htype.Optional? && f.sizeOffset == 0 ==> f.initial == None)
    && (f.initial.Some? ==> TypedValue(f, f.initial.value))
  }

  predicate WellFormed(fields: seq<Field>)
    decreases fields
  {
    && DistinctTags(fields)
    && forall k :: 0 <= k < |fields| ==> WellFormedField(fields[k])
  }

  // ---------------------------------------------------------------- what a program can see

  /** The bytes of a string buffer before its first NUL. */
  function UpToNul(bs: seq<byte>): (r: seq<byte>)
    ensures |r| <= |bs| && r == bs[..|r|] && 0 !in r
    ensures |r| < |bs| ==> bs[|r|] == 0
  {
    if bs == [] || bs[0] == 0 then [] else [bs[0]] + UpToNul(bs[1..])
  }

  /** A value without the storage no reader may look at. */
  function SeenValue(f: Field, v: Value): Value
    decreases f, 0
  {
    match f.ltype
    case LBool => if v.Number? then Number(if v.n == 0 then 0 else 1) else v
    case LString => if v.Blob? then Blob(UpToNul(v.bs)) else v
    case LSubmessage => if v.Message? then Message(SeenMessage(f.sub, v.slots)) else v
    case _ => v
  }

  /** The same for a row: no value without its has_ flag, no array slot past the count, no
      inactive union member. */
  function SeenSlot(fields: seq<Field>, k: nat, s: Slot): Slot
    requires k < |fields|
    decreases fields, 1
  {
    match s
    case One(v) => One(SeenValue(fields[k], v))
    case Opt(has, v) => Opt(has, if has then SeenValue(fields[k], v) else Number(0))
    case Arr(count, items) => Arr(count, SeenItems(fields[k], if count <= |items| then items[..count] else items))
    case Fixed(items) => Fixed(SeenItems(fields[k], items))
    case Union(which, v) =>
      var j := FindTag(fields, which);
      Union(which, if j.Some? && Home(fields, j.value) == k then SeenValue(fields[j.value], v) else Number(0))
    case Hole => Hole
  }

  function SeenItems(f: Field, items: seq<Value>): (r: seq<Value>)
    ensures |r| == |items|
    decreases f, 1
  {
    seq(|items|, i requires 0 <= i < |items| => SeenValue(f, items[i]))
  }

  function SeenMessage(fields: seq<Field>, slots: seq<Slot>): seq<Slot>
    decreases fields, 2
  {
    seq(|fields|, k requires 0 <= k < |fields| => SeenSlot(fields, k, SlotAt(slots, k)))
  }

  // ---------------------------------------------------------------- facts about tables

  /** With distinct tags the lookup finds the row that has the tag. */
  lemma FindTagUnique(fields: seq<Field>, k: nat)
    requires k < |fields| && DistinctTags(fields) && !fields[k].ltype.LExtension?
    ensures FindTag(fields, fields[k].tag) == Some(k)
  {
    var r := FindTag(fields, fields[k].tag);
    if r.None? || r.value > k {
      assert Matches(fields[k], fields[k].tag);
    }
  }

  lemma {:induction false} DefaultValueIdempotent(f: Field, v: Value)
    ensures DefaultValue(f, DefaultValue(f, v)) == DefaultValue(f, v)
    decreases f, 0
  {
    if f.ltype.LSubmessage? {
      DefaultsIdempotent(f.sub, SlotsOf(v));
    }
  }

  lemma {:induction false} DefaultSlotIdempotent(f: Field, hole: bool, s: Slot)
    ensures DefaultSlot(f, hole, DefaultSlot(f, hole, s)) == DefaultSlot(f, hole, s)
    decreases f, 1
  {
    DefaultValueIdempotent(f, ValueOf(s));
  }

  /** Resetting twice resets once. */
  lemma {:induction false} DefaultsIdempotent(fields: seq<Field>, slots: seq<Slot>)
    ensures SetDefaults(fields, SetDefaults(fields, slots)) == SetDefaults(fields, slots)
    decreases fields, 2
  {
    hide DefaultSlot;
    var d := SetDefaults(fields, slots);
    forall k | 0 <= k < |fields|
      ensures SetDefaults(fields, d)[k] == d[k]
    {
      DefaultSlotIdempotent(fields[k], Home(fields, k) != k, SlotAt(slots, k));
    }
  }
}
