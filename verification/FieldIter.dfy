/** pb_field_iter_t: a cursor that runs around a descriptor table and recomputes, step by step,
    where in the struct the current field lives. */
module FieldIter {
  import opened Platform
  import opened Descriptor

  /** PB_LAST_FIELD, the row that ends every table. */
  const LAST_FIELD := Field(0, LBool, Required, Static, 0, 0, 0, 0, [], None, 0)

  function Row(fields: seq<Field>, k: nat): Field {
    if k < |fields| then fields[k] else LAST_FIELD
  }

  /** The terminator is the only row with tag zero. */
  predicate Terminated(fields: seq<Field>) {
    forall k :: 0 <= k < |fields| ==> fields[k].tag != 0
  }

  /** How many bytes of the struct a row takes up. */
  function MemberSize(f: Field): nat {
    if f.atype.Static? && f.htype.Repeated? then f.dataSize * f.arraySize
    else if f.atype.Pointer? then POINTER_SIZE
    else f.dataSize
  }

  /** The place of row k in the struct, from its own and its predecessors' offsets. */
  function Offset(fields: seq<Field>, k: nat): nat
    requires k < |fields|
  {
    if k == 0 then fields[0].dataOffset
    else if SharesUnion(fields, k) then Offset(fields, k - 1)
    else Offset(fields, k - 1) + MemberSize(fields[k - 1]) + fields[k].dataOffset
  }

  /** The place of its count, has_ flag or which_ tag: inside a union, that of the union. */
  function SizePlace(fields: seq<Field>, k: nat): int
    requires k < |fields|
  {
    Offset(fields, k) + fields[Home(fields, k)].sizeOffset
  }

  function CountRequired(fields: seq<Field>, k: nat): (c: nat)
    requires k <= |fields|
    ensures c <= k
  {
    if k == 0 then 0 else CountRequired(fields, k - 1) + if fields[k - 1].htype.Required? then 1 else 0
  }

  /** What pSize may point to: a place in the struct, or the decoder's local counter. */
  datatype SizePtr = At(place: int) | LocalCounter

  class Iter {
    const start: seq<Field>
    const dest: int
    var pos: nat
    var requiredIndex: nat
    var pData: int
    var pSize: SizePtr

    /** The incrementally computed fields are those of the row the cursor stands on. */
    ghost predicate Valid()
      reads this
    {
      && Terminated(start)
      && (start == [] ==> pos == 0 && requiredIndex == 0)
      && (start != [] ==>
        && pos < |start|
        && pData == dest + Offset(start, pos)
        && requiredIndex == CountRequired(start, pos)
        && (pSize == At(dest + SizePlace(start, pos)) || (pSize == LocalCounter && IsFixedCount(start[pos]))))
    }

    /** pb_field_iter_begin. */
    constructor (fields: seq<Field>, dest: int)
      requires Terminated(fields)
      ensures Valid() && start == fields && this.dest == dest && pos == 0
      ensures pSize != LocalCounter
    {
      this.start := fields;
      this.dest := dest;
      pos, requiredIndex := 0, 0;
      pData := dest + Row(fields, 0).dataOffset;
      pSize := At(dest + Row(fields, 0).dataOffset + Row(fields, 0).sizeOffset);
    }

    method Begin() returns (some: bool)
      requires Terminated(start)
      modifies this
      ensures Valid() && pos == 0 && pSize != LocalCounter
      ensures some <==> start != []
    {
      pos := 0;
      requiredIndex := 0;
      pData := dest + Row(start, pos).dataOffset;
      pSize := At(pData + Row(start, pos).sizeOffset);
      some := Row(start, pos).tag != 0;
    }

    /** pb_field_iter_next: one row on, or around to the first. */
    method Next() returns (more: bool)
      requires Valid()
      modifies this
      ensures Valid()
      ensures more <==> old(pos) + 1 < |start|
      ensures pos == if more then old(pos) + 1 else 0
      ensures start != [] ==> pSize != LocalCounter && pos < |start|
    {
      var prev := Row(start, pos);
      if prev.tag == 0 {
        return false;
      }
      pos := pos + 1;
      if Row(start, pos).tag == 0 {
        var _ := Begin();
        return false;
      }
      var field := Row(start, pos);
      var prevSize := prev.dataSize;
      if prev.htype.Oneof? && field.htype.Oneof? && field.dataOffset == PB_SIZE_MAX {
        return true;
      } else if prev.atype.Static? && prev.htype.Repeated? {
        prevSize := prevSize * prev.arraySize;
      } else if prev.atype.Pointer? {
        prevSize := POINTER_SIZE;
      }
      if prev.htype.Required? {
        requiredIndex := requiredIndex + 1;
      }
      pData := pData + prevSize + field.dataOffset;
      pSize := At(pData + field.sizeOffset);
      more := true;
    }

    /** pb_field_iter_find: at most one lap, from wherever the cursor stands. */
    method Find(tag: nat) returns (found: bool, ghost steps: nat)
      requires Valid()
      modifies this
      ensures Valid()
      ensures found <==> if start == [] then tag == 0 else FindTag(start, tag).Some?
      ensures found && start != [] ==> Matches(start[pos], tag)
      ensures !found ==> pos == old(pos)
      ensures pSize == LocalCounter ==> start == [] || (found && pos == old(pos) && old(pSize) == LocalCounter)
      ensures steps <= |start| || start == []
    {
      var first := pos;
      ghost var wrapped := false;
      steps := 0;
      while true
        invariant Valid()
        invariant !wrapped ==> first <= pos && steps == pos - first
        invariant wrapped ==> pos < first && steps == |start| - first + pos
        invariant forall k :: (if wrapped then k < pos || first <= k else first <= k < pos) && 0 <= k < |start|
                    ==> !Matches(start[k], tag)
        invariant start == [] ==> !wrapped && pos == first
        invariant pSize == LocalCounter ==> start == [] || (steps == 0 && pos == first && old(pSize) == LocalCounter)
        decreases if wrapped then 0 else 1, |start| - pos
      {
        if Row(start, pos).tag == tag && !Row(start, pos).ltype.LExtension? {
          return true, steps;
        }
        var more := Next();
        steps := steps + 1;
        if pos == first {
          break;
        }
        if !more {
          wrapped := true;
        }
      }
      found := false;
    }

    /** find_extension_field: the same walk, for the extension placeholder. */
    method FindExtension() returns (found: bool)
      requires Valid()
      modifies this
      ensures Valid()
      ensures found <==> exists k :: 0 <= k < |start| && start[k].ltype.LExtension?
      ensures found ==> pos < |start| && start[pos].ltype.LExtension?
      ensures !found ==> pos == old(pos) && (pSize == LocalCounter ==> start == [])
    {
      var first := pos;
      ghost var wrapped := false;
      while true
        invariant Valid()
        invariant if wrapped then pos < first else first <= pos
        invariant forall k :: (if wrapped then k < pos || first <= k else first <= k < pos) && 0 <= k < |start|
                    ==> !start[k].ltype.LExtension?
        invariant start == [] ==> !wrapped && pos == first
        decreases if wrapped then 0 else 1, |start| - pos
      {
        if Row(start, pos).ltype.LExtension? {
          return true;
        }
        var more := Next();
        if pos == first {
          break;
        }
        if !more {
          wrapped := true;
        }
      }
      found := false;
    }
  }

  // ---------------------------------------------------------------- the layout behind the table

  /** A member of the C struct: its offset, its size, and the offset of its count, has_ flag or
      which_ tag (its own offset when it has none). */
  datatype Member = Member(offset: nat, size: nat, sizeOffset: nat)

  /** Row k was generated from these members by the PB_DATAOFFSET_* and pb_delta macros. */
  ghost predicate GeneratedRow(fields: seq<Field>, members: seq<Member>, k: nat)
    requires k < |fields| == |members|
  {
    && members[k].size == MemberSize(fields[k])
    && fields[k].sizeOffset == members[k].sizeOffset - members[k].offset
    && if k == 0 then fields[k].dataOffset == members[k].offset
       else if SharesUnion(fields, k) then
         members[k].offset == members[k - 1].offset && members[k].sizeOffset == members[k - 1].sizeOffset
       else fields[k].dataOffset == members[k].offset - members[k - 1].offset - members[k - 1].size
  }

  ghost predicate GeneratedFrom(fields: seq<Field>, members: seq<Member>) {
    |members| == |fields| && forall k :: 0 <= k < |fields| ==> GeneratedRow(fields, members, k)
  }

  /** The recurrence finds every member of the struct the table was generated from. */
  lemma {:induction false} OffsetIsOffsetof(fields: seq<Field>, members: seq<Member>, k: nat)
    requires GeneratedFrom(fields, members) && k < |fields|
    ensures Offset(fields, k) == members[k].offset
    ensures SizePlace(fields, k) == members[k].sizeOffset
  {
    assert GeneratedRow(fields, members, k);
    if k > 0 {
      OffsetIsOffsetof(fields, members, k - 1);
      assert GeneratedRow(fields, members, k - 1);
    }
  }
}
