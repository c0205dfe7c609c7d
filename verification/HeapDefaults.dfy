/** pb_message_set_to_defaults and initialize_pointer_field: fresh structs that own nothing. */
module HeapDefaults {
  import opened Descriptor
  import opened Heap
  import opened Releasing

  /** Memory laid out for the table; pointers in it may be anything. */
  predicate ShapedItem(f: Field, it: Item)
    decreases it
  {
    if f.ltype.LSubmessage? then it.Struct? && Shaped(f.sub, it.rows)
    else it.Raw?
  }

  predicate ShapedRow(f: Field, row: Row)
    decreases row
  {
    if f.atype.Pointer? then row.Indirect?
    else
      && row.Inline?
      && |row.items| == (if f.htype.Repeated? then f.arraySize else 1)
      && forall i :: 0 <= i < |row.items| ==> ShapedItem(f, row.items[i])
  }

  predicate Shaped(fields: seq<Field>, rows: seq<Row>)
    decreases rows
  {
    |rows| == |fields| && forall k :: 0 <= k < |fields| ==> ShapedRow(fields[k], rows[k])
  }

  /** pb_message_set_to_defaults: pointers are overwritten with NULL, whatever they pointed to. */
  function Defaults(fields: seq<Field>, rows: seq<Row>): (r: seq<Row>)
    ensures |r| == |rows|
    decreases rows, 2
  {
    seq(|rows|, k requires 0 <= k < |rows| => if k < |fields| then DefaultRow(fields[k], rows[k]) else rows[k])
  }

  function DefaultRow(f: Field, row: Row): Row
    decreases row, 1
  {
    match row
    case Indirect(size, _) => Indirect(if f.htype.Repeated? then 0 else size, Null)
    case Inline(size, items) =>
      if f.htype.Repeated? then Inline(if f.sizeOffset == 0 then size else 0, items)
      else Inline(0, seq(|items|, i requires 0 <= i < |items| => DefaultItem(f, items[i])))
  }

  function DefaultItem(f: Field, it: Item): Item
    decreases it, 3
  {
    if it.Struct? then Struct(Defaults(f.sub, it.rows))
    else if f.initial.Some? then Raw(f.initial.value)
    else Raw(ZeroValue(f))
  }

  lemma {:induction false} DefaultsSound(fields: seq<Field>, rows: seq<Row>)
    requires Allocatable(fields) && Shaped(fields, rows)
    ensures Sound(fields, Defaults(fields, rows)) && Owned(Defaults(fields, rows)) == multiset{}
    decreases rows, 2
  {
    hide SoundRow, DefaultRow, OwnedByRow, AllocatableField, DistinctTags, ShapedRow;
    var r := Defaults(fields, rows);
    forall k | 0 <= k < |rows| ensures SoundRow(fields[k], r[k]) && OwnedByRow(r[k]) == multiset{} {
      DefaultRowSound(fields[k], rows[k]);
    }
    NothingOwned(r);
  }

  lemma {:induction false} DefaultRowSound(f: Field, row: Row)
    requires AllocatableField(f) && ShapedRow(f, row)
    ensures SoundRow(f, DefaultRow(f, row)) && OwnedByRow(DefaultRow(f, row)) == multiset{}
    decreases row, 1
  {
    hide Sound, Defaults, Allocatable, Shaped;
    if row.Inline? {
      var r := DefaultRow(f, row);
      forall i | 0 <= i < |r.items| ensures SoundItem(f, r.items[i]) && OwnedByItem(r.items[i]) == multiset{} {
        assert ShapedItem(f, row.items[i]);
        assert !f.htype.Repeated? ==> r.items[i] == DefaultItem(f, row.items[i]);
        if f.ltype.LSubmessage? {
          DefaultsSound(f.sub, row.items[i].rows);
        }
      }
      ItemsOwnNothing(r.items);
    }
  }

  /** memset(item, 0, data_size). */
  function Cleared(fields: seq<Field>): (r: seq<Row>)
    ensures |r| == |fields|
    decreases fields, 2
  {
    seq(|fields|, k requires 0 <= k < |fields| => ClearedRow(fields[k]))
  }

  function ClearedRow(f: Field): Row
    decreases f, 1
  {
    if f.atype.Pointer? then Indirect(0, Null)
    else Inline(0, seq(if f.htype.Repeated? then f.arraySize else 1, _ => ClearedItem(f)))
  }

  function ClearedItem(f: Field): Item
    decreases f, 0
  {
    if f.ltype.LSubmessage? then Struct(Cleared(f.sub)) else Raw(ZeroValue(f))
  }

  lemma {:induction false} ClearedShaped(fields: seq<Field>)
    ensures Shaped(fields, Cleared(fields))
    decreases fields, 2
  {
    hide ShapedRow, ClearedRow;
    forall k | 0 <= k < |fields| ensures ShapedRow(fields[k], ClearedRow(fields[k])) {
      var f := fields[k];
      if f.ltype.LSubmessage? {
        ClearedShaped(f.sub);
      }
      ClearedRowShaped(f);
    }
  }

  lemma ClearedRowShaped(f: Field)
    requires f.ltype.LSubmessage? ==> Shaped(f.sub, Cleared(f.sub))
    ensures ShapedRow(f, ClearedRow(f))
  {
    hide Shaped, Cleared;
  }

  lemma {:induction false} SoundIsShaped(fields: seq<Field>, rows: seq<Row>)
    requires Allocatable(fields) && Sound(fields, rows)
    ensures Shaped(fields, rows)
    decreases rows
  {
    hide AllocatableField, SoundRow, ShapedRow, DistinctTags;
    forall k | 0 <= k < |fields| ensures ShapedRow(fields[k], rows[k]) {
      SoundRowIsShaped(fields[k], rows[k]);
    }
  }

  lemma {:induction false} SoundRowIsShaped(f: Field, row: Row)
    requires AllocatableField(f) && SoundRow(f, row)
    ensures ShapedRow(f, row)
    decreases row
  {
    hide Sound, Shaped, Allocatable;
    if row.Inline? {
      forall i | 0 <= i < |row.items| ensures ShapedItem(f, row.items[i]) {
        assert SoundItem(f, row.items[i]);
        if f.ltype.LSubmessage? {
          SoundIsShaped(f.sub, row.items[i].rows);
        }
      }
    }
  }

  /** initialize_pointer_field. */
  function Initialized(f: Field, it: Item): Item {
    if f.ltype.LString? || f.ltype.LBytes? then Text(Null)
    else if f.ltype.LSubmessage? then Struct(Defaults(SubTable(f), Cleared(SubTable(f))))
    else it
  }

  lemma InitializedSound(f: Field, it: Item)
    requires AllocatableField(f) && f.atype.Pointer? && it.Raw?
    ensures SoundItem(f, Initialized(f, it)) && OwnedByItem(Initialized(f, it)) == multiset{}
  {
    hide Sound, Defaults, Cleared, Allocatable;
    if f.ltype.LSubmessage? {
      AllocatableSub(f);
      ClearedShaped(SubTable(f));
      DefaultsSound(SubTable(f), Cleared(SubTable(f)));
    }
  }
}
