/** pb_release: every block a struct owns is freed once, and nothing else is. */
module Releasing {
  import opened Descriptor
  import opened FieldIter
  import opened Heap

  lemma ItemOwned(items: seq<Item>, i: nat, it: Item)
    requires i < |items| && OwnedByItem(it) == multiset{}
    ensures OwnedByItems(items[i := it]) + OwnedByItem(items[i]) == OwnedByItems(items)
  {
    hide OwnedByItem, OwnedByItems;
    ItemsUpdate(items, i, it);
  }

  lemma RowOwned(rows: seq<Row>, k: nat, row: Row)
    requires k < |rows| && OwnedByRow(row) == multiset{}
    ensures Owned(rows[k := row]) + OwnedByRow(rows[k]) == Owned(rows)
  {
    hide OwnedByRow, Owned;
    OwnedUpdate(rows, k, row);
  }

  /** Freeing a part of what is still owned. */
  lemma PartFreed(before: multiset<nat>, was: multiset<nat>, mid: multiset<nat>, now: multiset<nat>,
      next: multiset<nat>,
      part: multiset<nat>)
    requires Traded(before, was, mid, now) && next + part == now
    ensures part <= mid && Traded(before, was, mid - part, next)
  {
    forall id: nat ensures mid[id] + was[id] == before[id] + now[id] && next[id] + part[id] == now[id] <= mid[id] {
      assert (mid + was)[id] == (before + now)[id];
      assert (next + part)[id] == now[id];
    }
  }

  /** The loop over the entries of a string array: each is freed and set to NULL. */
  method FreeTexts(heap: Allocator, f: Field, items: seq<Item>, count: nat)
    requires heap.Valid() && IsText(f) && SoundArray(f, count, Block(0, items))
    requires OwnedByItems(items) <= heap.live
    modifies heap
    ensures heap.Valid() && heap.History() == old(heap.History()) && heap.live == old(heap.live) - OwnedByItems(items)
  {
    hide OwnedByItems, OwnedByItem, Traded, SoundArray, IsText, Plain;
    var left := items;
    TradedStart(heap.live, OwnedByItems(items));
    TextAt(f, items, count);
    for i := 0 to count
      invariant |left| == |items| && heap.Valid() && heap.History() == old(heap.History())
      invariant forall j :: 0 <= j < |items| ==> left[j] == if j < i then Text(Null) else items[j]
      invariant Traded(old(heap.live), OwnedByItems(items), heap.live, OwnedByItems(left))
    {
      ghost var mid, now, part := heap.live, OwnedByItems(left), IdOf(items[i].p);
      ItemOwned(left, i, Text(Null));
      PartFreed(old(heap.live), OwnedByItems(items), mid, now, OwnedByItems(left[i := Text(Null)]), part);
      heap.Free(left[i].p);
      assert heap.live == mid - part;
      left := left[i := Text(Null)];
    }
    TextsOwnNothing(left);
    TradedToNothing(old(heap.live), OwnedByItems(items), heap.live);
  }

  lemma TextAt(f: Field, items: seq<Item>, count: nat)
    requires IsText(f) && SoundArray(f, count, Block(0, items))
    ensures count <= |items| && OwnedByItem(Text(Null)) == multiset{}
    ensures forall i :: 0 <= i < count ==> items[i].Text? && OwnedByItem(items[i]) == IdOf(items[i].p)
    ensures forall i :: count <= i < |items| ==> items[i].Raw?
  {
    forall i | 0 <= i < count ensures items[i].Text? && OwnedByItem(items[i]) == IdOf(items[i].p) {
      assert SoundItem(f, items[i]);
      PlainOwns(items[i].p);
    }
  }

  lemma PlainOwns(p: Pointer)
    requires Plain(p)
    ensures OwnedByItem(Text(p)) == OwnedByPointer(p) == IdOf(p)
  {
    RawOwnsNothing(ItemsOfPointer(p));
  }

  lemma {:induction false} TextsOwnNothing(items: seq<Item>)
    requires forall i :: 0 <= i < |items| ==> items[i].Raw? || items[i] == Text(Null)
    ensures OwnedByItems(items) == multiset{}
  {
    if items != [] {
      TextsOwnNothing(items[1..]);
    }
  }

  /** The loop over the messages of a pointer array or the one message of a static field. */
  method ReleaseItems(heap: Allocator, f: Field, items: seq<Item>, count: nat) returns (r: seq<Item>)
    requires heap.Valid() && AllocatableField(f) && f.ltype.LSubmessage?
    requires count <= |items| && (forall i :: 0 <= i < count ==> SoundItem(f, items[i]))
    requires (forall i :: count <= i < |items| ==> items[i].Raw?)
    requires OwnedByItems(items) <= heap.live
    modifies heap
    ensures heap.Valid() && heap.History() == old(heap.History()) && heap.live == old(heap.live) - OwnedByItems(items)
    ensures |r| == |items|
    ensures forall i :: 0 <= i < |items| ==> r[i] == ReleasedItem(f, items[i])
    decreases items, 3
  {
    hide OwnedByItems, Traded, Sound, Allocatable, Released;
    r := items;
    TradedStart(heap.live, OwnedByItems(items));
    for i := 0 to count
      invariant |r| == |items| && heap.Valid() && heap.History() == old(heap.History())
      invariant forall j :: 0 <= j < |items| ==> r[j] == if j < i then ReleasedItem(f, items[j]) else items[j]
      invariant Traded(old(heap.live), OwnedByItems(items), heap.live, OwnedByItems(r))
    {
      ghost var now, next := OwnedByItems(r), ReleasedItem(f, items[i]);
      assert SoundItem(f, items[i]);
      AllocatableSub(f);
      ReleasedTwice(SubTable(f), items[i].rows);
      ItemOwned(r, i, next);
      PartFreed(old(heap.live), OwnedByItems(items), heap.live, now, OwnedByItems(r[i := next]), OwnedByItem(items[i]));
      var rows := Release(heap, SubTable(f), items[i].rows);
      r := r[i := Struct(rows)];
    }
    AllReleased(f, r, items, count);
    TradedToNothing(old(heap.live), OwnedByItems(items), heap.live);
  }

  lemma AllReleased(f: Field, r: seq<Item>, items: seq<Item>, count: nat)
    requires AllocatableField(f) && f.ltype.LSubmessage? && count <= |items| == |r|
    requires forall i :: 0 <= i < count ==> SoundItem(f, items[i]) && r[i] == ReleasedItem(f, items[i])
    requires forall i :: count <= i < |items| ==> r[i] == items[i] && items[i].Raw?
    ensures OwnedByItems(r) == multiset{}
  {
    hide Sound, Released, Allocatable;
    forall i | 0 <= i < |r| ensures OwnedByItem(r[i]) == multiset{} {
      if i < count {
        assert SoundItem(f, items[i]);
        AllocatableSub(f);
        ReleasedTwice(SubTable(f), items[i].rows);
      }
    }
    ItemsOwnNothing(r);
  }

  lemma {:induction false} ItemsOwnNothing(items: seq<Item>)
    requires forall i :: 0 <= i < |items| ==> OwnedByItem(items[i]) == multiset{}
    ensures OwnedByItems(items) == multiset{}
  {
    hide OwnedByItem;
    if items != [] {
      ItemsOwnNothing(items[1..]);
    }
  }

  /** pb_release_single_field. */
  method ReleaseRow(heap: Allocator, f: Field, row: Row) returns (r: Row)
    requires heap.Valid() && AllocatableField(f) && SoundRow(f, row) && OwnedByRow(row) <= heap.live
    modifies heap
    ensures heap.Valid() && heap.History() == old(heap.History()) && heap.live == old(heap.live) - OwnedByRow(row)
    ensures r == ReleasedRow(f, row)
    decreases row, 1
  {
    hide OwnedByItems, OwnedByItem, ReleasedItem, AllocatableField, SoundItem, SoundRow, IsText;
    RowParts(f, row);
    r := row;
    if row.Inline? {
      if f.ltype.LSubmessage? {
        var items := ReleaseItems(heap, f, row.items, 1);
        assert items == ReleasedRow(f, row).items;
        r := Inline(row.size, items);
      }
      return;
    }
    if row.p.Block? {
      ReleaseTarget(heap, f, row);
    }
    heap.Free(row.p);
    assert heap.live == old(heap.live) - OwnedByRow(row);
    r := Indirect(if f.htype.Repeated? then 0 else row.size, Null);
  }

  /** What the items behind a pointer own is freed before their block. */
  method ReleaseTarget(heap: Allocator, f: Field, row: Row)
    requires heap.Valid() && AllocatableField(f) && SoundRow(f, row) && OwnedByRow(row) <= heap.live
    requires row.Indirect? && row.p.Block?
    modifies heap
    ensures heap.Valid() && heap.History() == old(heap.History())
    ensures heap.live == old(heap.live) - OwnedByItems(row.p.items)
    ensures row.p.id in heap.live && heap.live - multiset{row.p.id} == old(heap.live) - OwnedByRow(row)
    decreases row, 0
  {
    hide OwnedByItems, OwnedByItem, ReleasedItem, AllocatableField, SoundItem, SoundRow, IsText;
    RowParts(f, row);
    BlockLast(heap.live, row.p.id, OwnedByItems(row.p.items));
    if f.ltype.LSubmessage? {
      var count := if f.htype.Repeated? then row.size else 1;
      var skipped := ReleaseItems(heap, f, row.p.items, count);
    } else if f.htype.Repeated? && IsText(f) {
      FreeTexts(heap, f, row.p.items, row.size);
    }
  }

  lemma BlockLast(live: multiset<nat>, id: nat, part: multiset<nat>)
    requires multiset{id} + part <= live
    ensures part <= live && live - part - multiset{id} == live - (multiset{id} + part)
    ensures id in live - part
    ensures live - multiset{} == live
  {
    forall i: nat ensures multiset{id}[i] + part[i] <= live[i] {
      assert (multiset{id} + part)[i] <= live[i];
    }
    assert (live - part)[id] >= 1;
  }

  /** The items of a row that pb_release visits; those of any other row own nothing. */
  lemma RowParts(f: Field, row: Row)
    requires AllocatableField(f) && SoundRow(f, row)
    ensures var items := if row.Inline? then row.items else ItemsOfPointer(row.p);
            var count := if row.Indirect? && f.htype.Repeated? then row.size else 1;
            if f.ltype.LSubmessage? && (row.Inline? || row.p.Block?) then
              && count <= |items|
              && (row.Inline? ==> |items| == 1)
              && (forall i :: 0 <= i < count ==> SoundItem(f, items[i]))
              && (forall i :: count <= i < |items| ==> items[i].Raw?)
            else if row.Indirect? && f.htype.Repeated? && IsText(f) then
              row.p.Block? ==> SoundArray(f, row.size, Block(0, row.p.items))
            else OwnedByItems(items) == multiset{}
  {
    hide Sound, Allocatable;
    if !f.ltype.LSubmessage? && !(row.Indirect? && f.htype.Repeated? && IsText(f)) {
      PlainRow(f, row);
    }
  }

  /** Items that are neither messages nor pointers own nothing. */
  lemma PlainRow(f: Field, row: Row)
    requires SoundRow(f, row) && !f.ltype.LSubmessage? && (f.htype.Repeated? && row.Indirect? ==> !IsText(f))
    ensures row.Inline? ==> OwnedByItems(row.items) == multiset{}
    ensures row.Indirect? ==> OwnedByItems(ItemsOfPointer(row.p)) == multiset{}
  {
    if row.Inline? {
      forall i | 0 <= i < |row.items| ensures row.items[i].Raw? { assert SoundItem(f, row.items[i]); }
      RawOwnsNothing(row.items);
    } else {
      var items := ItemsOfPointer(row.p);
      forall i | 0 <= i < |items| ensures items[i].Raw? {
        assert f.htype.Repeated? && i < row.size ==> SoundItem(f, items[i]);
      }
      RawOwnsNothing(items);
    }
  }

  /** pb_release. */
  method Release(heap: Allocator, fields: seq<Field>, rows: seq<Row>) returns (r: seq<Row>)
    requires heap.Valid() && Allocatable(fields) && Sound(fields, rows) && Owned(rows) <= heap.live
    modifies heap
    ensures heap.Valid() && heap.History() == old(heap.History()) && heap.live == old(heap.live) - Owned(rows)
    ensures r == Released(fields, rows)
    decreases rows, 2
  {
    hide Owned, OwnedByRow, Traded, AllocatableField, SoundRow, ReleasedRow, Iter.Valid, Terminated, DistinctTags;
    r := rows;
    TradedStart(heap.live, Owned(rows));
    AllocatableTerminates(fields);
    if fields == [] {
      NothingOwned(rows);
      return;
    }
    var iter := new Iter(fields, 0);
    var more := true;
    ghost var done := 0;
    while more
      invariant iter.Valid() && iter.start == fields && fresh(iter) && heap.Valid()
      invariant heap.History() == old(heap.History())
      invariant done <= |fields| && if more then done == iter.pos < |fields| else done == |fields|
      invariant |r| == |rows|
      invariant forall j :: 0 <= j < |rows| ==> r[j] == if j < done then ReleasedRow(fields[j], rows[j]) else rows[j]
      invariant Traded(old(heap.live), Owned(rows), heap.live, Owned(r))
      decreases |fields| - done
    {
      ghost var k, now := done, Owned(r);
      ghost var next := ReleasedRow(fields[k], rows[k]);
      RowReleasedTwice(fields[k], rows[k]);
      RowOwned(r, k, next);
      PartFreed(old(heap.live), Owned(rows), heap.live, now, Owned(r[k := next]), OwnedByRow(rows[k]));
      var row := ReleaseRow(heap, fields[iter.pos], rows[iter.pos]);
      r := r[iter.pos := row];
      done := done + 1;
      more := iter.Next();
    }
    assert r == Released(fields, rows);
    ReleasedTwice(fields, rows);
    TradedToNothing(old(heap.live), Owned(rows), heap.live);
  }
}
