/** Arrays on the heap: how they grow, and what they hold while a record is appended. */
module PointerArrays {
  import opened Platform
  import opened Descriptor
  import opened Decoding
  import opened Heap
  import opened Releasing
  import opened HeapDefaults
  import opened HeapDecoding

  lemma SingleOwned(it: Item)
    ensures OwnedByItems([it]) == OwnedByItem(it)
  {
    hide OwnedByItem;
    assert OwnedByItems([it]) == OwnedByItem(it) + OwnedByItems([]);
  }

  /** The items in use survive a resize, and the new ones own nothing. */
  lemma ResizedArray(f: Field, size: nat, p: Pointer, n: nat)
    requires SoundArray(f, size, p) && size <= n
    ensures var old', items := ItemsOfPointer(p), Resized(ItemsOfPointer(p), n);
            && size <= |old'| && items[..size] == old'[..size]
            && (forall i :: size <= i < n ==> items[i].Raw?)
            && OwnedByItems(items) == OwnedByItems(old')
    ensures OwnedByPointer(p) == IdOf(p) + OwnedByItems(ItemsOfPointer(p))
  {
    hide SoundItem;
    var before, items := ItemsOfPointer(p), Resized(ItemsOfPointer(p), n);
    assert before == before[..size] + before[size..];
    assert items == items[..size] + items[size..] && items[..size] == before[..size];
    OwnedConcat(before[..size], before[size..]);
    OwnedConcat(items[..size], items[size..]);
    RawOwnsNothing(before[size..]);
    RawOwnsNothing(items[size..]);
  }

  lemma ArrayBehind(f: Field, row: Row)
    requires f.atype.Pointer? && f.htype.Repeated? && SoundRow(f, row)
    ensures row.Indirect? && SoundArray(f, row.size, row.p)
    ensures row.size <= PB_SIZE_MAX && row.size <= |ItemsOfPointer(row.p)|
    ensures forall r: Row :: r.Indirect? && SoundArray(f, r.size, r.p) ==> SoundRow(f, r)
  {
    hide SoundItem;
  }

  /** An array that has grown by one item, as ReadNext has it. */
  lemma NextRead(f: Field, row: Row, r: Row, items: seq<Item>, it: Item, bs: seq<byte>)
    requires f.atype.Pointer? && f.htype.Repeated? && row.Indirect? && SoundRow(f, row) && row.size != PB_SIZE_MAX
    requires items == Resized(ItemsOfPointer(row.p), row.size + 1)
    requires r.Indirect? && r.p.Block? && r.size == row.size + 1 && r.p.items == items[row.size := it]
    ensures var used := ItemsOfRow(BareRow(f, row));
            && BareRow(f, r) == Indirect(row.size + 1, Block(0, used + [Bare(f, it)]))
            && var read := ReadItem(f, Initialized(f, Junk), bs);
               ReadNext(f, BareRow(f, row), bs) ==
                 if read.Ok? then Ok(Indirect(row.size + 1, Block(0, used + [read.value])), read.rest) else Fail
  {
    hide SoundItem, Bare, OwnedByItems, Resized, ReadItem, Initialized;
    ArrayBehind(f, row);
    ResizedArray(f, row.size, row.p, row.size + 1);
    var used, before := ItemsOfRow(BareRow(f, row)), ItemsOfPointer(row.p);
    assert |used| == row.size && forall i :: 0 <= i < row.size ==> used[i] == Bare(f, before[i]);
    forall i | 0 <= i < row.size ensures r.p.items[i] == before[i] {
      assert items[..row.size][i] == before[..row.size][i];
    }
    var now := BareRow(f, r).p.items;
    assert now == used + [Bare(f, it)];
  }

  lemma PartOf(p: Pointer, live: multiset<nat>)
    requires OwnedByPointer(p) <= live
    ensures IdOf(p) <= live && (p.Block? ==> p.id in live)
  {
    hide OwnedByItems;
    if p.Block? {
      assert OwnedByPointer(p)[p.id] >= 1;
    }
  }

  lemma NextItem(f: Field, row: Row, p: Pointer, it: Item)
    requires f.atype.Pointer? && f.htype.Repeated? && row.Indirect? && SoundRow(f, row) && row.size != PB_SIZE_MAX
    requires p.Block? && p.items == Resized(ItemsOfPointer(row.p), row.size + 1) && SoundItem(f, it)
    ensures p.items[row.size].Raw?
    ensures var r := Indirect(row.size + 1, Block(p.id, p.items[row.size := it]));
            && SoundRow(f, r)
            && OwnedByPointer(r.p) + multiset{} == IdOf(p) + OwnedByItems(p.items) + OwnedByItem(it)
  {
    hide SoundItem, OwnedByItem, OwnedByItems, Resized;
    ArrayBehind(f, row);
    ResizedArray(f, row.size, row.p, row.size + 1);
    RawOwned(p.items[row.size]);
    ItemsUpdate(p.items, row.size, it);
    OneMore(IdOf(p), OwnedByItems(p.items[row.size := it]), OwnedByItems(p.items), OwnedByItem(it));
  }

  lemma RawOwned(it: Item)
    requires it.Raw?
    ensures OwnedByItem(it) == multiset{}
  {
  }

  lemma OneMore(id: multiset<nat>, items': multiset<nat>, items: multiset<nat>, it: multiset<nat>)
    requires items' + multiset{} == items + it
    ensures (id + items') + multiset{} == id + items + it
  {
    assert items' == items + it;
  }

  /** How far a packed record makes an array grow when it is full: to what the rest of the record
      may hold at most, as long as pb_size_t can count that. */
  function Grown(capacity: nat, remain: nat): nat {
    if remain < PB_SIZE_MAX - capacity then capacity + remain else capacity + 1
  }

  /** Growing makes room for one item at least and stays within pb_size_t. */
  lemma GrownFits(capacity: nat, bytesLeft: nat, dataSize: nat)
    requires capacity < PB_SIZE_MAX && bytesLeft > 0 && dataSize > 0
    ensures capacity < Grown(capacity, (bytesLeft - 1) / dataSize + 1) <= PB_SIZE_MAX
  {
  }

  /** The state of the loop over a packed record: what was there, what has come, what is to come. */
  ghost predicate Growing(f: Field, row: Row, size: nat, p: Pointer, body: seq<byte>, got: seq<Value>, rest: seq<byte>)
    requires row.Indirect?
  {
    && size == row.size + |got|
    && SoundArray(f, size, p) && row.size <= |ItemsOfPointer(row.p)|
    && ItemsOfPointer(p)[..size] == ItemsOfPointer(row.p)[..row.size] + Raws(got)
    && ReadElements(f, row.size, body)
       == match ReadElements(f, size, rest) case None => None case Some(vs) => Some(got + vs)
  }

  lemma GrowingStart(f: Field, row: Row, body: seq<byte>)
    requires row.Indirect? && SoundArray(f, row.size, row.p)
    ensures Growing(f, row, row.size, row.p, body, [], body)
  {
    hide SoundItem;
    var vs := ReadElements(f, row.size, body);
    if vs.Some? {
      assert [] + vs.value == vs.value;
    }
  }

  lemma GrowingResized(f: Field, row: Row, size: nat, p: Pointer, body: seq<byte>, got: seq<Value>, rest: seq<byte>,
      n: nat, r: Pointer)
    requires row.Indirect? && Growing(f, row, size, p, body, got, rest) && size <= n
    requires r.Block? && r.items == Resized(ItemsOfPointer(p), n)
    ensures Growing(f, row, size, r, body, got, rest)
  {
    hide SoundItem, ReadElements, Raws, OwnedByPointer, OwnedByItems, Resized;
    ResizedArray(f, size, p, n);
    forall i | 0 <= i < size ensures SoundItem(f, r.items[i]) {
      assert r.items[..size][i] == ItemsOfPointer(p)[..size][i];
    }
  }

  lemma GrowingStored(f: Field, row: Row, size: nat, p: Pointer, body: seq<byte>, got: seq<Value>, rest: seq<byte>,
      v: Value, rest': seq<byte>)
    requires row.Indirect? && Growing(f, row, size, p, body, got, rest) && rest != []
        && DecScalar(f, rest) == Ok(v, rest')
    requires Packable(f.ltype) && p.Block? && size < |p.items| && size < PB_SIZE_MAX
    ensures Growing(f, row, size + 1, Block(p.id, p.items[size := Raw(v)]), body, got + [v], rest')
  {
    hide DecScalar, SoundItem;
    var items := p.items[size := Raw(v)];
    PackableItem(f, v);
    assert SoundArray(f, size + 1, Block(p.id, items));
    assert items[..size + 1] == p.items[..size] + [Raw(v)];
    assert Raws(got + [v]) == Raws(got) + [Raw(v)];
    var vs := ReadElements(f, size + 1, rest');
    assert ReadElements(f, size, rest) == match vs case None => None case Some(vs) => Some([v] + vs);
    if vs.Some? {
      assert (got + [v]) + vs.value == got + ([v] + vs.value);
    }
  }

  lemma PackableItem(f: Field, v: Value)
    requires Packable(f.ltype)
    ensures SoundItem(f, Raw(v))
  {
  }

  /** When the record is used up, the array is what ReadPacked says. */
  lemma GrowingDone(f: Field, row: Row, r: Row, bs: seq<byte>, rest: seq<byte>, body: seq<byte>, got: seq<Value>)
    requires row.Indirect? && r.Indirect? && Packable(f.ltype) && f.atype.Pointer? && f.htype.Repeated?
    requires SoundRow(f, row) && (got == [] ==> r.p == row.p)
    requires Growing(f, row, r.size, r.p, body, got, []) && DecDelimited(bs) == Ok(body, rest)
    ensures ReadPacked(f, BareRow(f, row), bs) == Ok(BareRow(f, r), rest)
  {
    hide DecDelimited, SoundItem, OwnedByItems, DecScalar;
    ArrayBehind(f, row);
    UsedPlain(f, row);
    UsedPlain(f, r);
    assert ReadElements(f, r.size, []) == Some([]) && got + [] == got;
    if got == [] {
      assert ItemsOfPointer(r.p)[..r.size] == ItemsOfPointer(row.p)[..row.size];
    }
  }

  /** Numbers look the same with and without addresses. */
  lemma UsedPlain(f: Field, row: Row)
    requires row.Indirect? && f.htype.Repeated? && Packable(f.ltype) && SoundArray(f, row.size, row.p)
    ensures ItemsOfRow(BareRow(f, row)) == ItemsOfPointer(row.p)[..row.size]
  {
    if row.p.Block? {
      forall i | 0 <= i < row.size ensures Bare(f, row.p.items[i]) == row.p.items[i] {
        assert SoundItem(f, row.p.items[i]);
      }
    }
  }

  /** Where the loop stops before that, there is nothing to be read. */
  lemma GrowingStuck(f: Field, row: Row, size: nat, p: Pointer, body: seq<byte>, got: seq<Value>, left: seq<byte>,
      bs: seq<byte>)
    requires row.Indirect? && Packable(f.ltype) && f.atype.Pointer? && f.htype.Repeated? && SoundRow(f, row)
    requires Growing(f, row, size, p, body, got, left) && left != []
    requires size >= PB_SIZE_MAX || DecScalar(f, left).Fail?
    requires DecDelimited(bs).Ok? && DecDelimited(bs).value == body
    ensures ReadPacked(f, BareRow(f, row), bs).Fail?
  {
    hide DecDelimited, SoundItem, OwnedByItems, DecScalar;
    ArrayBehind(f, row);
    UsedPlain(f, row);
    assert ReadElements(f, size, left) == None;
  }

  lemma GrowingSound(f: Field, row: Row, size: nat, p: Pointer, body: seq<byte>, got: seq<Value>, rest: seq<byte>)
    requires row.Indirect? && f.atype.Pointer? && f.htype.Repeated? && Packable(f.ltype)
    requires Growing(f, row, size, p, body, got, rest)
    ensures SoundRow(f, Indirect(size, p)) && OwnedByPointer(p) == IdOf(p)
    ensures size <= |ItemsOfPointer(p)| && size <= PB_SIZE_MAX
  {
    hide ReadElements;
    var items := ItemsOfPointer(p);
    forall i | 0 <= i < |items| ensures items[i].Raw? {
      assert i < size ==> SoundItem(f, items[i]);
    }
    PlainOwns(p);
  }

  lemma PackableSize(f: Field)
    requires AllocatableField(f) && Packable(f.ltype)
    ensures f.dataSize > 0 && !IsText(f)
  {
    hide Allocatable;
  }

  /** Any other block the decoder asks for has a size. */
  lemma UnfitOrFits(f: Field, count: nat)
    requires f.atype.Pointer? && 0 < count <= PB_SIZE_MAX && (!f.htype.Repeated? ==> count == 1 && !IsText(f))
    ensures Unfit(f, count) || (f.dataSize > 0 && count * f.dataSize <= SIZE_MAX)
  {
  }

  /** Room for one more item of an array that holds size items in capacity places. */
  method MakeRoom(heap: Allocator, f: Field, p: Pointer, size: nat, capacity: nat, bytesLeft: nat,
      ghost row: Row, ghost body: seq<byte>, ghost got: seq<Value>, ghost rest: seq<byte>)
    returns (ok: bool, r: Pointer, capacity': nat)
    requires heap.Valid() && f.dataSize > 0 && bytesLeft > 0 && OwnedByPointer(p) <= heap.live
    requires size <= capacity <= PB_SIZE_MAX && size < PB_SIZE_MAX
    requires size < capacity ==> p.Block? && |p.items| == capacity
    requires f.atype.Pointer? && f.htype.Repeated? && Packable(f.ltype)
    requires row.Indirect? && Growing(f, row, size, p, body, got, rest)
    modifies heap
    ensures heap.Valid() && Traded(old(heap.live), OwnedByPointer(p), heap.live, OwnedByPointer(r))
    ensures Growing(f, row, size, r, body, got, rest)
    ensures ok ==> size < capacity' <= PB_SIZE_MAX && r.Block? && |r.items| == capacity'
    ensures Grew(old(heap.History()), heap.History(), [f]) && (!ok ==> Excused(old(heap.History()), heap.History()))
  {
    hide OwnedByPointer, Traded, Growing, Resized, Grown, Packable, Reaches, Grew;
    ok, r, capacity' := true, p, capacity;
    GrewStart(heap.History(), [f]);
    TradedStart(heap.live, OwnedByPointer(p));
    if size + 1 > capacity {
      GrownFits(capacity, bytesLeft, f.dataSize);
      capacity' := Grown(capacity, (bytesLeft - 1) / f.dataSize + 1);
      UnfitOrFits(f, capacity');
      PartOf(p, heap.live);
      GrowingSound(f, row, size, p, body, got, rest);
      ok, r := AllocateField(heap, p, f.dataSize, capacity', f);
      if ok {
        GrowingResized(f, row, size, p, body, got, rest, capacity', r);
      }
      GrowingSound(f, row, size, r, body, got, rest);
    }
  }

  /** The item is put where it belongs; the block owns what it did. */
  method StoreItem(f: Field, p: Pointer, size: nat, v: Value, ghost row: Row, ghost body: seq<byte>,
      ghost got: seq<Value>,
      ghost rest: seq<byte>, ghost rest': seq<byte>)
    returns (r: Pointer)
    requires f.atype.Pointer? && f.htype.Repeated? && Packable(f.ltype)
    requires p.Block? && size < |p.items| <= PB_SIZE_MAX
    requires row.Indirect? && Growing(f, row, size, p, body, got, rest)
    requires rest != [] && DecScalar(f, rest) == Ok(v, rest')
    ensures r == Block(p.id, p.items[size := Raw(v)]) && OwnedByPointer(r) == OwnedByPointer(p)
    ensures Growing(f, row, size + 1, r, body, got + [v], rest')
  {
    hide Growing, OwnedByPointer, Packable, DecScalar;
    r := Block(p.id, p.items[size := Raw(v)]);
    GrowingStored(f, row, size, p, body, got, rest, v, rest');
    GrowingSound(f, row, size, p, body, got, rest);
    GrowingSound(f, row, size + 1, r, body, got + [v], rest');
  }
}
