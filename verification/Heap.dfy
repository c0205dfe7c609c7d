/** Structs with pointer fields (PB_ENABLE_MALLOC): what they own, how blocks are allocated, and
    how pb_release gives them back. */
module Heap {
  import opened Platform
  import opened Descriptor
  import opened FieldIter

  // ---------------------------------------------------------------- storage with pointers

  /** The storage of one item: plain bytes or a number, an embedded struct, or a pointer to the
      bytes of a string. Storage that was allocated but not yet written is Raw too. */
  datatype Item = Raw(v: Value) | Struct(rows: seq<Row>) | Text(p: Pointer)

  /** The storage of one row: its items in the struct itself, or a pointer to a block of them.
      size is the has_ flag of the former or the _count of either. */
  datatype Row = Inline(size: nat, items: seq<Item>) | Indirect(size: nat, p: Pointer)

  datatype Pointer = Null | Block(id: nat, items: seq<Item>)

  const Junk := Raw(Number(0))

  /** The blocks a value owns, each as often as it is pointed to. */
  function OwnedByItem(it: Item): multiset<nat> {
    match it
    case Raw(_) => multiset{}
    case Struct(rows) => Owned(rows)
    case Text(p) => OwnedByPointer(p)
  }

  function OwnedByPointer(p: Pointer): multiset<nat> {
    match p
    case Null => multiset{}
    case Block(id, items) => multiset{id} + OwnedByItems(items)
  }

  function OwnedByItems(items: seq<Item>): multiset<nat> {
    if items == [] then multiset{} else OwnedByItem(items[0]) + OwnedByItems(items[1..])
  }

  function OwnedByRow(row: Row): multiset<nat> {
    match row
    case Inline(_, items) => OwnedByItems(items)
    case Indirect(_, p) => OwnedByPointer(p)
  }

  function Owned(rows: seq<Row>): multiset<nat> {
    if rows == [] then multiset{} else OwnedByRow(rows[0]) + Owned(rows[1..])
  }

  lemma Shift(h: multiset<nat>, t': multiset<nat>, o: multiset<nat>, t: multiset<nat>, n: multiset<nat>)
    requires t' + o == t + n
    ensures (h + t') + o == (h + t) + n
  {
    assert h + (t' + o) == (h + t') + o && h + (t + n) == (h + t) + n;
  }

  lemma Swap(n: multiset<nat>, t: multiset<nat>, o: multiset<nat>)
    ensures (n + t) + o == (o + t) + n
  {
  }

  lemma {:induction false} OwnedUpdate(rows: seq<Row>, k: nat, row: Row)
    requires k < |rows|
    ensures Owned(rows[k := row]) + OwnedByRow(rows[k]) == Owned(rows) + OwnedByRow(row)
  {
    hide OwnedByRow;
    if k == 0 {
      assert rows[0 := row][1..] == rows[1..];
      Swap(OwnedByRow(row), Owned(rows[1..]), OwnedByRow(rows[0]));
    } else {
      OwnedUpdate(rows[1..], k - 1, row);
      assert rows[k := row][1..] == rows[1..][k - 1 := row];
      Shift(OwnedByRow(rows[0]), Owned(rows[1..][k - 1 := row]), OwnedByRow(rows[k]), Owned(rows[1..]),
          OwnedByRow(row));
    }
  }

  lemma {:induction false} ItemsUpdate(items: seq<Item>, k: nat, it: Item)
    requires k < |items|
    ensures OwnedByItems(items[k := it]) + OwnedByItem(items[k]) == OwnedByItems(items) + OwnedByItem(it)
  {
    hide OwnedByItem;
    if k == 0 {
      assert items[0 := it][1..] == items[1..];
      Swap(OwnedByItem(it), OwnedByItems(items[1..]), OwnedByItem(items[0]));
    } else {
      ItemsUpdate(items[1..], k - 1, it);
      assert items[k := it][1..] == items[1..][k - 1 := it];
      Shift(OwnedByItem(items[0]), OwnedByItems(items[1..][k - 1 := it]), OwnedByItem(items[k]),
          OwnedByItems(items[1..]), OwnedByItem(it));
    }
  }

  lemma {:induction false} OwnedHasRow(rows: seq<Row>, k: nat)
    requires k < |rows|
    ensures OwnedByRow(rows[k]) <= Owned(rows)
  {
    hide OwnedByRow;
    if k > 0 {
      OwnedHasRow(rows[1..], k - 1);
    }
  }

  lemma {:induction false} OwnedHasItem(items: seq<Item>, i: nat)
    requires i < |items|
    ensures OwnedByItem(items[i]) <= OwnedByItems(items)
  {
    hide OwnedByItem;
    if i > 0 {
      OwnedHasItem(items[1..], i - 1);
    }
  }

  /** A struct owns the block behind each of its pointers, and what lies in it: the blocks of texts, and all that
      messages own in turn. */
  lemma OwnsItsBlocks(rows: seq<Row>, k: nat, i: nat)
    requires k < |rows|
    ensures rows[k].Indirect? && rows[k].p.Block? ==> rows[k].p.id in Owned(rows)
    ensures var items := match rows[k] case Inline(_, items) => items
                         case Indirect(_, p) => if p.Block? then p.items else [];
            i < |items| ==>
              && (items[i].Text? && items[i].p.Block? ==> items[i].p.id in Owned(rows))
              && (items[i].Struct? ==> Owned(items[i].rows) <= Owned(rows))
  {
    hide OwnedByItems;
    OwnedHasRow(rows, k);
    var items := match rows[k] case Inline(_, items) => items
                 case Indirect(_, p) => if p.Block? then p.items else [];
    if i < |items| {
      OwnedHasItem(items, i);
      assert OwnedByItems(items) <= OwnedByRow(rows[k]);
    }
  }

  lemma {:induction false} RawOwnsNothing(items: seq<Item>)
    requires forall i :: 0 <= i < |items| ==> items[i].Raw?
    ensures OwnedByItems(items) == multiset{}
  {
    if items != [] {
      RawOwnsNothing(items[1..]);
    }
  }

  lemma {:induction false} OwnedConcat(a: seq<Item>, b: seq<Item>)
    ensures OwnedByItems(a + b) == OwnedByItems(a) + OwnedByItems(b)
  {
    hide OwnedByItem;
    if a == [] {
      assert a + b == b;
    } else {
      OwnedConcat(a[1..], b);
      assert (a + b)[1..] == a[1..] + b;
    }
  }

  /** Whatever else is live stays live: of what a value owns, was has become now. */
  ghost predicate Traded(before: multiset<nat>, was: multiset<nat>, after: multiset<nat>, now: multiset<nat>) {
    now <= after && after + was == before + now
  }

  lemma TradedStart(live: multiset<nat>, was: multiset<nat>)
    requires was <= live
    ensures Traded(live, was, live, was)
  {
  }

  lemma TradedThen(before: multiset<nat>, was: multiset<nat>, mid: multiset<nat>, part: multiset<nat>,
      after: multiset<nat>, now: multiset<nat>)
    requires Traded(before, was, mid, part) && Traded(mid, part, after, now)
    ensures Traded(before, was, after, now)
  {
    forall id: nat ensures after[id] + was[id] == before[id] + now[id] {
      assert (mid + was)[id] == (before + part)[id] && (after + part)[id] == (mid + now)[id];
    }
  }

  /** Trading a part of what is owned. */
  lemma TradedPart(before: multiset<nat>, was: multiset<nat>, after: multiset<nat>, now: multiset<nat>,
      all: multiset<nat>, all': multiset<nat>)
    requires Traded(before, was, after, now) && all <= before && all' + was == all + now
    ensures Traded(before, all, after, all')
  {
    forall id: nat ensures after[id] + all[id] == before[id] + all'[id] && all'[id] <= after[id] {
      assert (after + was)[id] == (before + now)[id] && (all' + was)[id] == (all + now)[id];
    }
  }

  lemma TradedToNothing(before: multiset<nat>, was: multiset<nat>, after: multiset<nat>)
    requires Traded(before, was, after, multiset{})
    ensures after == before - was
  {
    forall id: nat ensures after[id] + was[id] == before[id] {
      assert (after + was)[id] == (before + multiset{})[id];
    }
  }

  lemma TradedFromNothing(before: multiset<nat>, after: multiset<nat>, now: multiset<nat>)
    requires Traded(before, multiset{}, after, now)
    ensures after == before + now
  {
    assert after + multiset{} == after;
  }

  lemma TradedFrom(before: multiset<nat>, after: multiset<nat>, now: multiset<nat>)
    requires after == before + now
    ensures Traded(before, multiset{}, after, now)
  {
    assert after + multiset{} == after;
  }

  lemma TradedLive(before: multiset<nat>, was: multiset<nat>, after: multiset<nat>, now: multiset<nat>)
    requires Traded(before, was, after, now)
    ensures now <= after
  {
  }

  // ---------------------------------------------------------------- tables

  /** A string or bytes field behind a pointer: its items are pointers themselves. */
  predicate IsText(f: Field) {
    f.atype.Pointer? && (f.ltype.LString? || f.ltype.LBytes?)
  }

  /** A row in scope here: static or pointer; no union, extension or callback, and no static array
      of messages. */
  predicate AllocatableField(f: Field)
    decreases f
  {
    && 1 <= f.tag < 0x2000_0000
    && !f.atype.Callback? && !f.ltype.LExtension? && !f.htype.Oneof?
    && !(f.atype.Static? && f.htype.Repeated? && f.ltype.LSubmessage?)
    && (f.atype.Pointer? && f.htype.Repeated? ==> f.sizeOffset != 0)
    && f.dataSize <= PB_SIZE_MAX && f.arraySize <= PB_SIZE_MAX
    && GoodSize(f.ltype, f.dataSize)
    && (f.ltype.LSubmessage? && f.atype.Static? ==> Allocatable(f.sub))
  }

  predicate Allocatable(fields: seq<Field>)
    decreases fields
  {
    && DistinctTags(fields)
    && forall k :: 0 <= k < |fields| ==> AllocatableField(fields[k])
  }

  /** The tables of the program, any number of them; pointers lead from each to any, itself included. */
  type Tables = ts: seq<seq<Field>> | forall i :: 0 <= i < |ts| ==> Allocatable(ts[i]) witness []
  const TABLES: Tables

  /** The table of the message that f holds or points to; a number that no table has means an empty one. */
  function SubTable(f: Field): seq<Field> {
    if !f.atype.Pointer? then f.sub else if f.link < |TABLES| then TABLES[f.link] else []
  }

  lemma AllocatableSub(f: Field)
    requires AllocatableField(f) && f.ltype.LSubmessage?
    ensures Allocatable(SubTable(f))
  {
    assert !f.atype.Callback?;
  }

  lemma AllocatableTerminates(fields: seq<Field>)
    requires Allocatable(fields)
    ensures Terminated(fields)
  {
    hide DistinctTags;
    forall k | 0 <= k < |fields| ensures fields[k].tag != 0 { assert AllocatableField(fields[k]); }
  }

  // ---------------------------------------------------------------- sound structs

  /** A block of plain bytes or numbers, or none. */
  predicate Plain(p: Pointer) {
    p.Block? ==> forall i :: 0 <= i < |p.items| ==> p.items[i].Raw?
  }

  /** The item is of its row's type, and every pointer in it is null or points to what it should. */
  predicate SoundItem(f: Field, it: Item)
    decreases it
  {
    if f.ltype.LSubmessage? then it.Struct? && Sound(SubTable(f), it.rows)
    else if IsText(f) then it.Text? && Plain(it.p)
    else it.Raw?
  }

  predicate SoundRow(f: Field, row: Row)
    decreases row
  {
    if !f.atype.Pointer? then
      && row.Inline?
      && |row.items| == (if f.htype.Repeated? then f.arraySize else 1)
      && forall i :: 0 <= i < |row.items| ==> SoundItem(f, row.items[i])
    else
      && row.Indirect?
      && if f.htype.Repeated? then SoundArray(f, row.size, row.p)
         else if IsText(f) then Plain(row.p)
         else row.p.Block? ==> |row.p.items| == 1 && SoundItem(f, row.p.items[0])
  }

  /** The first size items of the block are in use; the others own nothing. */
  predicate SoundArray(f: Field, size: nat, p: Pointer)
    decreases p
  {
    && size <= PB_SIZE_MAX
    && match p
       case Null => size == 0
       case Block(_, items) =>
         && size <= |items|
         && (forall i :: 0 <= i < size ==> SoundItem(f, items[i]))
         && (forall i :: size <= i < |items| ==> items[i].Raw?)
  }

  predicate Sound(fields: seq<Field>, rows: seq<Row>)
    decreases rows
  {
    && |rows| == |fields|
    && forall k :: 0 <= k < |fields| ==> SoundRow(fields[k], rows[k])
  }

  // ---------------------------------------------------------------- what may be allocated

  /** g is a row of the table or of a message inside its struct. */
  predicate Within(fields: seq<Field>, g: Field)
    decreases fields
  {
    exists k :: 0 <= k < |fields| &&
      (fields[k] == g || (fields[k].ltype.LSubmessage? && !fields[k].atype.Pointer? && Within(fields[k].sub, g)))
  }

  /** Decoding into the table may come to the row g. */
  predicate Reaches(fields: seq<Field>, g: Field) {
    Within(fields, g) || exists i :: 0 <= i < |TABLES| && Within(TABLES[i], g)
  }

  /** A block that decoding into g may ask for, of count items, has no size that size_t can express. */
  predicate Unfit(g: Field, count: nat) {
    && g.atype.Pointer? && 0 < count <= PB_SIZE_MAX
    && (!g.htype.Repeated? ==> count == 1 && !IsText(g))
    && (g.dataSize == 0 || count * g.dataSize > SIZE_MAX)
  }

  /** No such block: pointer fields have a size, and size_t can count as many items as pb_size_t can. */
  ghost predicate Ample(fields: seq<Field>) {
    forall g, count: nat :: Reaches(fields, g) ==> !Unfit(g, count)
  }

  lemma SubReaches(f: Field)
    requires f.ltype.LSubmessage?
    ensures forall g :: Reaches(SubTable(f), g) ==> Reaches([f], g)
  {
    forall g | Reaches(SubTable(f), g) ensures Reaches([f], g) {
      if !f.atype.Pointer? && Within(f.sub, g) {
        assert [f][0] == f;
      }
    }
  }

  lemma RowReaches(fields: seq<Field>, k: nat)
    requires k < |fields|
    ensures forall g :: Reaches([fields[k]], g) ==> Reaches(fields, g)
  {
  }

  lemma ReachesItself(f: Field)
    ensures Reaches([f], f)
  {
    assert [f][0] == f;
  }

  // ---------------------------------------------------------------- refusals

  /** A request, by its number, that the allocator did not grant; or a block that was not asked for, because no
      request can express its size. */
  datatype Denial = Denied(request: nat, bytes: nat) | Oversized(f: Field, count: nat)

  /** How many requests there have been, and what was denied. */
  datatype Log = Log(requests: nat, denials: seq<Denial>)

  /** Between two moments requests were made and denials recorded, each denial for one of these requests or for a
      block of a row that the table leads to. */
  ghost predicate Grew(before: Log, after: Log, fields: seq<Field>) {
    && before.requests <= after.requests && before.denials <= after.denials
    && forall i :: |before.denials| <= i < |after.denials| ==>
         match after.denials[i]
         case Denied(request, _) => before.requests <= request < after.requests
         case Oversized(g, count) => Reaches(fields, g) && Unfit(g, count)
  }

  /** Something was denied in between. */
  predicate Excused(before: Log, after: Log) {
    |before.denials| < |after.denials|
  }

  lemma GrewStart(log: Log, fields: seq<Field>)
    ensures Grew(log, log, fields) && !Excused(log, log)
  {
  }

  lemma GrewThen(a: Log, b: Log, c: Log, fields: seq<Field>)
    requires Grew(a, b, fields) && Grew(b, c, fields)
    ensures Grew(a, c, fields) && (Excused(a, c) <==> Excused(a, b) || Excused(b, c))
  {
    forall i | |a.denials| <= i < |b.denials| ensures c.denials[i] == b.denials[i] {
      assert c.denials[..|b.denials|][i] == c.denials[i];
    }
  }

  lemma GrewWider(a: Log, b: Log, fields: seq<Field>, wider: seq<Field>)
    requires Grew(a, b, fields) && forall g :: Reaches(fields, g) ==> Reaches(wider, g)
    ensures Grew(a, b, wider)
  {
    hide Reaches, Unfit;
  }

  lemma DenialJustified(heap: Allocator, i: nat)
    requires heap.Valid() && i < |heap.denials| && heap.denials[i].Denied?
    ensures !heap.grants(heap.denials[i].request, heap.denials[i].bytes)
  {
    assert heap.denials[i] in heap.denials;
  }

  /** An allocator that grants everything denies nothing where every block has a size. */
  lemma NothingDenied(heap: Allocator, before: Log, fields: seq<Field>)
    requires heap.Valid() && Grew(before, heap.History(), fields)
    requires Ample(fields) && forall n, bytes: nat :: heap.grants(n, bytes)
    ensures !Excused(before, heap.History())
  {
    hide Reaches, Unfit, Allocator.Valid;
    if |before.denials| < |heap.denials| && heap.denials[|before.denials|].Denied? {
      DenialJustified(heap, |before.denials|);
    }
  }

  // ---------------------------------------------------------------- the allocator

  /** pb_realloc and pb_free. Which requests are granted is up to grants; a block that is moved or
      resized counts as a new one, so that a pointer to the old one is never taken for valid. */
  class Allocator {
    const grants: (nat, nat) -> bool
    var requests: nat
    var next: nat
    ghost var live: multiset<nat>

    ghost var denials: seq<Denial>

    /** Every live block is live once, and no request is on record as denied that was granted. */
    ghost predicate Valid()
      reads this
    {
      && (forall id :: id in live ==> id < next && live[id] == 1)
      && (forall d :: d in denials && d.Denied? ==> d.request < requests && !grants(d.request, d.bytes))
    }

    ghost function History(): Log
      reads this
    {
      Log(requests, denials)
    }

    constructor (grants: (nat, nat) -> bool)
      ensures Valid() && live == multiset{} && this.grants == grants && History() == Log(0, [])
    {
      this.grants := grants;
      requests, next, live, denials := 0, 0, multiset{}, [];
    }

    /** pb_realloc to that many bytes. */
    method Realloc(p: Pointer, bytes: nat) returns (block: Option<nat>)
      requires Valid() && (p.Block? ==> p.id in live)
      modifies this
      ensures Valid() && requests == old(requests) + 1
      ensures denials == old(denials) + if block.None? then [Denied(old(requests), bytes)] else []
      ensures block.Some? <==> grants(old(requests), bytes)
      ensures block.Some? ==> block.value !in old(live)
      ensures live == if block.None? then old(live)
                      else (if p.Block? then old(live) - multiset{p.id} else old(live)) + multiset{block.value}
    {
      requests := requests + 1;
      if !grants(requests - 1, bytes) {
        denials := denials + [Denied(requests - 1, bytes)];
        return None;
      }
      block := Some(next);
      live := (if p.Block? then live - multiset{p.id} else live) + multiset{next};
      next := next + 1;
    }

    /** pb_free: a block that is live, or NULL. */
    method Free(p: Pointer)
      requires Valid() && (p.Block? ==> p.id in live)
      modifies this
      ensures Valid() && live == if p.Block? then old(live) - multiset{p.id} else old(live)
      ensures History() == old(History())
    {
      if p.Block? {
        live := live - multiset{p.id};
      }
    }
  }

  // ---------------------------------------------------------------- allocate_field

  /** The items of a block after it was resized to n of them. */
  function Resized(items: seq<Item>, n: nat): (r: seq<Item>)
    ensures |r| == n
  {
    if n <= |items| then items[..n] else items + seq(n - |items|, _ => Junk)
  }

  function ItemsOfPointer(p: Pointer): seq<Item> {
    if p.Block? then p.items else []
  }

  /** The block itself, without what its items own. */
  function IdOf(p: Pointer): multiset<nat> {
    if p.Block? then multiset{p.id} else multiset{}
  }

  /** The test of allocate_field against an overflow of the product: it divides only when one of
      the factors has a bit in its upper half. */
  predicate SizeAccepted(dataSize: nat, arraySize: nat)
    requires arraySize > 0
  {
    !((dataSize >= SIZE_HALF || arraySize >= SIZE_HALF) && SIZE_MAX / arraySize < dataSize)
  }

  /** It lets a nonzero pair of sizes through exactly when their product fits in size_t. */
  lemma OverflowTestIsExact(dataSize: nat, arraySize: nat)
    requires 0 < arraySize
    ensures SizeAccepted(dataSize, arraySize) <==> arraySize * dataSize <= SIZE_MAX
  {
    if dataSize < SIZE_HALF && arraySize < SIZE_HALF {
      ProductOfHalves(dataSize, arraySize);
    } else {
      DivisionTest(SIZE_MAX, arraySize, dataSize);
    }
  }

  lemma ProductOfHalves(a: nat, b: nat)
    requires a < SIZE_HALF && b < SIZE_HALF
    ensures b * a <= SIZE_MAX
  {
    hide SIZE_MAX, SIZE_HALF;
    ProductBelow(a, b, SIZE_HALF - 1);
    SquareOfHalf();
  }

  lemma ProductBelow(a: nat, b: nat, h: nat)
    requires a <= h && b <= h
    ensures b * a <= h * h
  {
    assert b * a <= b * h <= h * h;
  }

  lemma SquareOfHalf()
    ensures (SIZE_HALF - 1) * (SIZE_HALF - 1) <= SIZE_MAX
  {
    if SIZE_HALF_BITS == 8 {
    } else if SIZE_HALF_BITS == 16 {
    }
  }

  lemma DivisionTest(m: nat, a: nat, d: nat)
    requires a > 0
    ensures m / a < d <==> a * d > m
  {
    var q := m / a;
    assert m == a * q + m % a;
    if q < d {
      assert a * d >= a * (q + 1) == a * q + a;
    } else {
      assert a * d <= a * q;
    }
  }

  /** A block for a block, or for none. */
  lemma TradedBlock(live: multiset<nat>, p: Pointer)
    requires p.Block? ==> p.id in live
    ensures Traded(live, IdOf(p), live, IdOf(p))
    ensures forall id: nat ::
      Traded(live, IdOf(p), (if p.Block? then live - multiset{p.id} else live) + multiset{id}, multiset{id})
  {
    forall id: nat
      ensures Traded(live, IdOf(p), (if p.Block? then live - multiset{p.id} else live) + multiset{id}, multiset{id})
    {
      var rest := if p.Block? then live - multiset{p.id} else live;
      assert rest + IdOf(p) == live;
      assert (rest + multiset{id}) + IdOf(p) == (rest + IdOf(p)) + multiset{id};
    }
  }

  method AllocateField(heap: Allocator, p: Pointer, dataSize: nat, arraySize: nat, ghost f: Field)
    returns (ok: bool, r: Pointer)
    requires heap.Valid() && (p.Block? ==> p.id in heap.live)
    modifies heap
    ensures heap.Valid()
    ensures ok <==>
      && dataSize > 0 && arraySize > 0 && arraySize * dataSize <= SIZE_MAX
      && heap.grants(old(heap.requests), arraySize * dataSize)
    ensures ok ==> r.Block? && r.items == Resized(ItemsOfPointer(p), arraySize)
    ensures Traded(old(heap.live), IdOf(p), heap.live, IdOf(r))
    ensures !ok ==> r == p && heap.live == old(heap.live)
    ensures if dataSize > 0 && arraySize > 0 && arraySize * dataSize <= SIZE_MAX then
              heap.History() == Log(old(heap.requests) + 1,
                old(heap.denials) + if ok then [] else [Denied(old(heap.requests), arraySize * dataSize)])
            else heap.History() == Log(old(heap.requests), old(heap.denials) + [Oversized(f, arraySize)])
    ensures ok <==> !Excused(old(heap.History()), heap.History())
    ensures (dataSize > 0 && arraySize > 0 && arraySize * dataSize <= SIZE_MAX) || Unfit(f, arraySize) ==>
              Grew(old(heap.History()), heap.History(), [f])
  {
    hide SizeAccepted, SIZE_MAX, Resized, Traded, Unfit, Reaches;
    r := p;
    ghost var live0 := heap.live;
    TradedBlock(live0, p);
    ReachesItself(f);
    if dataSize == 0 || arraySize == 0 {
      heap.denials := heap.denials + [Oversized(f, arraySize)];
      return false, r;
    }
    OverflowTestIsExact(dataSize, arraySize);
    if !SizeAccepted(dataSize, arraySize) {
      heap.denials := heap.denials + [Oversized(f, arraySize)];
      return false, r;
    }
    var block := heap.Realloc(p, arraySize * dataSize);
    if block.None? {
      return false, r;
    }
    ok, r := true, Block(block.value, Resized(ItemsOfPointer(p), arraySize));
  }

  // ---------------------------------------------------------------- pb_release

  /** What pb_release leaves of a struct: pointers are null, the counts that go with them zero, and
      everything else is as it was. */
  function Released(fields: seq<Field>, rows: seq<Row>): (r: seq<Row>)
    ensures |r| == |rows|
    decreases rows, 2
  {
    seq(|rows|, k requires 0 <= k < |rows| => if k < |fields| then ReleasedRow(fields[k], rows[k]) else rows[k])
  }

  function ReleasedRow(f: Field, row: Row): Row
    decreases row, 1
  {
    match row
    case Indirect(size, _) => Indirect(if f.htype.Repeated? then 0 else size, Null)
    case Inline(size, items) =>
      if f.ltype.LSubmessage? then
        Inline(size, seq(|items|, i requires 0 <= i < |items| => ReleasedItem(f, items[i])))
      else row
  }

  function ReleasedItem(f: Field, it: Item): Item
    decreases it, 3
  {
    if it.Struct? then Struct(Released(SubTable(f), it.rows)) else it
  }

  lemma RowKeeps(f: Field, row: Row)
    requires AllocatableField(f) && SoundRow(f, row)
    ensures var now := ReleasedRow(f, row);
            if f.atype.Pointer? then now == Indirect(if f.htype.Repeated? then 0 else row.size, Null)
            else if !f.ltype.LSubmessage? then now == row
            else
              && row.Inline? && |row.items| == 1 && row.items[0].Struct?
              && now == Inline(row.size, [Struct(Released(f.sub, row.items[0].rows))])
  {
    hide Sound, Released, Allocatable;
    if !f.atype.Pointer? && f.ltype.LSubmessage? {
      assert SoundItem(f, row.items[0]) && SubTable(f) == f.sub;
      assert ReleasedRow(f, row).items == [ReleasedItem(f, row.items[0])];
    }
  }

  /** Members that are no messages stay as they were, has_ flags and counts included; in a message inside the struct
      only pointers go; a pointer is null, and the count of an array behind one is zero. */
  lemma ReleasedKeeps(fields: seq<Field>, rows: seq<Row>, k: nat)
    requires Allocatable(fields) && Sound(fields, rows) && k < |fields|
    ensures var f, row, now := fields[k], rows[k], Released(fields, rows)[k];
            if f.atype.Pointer? then now == Indirect(if f.htype.Repeated? then 0 else row.size, Null)
            else if !f.ltype.LSubmessage? then now == row
            else
              && row.Inline? && |row.items| == 1 && row.items[0].Struct?
              && now == Inline(row.size, [Struct(Released(f.sub, row.items[0].rows))])
  {
    hide Sound, DistinctTags, Released, ReleasedRow, AllocatableField, SoundRow;
    RowsAt(fields, rows, k);
    RowKeeps(fields[k], rows[k]);
  }

  lemma RowsAt(fields: seq<Field>, rows: seq<Row>, k: nat)
    requires Allocatable(fields) && Sound(fields, rows) && k < |fields|
    ensures |rows| == |fields| && AllocatableField(fields[k]) && SoundRow(fields[k], rows[k])
    ensures Released(fields, rows)[k] == ReleasedRow(fields[k], rows[k])
  {
    hide AllocatableField, SoundRow, ReleasedRow;
  }

  /** A released struct is sound, owns nothing, and stays as it is when it is released again. */
  lemma {:induction false} ReleasedTwice(fields: seq<Field>, rows: seq<Row>)
    requires Allocatable(fields) && Sound(fields, rows)
    ensures var r := Released(fields, rows);
            && Sound(fields, r) && Owned(r) == multiset{} && Released(fields, r) == r
    decreases rows, 2
  {
    hide SoundRow, ReleasedRow, OwnedByRow, AllocatableField, DistinctTags;
    var r := Released(fields, rows);
    forall k | 0 <= k < |rows|
      ensures SoundRow(fields[k], r[k]) && OwnedByRow(r[k]) == multiset{} && ReleasedRow(fields[k], r[k]) == r[k]
    {
      RowReleasedTwice(fields[k], rows[k]);
    }
    NothingOwned(r);
    assert Released(fields, r) == r;
  }

  lemma {:induction false} RowReleasedTwice(f: Field, row: Row)
    requires AllocatableField(f) && SoundRow(f, row)
    ensures var r := ReleasedRow(f, row);
            && SoundRow(f, r) && OwnedByRow(r) == multiset{} && ReleasedRow(f, r) == r
    decreases row, 1
  {
    hide Sound, Released, Allocatable;
    if row.Inline? {
      if f.ltype.LSubmessage? {
        var it := row.items[0];
        assert SoundItem(f, it);
        ReleasedTwice(SubTable(f), it.rows);
        var r := ReleasedRow(f, row);
        assert |r.items| == 1 && r.items[0] == ReleasedItem(f, it) == Struct(Released(SubTable(f), it.rows));
        assert OwnedByItems(r.items) == OwnedByItem(r.items[0]) + OwnedByItems([]);
        var again := ReleasedRow(f, r);
        assert |again.items| == 1 && again.items[0] == ReleasedItem(f, r.items[0]) == r.items[0];
        assert again.items == r.items;
      } else {
        RawOwnsNothing(row.items);
      }
    }
  }

  lemma {:induction false} NothingOwned(rows: seq<Row>)
    requires forall k :: 0 <= k < |rows| ==> OwnedByRow(rows[k]) == multiset{}
    ensures Owned(rows) == multiset{}
  {
    hide OwnedByRow;
    if rows != [] {
      NothingOwned(rows[1..]);
    }
  }
}
