/** How often encode_field runs on one field of a message, through the two passes of
    pb_encode_submessage at every level. */
module Cost {
  import opened Descriptor
  import opened Encoding

  /* A field is named by the way down to it: a row; then the number of an item of that row, the
     item being a message, and a way down in there. */

  /** The items of a row that are encoded. */
  function ItemsSent(f: Field, s: Slot): seq<Value> {
    match f.htype
    case Required => [ValueOf(s)]
    case Optional => if (if s.Opt? then s.has else !IsDefaultValue(f, ValueOf(s))) then [ValueOf(s)] else []
    case Repeated =>
      var count := if s.Arr? then s.count else f.arraySize;
      if count <= |ItemsOf(s)| then ItemsOf(s)[..count] else []
    case Oneof => if s.Union? && s.which == f.tag then [s.v] else []
  }

  /** The way names a field that is reached when the message is encoded. */
  predicate Reached(fields: seq<Field>, slots: seq<Slot>, way: seq<nat>)
    decreases |way|
  {
    && way != [] && way[0] < |fields|
    && (|way| > 1 ==>
      var f := fields[way[0]];
      var items := ItemsSent(f, SlotAt(slots, Home(fields, way[0])));
      f.ltype.LSubmessage? && way[1] < |items| && Reached(f.sub, SlotsOf(items[way[1]]), way[2..]))
  }

  /** How many messages the field lies in, besides the outermost. */
  function Depth(way: seq<nat>): nat {
    |way| / 2
  }

  /** How often pb_encode runs encode_field there, on a writing or a sizing stream. */
  function Runs(fields: seq<Field>, slots: seq<Slot>, way: seq<nat>, writing: bool): nat
    decreases fields, 2
  {
    if way == [] || way[0] >= |fields| then 0
    else RunsOfRow(fields[way[0]], SlotAt(slots, Home(fields, way[0])), way[1..], writing)
  }

  /** One run for the row itself, and those of its messages. */
  function RunsOfRow(f: Field, s: Slot, way: seq<nat>, writing: bool): nat
    decreases f, 3
  {
    if way == [] then 1 else RunsOfItems(f, ItemsSent(f, s), way, writing)
  }

  function RunsOfItems(f: Field, items: seq<Value>, way: seq<nat>, writing: bool): nat
    decreases f, 2
  {
    if way == [] || way[0] >= |items| then 0 else RunsOfValue(f, items[way[0]], way[1..], writing)
  }

  /** pb_encode_submessage sizes a message, and on a writing stream then writes it. */
  function RunsOfValue(f: Field, v: Value, way: seq<nat>, writing: bool): nat
    decreases f, 1
  {
    if f.ltype.LSubmessage? then RunsOfSubmessage(f.sub, SlotsOf(v), way, writing) else 0
  }

  function RunsOfSubmessage(fields: seq<Field>, slots: seq<Slot>, way: seq<nat>, writing: bool): nat
    decreases fields, 3
  {
    Runs(fields, slots, way, false) + if writing then Runs(fields, slots, way, true) else 0
  }

  lemma RunsBelow(f: Field, items: seq<Value>, way: seq<nat>, writing: bool)
    requires way != []
    ensures RunsOfItems(f, items, way, writing)
         == if f.ltype.LSubmessage? && way[0] < |items|
            then Runs(f.sub, SlotsOf(items[way[0]]), way[1..], false)
               + (if writing then Runs(f.sub, SlotsOf(items[way[0]]), way[1..], true) else 0)
            else 0
  {
    hide Runs;
    if f.ltype.LSubmessage? && way[0] < |items| {
      var sub := SlotsOf(items[way[0]]);
      assert RunsOfValue(f, items[way[0]], way[1..], writing) == RunsOfSubmessage(f.sub, sub, way[1..], writing);
    }
  }

  /** A sizing stream takes one run for each field, a writing stream one more for each message the
      field lies in: nesting costs a factor of the depth, never one of two to the depth. */
  lemma {:induction false} TwoPassCost(fields: seq<Field>, slots: seq<Slot>, way: seq<nat>)
    ensures Runs(fields, slots, way, false) == if Reached(fields, slots, way) then 1 else 0
    ensures Runs(fields, slots, way, true) == if Reached(fields, slots, way) then Depth(way) + 1 else 0
    decreases |way|
  {
    hide ItemsSent;
    if |way| > 1 && way[0] < |fields| {
      var f := fields[way[0]];
      var items := ItemsSent(f, SlotAt(slots, Home(fields, way[0])));
      assert way[1..] != [] && way[1..][0] == way[1] && way[1..][1..] == way[2..];
      RunsBelow(f, items, way[1..], false);
      RunsBelow(f, items, way[1..], true);
      if f.ltype.LSubmessage? && way[1] < |items| {
        TwoPassCost(f.sub, SlotsOf(items[way[1]]), way[2..]);
      }
    }
  }

  /** What is left of the way below item i, or nothing. */
  function Below(way: seq<nat>, i: nat): seq<nat> {
    if way != [] && way[0] == i then way[1..] else []
  }

  lemma RunsOfItem(f: Field, items: seq<Value>, i: nat, way: seq<nat>, writing: bool)
    requires i < |items|
    ensures RunsOfValue(f, items[i], Below(way, i), writing)
         == if way != [] && way[0] == i then RunsOfItems(f, items, way, writing) else 0
  {
    assert RunsOfSubmessage(f.sub, SlotsOf(items[i]), [], writing) == 0;
  }

  lemma RunsOfFew(f: Field, items: seq<Value>, way: seq<nat>, writing: bool)
    ensures items == [] ==> RunsOfItems(f, items, way, writing) == 0
    ensures |items| == 1 ==> RunsOfItems(f, items, way, writing) == RunsOfValue(f, items[0], Below(way, 0), writing)
    ensures !f.ltype.LSubmessage? ==> RunsOfItems(f, items, way, writing) == 0
  {
    if items != [] {
      RunsOfItem(f, items, 0, way, writing);
    }
  }

  /** The runs on the watched field that row k accounts for. */
  function RunsAt(fields: seq<Field>, slots: seq<Slot>, k: nat, way: seq<nat>, writing: bool): nat {
    if way != [] && way[0] == k then Runs(fields, slots, way, writing) else 0
  }

  lemma RunsAtRow(fields: seq<Field>, slots: seq<Slot>, k: nat, way: seq<nat>, writing: bool)
    requires k < |fields|
    ensures RunsAt(fields, slots, k, way, writing)
         == (if way == [k] then 1 else 0)
          + RunsOfItems(fields[k], ItemsSent(fields[k], SlotAt(slots, Home(fields, k))), Below(way, k), writing)
  {
    hide ItemsSent, RunsOfValue, Home;
    var f, s := fields[k], SlotAt(slots, Home(fields, k));
    assert RunsOfItems(f, ItemsSent(f, s), [], writing) == 0;
    if way != [] && way[0] == k {
      assert way == [k] <==> way[1..] == [];
      assert RunsAt(fields, slots, k, way, writing) == RunsOfRow(f, s, way[1..], writing);
    }
  }

  lemma NoRuns(fields: seq<Field>, slots: seq<Slot>, way: seq<nat>, writing: bool)
    ensures fields == [] || way == [] || way[0] >= |fields| ==> Runs(fields, slots, way, writing) == 0
  {
  }
}
