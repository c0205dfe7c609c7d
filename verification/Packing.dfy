/** A repeated scalar field may arrive in packed records, in single records, or in any mixture. */
module Packing {
  import opened Platform
  import opened Descriptor
  import opened Encoding
  import opened Decoding
  import opened RoundTrip

  datatype Piece = Packed(items: seq<Value>) | Single(item: Value)

  function ItemsOfPiece(p: Piece): seq<Value> {
    match p case Packed(items) => items case Single(v) => [v]
  }

  function Flatten(pieces: seq<Piece>): seq<Value> {
    if pieces == [] then [] else ItemsOfPiece(pieces[0]) + Flatten(pieces[1..])
  }

  /** The wire form of a piece of the field f. */
  function PieceBytes(f: Field, p: Piece): seq<byte> {
    match p
    case Packed(items) => TagBytes(WT_STRING, f.tag) + StringBytes(InOrder(ItemParts(f, items)).out)
    case Single(v) => TagBytes(WireType(f.ltype), f.tag) + EncValue(f, v).out
  }

  function Wire(f: Field, pieces: seq<Piece>): seq<byte> {
    if pieces == [] then [] else PieceBytes(f, pieces[0]) + Wire(f, pieces[1..])
  }

  predicate GoodPiece(f: Field, p: Piece) {
    && (forall i :: 0 <= i < |ItemsOfPiece(p)| ==> TypedValue(f, ItemsOfPiece(p)[i]))
    && (p.Packed? ==> |InOrder(ItemParts(f, p.items)).out| < TWO_32)
  }

  /** What one piece does to the array that has a so far. */
  lemma PieceRow(f: Field, a: Filled, p: Piece, rest: seq<byte>)
    requires Packable(f.ltype) && GoodSize(f.ltype, f.dataSize) && a.count <= |a.items| == f.arraySize
    requires GoodPiece(f, p)
    ensures var wireType := if p.Packed? then WT_STRING else WireType(f.ltype);
            var payload := if p.Packed? then StringBytes(InOrder(ItemParts(f, p.items)).out)
                else EncValue(f, p.item).out;
            DecRepeated(f, wireType, a, payload + rest)
            == if a.count + |ItemsOfPiece(p)| <= f.arraySize then Ok(Append(a, SeenItems(f, ItemsOfPiece(p))), rest)
                else Fail
  {
    hide DecScalar, DecDelimited, DecPacked, EncValue, TypedValue, ItemParts, InOrder, StringBytes, SeenValue;
    match p {
      case Packed(items) =>
        assert ItemsOfPiece(p) == items;
        forall i | 0 <= i < |items| ensures TypedValue(f, items[i]) { assert TypedValue(f, ItemsOfPiece(p)[i]); }
        PackedRoundTrip(f, a, items);
        DelimitedRoundTrip(InOrder(ItemParts(f, items)).out, rest);
      case Single(v) =>
        assert TypedValue(f, ItemsOfPiece(p)[0]);
        ScalarRoundTrip(f, v, rest);
        if a.count < f.arraySize {
          assert SeenItems(f, [v]) == [SeenValue(f, v)];
          assert a.items[a.count := SeenValue(f, v)] == a.items[..a.count] + [SeenValue(f, v)] + a.items[a.count + 1..];
        }
    }
  }

  lemma PieceTurn(fields: seq<Field>, k: nat, st: State, a: Filled, p: Piece, rest: seq<byte>)
    requires WellFormed(fields) && k < |fields| == |st.slots| && fields[k].htype.Repeated? && Packable(fields[k].ltype)
    requires a.count <= |a.items| == fields[k].arraySize && GoodPiece(fields[k], p)
    ensures DecLoop(fields, WithArray(fields, k, st, a), PieceBytes(fields[k], p) + rest)
         == if a.count + |ItemsOfPiece(p)| <= fields[k].arraySize
            then DecLoop(fields, WithArray(fields, k, st, Append(a, SeenItems(fields[k], ItemsOfPiece(p)))), rest)
            else Broken
  {
    hide DecRow, DecTurn, DecRepeated, TagBytes, StringBytes, ItemParts, InOrder, EncValue, WithArray, GoodPiece,
      SeenItems, WellFormed, Append, ItemsOfPiece;
    var f := fields[k];
    FieldOf(fields, k);
    GoodSizeOf(f);
    var wireType := if p.Packed? then WT_STRING else WireType(f.ltype);
    var payload := if p.Packed? then StringBytes(InOrder(ItemParts(f, p.items)).out) else EncValue(f, p.item).out;
    PieceRow(f, a, p, rest);
    assert PieceBytes(f, p) + rest == TagBytes(wireType, f.tag) + (payload + rest);
    RecordTurn(fields, k, wireType, WithArray(fields, k, st, a), payload + rest);
    TagNotEmpty(wireType, f.tag);
    if a.count + |ItemsOfPiece(p)| <= f.arraySize {
      ArrayRow(fields, k, wireType, st, a, payload + rest, Append(a, SeenItems(f, ItemsOfPiece(p))), rest);
    } else {
      ArrayRowFails(fields, k, wireType, st, a, payload + rest);
    }
  }

  lemma ArrayRowFails(fields: seq<Field>, k: nat, wireType: nat, st: State, a: Filled, bs: seq<byte>)
    requires k < |fields| == |st.slots| && fields[k].htype.Repeated?
    requires DecRepeated(fields[k], wireType, a, bs).Fail?
    ensures DecRow(fields, k, wireType, WithArray(fields, k, st, a), bs) == Error
  {
    hide DecRepeated;
  }

  /** However a sequence of elements is split into packed and single records, it is appended in
      order, and refused exactly when it overflows the array. */
  lemma {:induction false} SplitDoesNotMatter(fields: seq<Field>, k: nat, st: State, a: Filled, pieces: seq<Piece>)
    requires WellFormed(fields) && k < |fields| == |st.slots| && fields[k].htype.Repeated? && Packable(fields[k].ltype)
    requires a.count <= |a.items| == fields[k].arraySize
    requires forall i :: 0 <= i < |pieces| ==> GoodPiece(fields[k], pieces[i])
    ensures DecLoop(fields, WithArray(fields, k, st, a), Wire(fields[k], pieces))
         == if a.count + |Flatten(pieces)| <= fields[k].arraySize
            then Ran(WithArray(fields, k, st, Append(a, SeenItems(fields[k], Flatten(pieces)))), [], false)
            else Broken
    decreases |pieces|
  {
    hide DecTurn, WithArray, GoodPiece, SeenValue, WellFormed, PieceBytes, ItemsOfPiece;
    var f := fields[k];
    if pieces == [] {
      assert Append(a, SeenItems(f, [])) == a;
    } else {
      var p := pieces[0];
      PieceTurn(fields, k, st, a, p, Wire(f, pieces[1..]));
      if a.count + |ItemsOfPiece(p)| <= f.arraySize {
        SplitDoesNotMatter(fields, k, st, Append(a, SeenItems(f, ItemsOfPiece(p))), pieces[1..]);
        if a.count + |Flatten(pieces)| <= f.arraySize {
          AppendTwice(f, a, ItemsOfPiece(p), Flatten(pieces[1..]));
        }
      }
    }
  }

  lemma AppendTwice(f: Field, a: Filled, x: seq<Value>, y: seq<Value>)
    requires a.count + |x| + |y| <= |a.items|
    ensures Append(Append(a, SeenItems(f, x)), SeenItems(f, y)) == Append(a, SeenItems(f, x + y))
  {
    hide SeenItems, Append;
    SeenConcat(f, x, y);
    AppendConcat(a, SeenItems(f, x), SeenItems(f, y));
  }

  lemma SeenConcat(f: Field, x: seq<Value>, y: seq<Value>)
    ensures SeenItems(f, x + y) == SeenItems(f, x) + SeenItems(f, y)
  {
    hide SeenValue;
  }

  lemma AppendConcat(a: Filled, x: seq<Value>, y: seq<Value>)
    requires a.count + |x| + |y| <= |a.items|
    ensures Append(Append(a, x), y) == Append(a, x + y)
  {
    var b := Append(a, x);
    assert b.items[..b.count] == a.items[..a.count] + x;
    assert b.items[b.count + |y|..] == a.items[a.count + |x| + |y|..];
  }

  /** So two splits of the same elements have the same outcome. */
  lemma SplitsAgree(fields: seq<Field>, k: nat, st: State, a: Filled, left: seq<Piece>, right: seq<Piece>)
    requires WellFormed(fields) && k < |fields| == |st.slots| && fields[k].htype.Repeated? && Packable(fields[k].ltype)
    requires a.count <= |a.items| == fields[k].arraySize && Flatten(left) == Flatten(right)
    requires forall i :: 0 <= i < |left| ==> GoodPiece(fields[k], left[i])
    requires forall i :: 0 <= i < |right| ==> GoodPiece(fields[k], right[i])
    ensures DecLoop(fields, WithArray(fields, k, st, a), Wire(fields[k], left))
         == DecLoop(fields, WithArray(fields, k, st, a), Wire(fields[k], right))
  {
    hide DecLoop, WithArray, GoodPiece, WellFormed, Wire;
    SplitDoesNotMatter(fields, k, st, a, left);
    SplitDoesNotMatter(fields, k, st, a, right);
  }

  lemma FirstPiece(fields: seq<Field>, k: nat, st: State, pieces: seq<Piece>)
    requires WellFormed(fields) && TypedMessage(fields, st.slots) && k < |fields| == |st.slots| && pieces != []
    requires IsFixedCount(fields[k]) && FixedDone(fields, st) && st.fixedField != Some(k)
    ensures DecLoop(fields, st, Wire(fields[k], pieces))
         == DecLoop(fields, WithArray(fields, k, st, Filled(ItemsOf(st.slots[k]), 0)), Wire(fields[k], pieces))
  {
    hide DecRow, DecTurn, TagBytes, StringBytes, ItemParts, InOrder, EncValue, WithArray, WellFormedField, TypedValue,
      FixedDone, DistinctTags;
    var f, p := fields[k], pieces[0];
    FieldOf(fields, k);
    assert TypedSlot(fields, k, st.slots[k]);
    var a := Filled(ItemsOf(st.slots[k]), 0);
    var wireType := if p.Packed? then WT_STRING else WireType(f.ltype);
    var payload := if p.Packed? then StringBytes(InOrder(ItemParts(f, p.items)).out) else EncValue(f, p.item).out;
    var bs := payload + Wire(f, pieces[1..]);
    assert Wire(f, pieces) == TagBytes(wireType, f.tag) + bs;
    TagNotEmpty(wireType, f.tag);
    RecordTurn(fields, k, wireType, st, bs);
    RecordTurn(fields, k, wireType, WithArray(fields, k, st, a), bs);
    FirstTurnOfArray(fields, k, wireType, st, bs);
  }

  /** Records of an array of fixed count, however they are split, make a complete message exactly if there are none or
      they have all of its elements. */
  lemma FixedCountExactly(fields: seq<Field>, k: nat, m: seq<Slot>, pieces: seq<Piece>)
    requires WellFormed(fields) && TypedMessage(fields, m) && k < |fields| == |m|
    requires fields[k].htype.Repeated? && fields[k].sizeOffset == 0 && Packable(fields[k].ltype)
    requires forall i :: 0 <= i < |fields| ==> !fields[i].htype.Required?
    requires forall i :: 0 <= i < |pieces| ==> GoodPiece(fields[k], pieces[i])
    ensures DecNoInit(fields, m, Wire(fields[k], pieces)).Ok? <==>
      pieces == [] || |Flatten(pieces)| == fields[k].arraySize
  {
    hide DecLoop, WithArray, GoodPiece, WellFormed, TypedValue, SeenItems, Append;
    var f, st := fields[k], Start(m);
    assert TypedSlot(fields, k, m[k]);
    var a := Filled(ItemsOf(m[k]), 0);
    if pieces == [] {
      EmptyRun(fields, m, []);
    } else {
      FirstPiece(fields, k, st, pieces);
      SplitDoesNotMatter(fields, k, st, a, pieces);
      if |Flatten(pieces)| <= f.arraySize {
        FixedEnd(fields, k, st, Append(a, SeenItems(f, Flatten(pieces))));
        AppendCount(a, SeenItems(f, Flatten(pieces)));
      }
    }
  }

  lemma AppendCount(a: Filled, items: seq<Value>)
    requires a.count + |items| <= |a.items|
    ensures Append(a, items).count == a.count + |items|
  {
  }

  lemma FixedEnd(fields: seq<Field>, k: nat, st: State, a: Filled)
    requires k < |fields| == |st.slots| && IsFixedCount(fields[k])
    requires forall i :: 0 <= i < |fields| ==> !fields[i].htype.Required?
    ensures Complete(fields, WithArray(fields, k, st, a)) <==> a.count == fields[k].arraySize
  {
  }
}
