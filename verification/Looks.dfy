/** What it means that two messages look the same: row by row, for what generated code may look at. */
module Looks {
  import opened Platform
  import opened Descriptor
  import opened Decoding
  import opened Encoding
  import opened Typing
  import opened RoundTrip
  import opened WireFormat

  /** Buffers that hold the same string. */
  ghost predicate SameText(x: seq<byte>, y: seq<byte>) {
    exists n :: 0 <= n <= |x| && n <= |y| && x[..n] == y[..n] && 0 !in x[..n] &&
      (n < |x| ==> x[n] == 0) && (n < |y| ==> y[n] == 0)
  }

  /** Both true or both false, the same text, messages whose rows look the same; otherwise the same value. */
  ghost predicate Alike(f: Field, v: Value, w: Value)
    decreases f, 0
  {
    match f.ltype
    case LBool => v.Number? && w.Number? && (v.n == 0 <==> w.n == 0)
    case LString => v.Blob? && w.Blob? && SameText(v.bs, w.bs)
    case LSubmessage => v.Message? && w.Message? && AlikeMessage(f.sub, v.slots, w.slots)
    case _ => v == w
  }

  ghost predicate AlikeItems(f: Field, xs: seq<Value>, ys: seq<Value>)
    decreases f, 1
  {
    |xs| == |ys| && forall i :: 0 <= i < |xs| ==> Alike(f, xs[i], ys[i])
  }

  /** The items of an array that its count covers. */
  function Counted(count: nat, items: seq<Value>): seq<Value> {
    if count <= |items| then items[..count] else items
  }

  /** As present, as many, the same member, and the values of those alike. */
  ghost predicate AlikeSlot(fields: seq<Field>, k: nat, s: Slot, t: Slot)
    requires k < |fields|
    decreases fields, 1
  {
    var f := fields[k];
    match s
    case One(v) => t.One? && Alike(f, v, t.v)
    case Opt(has, v) => t.Opt? && has == t.has && (has ==> Alike(f, v, t.v))
    case Arr(count, items) =>
      t.Arr? && count == t.count && AlikeItems(f, Counted(count, items), Counted(count, t.items))
    case Fixed(items) => t.Fixed? && AlikeItems(f, items, t.items)
    case Union(which, v) =>
      && t.Union? && which == t.which
      && forall j :: 0 <= j < |fields| && Home(fields, j) == k && fields[j].tag == which ==> Alike(fields[j], v, t.v)
    case Hole => t.Hole?
  }

  ghost predicate AlikeMessage(fields: seq<Field>, m: seq<Slot>, n: seq<Slot>)
    decreases fields, 2
  {
    |m| == |n| == |fields| && forall k :: 0 <= k < |fields| ==> AlikeSlot(fields, k, m[k], n[k])
  }

  lemma TextExactly(x: seq<byte>, y: seq<byte>)
    ensures UpToNul(x) == UpToNul(y) <==> SameText(x, y)
  {
    if SameText(x, y) {
      var n :| 0 <= n <= |x| && n <= |y| && x[..n] == y[..n] && 0 !in x[..n] &&
        (n < |x| ==> x[n] == 0) && (n < |y| ==> y[n] == 0);
      FirstNul(x, n);
      FirstNul(y, n);
    }
    if UpToNul(x) == UpToNul(y) {
      var n := |UpToNul(x)|;
      assert x[..n] == y[..n];
    }
  }

  lemma {:induction false} ValueExactly(f: Field, v: Value, w: Value)
    requires WellFormedField(f) && TypedValue(f, v) && TypedValue(f, w)
    ensures SeenValue(f, v) == SeenValue(f, w) <==> Alike(f, v, w)
    decreases f, 0
  {
    hide TypedMessage, WellFormed, SeenMessage, AlikeMessage, SameText, UpToNul, SignedFits,
      UnsignedFits;
    if f.ltype.LString? {
      TextExactly(v.bs, w.bs);
    } else if f.ltype.LSubmessage? {
      LooksExactly(f.sub, v.slots, w.slots);
    }
  }

  lemma {:induction false} ItemsExactly(f: Field, xs: seq<Value>, ys: seq<Value>)
    requires WellFormedField(f)
    requires forall i :: 0 <= i < |xs| ==> TypedValue(f, xs[i])
    requires forall i :: 0 <= i < |ys| ==> TypedValue(f, ys[i])
    ensures SeenItems(f, xs) == SeenItems(f, ys) <==> AlikeItems(f, xs, ys)
    decreases f, 1
  {
    hide SeenValue, Alike, TypedValue, WellFormedField;
    if |xs| == |ys| {
      forall i | 0 <= i < |xs| ensures SeenItems(f, xs)[i] == SeenItems(f, ys)[i] <==> Alike(f, xs[i], ys[i]) {
        ValueExactly(f, xs[i], ys[i]);
      }
      if SeenItems(f, xs) == SeenItems(f, ys) {
        forall i | 0 <= i < |xs| ensures Alike(f, xs[i], ys[i]) {
          assert SeenItems(f, xs)[i] == SeenItems(f, ys)[i];
        }
      }
    }
  }

  lemma {:induction false} UnionExactly(fields: seq<Field>, k: nat, s: Slot, t: Slot)
    requires WellFormed(fields) && k < |fields| && s.Union? && t.Union? && Home(fields, k) == k
    requires TypedSlot(fields, k, s) && TypedSlot(fields, k, t)
    ensures SeenSlot(fields, k, s) == SeenSlot(fields, k, t) <==> AlikeSlot(fields, k, s, t)
    decreases fields, 0
  {
    hide SeenValue, Alike, TypedValue, WellFormedField, Home, FindTag;
    if s.which == t.which {
      var found := FindTag(fields, s.which);
      if found.Some? && Home(fields, found.value) == k {
        var j := found.value;
        FieldOf(fields, j);
        ValueExactly(fields[j], s.v, t.v);
        forall i | 0 <= i < |fields| && fields[i].tag == s.which ensures i == j { SameTag(fields, i, j); }
      } else {
        forall j | 0 <= j < |fields| && Home(fields, j) == k ensures fields[j].tag != s.which {
          FieldOf(fields, j);
          GoodSizeOf(fields[j]);
          FindTagUnique(fields, j);
        }
      }
    }
  }

  lemma {:induction false} SlotExactly(fields: seq<Field>, k: nat, s: Slot, t: Slot)
    requires WellFormed(fields) && k < |fields|
    requires TypedSlot(fields, k, s) && TypedSlot(fields, k, t)
    ensures SeenSlot(fields, k, s) == SeenSlot(fields, k, t) <==> AlikeSlot(fields, k, s, t)
    decreases fields, 1
  {
    hide SeenValue, Alike, TypedValue, WellFormedField, SeenItems, AlikeItems;
    FieldOf(fields, k);
    if s.Union? && t.Union? {
      UnionExactly(fields, k, s, t);
    } else if (s.One? && t.One?) || (s.Opt? && t.Opt? && s.has && t.has) {
      ValueExactly(fields[k], s.v, t.v);
    } else if s.Arr? && t.Arr? {
      ItemsExactly(fields[k], Counted(s.count, s.items), Counted(t.count, t.items));
    } else if s.Fixed? && t.Fixed? {
      ItemsExactly(fields[k], s.items, t.items);
    }
  }

  /** Two messages look the same exactly if they are alike in every row. */
  lemma {:induction false} LooksExactly(fields: seq<Field>, m: seq<Slot>, n: seq<Slot>)
    requires WellFormed(fields) && TypedMessage(fields, m) && TypedMessage(fields, n)
    ensures SeenMessage(fields, m) == SeenMessage(fields, n) <==> AlikeMessage(fields, m, n)
    decreases fields, 2
  {
    hide SeenSlot, AlikeSlot, TypedSlot, WellFormed;
    forall k | 0 <= k < |fields|
      ensures SeenMessage(fields, m)[k] == SeenMessage(fields, n)[k] <==> AlikeSlot(fields, k, m[k], n[k])
    {
      SlotExactly(fields, k, m[k], n[k]);
    }
    if SeenMessage(fields, m) == SeenMessage(fields, n) {
      forall k | 0 <= k < |fields| ensures AlikeSlot(fields, k, m[k], n[k]) {
        assert SeenMessage(fields, m)[k] == SeenMessage(fields, n)[k];
      }
    }
  }

  /** The round trip in these terms. */
  lemma ComesBackAlike(fields: seq<Field>, m: seq<Slot>, prior: seq<Slot>)
    requires WellFormed(fields) && TypedMessage(fields, m) && StorableMessage(fields, m) && TypedMessage(fields, prior)
    ensures EncMessage(fields, m).ok
    ensures var r := Dec(fields, prior, EncMessage(fields, m).out);
            r.Ok? && r.rest == [] && AlikeMessage(fields, r.value, m)
  {
    hide DecNoInit, WellFormed, TypedMessage, StorableMessage, SeenMessage, EncMessage, SetDefaults, AlikeMessage;
    DecodeUndoesEncode(fields, m, prior);
    DefaultsTyped(fields, prior);
    NoInitTyped(fields, SetDefaults(fields, prior), EncMessage(fields, m).out);
    LooksExactly(fields, Dec(fields, prior, EncMessage(fields, m).out).value, m);
  }
}
