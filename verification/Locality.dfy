/** No decoder looks past what it consumes: what a record decodes to does not depend on what
    follows it. */
module Locality {
  import opened Platform
  import opened Varint
  import opened Descriptor
  import opened Encoding
  import opened Decoding

  lemma {:induction false} VarintEndLocal(bs: seq<byte>, c: seq<byte>)
    requires VarintEnd(bs).Some?
    ensures VarintEnd(bs + c) == VarintEnd(bs)
  {
    assert (bs + c)[0] == bs[0];
    if bs[0] >= 128 {
      assert (bs + c)[1..] == bs[1..] + c;
      VarintEndLocal(bs[1..], c);
    }
  }

  lemma TakeLocal(bs: seq<byte>, n: nat, c: seq<byte>)
    requires n <= |bs|
    ensures (bs + c)[..n] == bs[..n] && (bs + c)[n..] == bs[n..] + c
  {
  }

  lemma VarintLocal(bs: seq<byte>, c: seq<byte>)
    requires DecVarint(bs).Ok?
    ensures DecVarint(bs + c) == Ok(DecVarint(bs).value, DecVarint(bs).rest + c)
  {
    hide VarintEnd, Groups;
    VarintEndLocal(bs, c);
    TakeLocal(bs, VarintEnd(bs).value, c);
  }

  lemma {:induction false} Dec32TailLocal(bs: seq<byte>, bitpos: nat, result: nat, c: seq<byte>)
    requires result < TWO_32 && bitpos < FAST8_MODULUS && Dec32Tail(bs, bitpos, result).Ok?
    ensures Dec32Tail(bs + c, bitpos, result)
         == Ok(Dec32Tail(bs, bitpos, result).value, Dec32Tail(bs, bitpos, result).rest + c)
    decreases |bs|
  {
    hide Or32, AddFast8;
    var b := bs[0];
    assert (bs + c)[0] == b && (bs + c)[1..] == bs[1..] + c;
    if b >= 128 {
      var result' := if bitpos >= 32 then result else Or32(result, b, bitpos);
      Dec32TailLocal(bs[1..], AddFast8(bitpos), result', c);
    }
  }

  lemma Varint32Local(bs: seq<byte>, c: seq<byte>)
    requires DecVarint32(bs).Ok?
    ensures DecVarint32(bs + c) == Ok(DecVarint32(bs).value, DecVarint32(bs).rest + c)
  {
    hide Dec32Tail;
    assert (bs + c)[0] == bs[0] && (bs + c)[1..] == bs[1..] + c;
    if bs[0] >= 128 {
      Dec32TailLocal(bs[1..], 7, bs[0] % 128, c);
    }
  }

  lemma DelimitedLocal(bs: seq<byte>, c: seq<byte>)
    requires DecDelimited(bs).Ok?
    ensures DecDelimited(bs + c) == Ok(DecDelimited(bs).value, DecDelimited(bs).rest + c)
  {
    hide DecVarint32;
    Varint32Local(bs, c);
    TakeLocal(DecVarint32(bs).rest, DecVarint32(bs).value, c);
  }

  lemma SkipStringLocal(bs: seq<byte>, c: seq<byte>)
    requires SkipString(bs).Ok?
    ensures SkipString(bs + c) == Ok(SkipString(bs).value, SkipString(bs).rest + c)
  {
    hide DecVarint32, WrapSize;
    Varint32Local(bs, c);
    TakeLocal(DecVarint32(bs).rest, WrapSize(DecVarint32(bs).value), c);
  }

  lemma SkipLocal(wireType: nat, bs: seq<byte>, c: seq<byte>)
    requires SkipField(wireType, bs).Ok?
    ensures SkipField(wireType, bs + c) == Ok(SkipField(wireType, bs).value, SkipField(wireType, bs).rest + c)
  {
    hide VarintEnd, SkipString;
    if wireType == WT_VARINT {
      VarintEndLocal(bs, c);
      TakeLocal(bs, VarintEnd(bs).value, c);
    } else if wireType == WT_STRING {
      SkipStringLocal(bs, c);
    } else {
      TakeLocal(bs, if wireType == WT_64BIT then 8 else 4, c);
    }
  }

  lemma ScalarLocal(f: Field, bs: seq<byte>, c: seq<byte>)
    requires DecScalar(f, bs).Ok?
    ensures DecScalar(f, bs + c) == Ok(DecScalar(f, bs).value, DecScalar(f, bs).rest + c)
  {
    hide DecVarint, DecVarint32, Narrow, FromLittleEndian;
    match f.ltype {
      case LBool => Varint32Local(bs, c);
      case LVarint | LUVarint | LSVarint => VarintLocal(bs, c);
      case LFixed32 => TakeLocal(bs, 4, c);
      case LFixed64 => TakeLocal(bs, 8, c);
      case _ =>
    }
  }

  lemma ValueLocal(f: Field, prior: Value, bs: seq<byte>, c: seq<byte>)
    requires DecValue(f, prior, bs).Ok?
    ensures DecValue(f, prior, bs + c) == Ok(DecValue(f, prior, bs).value, DecValue(f, prior, bs).rest + c)
  {
    hide DecScalar, DecDelimited, DecNoInit, StoreBlob, Embedded;
    if Packable(f.ltype) {
      ScalarLocal(f, bs, c);
    } else {
      DelimitedLocal(bs, c);
    }
  }

  lemma RepeatedLocal(f: Field, wireType: nat, a: Filled, bs: seq<byte>, c: seq<byte>)
    requires DecRepeated(f, wireType, a, bs).Ok?
    ensures DecRepeated(f, wireType, a, bs + c)
         == Ok(DecRepeated(f, wireType, a, bs).value, DecRepeated(f, wireType, a, bs).rest + c)
  {
    hide DecPacked, DecDelimited, DecValue;
    if wireType == WT_STRING && Packable(f.ltype) {
      DelimitedLocal(bs, c);
    } else {
      ValueLocal(f, a.items[a.count], bs, c);
    }
  }

  lemma FieldLocal(f: Field, wireType: nat, h: nat, st: State, bs: seq<byte>, c: seq<byte>)
    requires h < |st.slots| && DecField(f, wireType, h, st, bs).Ok?
    ensures DecField(f, wireType, h, st, bs + c)
         == Ok(DecField(f, wireType, h, st, bs).value, DecField(f, wireType, h, st, bs).rest + c)
  {
    hide DecRepeated, DecValue, Target, Stored;
    var s := st.slots[h];
    if f.htype.Repeated? {
      RepeatedLocal(f, wireType, Filled(ItemsOf(s), if s.Arr? then s.count else st.fixedCount), bs, c);
    } else {
      ValueLocal(f, Target(f, s), bs, c);
    }
  }

  lemma TagLocal(bs: seq<byte>, c: seq<byte>)
    requires !DecTag(bs).BadTag?
    ensures DecTag(bs + c) == DecTag(bs).(rest := DecTag(bs).rest + c)
  {
    hide DecVarint32;
    Varint32Local(bs, c);
  }

  lemma RowLocal(fields: seq<Field>, k: nat, wireType: nat, st: State, bs: seq<byte>, c: seq<byte>)
    requires |st.slots| == |fields| && k < |fields| && DecRow(fields, k, wireType, st, bs).Next?
    ensures DecRow(fields, k, wireType, st, bs + c)
         == Next(DecRow(fields, k, wireType, st, bs).st, DecRow(fields, k, wireType, st, bs).rest + c)
  {
    hide DecField, Home, Track, Mark;
    FieldLocal(fields[k], wireType, Home(fields, k), Mark(fields, k, Track(fields, k, st).value), bs, c);
  }

  /** One record is read the same whatever follows it. */
  lemma TurnLocal(fields: seq<Field>, st: State, bs: seq<byte>, c: seq<byte>)
    requires |st.slots| == |fields| && !DecTurn(fields, st, bs).Error?
    ensures DecTurn(fields, st, bs + c) == DecTurn(fields, st, bs).(rest := DecTurn(fields, st, bs).rest + c)
  {
    hide DecTag, DecRow, FindTag, SkipField, DecVarint32;
    TagLocal(bs, c);
    var t := DecTag(bs);
    if t.Tag? {
      if fields == [] && t.tag == 0 {
        Varint32Local(t.rest, c);
      } else if FindTag(fields, t.tag).None? {
        SkipLocal(t.wireType, t.rest, c);
      } else {
        RowLocal(fields, FindTag(fields, t.tag).value, t.wireType, st, t.rest, c);
      }
    }
  }

  /** Running over a and then b is running over a + b, unless a ends the message early. */
  lemma {:induction false} LoopConcat(fields: seq<Field>, st: State, a: seq<byte>, b: seq<byte>)
    requires |st.slots| == |fields| && DecLoop(fields, st, a).Ran?
    ensures var r := DecLoop(fields, st, a);
            DecLoop(fields, st, a + b) == if r.stopped then Ran(r.st, r.rest + b, true) else DecLoop(fields, r.st, b)
    decreases |a|
  {
    hide DecTurn;
    if a == [] {
      assert a + b == b;
    } else {
      TurnLocal(fields, st, a, b);
      var t := DecTurn(fields, st, a);
      if t.Next? {
        LoopConcat(fields, t.st, t.rest, b);
      }
    }
  }
}
