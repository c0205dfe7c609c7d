/** fields_seen of pb_decode_noinit: one bit for each of the first 64 required fields, counted in
    table order, in two words of 32 bits. */
module RequiredBits {
  import opened Platform
  import opened Bits
  import opened Varint
  import opened Descriptor
  import opened FieldIter
  import opened Decoding

  /** The r-th required field, from zero, is among the rows that were met. */
  ghost predicate RankSeen(fields: seq<Field>, seen: set<nat>, r: nat) {
    exists k :: 0 <= k < |fields| && fields[k].htype.Required? && CountRequired(fields, k) == r && k in seen
  }

  /** The n bits for the ranks from base on. */
  ghost function Word(fields: seq<Field>, seen: set<nat>, base: nat, n: nat): nat
    decreases n
  {
    if n == 0 then 0
    else (if RankSeen(fields, seen, base) then 1 else 0) + 2 * Word(fields, seen, base + 1, n - 1)
  }

  lemma RankSeenAdd(fields: seq<Field>, seen: set<nat>, k: nat, r: nat)
    requires k < |fields| && fields[k].htype.Required?
    ensures RankSeen(fields, seen + {k}, r) <==> RankSeen(fields, seen, r) || r == CountRequired(fields, k)
  {
  }

  lemma OrLowBit(x: nat, b: nat)
    requires b <= 1
    ensures BitOr(b + 2 * x, 1) == 1 + 2 * x
  {
    assert BitOr(x, 0) == x;
  }

  lemma OrHighBit(x: nat, b: nat, i: nat)
    requires b <= 1 && i >= 1
    ensures BitOr(b + 2 * x, Pow2(i)) == b + 2 * BitOr(x, Pow2(i - 1))
  {
    if b + 2 * x == 0 {
      assert BitOr(0, Pow2(i - 1)) == Pow2(i - 1);
    }
  }

  /** Marking row k sets the bit of its rank and no other. */
  lemma {:induction false} WordMark(fields: seq<Field>, seen: set<nat>, k: nat, base: nat, n: nat)
    requires k < |fields| && fields[k].htype.Required?
    ensures var r := CountRequired(fields, k);
            Word(fields, seen + {k}, base, n)
            == if base <= r < base + n then BitOr(Word(fields, seen, base, n), Pow2(r - base))
                else Word(fields, seen, base, n)
    decreases n
  {
    hide RankSeen, BitOr;
    if n > 0 {
      var r := CountRequired(fields, k);
      var b, x := if RankSeen(fields, seen, base) then 1 else 0, Word(fields, seen, base + 1, n - 1);
      RankSeenAdd(fields, seen, k, base);
      WordMark(fields, seen, k, base + 1, n - 1);
      if r == base {
        OrLowBit(x, b);
      } else if base < r < base + n {
        OrHighBit(x, b, r - base);
      }
    }
  }

  lemma {:induction false} WordEmpty(fields: seq<Field>, base: nat, n: nat)
    ensures Word(fields, {}, base, n) == 0
    decreases n
  {
    if n > 0 {
      WordEmpty(fields, base + 1, n - 1);
    }
  }

  /** The low n bits are all ones exactly when all their ranks were met. */
  lemma {:induction false} WordFull(fields: seq<Field>, seen: set<nat>, base: nat, n: nat)
    ensures Word(fields, seen, base, n) < Pow2(n)
    ensures Word(fields, seen, base, n) == Pow2(n) - 1
       <==> forall r :: base <= r < base + n ==> RankSeen(fields, seen, r)
    decreases n
  {
    hide RankSeen;
    if n > 0 {
      WordFull(fields, seen, base + 1, n - 1);
    }
  }

  /** Ranks that do not exist have no bit. */
  lemma {:induction false} WordBeyond(fields: seq<Field>, seen: set<nat>, base: nat, m: nat, n: nat)
    requires m <= n && forall r :: base + m <= r ==> !RankSeen(fields, seen, r)
    ensures Word(fields, seen, base, n) == Word(fields, seen, base, m)
    decreases n
  {
    hide RankSeen;
    if n > 0 {
      WordBeyond(fields, seen, base + 1, if m == 0 then 0 else m - 1, n - 1);
    }
  }

  lemma {:induction false} CountGrows(fields: seq<Field>, i: nat, j: nat)
    requires i <= j <= |fields|
    ensures CountRequired(fields, i) <= CountRequired(fields, j)
    ensures i < j && fields[i].htype.Required? ==> CountRequired(fields, i) < CountRequired(fields, j)
    decreases j - i
  {
    if i < j {
      CountGrows(fields, i + 1, j);
    }
  }

  lemma {:induction false} RankExists(fields: seq<Field>, n: nat, r: nat) returns (k: nat)
    requires n <= |fields| && r < CountRequired(fields, n)
    ensures k < n && fields[k].htype.Required? && CountRequired(fields, k) == r
  {
    if r < CountRequired(fields, n - 1) {
      k := RankExists(fields, n - 1, r);
    } else {
      k := n - 1;
    }
  }

  lemma RankBelow(fields: seq<Field>, seen: set<nat>, r: nat)
    requires RankSeen(fields, seen, r)
    ensures r < CountRequired(fields, |fields|)
  {
    var k :| 0 <= k < |fields| && fields[k].htype.Required? && CountRequired(fields, k) == r && k in seen;
    CountGrows(fields, k, |fields|);
  }

  lemma RankUnique(fields: seq<Field>, i: nat, j: nat)
    requires i < |fields| && j < |fields| && fields[i].htype.Required? && fields[j].htype.Required?
    requires CountRequired(fields, i) == CountRequired(fields, j)
    ensures i == j
  {
    if i < j {
      CountGrows(fields, i, j);
    } else if j < i {
      CountGrows(fields, j, i);
    }
  }

  /** In terms of ranks: each of the first min(n, 64) required fields was met. */
  lemma RequiredMetByRank(fields: seq<Field>, seen: set<nat>)
    ensures RequiredMet(fields, seen) <==>
      forall r :: 0 <= r < CountRequired(fields, |fields|) && r < MAX_REQUIRED_FIELDS ==> RankSeen(fields, seen, r)
  {
    if RequiredMet(fields, seen) {
      forall r | 0 <= r < CountRequired(fields, |fields|) && r < MAX_REQUIRED_FIELDS
        ensures RankSeen(fields, seen, r)
      {
        var k := RankExists(fields, |fields|, r);
        assert k in seen;
      }
    }
    if forall r :: 0 <= r < CountRequired(fields, |fields|) && r < MAX_REQUIRED_FIELDS ==> RankSeen(fields, seen, r) {
      forall k | 0 <= k < |fields| && fields[k].htype.Required? && CountRequired(fields, k) < MAX_REQUIRED_FIELDS
        ensures k in seen
      {
        CountGrows(fields, k, |fields|);
        var r := CountRequired(fields, k);
        assert RankSeen(fields, seen, r);
        var j :| 0 <= j < |fields| && fields[j].htype.Required? && CountRequired(fields, j) == r && j in seen;
        RankUnique(fields, k, j);
      }
    }
  }

  /** fields_seen shows the rows that were met. */
  ghost predicate Shows(words: array<nat>, fields: seq<Field>, seen: set<nat>)
    reads words
  {
    && words.Length == 2
    && words[0] == Word(fields, seen, 0, 32)
    && words[1] == Word(fields, seen, 32, 32)
  }

  /** fields_seen[index >> 5] |= 1 << (index & 31), for the first 64 required fields. */
  method MarkSeen(words: array<nat>, fields: seq<Field>, k: nat, index: nat, ghost seen: set<nat>)
    requires k < |fields| && fields[k].htype.Required? && index == CountRequired(fields, k)
    requires Shows(words, fields, seen)
    modifies words
    ensures Shows(words, fields, seen + {k})
  {
    hide Word, BitOr, Pow2;
    WordMark(fields, seen, k, 0, 32);
    WordMark(fields, seen, k, 32, 32);
    if index < MAX_REQUIRED_FIELDS {
      var tmp := Pow2(index % 32);
      words[index / 32] := BitOr(words[index / 32], tmp);
    }
  }

  lemma WholeWord(fields: seq<Field>, seen: set<nat>, base: nat)
    ensures Word(fields, seen, base, 32) == TWO_32 - 1
       <==> forall r :: base <= r < base + 32 ==> RankSeen(fields, seen, r)
  {
    hide Word, Pow2, RankSeen;
    Powers();
    WordFull(fields, seen, base, 32);
  }

  lemma PartWord(fields: seq<Field>, seen: set<nat>, base: nat, m: nat)
    requires m <= 32 && CountRequired(fields, |fields|) == base + m
    ensures Word(fields, seen, base, 32) == Pow2(m) - 1
       <==> forall r :: base <= r < base + m ==> RankSeen(fields, seen, r)
  {
    hide Word, Pow2, RankSeen;
    forall r | base + m <= r ensures !RankSeen(fields, seen, r) {
      if RankSeen(fields, seen, r) {
        RankBelow(fields, seen, r);
      }
    }
    WordBeyond(fields, seen, base, m, 32);
    WordFull(fields, seen, base, m);
  }

  lemma OnesShifted(n: nat)
    requires 0 < n < 32
    ensures (TWO_32 - 1) / Pow2(32 - n) == Pow2(n) - 1
  {
    Pow2Sum(32 - n, n);
    Powers();
    var p, q := Pow2(32 - n), Pow2(n);
    assert p * q == TWO_32;
    DivideOnes(p, q);
  }

  lemma DivideOnes(p: nat, q: nat)
    requires p >= 1 && q >= 1
    ensures (p * q - 1) / p == q - 1
  {
    assert p * q - 1 == p * (q - 1) + (p - 1);
    DivideExact(p, q - 1, p - 1);
  }

  /** The final check of pb_decode_noinit: it recounts the required fields from wherever the
      cursor stands, compares whole words and then the rest of the last one, and passes exactly
      when every required field it tracks was met. */
  method CheckRequired(iter: Iter, words: array<nat>, ghost seen: set<nat>) returns (ok: bool)
    requires iter.Valid() && (iter.start != [] ==> Shows(words, iter.start, seen))
    modifies iter
    ensures iter.Valid()
    ensures ok <==> RequiredMet(iter.start, seen)
  {
    ghost var fields := iter.start;
    var count := CountAll(iter);
    if count > MAX_REQUIRED_FIELDS {
      count := MAX_REQUIRED_FIELDS;
    }
    RequiredMetByRank(fields, seen);
    if count == 0 {
      return true;
    }
    ok := CheckWords(words, fields, seen, count);
  }

  /** Walking on to the end of the table finds the number of required fields. */
  method CountAll(iter: Iter) returns (count: nat)
    requires iter.Valid()
    modifies iter
    ensures iter.Valid() && count == CountRequired(iter.start, |iter.start|)
  {
    var last := Row(iter.start, iter.pos);
    count := iter.requiredIndex;
    var more := iter.Next();
    while more
      invariant iter.Valid()
      invariant if more then 0 < iter.pos < |iter.start|
                else iter.pos == 0 && (iter.start != [] ==>
                  last == iter.start[|iter.start| - 1] && count == CountRequired(iter.start, |iter.start| - 1))
      invariant iter.start == [] ==> !more && count == 0
      decreases more, |iter.start| - iter.pos
    {
      last := Row(iter.start, iter.pos);
      count := iter.requiredIndex;
      more := iter.Next();
    }
    if last.htype.Required? && Row(iter.start, iter.pos).tag != 0 {
      count := count + 1;
    }
  }

  method CheckWords(words: array<nat>, ghost fields: seq<Field>, ghost seen: set<nat>, count: nat) returns (ok: bool)
    requires Shows(words, fields, seen)
    requires 0 < count == if CountRequired(fields, |fields|) > 64 then 64 else CountRequired(fields, |fields|)
    ensures ok <==> forall r :: 0 <= r < count ==> RankSeen(fields, seen, r)
  {
    hide Word, RankSeen, Pow2;
    for i := 0 to count / 32
      invariant forall r :: 0 <= r < 32 * i ==> RankSeen(fields, seen, r)
    {
      WholeWord(fields, seen, 32 * i);
      if words[i] != TWO_32 - 1 {
        return false;
      }
    }
    if count % 32 != 0 {
      OnesShifted(count % 32);
      PartWord(fields, seen, 32 * (count / 32), count % 32);
      if words[count / 32] != (TWO_32 - 1) / Pow2(32 - count % 32) {
        return false;
      }
    }
    ok := true;
  }

  // ---------------------------------------------------------------- what was met on the wire

  /** At some boundary between two records of bs, from the state st on, the tag of row k stands. */
  ghost predicate Met(fields: seq<Field>, st: State, bs: seq<byte>, k: nat)
    requires k < |fields| == |st.slots|
    decreases |bs|
  {
    && bs != []
    && DecTurn(fields, st, bs).Next?
    && ((DecTag(bs).Tag? && DecTag(bs).tag == fields[k].tag)
        || Met(fields, DecTurn(fields, st, bs).st, DecTurn(fields, st, bs).rest, k))
  }

  lemma RowMarks(fields: seq<Field>, j: nat, wireType: nat, st: State, rest: seq<byte>)
    requires j < |fields| == |st.slots| && DecRow(fields, j, wireType, st, rest).Next?
    ensures DecRow(fields, j, wireType, st, rest).st.seen == Mark(fields, j, st).seen
  {
    hide DecRepeated, DecValue, Target, Stored, Home;
  }

  lemma TurnMarks(fields: seq<Field>, st: State, bs: seq<byte>, k: nat)
    requires WellFormed(fields) && k < |fields| == |st.slots| && fields[k].htype.Required?
    requires DecTurn(fields, st, bs).Next?
    ensures k in DecTurn(fields, st, bs).st.seen <==>
      k in st.seen || (DecTag(bs).Tag? && DecTag(bs).tag == fields[k].tag)
  {
    hide DecTag, DecRow, SkipField, FindTag, WellFormedField, DecVarint32;
    NotAnExtension(fields[k]);
    FindTagUnique(fields, k);
    var t := DecTag(bs);
    if t.Tag? && FindTag(fields, t.tag).Some? {
      RowMarks(fields, FindTag(fields, t.tag).value, t.wireType, st, t.rest);
    }
  }

  lemma NotAnExtension(f: Field)
    requires WellFormedField(f)
    ensures Matches(f, f.tag)
  {
  }

  lemma {:induction false} SeenIsMet(fields: seq<Field>, st: State, bs: seq<byte>, k: nat)
    requires WellFormed(fields) && k < |fields| == |st.slots| && fields[k].htype.Required?
    requires DecLoop(fields, st, bs).Ran?
    ensures k in DecLoop(fields, st, bs).st.seen <==> k in st.seen || Met(fields, st, bs, k)
    decreases |bs|
  {
    hide DecTurn, DecTag, WellFormed;
    if bs != [] {
      var t := DecTurn(fields, st, bs);
      if t.Next? {
        TurnMarks(fields, st, bs, k);
        SeenIsMet(fields, t.st, t.rest, k);
      }
    }
  }

  /** The rank of a row is the number of required rows before it. */
  lemma {:induction false} RankCounts(fields: seq<Field>, k: nat)
    requires k <= |fields|
    ensures CountRequired(fields, k) == |set i | 0 <= i < k && fields[i].htype.Required?|
  {
    if k > 0 {
      RankCounts(fields, k - 1);
      var before := set i | 0 <= i < k - 1 && fields[i].htype.Required?;
      var now := set i | 0 <= i < k && fields[i].htype.Required?;
      assert now == if fields[k - 1].htype.Required? then before + {k - 1} else before;
    }
  }

  /** When the loop has run and no fixed-count array is left incomplete, pb_decode_noinit succeeds
      exactly if each of the first 64 required fields has been met on the wire. */
  lemma RequiredCheckIsExact(fields: seq<Field>, m: seq<Slot>, bs: seq<byte>)
    requires WellFormed(fields) && |m| == |fields|
    requires DecLoop(fields, Start(m), bs).Ran? && FixedDone(fields, DecLoop(fields, Start(m), bs).st)
    ensures DecNoInit(fields, m, bs).Ok? <==>
      forall k :: 0 <= k < |fields| && fields[k].htype.Required? && CountRequired(fields, k) < 64
        ==> Met(fields, Start(m), bs, k)
  {
    hide DecLoop, FixedDone, CountRequired, Met, WellFormed;
    forall k | 0 <= k < |fields| && fields[k].htype.Required?
      ensures k in DecLoop(fields, Start(m), bs).st.seen <==> Met(fields, Start(m), bs, k)
    {
      SeenIsMet(fields, Start(m), bs, k);
    }
  }
}
