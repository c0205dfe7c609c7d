/** The bitwise operators of the C sources on non-negative integers.

    A mask of low bits is a remainder and a shift is a multiplication or division by a power
    of two; the operators that combine two operands are defined bit by bit. */
module Bits {
  function Pow2(n: nat): (p: nat)
    ensures p >= 1
  {
    if n == 0 then 1 else 2 * Pow2(n - 1)
  }

  /** a | b */
  function BitOr(a: nat, b: nat): nat
    decreases a + b
  {
    if a == 0 then b
    else if b == 0 then a
    else (if a % 2 == 1 || b % 2 == 1 then 1 else 0) + 2 * BitOr(a / 2, b / 2)
  }

  /** a ^ b */
  function BitXor(a: nat, b: nat): nat
    decreases a + b
  {
    if a == 0 then b
    else if b == 0 then a
    else (if a % 2 != b % 2 then 1 else 0) + 2 * BitXor(a / 2, b / 2)
  }

  lemma {:induction false} Pow2Sum(m: nat, n: nat)
    ensures Pow2(m + n) == Pow2(m) * Pow2(n)
  {
    if m == 0 {
    } else {
      Pow2Sum(m - 1, n);
      assert 2 * (Pow2(m - 1) * Pow2(n)) == (2 * Pow2(m - 1)) * Pow2(n);
    }
  }

  lemma HalfOfMultiple(c: nat, q: nat)
    ensures (c * (2 * q)) % 2 == 0 && (c * (2 * q)) / 2 == c * q
  {
    assert c * (2 * q) == 2 * (c * q);
  }

  /** Bits that do not overlap are or-ed in by addition. */
  lemma {:induction false} OrOfDisjoint(a: nat, c: nat, k: nat)
    requires a < Pow2(k)
    ensures BitOr(a, c * Pow2(k)) == a + c * Pow2(k)
  {
    if k == 0 || a == 0 || c == 0 {
      assert c == 0 ==> c * Pow2(k) == 0;
    } else {
      HalfOfMultiple(c, Pow2(k - 1));
      OrOfDisjoint(a / 2, c, k - 1);
      assert c * Pow2(k) == c * (2 * Pow2(k - 1));
    }
  }

  /** The same for exclusive or. */
  lemma {:induction false} XorOfDisjoint(a: nat, c: nat, k: nat)
    requires a < Pow2(k)
    ensures BitXor(a, c * Pow2(k)) == a + c * Pow2(k)
  {
    if k == 0 || a == 0 || c == 0 {
      assert c == 0 ==> c * Pow2(k) == 0;
    } else {
      HalfOfMultiple(c, Pow2(k - 1));
      XorOfDisjoint(a / 2, c, k - 1);
      assert c * Pow2(k) == c * (2 * Pow2(k - 1));
    }
  }

  /** Exclusive or with all ones is the complement. */
  lemma {:induction false} XorWithOnes(a: nat, k: nat)
    requires a < Pow2(k)
    ensures BitXor(a, Pow2(k) - 1) == Pow2(k) - 1 - a
  {
    if k == 0 || a == 0 {
    } else {
      XorWithOnes(a / 2, k - 1);
      assert (Pow2(k) - 1) / 2 == Pow2(k - 1) - 1;
    }
  }

  lemma Pow2Add7(n: nat)
    ensures Pow2(n + 7) == 128 * Pow2(n)
  {
    assert Pow2(n + 7) == 2 * Pow2(n + 6) && Pow2(n + 6) == 2 * Pow2(n + 5) && Pow2(n + 5) == 2 * Pow2(n + 4);
    assert Pow2(n + 4) == 2 * Pow2(n + 3) && Pow2(n + 3) == 2 * Pow2(n + 2) && Pow2(n + 2) == 2 * Pow2(n + 1);
  }

  /** The powers of two that occur in the codecs. */
  lemma Powers()
    ensures Pow2(7) == 0x80 && Pow2(14) == 0x4000 && Pow2(21) == 0x20_0000 && Pow2(28) == 0x1000_0000
    ensures Pow2(25) == 0x200_0000 && Pow2(29) == 0x2000_0000
    ensures Pow2(32) == 0x1_0000_0000 && Pow2(35) == 0x8_0000_0000
    ensures Pow2(63) == 0x8000_0000_0000_0000 && Pow2(64) == 0x1_0000_0000_0000_0000
    ensures Pow2(70) == 64 * Pow2(64)
  {
    assert Pow2(6) == 0x40 && Pow2(7) == 0x80;
    Pow2Sum(7, 7);
    Pow2Sum(7, 14);
    Pow2Sum(7, 21);
    assert Pow2(4) == 0x10;
    Pow2Sum(4, 21);
    assert Pow2(29) == 2 * Pow2(28);
    assert Pow2(32) == 16 * Pow2(28);
    Pow2Sum(7, 28);
    Pow2Sum(28, 35);
    Pow2Sum(6, 64);
  }

  lemma {:induction false} Pow2Monotone(m: nat, n: nat)
    requires m <= n
    ensures Pow2(m) <= Pow2(n)
  {
    if m == n {
    } else {
      Pow2Monotone(m, n - 1);
    }
  }

  lemma {:induction false} OrBelow(a: nat, b: nat, k: nat)
    requires a < Pow2(k) && b < Pow2(k)
    ensures BitOr(a, b) < Pow2(k)
  {
    if k == 0 || a == 0 || b == 0 {
    } else {
      OrBelow(a / 2, b / 2, k - 1);
    }
  }

  // ---------------------------------------------------------------- quotients and remainders

  lemma DivideExact(p: nat, c: nat, r: nat)
    requires r < p
    ensures (p * c + r) / p == c
  {
    var y, s := (p * c + r) / p, (p * c + r) % p;
    assert p * y + s == p * c + r;
    assert p * (y - c) == p * y - p * c;
    NoMultiple(p, y - c);
  }

  lemma NoMultiple(p: nat, d: int)
    ensures d >= 1 ==> p * d >= p
    ensures d <= -1 ==> p * d + p <= 0
  {
    if d >= 1 {
      assert p * d == p * (d - 1) + p && p * (d - 1) >= 0;
    } else if d <= -1 {
      var e := -d - 1;
      assert p * e >= 0 && p * d == -(p * e) - p;
    }
  }

  lemma ModExact(p: nat, c: nat, r: nat)
    requires r < p
    ensures (p * c + r) % p == r
  {
    DivideExact(p, c, r);
  }
}
