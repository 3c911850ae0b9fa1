/** Arithmetic that the alias rules of BasicAliasAnalysis.cpp rest on: congruences, powers of two
    and bitwise operations on natural numbers. */
module BasicAAArithmetic {
  import opened Arithmetic
  import opened Words

  // Modulo a smaller power of two, too.
  lemma {:induction false} CongNarrow(a: int, b: int, wide: nat, narrow: nat)
    requires narrow <= wide && Cong(a, b, Pow2(wide))
    ensures Cong(a, b, Pow2(narrow))
  {
    Pow2Add(wide - narrow, narrow);
    CongDivisor(a, b, Pow2(wide - narrow), Pow2(narrow));
  }

  // ----- Bitwise operations -----

  function BitAnd(a: nat, b: nat): nat {
    if a == 0 || b == 0 then 0 else (if a % 2 == 1 && b % 2 == 1 then 1 else 0) + 2 * BitAnd(a / 2, b / 2)
  }

  function BitOr(a: nat, b: nat): nat {
    if a == 0 then b
    else if b == 0 then a
    else (if a % 2 == 1 || b % 2 == 1 then 1 else 0) + 2 * BitOr(a / 2, b / 2)
  }

  function BitXor(a: nat, b: nat): nat {
    if a == 0 then b
    else if b == 0 then a
    else (if a % 2 != b % 2 then 1 else 0) + 2 * BitXor(a / 2, b / 2)
  }

  lemma {:induction false} OrInWidth(a: nat, b: nat, k: nat)
    requires a < Pow2(k) && b < Pow2(k)
    ensures BitOr(a, b) < Pow2(k)
    decreases k
  {
    if a != 0 && b != 0 {
      OrInWidth(a / 2, b / 2, k - 1);
    }
  }

  // With no bit in common, or-ing is adding.
  lemma {:induction false} DisjointOrIsAdd(a: nat, b: nat)
    requires BitAnd(a, b) == 0
    ensures BitOr(a, b) == a + b
  {
    if a != 0 && b != 0 {
      DisjointOrIsAdd(a / 2, b / 2);
    }
  }

  // Clearing all but the lowest k bits is taking the remainder.
  lemma MaskIsMod(x: nat, k: nat)
    ensures BitAnd(x, Pow2(k) - 1) == x % Pow2(k)
  {
    MaskIsRem(x, k);
    hide BitAnd;
    hide Pow2;
  }

  lemma {:induction false} MaskIsRem(x: nat, k: nat)
    ensures BitAnd(x, Pow2(k) - 1) == Rem(x, Pow2(k))
    decreases k
  {
    hide Rem;
    if k == 0 || x == 0 {
      RemOfNothing(x, Pow2(k));
    } else {
      var p := Pow2(k - 1);
      assert Pow2(k) == 2 * p;
      hide *;
      ModOfDouble(x, p);
      MaskIsRem(x / 2, k - 1);
      AndOdd(x, p - 1);
    }
  }

  lemma RemOfNothing(x: nat, d: nat)
    requires d > 0 && (x == 0 || d == 1)
    ensures Rem(x, d) == 0
  {
    QuoUnique(x, d, x, 0);
  }

  lemma {:induction false} AndOdd(x: nat, b: nat)
    ensures BitAnd(x, 2 * b + 1) == x % 2 + 2 * BitAnd(x / 2, b)
  {
    assert (2 * b + 1) / 2 == b && (2 * b + 1) % 2 == 1;
  }

  lemma ModOfDouble(x: nat, p: nat)
    requires p > 0
    ensures Rem(x, 2 * p) == x % 2 + 2 * Rem(x / 2, p)
  {
    var q, r := Quo(x / 2, p), Rem(x / 2, p);
    QuoRem(x / 2, p);
    hide Quo;
    hide Rem;
    assert q * (2 * p) == 2 * (q * p);
    QuoUnique(x, 2 * p, q, 2 * r + x % 2);
  }

  // ----- The lowest set bit -----

  // What `Modulo ^ (Modulo & (Modulo - 1))` computes in 64 bits.
  function LowBit(m: nat): nat {
    BitXor(m, BitAnd(m, (m - 1) % TWO_TO_64))
  }

  /** The lowest set bit is the largest power of two that divides the number. */
  lemma LowBitDivides(m: nat) returns (k: nat)
    requires 0 < m < TWO_TO_64
    ensures LowBit(m) == Pow2(k) && m % Pow2(k) == 0 && Pow2(k) <= m && m % Pow2(k + 1) != 0
  {
    k := LowestBit(m);
    SmallMod(m - 1, TWO_TO_64);
    hide BitXor;
    hide BitAnd;
    hide Pow2;
  }

  lemma {:induction false} LowestBit(m: nat) returns (k: nat)
    requires 0 < m
    ensures BitXor(m, BitAnd(m, m - 1)) == Pow2(k) && m % Pow2(k) == 0 && Pow2(k) <= m && m % Pow2(k + 1) != 0
  {
    if m % 2 == 1 {
      k := 0;
      assert Pow2(1) == 2;
      AndPredecessorOfOdd(m);
      XorPredecessorOfOdd(m);
    } else {
      var h := m / 2;
      var l := LowestBit(h);
      k := l + 1;
      AndPredecessorOfEven(h);
      XorDouble(h, BitAnd(h, h - 1));
      DoubleDivides(m, Pow2(l));
      NotByDouble(m, Pow2(l + 1));
    }
  }

  lemma NotByDouble(x: nat, p: nat)
    requires p > 0 && (x / 2) % p != 0
    ensures x % (2 * p) != 0
  {
    if x % (2 * p) == 0 {
      HalfDivides(x, p);
    }
  }

  lemma AndPredecessorOfEven(h: nat)
    requires h > 0
    ensures BitAnd(2 * h, 2 * h - 1) == 2 * BitAnd(h, h - 1)
  {
    assert (2 * h) / 2 == h && (2 * h - 1) / 2 == h - 1;
  }

  lemma {:induction false} AndSelf(a: nat)
    ensures BitAnd(a, a) == a
  {
    if a != 0 {
      AndSelf(a / 2);
    }
  }

  lemma {:induction false} AndPredecessorOfOdd(m: nat)
    requires m % 2 == 1
    ensures BitAnd(m, m - 1) == m - 1
  {
    if m > 1 {
      assert (m - 1) / 2 == m / 2;
      AndSelf(m / 2);
    }
  }

  lemma {:induction false} XorPredecessorOfOdd(m: nat)
    requires m % 2 == 1
    ensures BitXor(m, m - 1) == 1
  {
    if m > 1 {
      assert (m - 1) / 2 == m / 2;
      XorSelf(m / 2);
    }
  }

  lemma {:induction false} XorSelf(a: nat)
    ensures BitXor(a, a) == 0
  {
    if a != 0 {
      XorSelf(a / 2);
    }
  }

  lemma {:induction false} XorDouble(a: nat, b: nat)
    ensures BitXor(2 * a, 2 * b) == 2 * BitXor(a, b)
  {
  }

  // What divides an or divides its operands, for powers of two.
  lemma {:induction false} OrDivides(a: nat, b: nat, k: nat)
    requires BitOr(a, b) % Pow2(k) == 0
    ensures a % Pow2(k) == 0 && b % Pow2(k) == 0
    decreases k
  {
    if k > 0 {
      var p := Pow2(k - 1);
      var x := BitOr(a, b);
      OrHalves(a, b);
      HalfDivides(x, p);
      OrDivides(a / 2, b / 2, k - 1);
      DoubleDivides(a, p);
      DoubleDivides(b, p);
    }
  }

  // And the other way round.
  lemma {:induction false} OrIsDivided(a: nat, b: nat, k: nat)
    requires a % Pow2(k) == 0 && b % Pow2(k) == 0
    ensures BitOr(a, b) % Pow2(k) == 0
    decreases k
  {
    if k > 0 {
      var p := Pow2(k - 1);
      OrHalves(a, b);
      HalfDivides(a, p);
      HalfDivides(b, p);
      OrIsDivided(a / 2, b / 2, k - 1);
      DoubleDivides(BitOr(a, b), p);
    }
  }

  lemma {:induction false} OrHalves(a: nat, b: nat)
    ensures BitOr(a, b) / 2 == BitOr(a / 2, b / 2)
    ensures BitOr(a, b) % 2 == 0 <==> a % 2 == 0 && b % 2 == 0
  {
  }

  lemma HalfDivides(x: nat, p: nat)
    requires p > 0 && x % (2 * p) == 0
    ensures x % 2 == 0 && (x / 2) % p == 0
  {
    var q := x / (2 * p);
    assert x == q * (2 * p) == 2 * (q * p);
    DivUnique(x / 2, p, q, 0);
  }

  lemma DoubleDivides(x: nat, p: nat)
    requires p > 0 && x % 2 == 0 && (x / 2) % p == 0
    ensures x % (2 * p) == 0
  {
    var q := (x / 2) / p;
    assert x == 2 * (q * p) == q * (2 * p);
    DivUnique(x, 2 * p, q, 0);
  }
}
