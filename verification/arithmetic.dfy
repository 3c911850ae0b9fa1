/** Congruences and division with remainder, for proofs about fixed-width arithmetic. */
module Arithmetic {

  // ----- Division -----

  lemma AtLeast(k: int, d: nat)
    ensures k >= 1 ==> k * d >= d
    ensures k <= -1 ==> k * d <= 0 - d
  {
  }

  // Division with remainder has one result.
  lemma SameQuotient(p: int, s: int, q: int, r: int, d: nat)
    requires p * d + s == q * d + r && 0 <= s < d && 0 <= r < d
    ensures p == q && s == r
  {
    assert (p - q) * d == p * d - q * d;
    AtLeast(p - q, d);
  }

  lemma Quotient(x: nat, d: nat)
    requires d > 0
    ensures x == (x / d) * d + x % d && 0 <= x % d < d && x / d >= 0
  {
  }

  lemma DivUnique(x: nat, d: nat, q: nat, r: nat)
    requires d > 0 && x == q * d + r && r < d
    ensures x / d == q && x % d == r
  {
    Quotient(x, d);
    SameQuotient(x / d, x % d, q, r, d);
  }

  lemma LessProduct(a: int, b: int, d: nat)
    requires a * d < b * d
    ensures a < b
  {
    assert (b - a) * d == b * d - a * d;
    AtLeast(b - a, d);
  }

  lemma QuotientAtMost(x: nat, d: nat, q: nat)
    requires d > 0 && x < q * d
    ensures x / d < q
  {
    Quotient(x, d);
    LessProduct(x / d, q, d);
  }

  lemma QuotientAtLeast(x: nat, d: nat, q: nat)
    requires d > 0 && q * d <= x
    ensures q <= x / d
  {
    Quotient(x, d);
    assert (x / d + 1) * d == (x / d) * d + d;
    LessProduct(q, x / d + 1, d);
  }

  // The quotient and the remainder as functions, so that a proof can hide how they are defined.
  function Quo(x: nat, d: nat): nat
    requires d > 0
  {
    x / d
  }

  function Rem(x: nat, d: nat): nat
    requires d > 0
  {
    x % d
  }

  lemma QuoRem(x: nat, d: nat)
    requires d > 0
    ensures x == Quo(x, d) * d + Rem(x, d) && Rem(x, d) < d
  {
    Quotient(x, d);
  }

  lemma QuoUnique(x: nat, d: nat, q: nat, r: nat)
    requires d > 0 && x == q * d + r && r < d
    ensures Quo(x, d) == q && Rem(x, d) == r
  {
    DivUnique(x, d, q, r);
  }

  lemma QuoAtMost(x: nat, d: nat, q: nat)
    requires d > 0 && x < q * d
    ensures Quo(x, d) < q
  {
    QuotientAtMost(x, d, q);
  }

  lemma SmallMod(r: nat, m: nat)
    requires r < m
    ensures r % m == r
  {
  }

  // ----- Congruence -----

  function Times(k: int, m: int): int {
    k * m
  }

  ghost predicate Cong(a: int, b: int, m: int) {
    exists k :: a == b + Times(k, m)
  }

  lemma CongWitness(a: int, b: int, m: int, k: int)
    requires a == b + k * m
    ensures Cong(a, b, m)
  {
    assert a == b + Times(k, m);
  }

  lemma CongRefl(a: int, m: int)
    ensures Cong(a, a, m)
  {
    CongWitness(a, a, m, 0);
  }

  lemma CongSym(a: int, b: int, m: int)
    requires Cong(a, b, m)
    ensures Cong(b, a, m)
  {
    var k :| a == b + Times(k, m);
    CongWitness(b, a, m, -k);
  }

  lemma CongTrans(a: int, b: int, c: int, m: int)
    requires Cong(a, b, m) && Cong(b, c, m)
    ensures Cong(a, c, m)
  {
    var k :| a == b + Times(k, m);
    var l :| b == c + Times(l, m);
    assert (k + l) * m == k * m + l * m;
    CongWitness(a, c, m, k + l);
  }

  lemma CongAdd(a: int, b: int, c: int, d: int, m: int)
    requires Cong(a, b, m) && Cong(c, d, m)
    ensures Cong(a + c, b + d, m) && Cong(a - c, b - d, m)
  {
    var k :| a == b + Times(k, m);
    var l :| c == d + Times(l, m);
    assert (k + l) * m == k * m + l * m && (k - l) * m == k * m - l * m;
    CongWitness(a + c, b + d, m, k + l);
    CongWitness(a - c, b - d, m, k - l);
  }

  lemma CongScale(a: int, b: int, m: int, c: int)
    requires Cong(a, b, m)
    ensures Cong(a * c, b * c, m)
  {
    var k :| a == b + Times(k, m);
    assert (b + k * m) * c == b * c + (k * c) * m;
    CongWitness(a * c, b * c, m, k * c);
  }

  lemma CongMod(a: int, m: int)
    requires m > 0
    ensures Cong(a % m, a, m) && Cong(a, a % m, m)
  {
    assert a == a % m + (a / m) * m;
    CongWitness(a, a % m, m, a / m);
    CongSym(a, a % m, m);
  }

  // Modulo a divisor, too.
  lemma CongDivisor(a: int, b: int, n: int, m: int)
    requires Cong(a, b, n * m)
    ensures Cong(a, b, m)
  {
    var k :| a == b + Times(k, n * m);
    assert k * (n * m) == (k * n) * m;
    CongWitness(a, b, m, k * n);
  }

  lemma CongEqual(a: int, b: int, m: int)
    requires Cong(a, b, m) && 0 <= a < m && 0 <= b < m
    ensures a == b
  {
    var k :| a == b + Times(k, m);
    AtLeast(k, m);
  }

  lemma CongModEqual(a: int, b: int, m: int)
    requires m > 0 && Cong(a, b, m)
    ensures a % m == b % m
  {
    CongMod(a, m);
    CongMod(b, m);
    CongTrans(a % m, a, b, m);
    CongTrans(a % m, b, b % m, m);
    CongEqual(a % m, b % m, m);
  }
}
