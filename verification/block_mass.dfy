/** Masses of blocks and the dithering distributer
    (llvm/lib/Analysis/BlockFrequencyInfoImpl.cpp, llvm/lib/Support/BranchProbability.cpp). */
module BlockMass {
  import opened Arithmetic
  import opened Words

  // The denominator of every probability.
  const DENOMINATOR: nat := 0x8000_0000

  // ----- Probabilities -----

  // The numerator over 2^31 of the probability w / r.
  function Probability(w: nat, r: nat): nat
    requires 0 < r <= MAX_32
  {
    if r == DENOMINATOR then w else (w * DENOMINATOR + r / 2) / r
  }

  /** A probability is the nearest multiple of 2^-31, never more than 1, and 1 for all of the weight. */
  lemma ProbabilityIsNearest(w: nat, r: nat)
    requires w <= r && 0 < r <= MAX_32
    ensures Probability(w, r) <= DENOMINATOR
    ensures 0 - r <= 2 * (Probability(w, r) * r - w * DENOMINATOR) <= r
    ensures w == r ==> Probability(w, r) == DENOMINATOR
  {
    var x := w * DENOMINATOR + r / 2;
    Quotient(x, r);
    assert (r - w) * DENOMINATOR >= 0;
    assert x < (DENOMINATOR + 1) * r;
    QuotientAtMost(x, r, DENOMINATOR + 1);
    if w == r && r != DENOMINATOR {
      DivUnique(x, r, DENOMINATOR, r / 2);
    }
  }

  // ----- Scaling a mass by a fraction -----

  /** num * n / d in 64-bit arithmetic by way of 32-bit digits; all ones on overflow. */
  function Scale(num: nat, n: nat, d: nat): nat
    requires num <= MAX_64 && n <= MAX_32 && 0 < d <= MAX_32
  {
    if num == 0 || d == n then num
    else
      var productHigh := (num / TWO_TO_32) * n;
      var productLow := (num % TWO_TO_32) * n;
      var lower := productLow % TWO_TO_32;
      var midPartial := productHigh % TWO_TO_32;
      var mid := (midPartial + productLow / TWO_TO_32) % TWO_TO_32;
      var upper := (productHigh / TWO_TO_32 + (if mid < midPartial then 1 else 0)) % TWO_TO_32;
      DivideDigits(upper, mid, lower, d)
  }

  function DivideDigits(upper: nat, mid: nat, lower: nat, d: nat): nat
    requires d > 0
  {
    if upper >= d then MAX_64 else DivideRemainder(upper * TWO_TO_32 + mid, lower, d)
  }

  function DivideRemainder(rem: nat, lower: nat, d: nat): nat
    requires d > 0
  {
    JoinDigits(Quo(rem, d), Quo(Rem(rem, d) * TWO_TO_32 + lower, d))
  }

  function JoinDigits(upperQ: nat, lowerQ: nat): nat {
    if upperQ > MAX_32 then MAX_64
    else
      var q := (upperQ * TWO_TO_32 + lowerQ) % TWO_TO_64;
      if q < lowerQ then MAX_64 else q
  }

  // A product of a high and a low digit fits.
  lemma DigitProduct(x: nat, n: nat)
    requires x <= MAX_32 && n <= MAX_32
    ensures x * n <= MAX_32 * MAX_32
  {
    assert (MAX_32 - x) * n >= 0 && MAX_32 * (MAX_32 - n) >= 0;
  }

  // The three 32-bit digits of the product of a 64-bit and a 32-bit number.
  lemma ThreeDigits(num: nat, n: nat)
    requires num <= MAX_64 && n <= MAX_32
    ensures var productHigh := (num / TWO_TO_32) * n;
            var productLow := (num % TWO_TO_32) * n;
            var midPartial := productHigh % TWO_TO_32;
            var mid := (midPartial + productLow / TWO_TO_32) % TWO_TO_32;
            var upper := (productHigh / TWO_TO_32 + (if mid < midPartial then 1 else 0)) % TWO_TO_32;
            num * n == (upper * TWO_TO_32 + mid) * TWO_TO_32 + productLow % TWO_TO_32
  {
    var hi, lo := num / TWO_TO_32, num % TWO_TO_32;
    assert num * n == (hi * n) * TWO_TO_32 + lo * n by {
      assert num == hi * TWO_TO_32 + lo;
      assert (hi * TWO_TO_32 + lo) * n == (hi * n) * TWO_TO_32 + lo * n;
    }
    DigitProduct(hi, n);
    DigitProduct(lo, n);
    Carry(hi * n, lo * n);
  }

  lemma Carry(high: nat, low: nat)
    requires high <= MAX_32 * MAX_32 && low <= MAX_32 * MAX_32
    ensures var midPartial := high % TWO_TO_32;
            var mid := (midPartial + low / TWO_TO_32) % TWO_TO_32;
            var upper := (high / TWO_TO_32 + (if mid < midPartial then 1 else 0)) % TWO_TO_32;
            high * TWO_TO_32 + low == (upper * TWO_TO_32 + mid) * TWO_TO_32 + low % TWO_TO_32
  {
  }

  lemma Recombine(u: nat, v: nat, w: nat, r: nat, d: nat, lower: nat)
    requires v * TWO_TO_32 + lower == w * d + r
    ensures (u * d + v) * TWO_TO_32 + lower == (u * TWO_TO_32 + w) * d + r
  {
    assert (u * d + v) * TWO_TO_32 == (u * TWO_TO_32) * d + v * TWO_TO_32;
    assert (u * TWO_TO_32 + w) * d == (u * TWO_TO_32) * d + w * d;
  }

  // Dividing digit by digit.
  lemma LongDivision(rem: nat, lower: nat, d: nat)
    requires 0 < d <= MAX_32 && lower < TWO_TO_32 && rem < d * TWO_TO_32
    ensures var lowerQ := Quo(Rem(rem, d) * TWO_TO_32 + lower, d);
            && Quo(rem, d) <= MAX_32 && lowerQ <= MAX_32
            && Quo(rem * TWO_TO_32 + lower, d) == Quo(rem, d) * TWO_TO_32 + lowerQ
  {
    hide Quo;
    hide Rem;
    QuoRem(rem, d);
    var u, v := Quo(rem, d), Rem(rem, d);
    var x := v * TWO_TO_32 + lower;
    assert x < d * TWO_TO_32;
    QuoAtMost(rem, d, TWO_TO_32);
    QuoAtMost(x, d, TWO_TO_32);
    QuoRem(x, d);
    Recombine(u, v, Quo(x, d), Rem(x, d), d, lower);
    QuoUnique(rem * TWO_TO_32 + lower, d, u * TWO_TO_32 + Quo(x, d), Rem(x, d));
  }

  lemma DigitsOverflow(upper: nat, rest: nat, d: nat)
    requires 0 < d <= upper
    ensures (upper * TWO_TO_64 + rest) / d > MAX_64
  {
    assert (upper - d) * TWO_TO_64 >= 0;
    QuotientAtLeast(upper * TWO_TO_64 + rest, d, TWO_TO_64);
  }

  lemma DivideDigitsIsExact(upper: nat, mid: nat, lower: nat, d: nat)
    requires 0 < d <= MAX_32 && upper < TWO_TO_32 && mid < TWO_TO_32 && lower < TWO_TO_32
    ensures var q := ((upper * TWO_TO_32 + mid) * TWO_TO_32 + lower) / d;
            DivideDigits(upper, mid, lower, d) == if q <= MAX_64 then q else MAX_64
  {
    if upper >= d {
      assert (upper * TWO_TO_32 + mid) * TWO_TO_32 + lower == upper * TWO_TO_64 + (mid * TWO_TO_32 + lower);
      DigitsOverflow(upper, mid * TWO_TO_32 + lower, d);
      assert DivideDigits(upper, mid, lower, d) == MAX_64;
    } else {
      assert upper * TWO_TO_32 + mid < d * TWO_TO_32;
      hide DivideRemainder;
      NoOverflow(upper * TWO_TO_32 + mid, lower, d);
    }
  }

  lemma NoOverflow(rem: nat, lower: nat, d: nat)
    requires 0 < d <= MAX_32 && lower < TWO_TO_32 && rem < d * TWO_TO_32
    ensures DivideRemainder(rem, lower, d) == Quo(rem * TWO_TO_32 + lower, d) <= MAX_64
  {
    hide Quo;
    hide Rem;
    LongDivision(rem, lower, d);
    JoinedDigits(Quo(rem, d), Quo(Rem(rem, d) * TWO_TO_32 + lower, d));
    hide JoinDigits;
  }

  // Two 32-bit digits make a 64-bit number.
  lemma JoinedDigits(high: nat, low: nat)
    requires high <= MAX_32 && low <= MAX_32
    ensures JoinDigits(high, low) == high * TWO_TO_32 + low <= MAX_64
  {
  }

  /** The digit-wise algorithm computes the exact quotient, rounded down, or all ones when it does
      not fit into 64 bits. */
  lemma ScaleIsExact(num: nat, n: nat, d: nat)
    requires num <= MAX_64 && n <= MAX_32 && 0 < d <= MAX_32
    ensures Scale(num, n, d) == if num * n / d <= MAX_64 then num * n / d else MAX_64
  {
    if num == 0 {
      DivUnique(0, d, 0, 0);
    } else if d == n {
      DivUnique(num * n, d, num, 0);
    } else {
      ThreeDigits(num, n);
      var productHigh := (num / TWO_TO_32) * n;
      var productLow := (num % TWO_TO_32) * n;
      var midPartial := productHigh % TWO_TO_32;
      var mid := (midPartial + productLow / TWO_TO_32) % TWO_TO_32;
      var upper := (productHigh / TWO_TO_32 + (if mid < midPartial then 1 else 0)) % TWO_TO_32;
      hide DivideDigits;
      DivideDigitsIsExact(upper, mid, productLow % TWO_TO_32, d);
    }
  }

  lemma FractionShrinks(num: nat, n: nat)
    requires n <= DENOMINATOR
    ensures num * n / DENOMINATOR <= num
    ensures n == DENOMINATOR ==> num * n / DENOMINATOR == num
  {
    assert num * (DENOMINATOR - n) >= 0;
    QuotientAtMost(num * n, DENOMINATOR, num + 1);
    if n == DENOMINATOR {
      DivUnique(num * n, DENOMINATOR, num, 0);
    }
  }

  // Taking a fraction of at most 1 never gives more than there is.
  lemma ScaleShrinks(num: nat, n: nat)
    requires num <= MAX_64 && n <= DENOMINATOR
    ensures Scale(num, n, DENOMINATOR) == num * n / DENOMINATOR <= num
    ensures n == DENOMINATOR ==> Scale(num, n, DENOMINATOR) == num
  {
    hide Scale;
    ScaleIsExact(num, n, DENOMINATOR);
    FractionShrinks(num, n);
  }

  // ----- The dithering distributer -----

  function Sum(xs: seq<nat>): nat {
    if xs == [] then 0 else Sum(xs[..|xs| - 1]) + xs[|xs| - 1]
  }

  lemma {:induction false} SumOfConcat(a: seq<nat>, b: seq<nat>)
    ensures Sum(a + b) == Sum(a) + Sum(b)
  {
    if b == [] {
      assert a + b == a;
    } else {
      assert (a + b)[..|a + b| - 1] == a + b[..|b| - 1];
      SumOfConcat(a, b[..|b| - 1]);
    }
  }

  lemma {:induction false} SumOfFirst(xs: seq<nat>)
    requires xs != []
    ensures Sum(xs) == xs[0] + Sum(xs[1..])
  {
    assert xs == [xs[0]] + xs[1..];
    SumOfConcat([xs[0]], xs[1..]);
    assert [xs[0]][..0] == [];
  }

  // The portion of a mass for a weight out of what weight remains.
  function Portion(mass: nat, weight: nat, rem: nat): (r: nat)
    requires mass <= MAX_64 && weight <= rem && 0 < rem <= MAX_32
    ensures r <= mass
    ensures weight == rem ==> r == mass
  {
    ProbabilityIsNearest(weight, rem);
    ScaleShrinks(mass, Probability(weight, rem));
    Scale(mass, Probability(weight, rem), DENOMINATOR)
  }

  // The portions of a mass for weights that add up to the remaining weight.
  function Portions(mass: nat, weights: seq<nat>): (r: seq<nat>)
    requires mass <= MAX_64 && Sum(weights) <= MAX_32
    requires forall i | 0 <= i < |weights| :: weights[i] > 0
    ensures |r| == |weights|
    decreases |weights|
  {
    if weights == [] then []
    else
      SumOfFirst(weights);
      var p := Portion(mass, weights[0], Sum(weights));
      [p] + Portions(mass - p, weights[1..])
  }

  /** No mass is lost: the portions of any non-empty list of weights add up to exactly the mass. */
  lemma {:induction false} PortionsConserveMass(mass: nat, weights: seq<nat>)
    requires mass <= MAX_64 && Sum(weights) <= MAX_32
    requires forall i | 0 <= i < |weights| :: weights[i] > 0
    ensures weights != [] ==> Sum(Portions(mass, weights)) == mass
    decreases |weights|
  {
    if weights != [] {
      SumOfFirst(weights);
      var p := Portion(mass, weights[0], Sum(weights));
      var rest := Portions(mass - p, weights[1..]);
      PortionsConserveMass(mass - p, weights[1..]);
      SumOfFirst([p] + rest);
      assert ([p] + rest)[1..] == rest;
      if weights[1..] == [] {
        assert rest == [] && p == mass;
      }
    }
  }

  /** Exact integer bounds on one portion: within one unit, plus the rounding of the probability. */
  lemma PortionIsProportional(mass: nat, weight: nat, rem: nat)
    requires mass <= MAX_64 && weight <= rem && 0 < rem <= MAX_32
    ensures var n := Probability(weight, rem);
            && Portion(mass, weight, rem) * DENOMINATOR <= mass * n < (Portion(mass, weight, rem) + 1) * DENOMINATOR
            && 0 - rem <= 2 * (n * rem - weight * DENOMINATOR) <= rem
  {
    ProbabilityIsNearest(weight, rem);
    ScaleShrinks(mass, Probability(weight, rem));
    hide Scale;
    hide Probability;
    Quotient(mass * Probability(weight, rem), DENOMINATOR);
  }

  /** Is `x` the share of a mass that a weight out of a total has, up to one part in 2^32 of the full
      mass for each portion taken so far? */
  predicate FairShare(x: nat, mass: nat, weight: nat, total: nat, i: nat) {
    var error := (i + 1) * (TWO_TO_32 + 1) * total;
    mass * weight - error <= x * total <= mass * weight + error
  }

  lemma FairFraction(p: nat, m: nat, n: nat, w: nat, r: nat)
    requires m <= MAX_64 && p * DENOMINATOR <= m * n < (p + 1) * DENOMINATOR
    requires 0 - r <= 2 * (n * r - w * DENOMINATOR) <= r
    ensures FairShare(p, m, w, r, 0)
  {
    TimesRemaining(p, m * n, r);
    Scaled(m, 2 * (n * r - w * DENOMINATOR), r);
    TimesMass(m, n, w, r);
    NoMoreThan(m, MAX_64, r);
    hide *;
    FairInUnits(p * r, m * w, (m * n) * r, m * r, r);
    MeansFair(p, m, w, r);
  }

  lemma TimesRemaining(p: nat, x: nat, r: nat)
    requires p * DENOMINATOR <= x < (p + 1) * DENOMINATOR
    ensures (p * r) * DENOMINATOR <= x * r <= (p * r) * DENOMINATOR + r * DENOMINATOR
  {
    NoMoreThan(p * DENOMINATOR, x, r);
    NoMoreThan(x, p * DENOMINATOR + DENOMINATOR, r);
    assert (p * DENOMINATOR) * r == (p * r) * DENOMINATOR;
    assert (p * DENOMINATOR + DENOMINATOR) * r == (p * DENOMINATOR) * r + DENOMINATOR * r;
  }

  lemma TimesMass(m: nat, n: nat, w: nat, r: nat)
    ensures m * (2 * (n * r - w * DENOMINATOR)) == 2 * ((m * n) * r) - 2 * ((m * w) * DENOMINATOR)
  {
    assert m * (n * r) == (m * n) * r;
    assert m * (w * DENOMINATOR) == (m * w) * DENOMINATOR;
    assert m * (n * r - w * DENOMINATOR) == m * (n * r) - m * (w * DENOMINATOR);
  }

  lemma NoMoreThan(a: nat, b: nat, c: nat)
    requires a <= b
    ensures a * c <= b * c
  {
    assert b * c == a * c + (b - a) * c;
  }

  lemma FairInUnits(x: nat, y: nat, z: nat, e: nat, r: nat)
    requires x * DENOMINATOR <= z <= x * DENOMINATOR + r * DENOMINATOR
    requires 0 - e <= 2 * z - 2 * (y * DENOMINATOR) <= e <= MAX_64 * r
    ensures y - (TWO_TO_32 + 1) * r <= x <= y + (TWO_TO_32 + 1) * r
  {
  }

  lemma MeansFair(p: nat, m: nat, w: nat, r: nat)
    requires m * w - (TWO_TO_32 + 1) * r <= p * r <= m * w + (TWO_TO_32 + 1) * r
    ensures FairShare(p, m, w, r, 0)
  {
  }

  lemma FirstIsFair(mass: nat, weight: nat, rem: nat)
    requires mass <= MAX_64 && weight <= rem && 0 < rem <= MAX_32
    ensures FairShare(Portion(mass, weight, rem), mass, weight, rem, 0)
  {
    PortionIsProportional(mass, weight, rem);
    hide Portion;
    hide Probability;
    FairFraction(Portion(mass, weight, rem), mass, Probability(weight, rem), weight, rem);
  }

  // A fair share of what a fair share has left is fair.
  lemma LaterIsFair(x: nat, w: nat, p: nat, first: nat, mass: nat, total: nat, i: nat)
    requires first < total && w <= total - first && p <= mass
    requires FairShare(p, mass, first, total, 0) && FairShare(x, mass - p, w, total - first, i)
    ensures FairShare(x, mass, w, total, i + 1)
  {
    var r, e, f := total - first, p * total - mass * first, x * (total - first) - (mass - p) * w;
    var b, c := (i + 1) * (TWO_TO_32 + 1), TWO_TO_32 + 1;
    Expand(x, w, p, first, mass, total);
    assert 0 - c * total <= e <= c * total;
    assert 0 - b * r <= f <= b * r;
    hide *;
    Scaled(total, f, b * r);
    Scaled(w, e, c * total);
    NoMoreThan(w, r, c * total);
    Swapped(total, b, r);
    Together(r, x * total - mass * w, total * f, w * e, b * total, c * total);
    OneMoreUnit(x, mass, w, total, i);
  }

  lemma Swapped(a: nat, b: nat, c: nat)
    ensures a * (b * c) == c * (b * a)
  {
  }

  lemma Together(r: nat, g: int, f: int, e: int, b: nat, c: nat)
    requires r > 0 && r * g == f - e && 0 - r * b <= f <= r * b && 0 - r * c <= e <= r * c
    ensures 0 - (b + c) <= g <= b + c
  {
    assert r * (b + c) == r * b + r * c;
    Cancel(r, g, b + c);
  }

  lemma OneMoreUnit(x: nat, mass: nat, w: nat, total: nat, i: nat)
    requires var error := (i + 1) * (TWO_TO_32 + 1) * total + (TWO_TO_32 + 1) * total;
             0 - error <= x * total - mass * w <= error
    ensures FairShare(x, mass, w, total, i + 1)
  {
    assert (i + 2) * (TWO_TO_32 + 1) * total == ((i + 1) * (TWO_TO_32 + 1)) * total + (TWO_TO_32 + 1) * total;
  }

  lemma Expand(x: nat, w: nat, p: nat, first: nat, mass: nat, total: nat)
    ensures (total - first) * (x * total - mass * w)
            == total * (x * (total - first) - (mass - p) * w) - w * (p * total - mass * first)
  {
    assert (total - first) * (x * total - mass * w)
           == total * (x * total) - first * (x * total) - total * (mass * w) + first * (mass * w);
    assert total * (x * (total - first) - (mass - p) * w)
           == total * (x * total) - total * (x * first) - total * (mass * w) + total * (p * w);
    assert w * (p * total - mass * first) == w * (p * total) - w * (mass * first);
  }

  lemma Scaled(a: nat, x: int, b: int)
    requires 0 - b <= x <= b
    ensures 0 - a * b <= a * x <= a * b
  {
    assert a * (b - x) == a * b - a * x;
    assert a * (b + x) == a * b + a * x;
  }

  lemma Cancel(r: nat, x: int, b: int)
    requires r > 0 && 0 - r * b <= r * x <= r * b
    ensures 0 - b <= x <= b
  {
    assert x * r == r * x && b * r == r * b;
    assert (b + 1) * r == b * r + r && (0 - b - 1) * r == 0 - b * r - r;
    LessProduct(x, b + 1, r);
    LessProduct(0 - b - 1, x, r);
  }

  /** Every portion is the fair share of its weight, although each is rounded and taken from what the
      others have left. */
  lemma {:induction false} PortionsAreFair(mass: nat, weights: seq<nat>, i: nat)
    requires mass <= MAX_64 && Sum(weights) <= MAX_32 && i < |weights|
    requires forall k | 0 <= k < |weights| :: weights[k] > 0
    ensures FairShare(Portions(mass, weights)[i], mass, weights[i], Sum(weights), i)
    decreases i
  {
    SumOfFirst(weights);
    FirstIsFair(mass, weights[0], Sum(weights));
    if i > 0 {
      var p := Portion(mass, weights[0], Sum(weights));
      PortionsAreFair(mass - p, weights[1..], i - 1);
      PartIsLess(weights[1..], i - 1);
      hide Portion;
      hide Sum;
      LaterIsFair(Portions(mass, weights)[i], weights[i], p, weights[0], mass, Sum(weights), i - 1);
    }
  }

  lemma {:induction false} PartIsLess(xs: seq<nat>, i: nat)
    requires i < |xs|
    ensures xs[i] <= Sum(xs)
  {
    if i < |xs| - 1 {
      PartIsLess(xs[..|xs| - 1], i);
    }
  }

  // Masses are subtracted with saturation at zero, and added with saturation at the full mass.
  function Minus(a: nat, b: nat): nat {
    var diff := (a - b) % TWO_TO_64;
    if diff > a then 0 else diff
  }

  function Plus(a: nat, b: nat): nat {
    var sum := (a + b) % TWO_TO_64;
    if sum < a then MAX_64 else sum
  }

  lemma MinusIsExact(a: nat, b: nat)
    requires b <= a <= MAX_64
    ensures Minus(a, b) == a - b
  {
    DivUnique(a - b, TWO_TO_64, 0, a - b);
  }

  lemma PlusIsExact(a: nat, b: nat)
    requires a + b <= MAX_64
    ensures Plus(a, b) == a + b
  {
    DivUnique(a + b, TWO_TO_64, 0, a + b);
  }

  class DitheringDistributer {
    var remWeight: nat
    var remMass: nat

    constructor (total: nat, mass: nat)
      ensures remWeight == total && remMass == mass
    {
      remWeight, remMass := total, mass;
    }

    method TakeMass(weight: nat) returns (mass: nat)
      requires 0 < weight <= remWeight <= MAX_32 && remMass <= MAX_64
      modifies this
      ensures mass == Portion(old(remMass), weight, old(remWeight))
      ensures remWeight == old(remWeight) - weight && remMass == old(remMass) - mass
    {
      ProbabilityIsNearest(weight, remWeight);
      ScaleShrinks(remMass, Probability(weight, remWeight));
      hide Scale;
      hide Probability;
      MinusIsExact(remMass, Portion(remMass, weight, remWeight));
      mass := Scale(remMass, Probability(weight, remWeight), DENOMINATOR);
      remWeight := remWeight - weight;
      remMass := Minus(remMass, mass);
    }
  }
}
