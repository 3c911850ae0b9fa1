/** Normalizing a distribution so that its total fits into 32 bits
    (llvm/lib/Analysis/BlockFrequencyInfoImpl.cpp). */
module BlockNormalize {
  import opened Words
  import opened Arithmetic
  import opened BlockWeights

  // ----- What combining does to the sum -----

  // The amounts in `ws` to the targets of `r`.
  function SumOver(r: seq<Weight>, ws: seq<Weight>): nat {
    if r == [] then 0 else SumOver(r[..|r| - 1], ws) + AmountTo(ws, r[|r| - 1].target)
  }

  lemma {:induction false} SumOverNothing(r: seq<Weight>)
    ensures SumOver(r, []) == 0
  {
    if r != [] {
      SumOverNothing(r[..|r| - 1]);
    }
  }

  lemma {:induction false} SumOverAppend(r: seq<Weight>, s: seq<Weight>, w: Weight)
    requires DistinctTargets(r)
    ensures SumOver(r, s + [w]) == SumOver(r, s) + (if Targeted(r, w.target) then w.amount else 0)
  {
    if r != [] {
      var n := |r| - 1;
      var q, last := r[..n], r[n];
      assert r == q + [last];
      SumOverAppend(q, s, w);
      AppendAmount(s, w, last.target);
      TargetedAppend(q, last);
      if Targeted(r, w.target) && w.target != last.target {
        TargetedBefore(q, last, w.target);
      }
      assert w.target == last.target ==> !Targeted(q, w.target);
    }
  }

  // Distinct targets that cover all weights: together they get everything.
  lemma {:induction false} SumOverAll(r: seq<Weight>, ws: seq<Weight>)
    requires DistinctTargets(r) && forall j | 0 <= j < |ws| :: Targeted(r, ws[j].target)
    ensures SumOver(r, ws) == TrueSum(ws)
  {
    if ws == [] {
      SumOverNothing(r);
    } else {
      var n := |ws| - 1;
      assert ws == ws[..n] + [ws[n]];
      SumOverAppend(r, ws[..n], ws[n]);
      SumOverAll(r, ws[..n]);
    }
  }

  lemma {:induction false} SaturationLoses(r: seq<Weight>, ws: seq<Weight>)
    requires forall i | 0 <= i < |r| :: r[i].amount == Sat(AmountTo(ws, r[i].target))
    ensures TrueSum(r) <= SumOver(r, ws)
    ensures SumOver(r, ws) <= MAX_64 ==> TrueSum(r) == SumOver(r, ws)
  {
    if r != [] {
      SaturationLoses(r[..|r| - 1], ws);
    }
  }

  /** Combining keeps the sum, unless amounts saturate; then it only shrinks. */
  lemma {:induction false} CombiningKeepsSum(r: seq<Weight>, ws: seq<Weight>)
    requires CombinedFrom(r, ws)
    ensures TrueSum(r) <= TrueSum(ws)
    ensures TrueSum(ws) <= MAX_64 ==> TrueSum(r) == TrueSum(ws)
  {
    SumOverAll(r, ws);
    SaturationLoses(r, ws);
  }

  // ----- Shifting -----

  // The position of the highest bit: 63 minus the number of leading zeros.
  function Lg(x: nat): nat
    requires x > 0
  {
    if x == 1 then 0 else 1 + Lg(x / 2)
  }

  lemma {:induction false} LgBounds(x: nat)
    requires x > 0
    ensures Pow2(Lg(x)) <= x < 2 * Pow2(Lg(x))
  {
    if x != 1 {
      LgBounds(x / 2);
    }
  }

  function ShiftRightAndRound(n: nat, shift: nat): nat {
    if shift == 0 then n else Quo(n, Pow2(shift)) + Quo(n, Pow2(shift - 1)) % 2
  }

  function Shifted(n: nat, shift: nat): nat {
    if ShiftRightAndRound(n, shift) < 1 then 1 else ShiftRightAndRound(n, shift)
  }

  // Is `y` the quotient of x and 2^shift, rounded to the nearest number, but at least 1?
  predicate Near(y: nat, x: nat, shift: nat) {
    var p := Pow2(shift);
    y >= 1 && 2 * x < 2 * (y * p) + p && (y == 1 || 2 * (y * p) <= 2 * x + p)
  }

  lemma HalfSteps(n: nat, p: nat)
    requires p > 0
    ensures n / (2 * p) == (n / p) / 2
  {
    Quotient(n, p);
    var q := n / p;
    assert q == 2 * (q / 2) + q % 2;
    assert (q / 2) * (2 * p) == (2 * (q / 2)) * p;
    assert (2 * (q / 2) + q % 2) * p == (2 * (q / 2)) * p + (q % 2) * p;
    assert (q % 2) * p <= p;
    DivUnique(n, 2 * p, q / 2, (q % 2) * p + n % p);
  }

  lemma RoundHalves(q: nat, r: nat, n: nat, p: nat)
    requires 2 * r == q + q % 2 && q * p <= n < q * p + p
    ensures r * (2 * p) <= n + p && n < r * (2 * p) + p
  {
    assert r * (2 * p) == (2 * r) * p;
    if q % 2 == 0 {
      assert (2 * r) * p == q * p;
    } else {
      assert (2 * r) * p == (q + 1) * p == q * p + p;
    }
  }

  /** Rounding to the nearest multiple: off by half a unit at most, and up in the middle. */
  lemma {:induction false} RoundsToNearest(n: nat, shift: nat)
    ensures var r, p := ShiftRightAndRound(n, shift), Pow2(shift);
            2 * (r * p) <= 2 * n + p && 2 * n < 2 * (r * p) + p
  {
    if shift > 0 {
      var p := Pow2(shift - 1);
      var q, r := n / p, ShiftRightAndRound(n, shift);
      assert Pow2(shift) == 2 * p;
      HalfSteps(n, p);
      Quotient(n, p);
      assert 2 * r == q + q % 2;
      hide *;
      RoundHalves(q, r, n, p);
    }
  }

  lemma ShiftedIsNear(n: nat, shift: nat)
    requires n > 0
    ensures Near(Shifted(n, shift), n, shift)
    ensures shift == 0 ==> Shifted(n, shift) == n
  {
    RoundsToNearest(n, shift);
  }

  // ----- Normal form -----

  predicate SameTargets(out: seq<Weight>, ws: seq<Weight>) {
    && DistinctTargets(out)
    && (forall i | 0 <= i < |out| :: Reaches(ws, out[i].target, out[i].kind))
    && (forall j | 0 <= j < |ws| :: Targeted(out, ws[j].target))
  }

  // Every weight is its share of `ws`, shifted and rounded.
  predicate Proportional(out: seq<Weight>, ws: seq<Weight>, shift: nat) {
    && (forall i | 0 <= i < |out| :: Near(out[i].amount, Sat(AmountTo(ws, out[i].target)), shift))
    && (shift == 0 ==> forall i | 0 <= i < |out| :: out[i].amount == AmountTo(ws, out[i].target))
  }

  predicate AllPositive(out: seq<Weight>) {
    forall i | 0 <= i < |out| :: out[i].amount >= 1
  }

  lemma Pow2Of32()
    ensures Pow2(32) == TWO_TO_32
  {
    assert Pow2(8) == 256;
    Pow2Add(8, 8);
    Pow2Add(16, 16);
  }

  // A number of 33 to 64 bits.
  lemma {:induction false} LgOfLarge(x: nat)
    requires MAX_32 < x < TWO_TO_64
    ensures 32 <= Lg(x) <= 63
  {
    Pow2Of64();
    Pow2Of32();
    LgBounds(x);
    var l := Lg(x);
    hide Lg;
    if l < 32 {
      Pow2Monotone(l + 1, 32);
    }
    if l > 63 {
      Pow2Monotone(64, l);
    }
  }

  // By how many bits the weights must be shifted.
  function ShiftFor(trueSum: nat): nat {
    if trueSum >= TWO_TO_64 then 33
    else if trueSum > MAX_32 then
      LgOfLarge(trueSum);
      33 - (63 - Lg(trueSum))
    else 0
  }

  const TWO_TO_31: nat := 0x8000_0000
  const TWO_TO_33: nat := 0x2_0000_0000

  /** The least sum of n weights whose shifted total can be 2^32, where p is the unit they are shifted
      by. One weight makes 2^31 units at most. So up to 2^31 weights take two that are not 1 afterwards,
      and more of them take one. All weights of 1 cost nothing but themselves, and rounding gives half
      a unit to each of the others. */
  function Least(n: nat, p: nat): int {
    if n <= TWO_TO_31 then (TWO_TO_32 - n + 1) * p + n - 2
    else if n < TWO_TO_32 then (TWO_TO_32 - n + 1) * p - p / 2 + n - 1
    else n
  }

  /** When n normalized weights are sure to have a total that fits into 32 bits. */
  predicate TotalFits(sum: nat, n: nat) {
    n <= 1 || sum <= MAX_32 || sum < Least(n, Pow2(ShiftFor(sum)))
  }

  lemma Pow2Of33()
    ensures Pow2(33) == TWO_TO_33 && Pow2(32) == TWO_TO_32 && Pow2(31) == TWO_TO_31 == 2 * Pow2(30)
  {
    Pow2Of32();
    assert Pow2(33) == 2 * Pow2(32) && Pow2(32) == 2 * Pow2(31) && Pow2(31) == 2 * Pow2(30);
  }

  /** The shift is the one that brings the sum down to 31 bits, or by 33 bits if the sum overflowed. */
  lemma ShiftBounds(sum: nat)
    requires MAX_32 < sum < 2 * TWO_TO_64
    ensures 1 < ShiftFor(sum) <= 33
    ensures sum < TWO_TO_64 ==>
              TWO_TO_31 / 2 * Pow2(ShiftFor(sum)) <= sum < TWO_TO_31 * Pow2(ShiftFor(sum))
    ensures sum >= TWO_TO_64 ==> ShiftFor(sum) == 33
    ensures MAX_64 < TWO_TO_31 * Pow2(33)
  {
    Pow2Of33();
    if sum < TWO_TO_64 {
      var l := Lg(sum);
      LgOfLarge(sum);
      LgBounds(sum);
      assert ShiftFor(sum) == l - 30;
      hide *;
      Pow2Add(30, l - 30);
    }
  }

  // Where nothing overflowed, up to 2^31 weights always fit.
  lemma SmallSumsFit(sum: nat, n: nat)
    requires sum < TWO_TO_64 && n <= TWO_TO_31
    ensures TotalFits(sum, n)
  {
    if sum > MAX_32 && n > 1 {
      ShiftBounds(sum);
      LeastIsMore(n, Pow2(ShiftFor(sum)));
    }
  }

  lemma LeastIsMore(n: nat, p: nat)
    requires 1 < n <= TWO_TO_31
    ensures Least(n, p) >= TWO_TO_31 * p
  {
    AtLeastTimes(TWO_TO_31, TWO_TO_32 - n + 1, p);
  }

  // The number of weights that are not 1.
  function Heavy(out: seq<Weight>): (m: nat)
    ensures m <= |out|
  {
    if out == [] then 0
    else
      var n := |out| - 1;
      Heavy(out[..n]) + (if out[n].amount > 1 then 1 else 0)
  }

  // What a weight of y units costs at least, where h is half a unit.
  lemma OneCosts(x: nat, y: nat, h: nat)
    requires x >= 1 && h >= 1 && y >= 1 && (y == 1 || y * (2 * h) <= x + h)
    ensures 2 * h * (y - 1) + 1 + (if y > 1 then h - 1 else 0) <= x
  {
    assert y * (2 * h) == 2 * h * (y - 1) + 2 * h;
  }

  lemma UnitsAtMost(x: nat, y: nat, p: nat)
    requires p >= 1 && x < TWO_TO_31 * p && (y == 1 || 2 * (y * p) <= 2 * x + p)
    ensures y <= TWO_TO_31
  {
    if y > 1 {
      assert (2 * y) * p == 2 * (y * p);
      assert (2 * TWO_TO_31 + 1) * p == 2 * (TWO_TO_31 * p) + p;
      LessProduct(2 * y, 2 * TWO_TO_31 + 1, p);
    }
  }

  // Shifted weights and what they cost: d units more than there are weights.
  ghost predicate Costs(out: seq<Weight>, r: seq<Weight>, h: nat) {
    exists d: nat :: CostsUnits(TrueSum(out), TrueSum(r), |r|, Heavy(out), h, d)
  }

  predicate CostsUnits(total: nat, sum: nat, n: nat, m: nat, h: nat, d: nat) {
    total == n + d && 2 * h * d + n + m * h <= sum + m && d <= m * (TWO_TO_31 - 1)
  }

  lemma OneMoreCosts(total: nat, sum: nat, n: nat, m: nat, h: nat, d: nat, x: nat, y: nat)
    requires CostsUnits(total, sum, n, m, h, d) && 1 <= y <= TWO_TO_31
    requires 2 * h * (y - 1) + 1 + (if y > 1 then h - 1 else 0) <= x
    ensures CostsUnits(total + y, sum + x, n + 1, m + (if y > 1 then 1 else 0), h, d + y - 1)
  {
    assert 2 * h * (d + y - 1) == 2 * h * d + 2 * h * (y - 1);
    assert (m + 1) * h == m * h + h;
    assert (m + 1) * (TWO_TO_31 - 1) == m * (TWO_TO_31 - 1) + (TWO_TO_31 - 1);
  }

  lemma {:induction false} SumOfShifted(out: seq<Weight>, r: seq<Weight>, shift: nat)
    requires shift > 0 && |out| == |r|
    requires forall i | 0 <= i < |r| ::
               1 <= r[i].amount < TWO_TO_31 * Pow2(shift) && Near(out[i].amount, r[i].amount, shift)
    ensures Costs(out, r, Pow2(shift - 1))
  {
    var h := Pow2(shift - 1);
    if r == [] {
      assert CostsUnits(TrueSum(out), TrueSum(r), |r|, Heavy(out), h, 0);
    } else {
      var n := |r| - 1;
      SumOfShifted(out[..n], r[..n], shift);
      var d: nat :| CostsUnits(TrueSum(out[..n]), TrueSum(r[..n]), n, Heavy(out[..n]), h, d);
      assert Near(out[n].amount, r[n].amount, shift);
      assert Pow2(shift) == 2 * h;
      hide Pow2;
      hide CostsUnits;
      UnitsAtMost(r[n].amount, out[n].amount, 2 * h);
      OneCosts(r[n].amount, out[n].amount, h);
      OneMoreCosts(TrueSum(out[..n]), TrueSum(r[..n]), n, Heavy(out[..n]), h, d, r[n].amount, out[n].amount);
      assert CostsUnits(TrueSum(out), TrueSum(r), |r|, Heavy(out), h, d + out[n].amount - 1);
    }
  }

  // A total that does not fit takes the least sum.
  lemma TooMuchCosts(total: nat, sum: nat, n: nat, m: nat, h: nat, d: nat)
    requires CostsUnits(total, sum, n, m, h, d) && total >= TWO_TO_32 && n > 1 && h >= 1
    ensures Least(n, 2 * h) <= sum
  {
    if n <= TWO_TO_31 {
      assert m >= 2;
      assert m * (h - 1) == m * h - m;
      AtLeastTimes(2, m, h - 1);
      AtLeastTimes(TWO_TO_32 - n, d, 2 * h);
      assert (TWO_TO_32 - n + 1) * (2 * h) == (TWO_TO_32 - n) * (2 * h) + 2 * h;
    } else if n < TWO_TO_32 {
      assert m >= 1;
      assert m * (h - 1) == m * h - m;
      AtLeastTimes(1, m, h - 1);
      AtLeastTimes(TWO_TO_32 - n, d, 2 * h);
      assert (TWO_TO_32 - n + 1) * (2 * h) == (TWO_TO_32 - n) * (2 * h) + 2 * h;
    } else {
      AtLeastTimes(0, d, 2 * h);
      assert m * h >= m by { AtLeastTimes(1, h, m); }
    }
  }

  lemma AtLeastTimes(a: nat, b: nat, c: nat)
    requires a <= b
    ensures a * c <= b * c
  {
    assert b * c == a * c + (b - a) * c;
  }

  function ShiftedAll(ws: seq<Weight>, shift: nat): (out: seq<Weight>)
    ensures |out| == |ws|
    ensures forall k | 0 <= k < |ws| :: out[k] == ws[k].(amount := Shifted(ws[k].amount, shift))
  {
    seq(|ws|, k requires 0 <= k < |ws| => ws[k].(amount := Shifted(ws[k].amount, shift)))
  }

  // The total that combined weights end up with, where `sum` is the sum of those they were combined from.
  function NormalTotal(r: seq<Weight>, sum: nat): nat {
    if |r| == 1 then 1 else TrueSum(ShiftedAll(r, ShiftFor(sum)))
  }

  // ----- The distribution -----

  class Distribution {
    var weights: seq<Weight>
    var total: nat
    var didOverflow: bool

    // Before normalization: what has been added, and how its 64-bit sum went.
    ghost predicate Valid()
      reads this
    {
      && Coherent(weights) && TrueSum(weights) < 2 * TWO_TO_64
      && total == TrueSum(weights) % TWO_TO_64
      && didOverflow == (TrueSum(weights) >= TWO_TO_64)
    }

    constructor ()
      ensures Valid() && weights == []
    {
      weights, total, didOverflow := [], 0, false;
    }

    method Add(target: nat, amount: nat, kind: Kind)
      requires Valid() && Coherent(weights + [Weight(kind, target, amount)])
      requires TrueSum(weights) + amount < 2 * TWO_TO_64
      modifies this
      ensures Valid() && weights == old(weights) + [Weight(kind, target, amount)]
    {
      hide Coherent;
      hide TrueSum;
      ghost var sum := TrueSum(weights);
      TrueSumAppend(weights, Weight(kind, target, amount));
      LastFits(weights, Weight(kind, target, amount));
      var newTotal := (total + amount) % TWO_TO_64;
      var isOverflow := newTotal < total;
      SumWraps(sum, amount);
      assert !(didOverflow && isOverflow);
      didOverflow := didOverflow || isOverflow;
      total := newTotal;
      weights := weights + [Weight(kind, target, amount)];
    }

    /** Leaves one positive weight for every target, proportional to its share, with a total that
        is the exact sum and fits into 32 bits. */
    method Normalize()
      requires Valid() && TotalFits(TrueSum(weights), |Targets(weights)|)
      modifies this
      ensures NormalFormOf(weights, old(weights)) && total == TrueSum(weights) <= MAX_32
    {
      ghost var ws := weights;
      if weights == [] {
        return;
      }
      if |weights| > 1 {
        weights := CombineWeights(weights);
      } else {
        SingleIsCombined(weights);
      }
      weights, total := NormalizeCombined(weights, total, didOverflow, ws);
    }
  }

  // What comes after combining.
  method NormalizeCombined(r: seq<Weight>, oldTotal: nat, didOverflow: bool, ghost ws: seq<Weight>)
    returns (out: seq<Weight>, total: nat)
    requires Coherent(ws) && ws != [] && CombinedFrom(r, ws)
    requires TotalFits(TrueSum(ws), |Targets(ws)|) && TrueSum(ws) < 2 * TWO_TO_64
    requires oldTotal == TrueSum(ws) % TWO_TO_64 && didOverflow == (TrueSum(ws) >= TWO_TO_64)
    ensures NormalFormOf(out, ws) && total == TrueSum(out) <= MAX_32
    ensures total == NormalTotal(r, TrueSum(ws))
  {
    CombinedMeans(r, ws);
    hide Coherent;
    hide CombinedFrom;
    hide NormalFormOf;
    hide SameTargets;
    hide AllPositive;
    hide Pow2;
    hide Targets;
    hide TrueSum;
    hide Sat;
    hide AmountTo;
    if |r| == 1 {
      SingleIsNormal(r, ws);
      return [r[0].(amount := 1)], 1;
    }
    var shift := ShiftAmount(didOverflow, oldTotal, TrueSum(ws));
    if shift == 0 {
      UnshiftedIsNormal(r, ws);
      UnshiftedStay(r);
      assert oldTotal == TrueSum(r);
      return r, oldTotal;
    }
    out, total := ShiftAll(r, shift);
    hide ShiftFor;
    hide Shifted;
    assert out == ShiftedAll(r, shift);
    ShiftedIsNormal(out, r, ws);
  }

  method ShiftAmount(didOverflow: bool, total: nat, ghost sum: nat) returns (shift: nat)
    requires total == sum % TWO_TO_64 && didOverflow == (sum >= TWO_TO_64)
    ensures shift == ShiftFor(sum)
    ensures shift == 0 <==> sum <= MAX_32
  {
    shift := 0;
    if didOverflow {
      shift := 33;
    } else if total > MAX_32 {
      LgOfLarge(total);
      hide Lg;
      shift := 33 - (63 - Lg(total));
    }
    if sum > MAX_32 && sum < TWO_TO_64 {
      LgOfLarge(sum);
    }
  }

  lemma {:induction false} TrueSumAppend(ws: seq<Weight>, w: Weight)
    ensures TrueSum(ws + [w]) == TrueSum(ws) + w.amount
  {
    assert (ws + [w])[..|ws|] == ws;
  }

  lemma LastFits(ws: seq<Weight>, w: Weight)
    requires Coherent(ws + [w])
    ensures w.amount <= MAX_64
  {
    assert (ws + [w])[|ws|] == w;
  }

  // Adding to a sum modulo 2^64: it wraps exactly when 2^64 is crossed, and does so at most once.
  lemma SumWraps(sum: nat, amount: nat)
    requires sum + amount < 2 * TWO_TO_64 && amount <= MAX_64
    ensures var total := sum % TWO_TO_64;
            var newTotal := (total + amount) % TWO_TO_64;
            && newTotal == (sum + amount) % TWO_TO_64
            && (sum >= TWO_TO_64 ==> newTotal >= total)
            && (newTotal < total <==> sum < TWO_TO_64 <= sum + amount)
  {
  }

  // Shifts every weight and adds them up.
  method ShiftAll(r: seq<Weight>, shift: nat) returns (out: seq<Weight>, total: nat)
    ensures |out| == |r| && total == TrueSum(out)
    ensures forall k | 0 <= k < |r| :: out[k] == r[k].(amount := Shifted(r[k].amount, shift))
  {
    total := 0;
    out := [];
    hide Shifted;
    for i := 0 to |r|
      invariant |out| == i && total == TrueSum(out)
      invariant forall k | 0 <= k < i :: out[k] == r[k].(amount := Shifted(r[k].amount, shift))
    {
      var w := r[i].(amount := Shifted(r[i].amount, shift));
      TrueSumAppend(out, w);
      out := out + [w];
      total := total + w.amount;
    }
  }

  /** One positive weight for every target of `ws`: all of it for a single target, otherwise its
      share, exact when the sum fits into 32 bits and shifted and rounded when not. */
  ghost predicate NormalFormOf(out: seq<Weight>, ws: seq<Weight>) {
    && SameTargets(out, ws) && AllPositive(out)
    && (|out| > 1 ==> Proportional(out, ws, ShiftFor(TrueSum(ws))))
    && (|out| == 1 ==> out[0].amount == 1)
  }

  lemma SingleIsCombined(ws: seq<Weight>)
    requires |ws| == 1 && Coherent(ws)
    ensures CombinedFrom(ws, ws)
  {
    AmountOfOnly(ws, 0);
    assert Reaches(ws, ws[0].target, ws[0].kind);
  }

  // What later steps need to know about combined weights.
  lemma {:induction false} CombinedMeans(r: seq<Weight>, ws: seq<Weight>)
    requires CombinedFrom(r, ws) && Coherent(ws)
    ensures SameTargets(r, ws) && AllPositive(r) && |r| == |Targets(ws)| && (ws != [] ==> r != [])
    ensures forall i | 0 <= i < |r| :: r[i].amount == Sat(AmountTo(ws, r[i].target))
    ensures TrueSum(r) <= TrueSum(ws)
    ensures TrueSum(ws) <= MAX_64 ==> TrueSum(r) == TrueSum(ws)
  {
    CombiningKeepsSum(r, ws);
    forall i | 0 <= i < |r|
      ensures Reaches(ws, r[i].target, r[i].kind) && r[i].amount >= 1 && r[i].amount == Sat(AmountTo(ws, r[i].target))
    {
      assert Combines(r[i], ws);
      var j :| 0 <= j < |ws| && ws[j].target == r[i].target && ws[j].kind == r[i].kind;
      AmountIsPositive(ws, r[i].target);
    }
    CountTargets(r);
    assert Targets(r) == Targets(ws) by {
      forall t ensures t in Targets(r) <==> t in Targets(ws) {
        SameMembers(r, ws, t);
      }
    }
    if ws != [] {
      assert Targeted(r, ws[0].target);
    }
  }

  lemma {:induction false} SameMembers(r: seq<Weight>, ws: seq<Weight>, t: nat)
    requires CombinedFrom(r, ws)
    ensures t in Targets(r) <==> t in Targets(ws)
  {
    TargetsAreTargeted(r, t);
    TargetsAreTargeted(ws, t);
    if Targeted(r, t) {
      var i :| 0 <= i < |r| && r[i].target == t;
      assert Combines(r[i], ws);
      var j :| 0 <= j < |ws| && ws[j].target == r[i].target && ws[j].kind == r[i].kind;
      assert Targeted(ws, t);
    }
    if Targeted(ws, t) {
      var j :| 0 <= j < |ws| && ws[j].target == t;
      assert Targeted(r, ws[j].target);
    }
  }

  // Changing amounts keeps the targets.
  lemma Reweighed(out: seq<Weight>, r: seq<Weight>, ws: seq<Weight>)
    requires |out| == |r| && forall i | 0 <= i < |r| :: out[i].target == r[i].target && out[i].kind == r[i].kind
    requires SameTargets(r, ws)
    ensures SameTargets(out, ws)
  {
    forall j | 0 <= j < |ws| ensures Targeted(out, ws[j].target) {
      assert Targeted(r, ws[j].target);
      var i :| 0 <= i < |r| && r[i].target == ws[j].target;
      assert out[i].target == ws[j].target;
    }
    forall i | 0 <= i < |out| ensures Reaches(ws, out[i].target, out[i].kind) {
      assert Reaches(ws, r[i].target, r[i].kind);
    }
  }

  lemma SingleIsNormal(r: seq<Weight>, ws: seq<Weight>)
    requires |r| == 1 && SameTargets(r, ws)
    ensures var out := [r[0].(amount := 1)]; NormalFormOf(out, ws) && TrueSum(out) == 1
  {
    var out := [r[0].(amount := 1)];
    Reweighed(out, r, ws);
    assert out[..0] == [];
  }

  lemma {:induction false} UnshiftedIsNormal(r: seq<Weight>, ws: seq<Weight>)
    requires SameTargets(r, ws) && AllPositive(r) && |r| != 1 && TrueSum(ws) <= MAX_32 && TrueSum(r) == TrueSum(ws)
    requires forall i | 0 <= i < |r| :: r[i].amount == Sat(AmountTo(ws, r[i].target))
    ensures NormalFormOf(r, ws)
  {
    forall i | 0 <= i < |r|
      ensures r[i].amount == AmountTo(ws, r[i].target) && Near(r[i].amount, Sat(AmountTo(ws, r[i].target)), 0)
    {
      AmountWithinSum(ws, r[i].target);
    }
  }

  lemma UnshiftedStay(r: seq<Weight>)
    requires AllPositive(r)
    ensures ShiftedAll(r, 0) == r
  {
    assert forall k | 0 <= k < |r| :: Shifted(r[k].amount, 0) == r[k].amount;
    hide Shifted;
  }

  lemma {:induction false} AmountWithinSum(ws: seq<Weight>, t: nat)
    ensures AmountTo(ws, t) <= TrueSum(ws)
  {
    if ws != [] {
      AmountWithinSum(ws[..|ws| - 1], t);
    }
  }

  lemma {:induction false} ShiftedIsNormal(out: seq<Weight>, r: seq<Weight>, ws: seq<Weight>)
    requires SameTargets(r, ws) && AllPositive(r) && |r| > 1 && TotalFits(TrueSum(ws), |r|)
    requires forall i | 0 <= i < |r| :: r[i].amount == Sat(AmountTo(ws, r[i].target))
    requires TrueSum(r) <= TrueSum(ws) && MAX_32 < TrueSum(ws) < 2 * TWO_TO_64 && |out| == |r|
    requires var shift := ShiftFor(TrueSum(ws));
             forall k | 0 <= k < |r| :: out[k] == r[k].(amount := Shifted(r[k].amount, shift))
    ensures NormalFormOf(out, ws) && TrueSum(out) <= MAX_32
  {
    var shift := ShiftFor(TrueSum(ws));
    ShiftBounds(TrueSum(ws));
    ShiftedFits(out, r, TrueSum(ws));
    hide ShiftFor;
    Reweighed(out, r, ws);
    hide SameTargets;
    forall k | 0 <= k < |r| ensures Near(out[k].amount, r[k].amount, shift) && out[k].target == r[k].target {
      ShiftedIsNear(r[k].amount, shift);
    }
    hide Shifted;
    hide Near;
    hide Pow2;
    hide TrueSum;
    NearIsProportional(out, r, ws, shift);
  }

  // Within the bound the shifted total fits.
  lemma {:induction false} ShiftedFits(out: seq<Weight>, r: seq<Weight>, sum: nat)
    requires MAX_32 < sum < 2 * TWO_TO_64 && TrueSum(r) <= sum && |out| == |r| > 1 && TotalFits(sum, |r|)
    requires forall i | 0 <= i < |r| :: 1 <= r[i].amount <= MAX_64
    requires forall k | 0 <= k < |r| :: out[k] == r[k].(amount := Shifted(r[k].amount, ShiftFor(sum)))
    ensures TrueSum(out) <= MAX_32
  {
    var shift := ShiftFor(sum);
    ShiftBounds(sum);
    var h := Pow2(shift - 1);
    assert Pow2(shift) == 2 * h;
    assert sum >= TWO_TO_64 ==> shift == 33;
    hide ShiftFor;
    forall i | 0 <= i < |r|
      ensures 1 <= r[i].amount < TWO_TO_31 * Pow2(shift) && Near(out[i].amount, r[i].amount, shift)
    {
      WithinSum(r, i);
      ShiftedIsNear(r[i].amount, shift);
    }
    hide Shifted;
    hide Near;
    SumOfShifted(out, r, shift);
    hide Pow2;
    if TrueSum(out) > MAX_32 {
      var d: nat :| CostsUnits(TrueSum(out), TrueSum(r), |r|, Heavy(out), h, d);
      hide TrueSum;
      hide CostsUnits;
      hide Least;
      TooMuchCosts(TrueSum(out), TrueSum(r), |r|, Heavy(out), h, d);
      assert false;
    }
  }

  lemma {:induction false} WithinSum(r: seq<Weight>, i: nat)
    requires i < |r|
    ensures r[i].amount <= TrueSum(r)
  {
    if i < |r| - 1 {
      WithinSum(r[..|r| - 1], i);
    }
  }

  lemma {:induction false} NearIsProportional(out: seq<Weight>, r: seq<Weight>, ws: seq<Weight>, shift: nat)
    requires shift > 0 && |out| == |r|
    requires forall i | 0 <= i < |r| :: r[i].amount == Sat(AmountTo(ws, r[i].target))
    requires forall k | 0 <= k < |r| :: Near(out[k].amount, r[k].amount, shift) && out[k].target == r[k].target
    ensures Proportional(out, ws, shift) && AllPositive(out)
  {
    hide AmountTo;
    hide Sat;
    hide Pow2;
  }

  // ----- The bound is exact -----

  // Two weights and n smallest ones, to different targets.
  function WithOnes(a: nat, b: nat, n: nat): seq<Weight> {
    if n == 0 then [Weight(Local, 0, a), Weight(Local, 1, b)] else WithOnes(a, b, n - 1) + [Weight(Local, n + 1, 1)]
  }

  lemma {:induction false} WithOnesSum(a: nat, b: nat, n: nat)
    ensures var ws := WithOnes(a, b, n);
            && |ws| == n + 2 && TrueSum(ws) == a + b + n
            && (forall k | 0 <= k < n + 2 ::
                  ws[k].kind == Local && ws[k].target == k
                  && ws[k].amount == (if k == 0 then a else if k == 1 then b else 1))
  {
    if n > 0 {
      WithOnesSum(a, b, n - 1);
      TrueSumAppend(WithOnes(a, b, n - 1), Weight(Local, n + 1, 1));
    } else {
      TrueSumAppend([Weight(Local, 0, a)], Weight(Local, 1, b));
      TrueSumAppend([], Weight(Local, 0, a));
      assert [] + [Weight(Local, 0, a)] == [Weight(Local, 0, a)];
      assert [Weight(Local, 0, a)] + [Weight(Local, 1, b)] == WithOnes(a, b, 0);
    }
  }

  // Weights to different targets are combined already.
  lemma {:induction false} WithOnesCombined(a: nat, b: nat, n: nat)
    requires 1 <= a <= MAX_64 && 1 <= b <= MAX_64
    ensures var ws := WithOnes(a, b, n); Coherent(ws) && CombinedFrom(ws, ws) && |Targets(ws)| == n + 2
  {
    var ws := WithOnes(a, b, n);
    WithOnesSum(a, b, n);
    hide WithOnes;
    hide TrueSum;
    CountTargets(ws);
    hide Targets;
    forall i | 0 <= i < |ws| ensures Combines(ws[i], ws) && Targeted(ws, ws[i].target) {
      AmountOfOnly(ws, i);
      assert Reaches(ws, ws[i].target, ws[i].kind);
    }
  }

  lemma {:induction false} ShiftedOnes(a: nat, b: nat, n: nat, shift: nat)
    requires shift > 1
    ensures TrueSum(WithOnes(a, b, n)) == a + b + n
    ensures TrueSum(ShiftedAll(WithOnes(a, b, n), shift)) == Shifted(a, shift) + Shifted(b, shift) + n
  {
    WithOnesSum(a, b, n);
    WithOnesSum(Shifted(a, shift), Shifted(b, shift), n);
    ShiftedOne(shift);
    hide Shifted;
    hide WithOnes;
    hide TrueSum;
    assert ShiftedAll(WithOnes(a, b, n), shift) == WithOnes(Shifted(a, shift), Shifted(b, shift), n);
  }

  lemma ShiftedOne(shift: nat)
    requires shift > 1
    ensures Shifted(1, shift) == 1
  {
    Pow2Monotone(1, shift - 1);
    Pow2Monotone(1, shift);
    SmallQuotient(1, Pow2(shift));
    SmallQuotient(1, Pow2(shift - 1));
    hide Pow2;
    hide Quo;
  }

  lemma {:induction false} LgOfHighest(x: nat)
    requires TWO_TO_63 <= x < TWO_TO_64
    ensures Lg(x) == 63
  {
    var l := Lg(x);
    LgOfLarge(x);
    LgBounds(x);
    Pow2Of64();
    assert Pow2(64) == 2 * Pow2(63);
    hide Lg;
    if l < 63 {
      Pow2Monotone(l + 1, 63);
    }
  }

  lemma SmallQuotient(x: nat, d: nat)
    requires x < d
    ensures Quo(x, d) == 0
  {
    QuoUnique(x, d, 0, x);
  }

  // Numbers of units that are not further than half a unit from x.
  lemma NearestAtLeast(x: nat, y: nat, z: nat, p: nat)
    requires p >= 1 && 2 * (y * p) <= 2 * x + p && 2 * x < 2 * (z * p) + p
    ensures y <= z
  {
    assert (z + 1) * p == z * p + p;
    LessProduct(y, z + 1, p);
  }

  lemma {:induction false} ShiftedAtLeast(x: nat, y: nat, shift: nat)
    requires x > 0 && 2 * (y * Pow2(shift)) <= 2 * x + Pow2(shift)
    ensures Shifted(x, shift) >= y
  {
    hide Shifted;
    ShiftedIsNear(x, shift);
    hide Pow2;
    NearestAtLeast(x, y, Shifted(x, shift), Pow2(shift));
  }

  lemma {:induction false} ShiftedIs(x: nat, y: nat, shift: nat)
    requires x > 0 && y > 0
    requires var p := Pow2(shift); 2 * (y * p) <= 2 * x + p && 2 * x < 2 * (y * p) + p
    ensures Shifted(x, shift) == y
  {
    hide Shifted;
    ShiftedIsNear(x, shift);
    ShiftedAtLeast(x, y, shift);
    hide Pow2;
    if Shifted(x, shift) > 1 {
      NearestAtLeast(x, Shifted(x, shift), y, Pow2(shift));
    }
  }

  // 2^64 - 2^32: the least amount that makes 2^31 units of 2^33.
  const HALF: nat := MAX_64 - MAX_32

  // Up to 2^31 weights that reach the bound, of which two are not 1 in the end.
  lemma SplitAmongFew(sum: nat, n: nat) returns (a: nat, b: nat)
    requires MAX_32 < sum < 2 * TWO_TO_64 && 1 < n <= TWO_TO_31 && !TotalFits(sum, n)
    requires n == 2 ==> sum < 2 * TWO_TO_64 - 1
    ensures 1 <= a <= MAX_64 && 1 <= b <= MAX_64 && a + b + n - 2 == sum
    ensures Shifted(a, ShiftFor(sum)) + Shifted(b, ShiftFor(sum)) + n - 2 > MAX_32
  {
    if sum < TWO_TO_64 {
      SmallSumsFit(sum, n);
    }
    assert ShiftFor(sum) == 33;
    Pow2Of33();
    hide ShiftFor;
    hide Pow2;
    var room := sum - (n - 2);
    b := if room - HALF <= MAX_64 then room - HALF else MAX_64;
    a := room - b;
    ShiftedAtLeast(a, TWO_TO_31, 33);
    ShiftedAtLeast(b, TWO_TO_31 - (n - 2), 33);
    hide Shifted;
  }

  // More weights that do, of which one is not 1 in the end.
  lemma SplitAmongMany(sum: nat, n: nat) returns (a: nat, b: nat)
    requires MAX_32 < sum < 2 * TWO_TO_64 && n > TWO_TO_31 && !TotalFits(sum, n)
    ensures 1 <= a <= MAX_64 && 1 <= b <= MAX_64 && a + b + n - 2 == sum
    ensures Shifted(a, ShiftFor(sum)) + Shifted(b, ShiftFor(sum)) + n - 2 > MAX_32
  {
    var shift := ShiftFor(sum);
    ShiftBounds(sum);
    var h, p := Pow2(shift - 1), Pow2(shift);
    Pow2Monotone(shift, 33);
    Pow2Of33();
    assert p == 2 * h;
    hide ShiftFor;
    hide Pow2;
    if n < TWO_TO_32 {
      AtLeastTimes(1, TWO_TO_32 - n + 1, p);
      AtLeastTimes(TWO_TO_32 - n + 1, TWO_TO_31, p);
    }
    var room := sum - (n - 2);
    a := if room - 1 <= MAX_64 then room - 1 else MAX_64;
    b := room - a;
    ShiftedIsNear(a, shift);
    ShiftedIsNear(b, shift);
    if n < TWO_TO_32 {
      ShiftedAtLeast(a, TWO_TO_32 - n + 1, shift);
    }
    hide Shifted;
  }

  // Two targets cannot share 2^65 - 1 among two weights, but among three.
  lemma {:induction false} SplitAmongTwo() returns (ws: seq<Weight>, r: seq<Weight>)
    ensures Coherent(ws) && CombinedFrom(r, ws) && TrueSum(ws) == 2 * TWO_TO_64 - 1 && |r| == 2
    ensures NormalTotal(r, 2 * TWO_TO_64 - 1) > MAX_32
  {
    r := WithOnes(MAX_64, MAX_64, 0);
    var w := Weight(Local, 0, 1);
    ws := r + [w];
    WithOnesSum(MAX_64, MAX_64, 0);
    WithOnesCombined(MAX_64, MAX_64, 0);
    TrueSumAppend(r, w);
    forall i | 0 <= i < 2 ensures Combines(r[i], ws) {
      AppendAmount(r, w, r[i].target);
      AmountOfOnly(r, i);
      assert ws[i].target == r[i].target && ws[i].kind == r[i].kind;
    }
    forall j | 0 <= j < |ws| ensures Targeted(r, ws[j].target) {
      assert ws[j].target == r[if j == 1 then 1 else 0].target;
    }
    TwoAreTooMuch();
    hide *;
  }

  lemma {:induction false} TwoAreTooMuch()
    ensures NormalTotal(WithOnes(MAX_64, MAX_64, 0), 2 * TWO_TO_64 - 1) > MAX_32
  {
    assert ShiftFor(2 * TWO_TO_64 - 1) == 33;
    Pow2Of33();
    hide Pow2;
    hide ShiftFor;
    ShiftedAtLeast(MAX_64, TWO_TO_31, 33);
    hide Shifted;
    WithOnesLength(MAX_64, MAX_64, 0);
    ShiftedOnes(MAX_64, MAX_64, 0, 33);
    hide WithOnes;
  }

  // Two weights and n smallest ones: what they are combined to, and their total.
  lemma {:induction false} WithOnesTotal(a: nat, b: nat, n: nat)
    requires 1 <= a <= MAX_64 && 1 <= b <= MAX_64 && 1 < ShiftFor(a + b + n)
    ensures var ws, shift := WithOnes(a, b, n), ShiftFor(a + b + n);
            && Coherent(ws) && CombinedFrom(ws, ws) && |ws| == n + 2 && TrueSum(ws) == a + b + n
            && NormalTotal(ws, TrueSum(ws)) == Shifted(a, shift) + Shifted(b, shift) + n
  {
    hide *;
    WithOnesCombined(a, b, n);
    WithOnesLength(a, b, n);
    ShiftedOnes(a, b, n, ShiftFor(a + b + n));
    NormalTotalOfMany(WithOnes(a, b, n), a + b + n);
  }

  // Beyond the bound there are weights whose total does not fit.
  lemma {:induction false} NotFitting(sum: nat, n: nat) returns (ws: seq<Weight>, r: seq<Weight>)
    requires sum < 2 * TWO_TO_64 && !TotalFits(sum, n)
    ensures Coherent(ws) && CombinedFrom(r, ws) && TrueSum(ws) == sum && |r| == n && NormalTotal(r, sum) > MAX_32
  {
    hide *;
    FewAlwaysFit(sum, n);
    if n == 2 && sum == 2 * TWO_TO_64 - 1 {
      ws, r := SplitAmongTwo();
    } else {
      var a, b := SplitSum(sum, n);
      WithOnesTotal(a, b, n - 2);
      ws, r := WithOnes(a, b, n - 2), WithOnes(a, b, n - 2);
    }
  }

  lemma FewAlwaysFit(sum: nat, n: nat)
    ensures n <= 1 || sum <= MAX_32 ==> TotalFits(sum, n)
  {
    hide Least;
  }

  lemma SplitSum(sum: nat, n: nat) returns (a: nat, b: nat)
    requires MAX_32 < sum < 2 * TWO_TO_64 && 1 < n && !TotalFits(sum, n) && (n == 2 ==> sum < 2 * TWO_TO_64 - 1)
    ensures 1 <= a <= MAX_64 && 1 <= b <= MAX_64 && a + b + (n - 2) == sum && 1 < ShiftFor(sum)
    ensures Shifted(a, ShiftFor(sum)) + Shifted(b, ShiftFor(sum)) + (n - 2) > MAX_32
  {
    hide Shifted;
    hide TotalFits;
    hide ShiftFor;
    ShiftBounds(sum);
    if n <= TWO_TO_31 {
      a, b := SplitAmongFew(sum, n);
    } else {
      a, b := SplitAmongMany(sum, n);
    }
  }

  lemma NormalTotalOfMany(r: seq<Weight>, sum: nat)
    requires |r| != 1
    ensures NormalTotal(r, sum) == TrueSum(ShiftedAll(r, ShiftFor(sum)))
  {
  }

  lemma {:induction false} WithOnesLength(a: nat, b: nat, n: nat)
    ensures |WithOnes(a, b, n)| == n + 2
  {
    WithOnesSum(a, b, n);
  }

  lemma {:induction false} CombinedTotalFits(r: seq<Weight>, ws: seq<Weight>)
    requires Coherent(ws) && CombinedFrom(r, ws) && TrueSum(ws) < 2 * TWO_TO_64 && TotalFits(TrueSum(ws), |r|)
    ensures NormalTotal(r, TrueSum(ws)) <= MAX_32
  {
    var sum := TrueSum(ws);
    CombinedMeans(r, ws);
    hide CombinedFrom;
    hide Coherent;
    if |r| == 0 || sum <= MAX_32 {
      assert ShiftFor(sum) == 0 || r == [];
      UnshiftedStay(r);
    } else if |r| > 1 {
      ShiftedFits(ShiftedAll(r, ShiftFor(sum)), r, sum);
    }
    hide *;
  }

  /** The bound is exact: for a sum and a number of targets it holds if and only if the normalized
      totals of all distributions with this sum and this number of targets fit into 32 bits. */
  lemma {:induction false} TotalFitsExactly(sum: nat, n: nat)
    requires sum < 2 * TWO_TO_64
    ensures TotalFits(sum, n) <==>
            forall ws, r | Coherent(ws) && CombinedFrom(r, ws) && TrueSum(ws) == sum && |r| == n ::
              NormalTotal(r, sum) <= MAX_32
  {
    hide *;
    if TotalFits(sum, n) {
      forall ws, r | Coherent(ws) && CombinedFrom(r, ws) && TrueSum(ws) == sum && |r| == n
        ensures NormalTotal(r, sum) <= MAX_32
      {
        CombinedTotalFits(r, ws);
      }
    } else {
      var ws, r := NotFitting(sum, n);
    }
  }

  // The least amount that makes y units of 2^33.
  function LeastAmount(y: nat): (x: nat)
    requires y > 0
    ensures x > 0
  {
    y * TWO_TO_33 - TWO_TO_32
  }

  lemma LeastAmountShifted(y: nat)
    requires 0 < y <= TWO_TO_31
    ensures LeastAmount(y) <= MAX_64 && Shifted(LeastAmount(y), 33) == y
  {
    Pow2Of33();
    hide Pow2;
    ShiftedIs(LeastAmount(y), y, 33);
    hide Shifted;
  }

  /** The least sums that do not fit. They overflow for every number of targets from 2 to 2^31. */
  lemma {:induction false} HugeWeightsDoNotFit(n: nat)
    requires 2 <= n <= TWO_TO_31
    ensures var ws := WithOnes(LeastAmount(TWO_TO_31), LeastAmount(TWO_TO_31 - n + 2), n - 2);
            && Coherent(ws) && CombinedFrom(ws, ws) && |ws| == n
            && TrueSum(ws) == Least(n, TWO_TO_33) && NormalTotal(ws, TrueSum(ws)) == TWO_TO_32
    ensures Least(n, TWO_TO_33) == 2 * TWO_TO_64 - (n - 1) * TWO_TO_33 + n - 2 >= TWO_TO_64
  {
    hide Shifted;
    hide TrueSum;
    hide CombinedFrom;
    hide Coherent;
    hide WithOnes;
    hide ShiftFor;
    hide ShiftedAll;
    hide NormalTotal;
    hide Least;
    hide LeastAmount;
    LeastOverflows(n - 2);
    LeastAmountShifted(TWO_TO_31);
    LeastAmountShifted(TWO_TO_31 - (n - 2));
    WithOnesTotal(LeastAmount(TWO_TO_31), LeastAmount(TWO_TO_31 - (n - 2)), n - 2);
  }

  lemma LeastOverflows(k: nat)
    requires k + 2 <= TWO_TO_31
    ensures var sum := LeastAmount(TWO_TO_31) + LeastAmount(TWO_TO_31 - k) + k;
            && ShiftFor(sum) == 33
            && sum == Least(k + 2, TWO_TO_33) == 2 * TWO_TO_64 - (k + 1) * TWO_TO_33 + k >= TWO_TO_64
  {
    hide Lg;
  }

  /** With one target more the sum need not overflow. */
  lemma {:induction false} ManyWeightsDoNotFit()
    ensures var ws := WithOnes(LeastAmount(TWO_TO_31), 1, TWO_TO_31 - 1);
            && Coherent(ws) && CombinedFrom(ws, ws) && |ws| == TWO_TO_31 + 1
            && TrueSum(ws) == Least(TWO_TO_31 + 1, TWO_TO_33) < TWO_TO_64
            && NormalTotal(ws, TrueSum(ws)) == TWO_TO_32
  {
    hide Shifted;
    hide TrueSum;
    hide CombinedFrom;
    hide Coherent;
    hide WithOnes;
    hide ShiftFor;
    hide ShiftedAll;
    hide NormalTotal;
    hide Least;
    hide LeastAmount;
    LeastStays();
    LeastAmountShifted(TWO_TO_31);
    ShiftedOne(33);
    WithOnesTotal(LeastAmount(TWO_TO_31), 1, TWO_TO_31 - 1);
  }

  lemma LeastStays()
    ensures var sum := LeastAmount(TWO_TO_31) + TWO_TO_31;
            ShiftFor(sum) == 33 && sum == Least(TWO_TO_31 + 1, TWO_TO_33) < TWO_TO_64
  {
    LgOfHighest(LeastAmount(TWO_TO_31) + TWO_TO_31);
    hide Lg;
  }
}
