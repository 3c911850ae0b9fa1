/** When the end of aliasGEP has to give an answer: for every rule, what must be true of two accesses for
    it to speak (llvm/lib/Analysis/BasicAliasAnalysis.cpp). */
module BasicAAAnswers {
  import opened Arithmetic
  import opened BasicAAArithmetic
  import opened Words
  import opened BasicAALinear
  import opened BasicAAGep

  // Two accesses of n1 and n2 bytes, the first one `d` bytes after the second.
  predicate Apart(d: int, n1: nat, n2: nat) {
    d + n1 <= 0 || n2 <= d
  }

  predicate KnownSize(s: nat) {
    0 < s < UNKNOWN_SIZE
  }

  // ----- Constant distances -----

  /** Without variables the answer is exact for known sizes. It is left open only for a size that is not
      known and that matters: the second one, or the first one if the first access starts lower. */
  lemma ConstantAnswers(base: int, s1: nat, s2: nat, known: Expr -> Sign, stable: Expr -> bool)
    ensures var r := OffsetTail(base, [], s1, s2, known, stable).result;
            && (KnownSize(s1) && KnownSize(s2) ==>
                  && (r == NoAlias <==> Apart(base, s1, s2))
                  && (r == MustAlias <==> base == 0)
                  && (r == PartialAlias <==> base != 0 && !Apart(base, s1, s2)))
            && (r == MayAlias <==>
                  base != 0 && (s2 == UNKNOWN_SIZE || (base < 0 && s1 == UNKNOWN_SIZE)))
  {
  }

  // ----- Distances with a common modulus -----

  predicate AllDivisible(vars: seq<VarIndex>, m: nat)
    requires m > 0
  {
    forall i | 0 <= i < |vars| :: vars[i].scale % m == 0
  }

  // What divides all scales divides their or.
  lemma {:induction false} ScalesAreDivided(vars: seq<VarIndex>, k: nat)
    requires k <= 64 && AllDivisible(vars, Pow2(k))
    ensures OrScales(vars) % Pow2(k) == 0
    decreases |vars|
  {
    if vars != [] {
      var n := |vars| - 1;
      assert forall i | 0 <= i < n :: vars[..n][i] == vars[i];
      ScalesAreDivided(vars[..n], k);
      ModOfMod(vars[n].scale, k);
      OrIsDivided(OrScales(vars[..n]), vars[n].scale % TWO_TO_64, k);
    }
  }

  lemma {:induction false} DividesIff(vars: seq<VarIndex>, k: nat)
    requires k <= 64
    ensures OrScales(vars) % Pow2(k) == 0 <==> AllDivisible(vars, Pow2(k))
  {
    if AllDivisible(vars, Pow2(k)) {
      ScalesAreDivided(vars, k);
    }
    if OrScales(vars) % Pow2(k) == 0 {
      ScalesDivide(vars, k);
      hide OrScales;
      forall i | 0 <= i < |vars| ensures vars[i].scale % Pow2(k) == 0 {
        ModOfMod(vars[i].scale, k);
      }
    }
  }

  lemma {:induction false} GreatestPower(x: int, j: nat, k: nat)
    requires x % Pow2(j) == 0 && x % Pow2(k + 1) != 0
    ensures j <= k
  {
    if j > k {
      CongMod(x, Pow2(j));
      CongNarrow(x, 0, j, k + 1);
      CongModEqual(x, 0, Pow2(k + 1));
    }
  }

  // 2^k is the largest power of two up to 2^64 that divides all scales.
  predicate LargestModulus(vars: seq<VarIndex>, k: nat) {
    k <= 64 && AllDivisible(vars, Pow2(k)) && (k < 64 ==> !AllDivisible(vars, Pow2(k + 1)))
  }

  // The lowest bit of all scales is that modulus.
  lemma {:induction false} LowBitIsLargest(vars: seq<VarIndex>, k: nat)
    requires LargestModulus(vars, k)
    ensures (LowBit(OrScales(vars)) - 1) % TWO_TO_64 == Pow2(k) - 1 && Pow2(k) <= TWO_TO_64
    ensures LowBit(OrScales(vars)) == Pow2(k) || (LowBit(OrScales(vars)) == 0 && Pow2(k) == TWO_TO_64)
  {
    var scales := OrScales(vars);
    hide OrScales;
    hide AllDivisible;
    DividesIff(vars, k);
    if k < 64 {
      DividesIff(vars, k + 1);
    }
    hide *;
    LargestIsLowBit(scales, k);
  }

  lemma {:induction false} LargestIsLowBit(scales: nat, k: nat)
    requires scales < TWO_TO_64 && k <= 64 && scales % Pow2(k) == 0 && (k < 64 ==> scales % Pow2(k + 1) != 0)
    ensures (LowBit(scales) - 1) % TWO_TO_64 == Pow2(k) - 1 && Pow2(k) <= TWO_TO_64
    ensures LowBit(scales) == Pow2(k) || (LowBit(scales) == 0 && Pow2(k) == TWO_TO_64)
  {
    hide *;
    var j := LowBitAsModulus(scales);
    if k < 64 {
      GreatestPower(scales, j, k);
    }
    if j < 64 {
      GreatestPower(scales, k, j);
    }
  }

  // The accesses are apart at every distance that is congruent to the constant one modulo 2^k.
  ghost predicate ApartEverywhere(base: int, s1: nat, s2: nat, k: nat) {
    forall d: int | Cong(d, base, Pow2(k)) :: Apart(d, s1, s2)
  }

  // There is such a modulus.
  lemma {:induction false} HasLargestModulus(vars: seq<VarIndex>) returns (k: nat)
    ensures LargestModulus(vars, k)
  {
    k := LowBitAsModulus(OrScales(vars));
    hide LowBit;
    hide OrScales;
    hide AllDivisible;
    DividesIff(vars, k);
    if k < 64 {
      DividesIff(vars, k + 1);
    }
  }

  /** The modulus rule speaks exactly when the accesses are apart at every distance that is congruent to
      the constant one, modulo the largest power of two up to 2^64 that divides all scales. */
  lemma {:induction false} ModulusIsExact(base: int, vars: seq<VarIndex>, s1: nat, s2: nat, k: nat)
    requires KnownSize(s1) && KnownSize(s2) && LargestModulus(vars, k)
    ensures ModulusRule(base, OrScales(vars), s1, s2) <==> ApartEverywhere(base, s1, s2, k)
  {
    var m, o := Pow2(k), base % Pow2(k);
    RuleByModulus(base, vars, s1, s2, k);
    hide ModulusRule;
    hide LargestModulus;
    hide OrScales;
    if s2 <= o && s1 + o <= m {
      forall d: int | Cong(d, base, m) ensures Apart(d, s1, s2) {
        ApartModulo(d, base, m, s1, s2);
      }
    } else {
      CongMod(base, m);
      CongWitness(o - m, o, m, -1);
      CongTrans(o - m, o, base, m);
      assert Cong(o, base, m) && Cong(o - m, base, m);
      assert !Apart(o, s1, s2) || !Apart(o - m, s1, s2);
    }
  }

  // The rule in terms of the modulus.
  lemma {:induction false} RuleByModulus(base: int, vars: seq<VarIndex>, s1: nat, s2: nat, k: nat)
    requires KnownSize(s1) && KnownSize(s2) && LargestModulus(vars, k)
    ensures ModulusRule(base, OrScales(vars), s1, s2)
            <==> s2 <= base % Pow2(k) && s1 + base % Pow2(k) <= Pow2(k)
  {
    var scales := OrScales(vars);
    LowBitIsLargest(vars, k);
    assert 0 < s1 < UNKNOWN_SIZE && 0 < s2 < UNKNOWN_SIZE && k <= 64;
    hide *;
    MaskIsMod(base % TWO_TO_64, k);
    ModOfMod(base, k);
    RuleUnfolds(base, scales, s1, s2, base % Pow2(k), Pow2(k));
  }

  // ----- Terms that cannot be negative -----

  // Does what is known about the variable allow the value?
  predicate Permitted(i: VarIndex, known: Expr -> Sign, x: int) {
    var extended := i.zext > 0 || i.v.ZExt?;
    && (extended || known(i.v).nonNegative ==> x >= 0)
    && (!extended && known(i.v).negative ==> x < 0)
  }

  /** A term counts as positive exactly when no value that the variable may have makes it negative. */
  lemma PositiveIsExact(i: VarIndex, known: Expr -> Sign)
    requires i.scale != 0
    ensures PositiveTerm(i, known) <==> forall x: int | Permitted(i, known, x) :: i.scale * x >= 0
  {
    if PositiveTerm(i, known) {
      forall x: int | Permitted(i, known, x) ensures i.scale * x >= 0 {
        SameSigns(i.scale, x);
      }
    } else {
      var x := if i.scale > 0 then -1 else 1;
      assert Permitted(i, known, x) && i.scale * x < 0;
    }
  }

  // ----- Indices a constant apart -----

  /** The same variable twice, with opposite scales and constant offsets that differ by `d`, in `w` bits. */
  predicate Opposite(vars: seq<VarIndex>, d: int, w: nat, stable: Expr -> bool) {
    && |vars| == 2 && vars[0].zext == vars[1].zext && vars[0].sext == vars[1].sext
    && vars[0].scale == -vars[1].scale && w == Width(vars[1].v)
    && var r, s := GetLinear(vars[0].v, w, 0), GetLinear(vars[1].v, w, 0);
       && r.base == s.base && r.scale == s.scale && r.zext == s.zext && r.sext == s.sext && stable(r.base)
       && d == r.offset - s.offset
  }

  // However the distance of the indices wraps, the terms are apart by `s` bytes more than the constant.
  ghost predicate OutOfReach(scale: int, d: int, w: nat, base: int, s: nat) {
    forall x: int | Cong(x, d, Pow2(w)) :: s + Abs(base) <= Abs(Times(scale, x))
  }

  lemma {:induction false} NearestOutOfReach(scale: int, d: int, w: nat, base: int, s: nat)
    requires s > 0
    ensures var m := Pow2(w);
            OutOfReach(scale, d, w, base, s)
            <==> s + Abs(base) <= Times(Min(d % m, (0 - d % m) % m), Abs(scale))
  {
    var m, gap := Pow2(w), d % Pow2(w);
    var least := Min(gap, (0 - gap) % m);
    CongMod(d, m);
    if OutOfReach(scale, d, w, base, s) {
      CongWitness(gap - m, gap, m, -1);
      CongTrans(gap - m, gap, d, m);
      AbsProduct(scale, gap);
      AbsProduct(scale, gap - m);
      if gap > 0 {
        RestOfGap(gap, m);
      }
    } else {
      var x: int :| Cong(x, d, m) && s + Abs(base) > Abs(Times(scale, x));
      CongTrans(x, d, gap, m);
      hide Cong;
      NotNearZero(x, gap, m);
      FarEnough(scale, x, least);
    }
  }

  lemma RestOfGap(gap: nat, m: nat)
    requires 0 < gap < m
    ensures (0 - gap) % m == m - gap
  {
    CongWitness(0 - gap, m - gap, m, -1);
    CongModEqual(0 - gap, m - gap, m);
    SmallMod(m - gap, m);
  }

  lemma AbsProduct(a: int, b: int)
    ensures Abs(Times(a, b)) == Times(Abs(b), Abs(a))
  {
  }

  /** Two indices that differ by a constant, and never reach over the constant distance. */
  ghost predicate NeverMeet(vars: seq<VarIndex>, s1: nat, s2: nat, base: int, stable: Expr -> bool) {
    exists d: int, w: nat | Opposite(vars, d, w, stable) ::
      OutOfReach(vars[0].scale, d, w, base, s1) && OutOfReach(vars[0].scale, d, w, base, s2)
  }

  // The heuristic computes in 64 bits.
  predicate GapFits(vars: seq<VarIndex>) {
    |vars| == 2 ==> GapBytes(vars[0], vars[1]) < TWO_TO_64
  }

  predicate SmallSize(s: nat) {
    0 < s < TWO_TO_63
  }

  /** The minimum-distance rule speaks exactly for such indices. */
  lemma FarApartIsExact(base: int, vars: seq<VarIndex>, s1: nat, s2: nat, stable: Expr -> bool)
    requires 0 - TWO_TO_63 <= base < TWO_TO_63 && SmallSize(s1) && SmallSize(s2) && GapFits(vars)
    ensures FarApart(vars, s1, s2, base, stable) <==> NeverMeet(vars, s1, s2, base, stable)
  {
    if |vars| == 2 {
      var w := Width(vars[1].v);
      var d := GetLinear(vars[0].v, w, 0).offset - GetLinear(vars[1].v, w, 0).offset;
      FarApartUnfolds(base, vars, s1, s2, stable, d, w);
      OppositeIsUnique(vars, d, w, stable);
      hide FarApart;
      hide Opposite;
      hide OutOfReach;
      assert Opposite(vars, d, w, stable) || !Opposite(vars, d, w, stable);
    }
  }

  lemma {:induction false} OppositeIsUnique(vars: seq<VarIndex>, d: int, w: nat, stable: Expr -> bool)
    requires |vars| == 2 && w == Width(vars[1].v)
    requires d == GetLinear(vars[0].v, w, 0).offset - GetLinear(vars[1].v, w, 0).offset
    ensures forall e: int, u: nat | Opposite(vars, e, u, stable) :: e == d && u == w
  {
    hide GetLinear;
  }

  lemma {:induction false} FarApartUnfolds(base: int, vars: seq<VarIndex>, s1: nat, s2: nat, stable: Expr -> bool,
                                           d: int, w: nat)
    requires 0 - TWO_TO_63 <= base < TWO_TO_63 && SmallSize(s1) && SmallSize(s2) && GapFits(vars)
    requires |vars| == 2 && w == Width(vars[1].v)
    requires d == GetLinear(vars[0].v, w, 0).offset - GetLinear(vars[1].v, w, 0).offset
    ensures FarApart(vars, s1, s2, base, stable)
            <==> && Opposite(vars, d, w, stable)
                 && OutOfReach(vars[0].scale, d, w, base, s1) && OutOfReach(vars[0].scale, d, w, base, s2)
  {
    hide GetLinear;
    hide Pow2;
    hide Width;
    NearestOutOfReach(vars[0].scale, d, w, base, s1);
    NearestOutOfReach(vars[0].scale, d, w, base, s2);
    hide OutOfReach;
    SmallMod(s1 + Abs(base), TWO_TO_64);
    SmallMod(s2 + Abs(base), TWO_TO_64);
    SmallMod(GapBytes(vars[0], vars[1]), TWO_TO_64);
    assert GapBytes(vars[0], vars[1]) == Times(Min(d % Pow2(w), (0 - d % Pow2(w)) % Pow2(w)), Abs(vars[0].scale));
    hide GapBytes;
  }

  // ----- All rules together -----

  // The first address is never lower than the constant distance says.
  ghost predicate NeverLower(vars: seq<VarIndex>, known: Expr -> Sign) {
    forall i, x: int | 0 <= i < |vars| && Permitted(vars[i], known, x) :: Times(vars[i].scale, x) >= 0
  }

  predicate NoZeroScale(vars: seq<VarIndex>) {
    forall i | 0 <= i < |vars| :: vars[i].scale != 0
  }

  /** Whatever the constant is and however large the accesses are: no-alias if they are apart modulo the
      scales, or if the first one starts past the second and never lower. */
  lemma RulesSpeak(base: int, vars: seq<VarIndex>, s1: nat, s2: nat, known: Expr -> Sign, stable: Expr -> bool, k: nat)
    requires vars != []
    ensures KnownSize(s1) && KnownSize(s2) && LargestModulus(vars, k) && ApartEverywhere(base, s1, s2, k) ==>
              OffsetTail(base, vars, s1, s2, known, stable).result == NoAlias
    ensures NoZeroScale(vars) && NeverLower(vars, known) && 0 < base && s2 <= base ==>
              OffsetTail(base, vars, s1, s2, known, stable).result == NoAlias
  {
    if KnownSize(s1) && KnownSize(s2) && LargestModulus(vars, k) {
      ModulusIsExact(base, vars, s1, s2, k);
    }
    if NoZeroScale(vars) {
      NeverLowerIsExact(vars, known);
    }
    hide ModulusRule;
    hide FarApart;
    hide AllPositiveTerms;
    hide NeverLower;
    hide LargestModulus;
    hide OrScales;
  }

  /** With variables the answer is no-alias if and only if one of the three rules has its reason; the
      answer is open otherwise. */
  lemma VariablesAnswer(base: int, vars: seq<VarIndex>, s1: nat, s2: nat, known: Expr -> Sign, stable: Expr -> bool,
                        k: nat)
    requires vars != [] && 0 - TWO_TO_63 <= base < TWO_TO_63 && SmallSize(s1) && SmallSize(s2)
    requires LargestModulus(vars, k) && NoZeroScale(vars) && GapFits(vars)
    ensures OffsetTail(base, vars, s1, s2, known, stable).result ==
            if || ApartEverywhere(base, s1, s2, k)
               || (NeverLower(vars, known) && 0 < base && s2 <= base)
               || NeverMeet(vars, s1, s2, base, stable) then NoAlias else MayAlias
  {
    ModulusIsExact(base, vars, s1, s2, k);
    NeverLowerIsExact(vars, known);
    FarApartIsExact(base, vars, s1, s2, stable);
    hide ModulusRule;
    hide FarApart;
    hide AllPositiveTerms;
    hide NeverLower;
    hide NeverMeet;
    hide LargestModulus;
    hide OrScales;
    hide GapFits;
  }

  lemma {:induction false} NeverLowerIsExact(vars: seq<VarIndex>, known: Expr -> Sign)
    requires NoZeroScale(vars)
    ensures AllPositiveTerms(vars, known) <==> NeverLower(vars, known)
  {
    forall i | 0 <= i < |vars|
      ensures PositiveTerm(vars[i], known)
              <==> forall x: int | Permitted(vars[i], known, x) :: Times(vars[i].scale, x) >= 0
    {
      PositiveIsExact(vars[i], known);
    }
    hide PositiveTerm;
    hide Permitted;
  }

  // ----- Two decomposed addresses -----

  predicate AllStable(vars: seq<VarIndex>, stable: Expr -> bool) {
    forall i | 0 <= i < |vars| :: stable(vars[i].v)
  }

  /** A list of stable values subtracted from itself leaves nothing. */
  lemma {:induction false} NothingIsLeft(vars: seq<VarIndex>, stable: Expr -> bool)
    requires AllStable(vars, stable)
    ensures Difference(vars, vars, stable) == []
    decreases |vars|
  {
    if vars != [] {
      assert SubtractOne(vars, vars[0], stable) == vars[1..];
      assert forall i | 0 <= i < |vars[1..]| :: vars[1..][i] == vars[i + 1];
      NothingIsLeft(vars[1..], stable);
    }
  }

  predicate ScalesIn64(vars: seq<VarIndex>) {
    forall i | 0 <= i < |vars| :: 0 - TWO_TO_63 <= vars[i].scale < TWO_TO_63
  }

  /** Subtraction leaves no zero scale. */
  lemma {:induction false} NoZeroIsLeft(dest: seq<VarIndex>, src: seq<VarIndex>, stable: Expr -> bool)
    requires ScalesIn64(dest) && ScalesIn64(src) && NoZeroScale(dest)
    ensures ScalesIn64(Difference(dest, src, stable)) && NoZeroScale(Difference(dest, src, stable))
    decreases |src|
  {
    if src != [] {
      assert forall i | 0 <= i < |src[1..]| :: src[1..][i] == src[i + 1];
      var next := SubtractOne(dest, src[0], stable);
      forall i | 0 <= i < |next| ensures next[i].scale != 0 && 0 - TWO_TO_63 <= next[i].scale < TWO_TO_63 {
      }
      hide SubtractOne;
      NoZeroIsLeft(next, src[1..], stable);
    }
  }

  lemma AliasGepIsTail(g1: Decomposed, g2: Decomposed, s1: nat, s2: nat, known: Expr -> Sign, stable: Expr -> bool)
    ensures AliasGep(g1, g2, s1, s2, known, stable)
            == OffsetTail(Wrap64(g1.offset - g2.offset), Difference(g1.vars, g2.vars, stable), s1, s2, known, stable)
  {
    hide OffsetTail;
    hide Difference;
    hide Wrap64;
  }

  /** Two addresses with the same indices: the answer is exact for the difference of their constants. */
  lemma SameIndicesAnswer(g1: Decomposed, g2: Decomposed, s1: nat, s2: nat, known: Expr -> Sign, stable: Expr -> bool)
    requires g1.vars == g2.vars && AllStable(g1.vars, stable) && KnownSize(s1) && KnownSize(s2)
    ensures var d, r := Wrap64(g1.offset - g2.offset), AliasGep(g1, g2, s1, s2, known, stable).result;
            && (r == NoAlias <==> Apart(d, s1, s2))
            && (r == MustAlias <==> d == 0)
            && (r == PartialAlias <==> d != 0 && !Apart(d, s1, s2))
  {
    NothingIsLeft(g1.vars, stable);
    AliasGepIsTail(g1, g2, s1, s2, known, stable);
    hide *;
    ConstantAnswers(Wrap64(g1.offset - g2.offset), s1, s2, known, stable);
  }

  /** Two addresses whose indices do not cancel: no-alias if and only if one of the rules has its reason. */
  lemma DifferentIndicesAnswer(g1: Decomposed, g2: Decomposed, s1: nat, s2: nat, known: Expr -> Sign,
                               stable: Expr -> bool, k: nat)
    requires SmallSize(s1) && SmallSize(s2) && ScalesIn64(g1.vars) && ScalesIn64(g2.vars) && NoZeroScale(g1.vars)
    requires var vars := Difference(g1.vars, g2.vars, stable);
             vars != [] && LargestModulus(vars, k) && GapFits(vars)
    ensures var base, vars := Wrap64(g1.offset - g2.offset), Difference(g1.vars, g2.vars, stable);
            AliasGep(g1, g2, s1, s2, known, stable).result ==
            if || ApartEverywhere(base, s1, s2, k)
               || (NeverLower(vars, known) && 0 < base && s2 <= base)
               || NeverMeet(vars, s1, s2, base, stable) then NoAlias else MayAlias
  {
    NoZeroIsLeft(g1.vars, g2.vars, stable);
    AliasGepIsTail(g1, g2, s1, s2, known, stable);
    hide *;
    VariablesAnswer(Wrap64(g1.offset - g2.offset), Difference(g1.vars, g2.vars, stable), s1, s2, known, stable, k);
  }
}
