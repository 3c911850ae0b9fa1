/** Two addresses with a common base: the difference of their symbolic offsets, and what the end of
    aliasGEP concludes from it (llvm/lib/Analysis/BasicAliasAnalysis.cpp). */
module BasicAAGep {
  import opened Arithmetic
  import opened BasicAAArithmetic
  import opened Words
  import opened BasicAALinear

  // One variable index: a scale in bytes times a value, extended to the width of a pointer.
  datatype VarIndex = VarIndex(v: Expr, zext: nat, sext: nat, scale: int)

  // Reads a 64-bit pattern as a signed number.
  function Wrap64(x: int): (r: int)
    ensures 0 - TWO_TO_63 <= r < TWO_TO_63
  {
    (x + TWO_TO_63) % TWO_TO_64 - TWO_TO_63
  }

  // A size that is not known.
  const UNKNOWN_SIZE: nat := TWO_TO_64 - 1

  function Extended(i: VarIndex, env: Env): int {
    var x := Signed(Val(i.v, env), Width(i.v));
    if i.zext > 0 then x % Pow2(Width(i.v) + i.sext) else x
  }

  function Sum(vars: seq<VarIndex>, env: Env): int {
    if vars == [] then 0 else Times(vars[0].scale, Extended(vars[0], env)) + Sum(vars[1..], env)
  }

  predicate WellFormedIndices(vars: seq<VarIndex>) {
    forall i | 0 <= i < |vars| :: WellFormed(vars[i].v)
  }

  // ----- GetIndexDifference -----

  // The same variable with the same extensions. A value that may change between the iterations
  // of a cycle is never taken to be equal to itself.
  predicate SameVariable(a: VarIndex, b: VarIndex, stable: Expr -> bool) {
    a.v == b.v && stable(a.v) && a.zext == b.zext && a.sext == b.sext
  }

  // The first index of `dest`, from `j` on, with the variable of `s`.
  function FindVariable(dest: seq<VarIndex>, s: VarIndex, stable: Expr -> bool, j: nat): (r: nat)
    requires j <= |dest|
    ensures j <= r <= |dest|
    ensures r < |dest| ==> SameVariable(dest[r], s, stable)
    decreases |dest| - j
  {
    if j == |dest| || SameVariable(dest[j], s, stable) then j else FindVariable(dest, s, stable, j + 1)
  }

  function SubtractOne(dest: seq<VarIndex>, s: VarIndex, stable: Expr -> bool): seq<VarIndex> {
    var j := FindVariable(dest, s, stable, 0);
    if j < |dest| then
      if dest[j].scale != s.scale then dest[j := dest[j].(scale := Wrap64(dest[j].scale - s.scale))]
      else dest[..j] + dest[j + 1..]
    else if s.scale != 0 then dest + [s.(scale := Wrap64(-s.scale))]
    else dest
  }

  function Difference(dest: seq<VarIndex>, src: seq<VarIndex>, stable: Expr -> bool): seq<VarIndex>
    decreases |src|
  {
    if src == [] then dest else Difference(SubtractOne(dest, src[0], stable), src[1..], stable)
  }

  // The body of the outer loop.
  method SubtractIndex(vars: seq<VarIndex>, s: VarIndex, stable: Expr -> bool) returns (dest: seq<VarIndex>)
    ensures dest == SubtractOne(vars, s, stable)
  {
    dest := vars;
    var scale := s.scale;
    var j := 0;
    while j < |dest|
      invariant j <= |dest| && dest == vars && scale == s.scale
      invariant FindVariable(vars, s, stable, j) == FindVariable(vars, s, stable, 0)
    {
      if SameVariable(dest[j], s, stable) {
        if dest[j].scale != scale {
          dest := dest[j := dest[j].(scale := Wrap64(dest[j].scale - scale))];
        } else {
          dest := dest[..j] + dest[j + 1..];
        }
        return;
      }
      j := j + 1;
    }
    if scale != 0 {
      dest := dest + [s.(scale := Wrap64(-scale))];
    }
  }

  method GetIndexDifference(vars: seq<VarIndex>, src: seq<VarIndex>, stable: Expr -> bool) returns (dest: seq<VarIndex>)
    ensures dest == Difference(vars, src, stable)
  {
    hide SubtractOne;
    dest := vars;
    assert src[0..] == src;
    for i := 0 to |src|
      invariant Difference(dest, src[i..], stable) == Difference(vars, src, stable)
    {
      assert src[i..][1..] == src[i + 1..];
      dest := SubtractIndex(dest, src[i], stable);
    }
  }

  lemma {:induction false} SumOfConcat(a: seq<VarIndex>, b: seq<VarIndex>, env: Env)
    ensures Sum(a + b, env) == Sum(a, env) + Sum(b, env)
    decreases |a|
  {
    if a == [] {
      assert a + b == b;
    } else {
      assert (a + b)[1..] == a[1..] + b;
      SumOfConcat(a[1..], b, env);
    }
  }

  lemma {:induction false} SumAround(dest: seq<VarIndex>, j: nat, env: Env)
    requires j < |dest|
    ensures Sum(dest, env)
            == Sum(dest[..j], env) + Times(dest[j].scale, Extended(dest[j], env)) + Sum(dest[j + 1..], env)
  {
    assert dest == dest[..j] + dest[j..];
    SumOfConcat(dest[..j], dest[j..], env);
    assert dest[j..][1..] == dest[j + 1..];
  }

  lemma Wrap64Cong(x: int)
    ensures Cong(Wrap64(x), x, TWO_TO_64)
  {
    CongMod(x + TWO_TO_63, TWO_TO_64);
    CongRefl(TWO_TO_63, TWO_TO_64);
    CongAdd((x + TWO_TO_63) % TWO_TO_64, x + TWO_TO_63, TWO_TO_63, TWO_TO_63, TWO_TO_64);
  }

  // Replacing one scale of a list.
  lemma RescaledSum(dest: seq<VarIndex>, j: nat, scale: int, env: Env)
    requires j < |dest|
    ensures Sum(dest[j := dest[j].(scale := scale)], env)
            == Sum(dest, env) + Times(scale, Extended(dest[j], env)) - Times(dest[j].scale, Extended(dest[j], env))
  {
    var r := dest[j := dest[j].(scale := scale)];
    assert r[..j] == dest[..j] && r[j + 1..] == dest[j + 1..];
    SumAround(dest, j, env);
    SumAround(r, j, env);
    assert Extended(r[j], env) == Extended(dest[j], env);
  }

  // Taking `scale` off the scale of one index, up to an error in the new scale.
  lemma ReducedSum(dest: seq<VarIndex>, j: nat, scale: int, reduced: int, env: Env)
    requires j < |dest|
    ensures Sum(dest[j := dest[j].(scale := reduced)], env)
            == Sum(dest, env) - Times(scale, Extended(dest[j], env))
               + Times(reduced - (dest[j].scale - scale), Extended(dest[j], env))
  {
    RescaledSum(dest, j, reduced, env);
    Distribute(reduced, dest[j].scale, scale, Extended(dest[j], env));
    hide *;
  }

  lemma {:induction false} ErasedSum(dest: seq<VarIndex>, j: nat, env: Env)
    requires j < |dest|
    ensures Sum(dest[..j] + dest[j + 1..], env) == Sum(dest, env) - Times(dest[j].scale, Extended(dest[j], env))
  {
    SumAround(dest, j, env);
    SumOfConcat(dest[..j], dest[j + 1..], env);
    hide *;
  }

  lemma {:induction false} AppendedSum(dest: seq<VarIndex>, s: VarIndex, scale: int, env: Env)
    ensures Sum(dest + [s.(scale := scale)], env)
            == Sum(dest, env) - Times(s.scale, Extended(s, env)) + Times(scale + s.scale, Extended(s, env))
  {
    var t := s.(scale := scale);
    assert Extended(t, env) == Extended(s, env);
    hide Extended;
    SumOfConcat(dest, [t], env);
    assert [t][1..] == [];
    assert Sum([t], env) == Times(scale, Extended(s, env));
    hide *;
    Distribute(scale, 0, s.scale, Extended(s, env));
  }

  lemma {:induction false} SameExtension(dest: seq<VarIndex>, s: VarIndex, stable: Expr -> bool, env: Env, j: nat)
    requires j == FindVariable(dest, s, stable, 0) && j < |dest|
    ensures Extended(dest[j], env) == Extended(s, env)
  {
  }

  // What one subtraction gives, with the effect of 64-bit arithmetic on the one new scale.
  lemma {:induction false} SubtractOneExact(dest: seq<VarIndex>, s: VarIndex, stable: Expr -> bool, env: Env)
    ensures Sum(SubtractOne(dest, s, stable), env)
            == Sum(dest, env) - Times(s.scale, Extended(s, env)) + Times(Slip(dest, s, stable), Extended(s, env))
  {
    hide *;
    var j := FindVariable(dest, s, stable, 0);
    SubtractOneIs(dest, s, stable);
    ZeroTimes(Extended(s, env));
    if j < |dest| {
      SameExtension(dest, s, stable, env, j);
    }
    if j < |dest| && dest[j].scale != s.scale {
      ReducedSum(dest, j, s.scale, Wrap64(dest[j].scale - s.scale), env);
    } else if j < |dest| {
      ErasedSum(dest, j, env);
    } else if s.scale != 0 {
      AppendedSum(dest, s, Wrap64(-s.scale), env);
    }
  }

  lemma ZeroTimes(x: int)
    ensures Times(0, x) == 0
  {
  }

  // The cases of a subtraction.
  lemma {:induction false} SubtractOneIs(dest: seq<VarIndex>, s: VarIndex, stable: Expr -> bool)
    ensures var j, r, slip := FindVariable(dest, s, stable, 0), SubtractOne(dest, s, stable), Slip(dest, s, stable);
            if j < |dest| && dest[j].scale != s.scale then
              var reduced := Wrap64(dest[j].scale - s.scale);
              r == dest[j := dest[j].(scale := reduced)] && slip == reduced - (dest[j].scale - s.scale)
            else if j < |dest| then
              r == dest[..j] + dest[j + 1..] && slip == 0
            else if s.scale != 0 then
              r == dest + [s.(scale := Wrap64(-s.scale))] && slip == Wrap64(-s.scale) + s.scale
            else
              r == dest && slip == 0
  {
    hide FindVariable;
  }

  lemma Distribute(w: int, d: int, s: int, x: int)
    ensures Times(w, x) - Times(d, x) == Times(w - (d - s), x) - Times(s, x) && Times(0, x) == 0
  {
  }

  // What the 64-bit arithmetic adds to the one scale that a subtraction computes: a multiple of 2^64.
  function Slip(dest: seq<VarIndex>, s: VarIndex, stable: Expr -> bool): int {
    var j := FindVariable(dest, s, stable, 0);
    var exact := if j < |dest| then dest[j].scale - s.scale else -s.scale;
    Wrap64(exact) - exact
  }

  lemma {:induction false} SubtractOneSum(dest: seq<VarIndex>, s: VarIndex, stable: Expr -> bool, env: Env)
    ensures Cong(Sum(SubtractOne(dest, s, stable), env), Sum(dest, env) - s.scale * Extended(s, env), TWO_TO_64)
  {
    var j := FindVariable(dest, s, stable, 0);
    var exact := if j < |dest| then dest[j].scale - s.scale else -s.scale;
    var x, plain := Extended(s, env), Sum(dest, env) - s.scale * Extended(s, env);
    SubtractOneExact(dest, s, stable, env);
    Wrap64Cong(exact);
    CongRefl(exact, TWO_TO_64);
    CongAdd(Wrap64(exact), exact, exact, exact, TWO_TO_64);
    hide Cong;
    CongScale(Slip(dest, s, stable), 0, TWO_TO_64, x);
    CongRefl(plain, TWO_TO_64);
    CongAdd(plain, plain, Slip(dest, s, stable) * x, 0, TWO_TO_64);
  }

  /** The symbolic difference is the difference of the sums, in 64-bit arithmetic, for all values
      of the variables. */
  lemma {:induction false} DifferenceSum(dest: seq<VarIndex>, src: seq<VarIndex>, stable: Expr -> bool, env: Env)
    ensures Cong(Sum(Difference(dest, src, stable), env), Sum(dest, env) - Sum(src, env), TWO_TO_64)
    decreases |src|
  {
    if src == [] {
      CongRefl(Sum(dest, env), TWO_TO_64);
    } else {
      var next := SubtractOne(dest, src[0], stable);
      SubtractOneSum(dest, src[0], stable, env);
      hide Cong;
      hide SubtractOne;
      DifferenceSum(next, src[1..], stable, env);
      var first, rest := src[0].scale * Extended(src[0], env), Sum(src[1..], env);
      CongRefl(rest, TWO_TO_64);
      CongAdd(Sum(next, env), Sum(dest, env) - first, rest, rest, TWO_TO_64);
      CongTrans(Sum(Difference(dest, src, stable), env), Sum(next, env) - rest,
                Sum(dest, env) - first - rest, TWO_TO_64);
    }
  }

  lemma {:induction false} DifferenceIsWellFormed(dest: seq<VarIndex>, src: seq<VarIndex>, stable: Expr -> bool)
    requires WellFormedIndices(dest) && WellFormedIndices(src)
    ensures WellFormedIndices(Difference(dest, src, stable))
    decreases |src|
  {
    if src != [] {
      hide WellFormed;
      assert WellFormedIndices(SubtractOne(dest, src[0], stable));
      DifferenceIsWellFormed(SubtractOne(dest, src[0], stable), src[1..], stable);
    }
  }

  // No scale computed on the way leaves the range of a 64-bit number.
  predicate DifferenceFits(dest: seq<VarIndex>, src: seq<VarIndex>, stable: Expr -> bool)
    decreases |src|
  {
    src == []
    || (Slip(dest, src[0], stable) == 0 && DifferenceFits(SubtractOne(dest, src[0], stable), src[1..], stable))
  }

  /** When no scale overflows, the symbolic difference is exact. */
  lemma {:induction false} DifferenceIsExact(dest: seq<VarIndex>, src: seq<VarIndex>, stable: Expr -> bool, env: Env)
    requires DifferenceFits(dest, src, stable)
    ensures Sum(Difference(dest, src, stable), env) == Sum(dest, env) - Sum(src, env)
    decreases |src|
  {
    if src != [] {
      SubtractOneExact(dest, src[0], stable, env);
      hide SubtractOne;
      hide Extended;
      DifferenceIsExact(SubtractOne(dest, src[0], stable), src[1..], stable, env);
    }
  }

  // ----- The end of aliasGEP -----

  datatype AliasResult = NoAlias | MayAlias | PartialAlias | MustAlias

  // Which rule gave the answer.
  datatype Rule = Constant | Modulus | AllPositive | MinimumDistance | NoRule

  datatype Verdict = Verdict(result: AliasResult, rule: Rule)

  // What is known about the sign bit of a value.
  datatype Sign = Sign(nonNegative: bool, negative: bool)

  function OrScales(vars: seq<VarIndex>): (r: nat)
    ensures r < TWO_TO_64
  {
    if vars == [] then 0
    else
      var n := |vars| - 1;
      OrIn64(OrScales(vars[..n]), vars[n].scale % TWO_TO_64);
      BitOr(OrScales(vars[..n]), vars[n].scale % TWO_TO_64)
  }

  lemma {:induction false} OrIn64(a: nat, b: nat)
    requires a < TWO_TO_64 && b < TWO_TO_64
    ensures BitOr(a, b) < TWO_TO_64
  {
    Pow2Of64();
    OrInWidth(a, b, 64);
  }

  // Is the term scale * variable known not to be negative?
  predicate PositiveTerm(i: VarIndex, known: Expr -> Sign) {
    var isZExt := i.zext > 0 || i.v.ZExt?;
    ((known(i.v).nonNegative || isZExt) && i.scale >= 0) || (known(i.v).negative && !isZExt && i.scale < 0)
  }

  predicate AllPositiveTerms(vars: seq<VarIndex>, known: Expr -> Sign) {
    forall k | 0 <= k < |vars| :: PositiveTerm(vars[k], known)
  }

  function Abs(x: int): nat {
    if x < 0 then -x else x
  }

  function Min(a: nat, b: nat): nat {
    if a <= b then a else b
  }

  // The same decomposition up to the offset.
  predicate SameBase(i: VarIndex, j: VarIndex, w: nat) {
    var r, s := GetLinear(i.v, w, 0), GetLinear(j.v, w, 0);
    r.scale == s.scale && r.zext == s.zext && r.sext == s.sext && r.base == s.base
  }

  function Gap(i: VarIndex, j: VarIndex, w: nat): nat {
    (GetLinear(i.v, w, 0).offset - GetLinear(j.v, w, 0).offset) % Pow2(w)
  }

  // How far the offset heuristic believes the two indices to be apart, in bytes.
  function GapBytes(i: VarIndex, j: VarIndex): nat {
    var w := Width(j.v);
    Min(Gap(i, j, w), (0 - Gap(i, j, w)) % Pow2(w)) * Abs(i.scale)
  }

  /** constantOffsetHeuristic: two indices that differ by a constant are at least a minimum
      distance apart, however that difference wraps. */
  predicate FarApart(vars: seq<VarIndex>, s1: nat, s2: nat, base: int, stable: Expr -> bool) {
    |vars| == 2 && s1 != UNKNOWN_SIZE && s2 != UNKNOWN_SIZE
    && var i, j := vars[0], vars[1];
       i.zext == j.zext && i.sext == j.sext && i.scale == -j.scale
       && SameBase(i, j, Width(j.v)) && stable(GetLinear(i.v, Width(j.v), 0).base)
       && (s1 + Abs(base)) % TWO_TO_64 <= GapBytes(i, j) % TWO_TO_64
       && (s2 + Abs(base)) % TWO_TO_64 <= GapBytes(i, j) % TWO_TO_64
  }

  predicate ModulusRule(base: int, scales: nat, s1: nat, s2: nat)
    requires scales < TWO_TO_64
  {
    var modulo := LowBit(scales);
    var offset := BitAnd(base % TWO_TO_64, (modulo - 1) % TWO_TO_64);
    s1 != UNKNOWN_SIZE && s2 != UNKNOWN_SIZE && offset >= s2 && s1 <= (modulo - offset) % TWO_TO_64
  }

  function OffsetTail(base: int, vars: seq<VarIndex>, s1: nat, s2: nat, known: Expr -> Sign,
                      stable: Expr -> bool): Verdict {
    if vars == [] then
      if base == 0 then Verdict(MustAlias, Constant)
      else if base > 0 then
        if s2 == UNKNOWN_SIZE then Verdict(MayAlias, NoRule)
        else Verdict(if base < s2 then PartialAlias else NoAlias, Constant)
      else if s1 == UNKNOWN_SIZE || s2 == UNKNOWN_SIZE then Verdict(MayAlias, NoRule)
      else Verdict(if -base < s1 then PartialAlias else NoAlias, Constant)
    else if ModulusRule(base, OrScales(vars), s1, s2) then Verdict(NoAlias, Modulus)
    else if AllPositiveTerms(vars, known) && base > 0 && s2 <= base then Verdict(NoAlias, AllPositive)
    else if FarApart(vars, s1, s2, base, stable) then Verdict(NoAlias, MinimumDistance)
    else Verdict(MayAlias, NoRule)
  }

  lemma NoTerms(vars: seq<VarIndex>, known: Expr -> Sign)
    ensures OrScales(vars[..0]) == 0 && AllPositiveTerms(vars[..0], known)
  {
  }

  lemma OneMoreTerm(vars: seq<VarIndex>, i: nat, known: Expr -> Sign)
    requires i < |vars|
    ensures OrScales(vars[..i + 1]) == BitOr(OrScales(vars[..i]), vars[i].scale % TWO_TO_64)
    ensures AllPositiveTerms(vars[..i + 1], known)
            <==> AllPositiveTerms(vars[..i], known) && PositiveTerm(vars[i], known)
  {
    assert vars[..i + 1][..i] == vars[..i] && vars[..i + 1] == vars[..i] + [vars[i]];
    hide PositiveTerm;
    hide BitOr;
  }

  // The loop over the indices: all scales or-ed together, and whether no term can be negative.
  method ScalesAndSigns(varIndices: seq<VarIndex>, known: Expr -> Sign) returns (modulo: nat, allPositive: bool)
    ensures modulo == OrScales(varIndices)
    ensures allPositive == AllPositiveTerms(varIndices, known)
  {
    hide BitOr;
    NoTerms(varIndices, known);
    hide OrScales;
    hide AllPositiveTerms;
    modulo, allPositive := 0, true;
    var i := 0;
    while i < |varIndices|
      invariant i <= |varIndices|
      invariant modulo == OrScales(varIndices[..i])
      invariant allPositive == AllPositiveTerms(varIndices[..i], known)
    {
      var v := varIndices[i];
      modulo := BitOr(modulo, v.scale % TWO_TO_64);
      if allPositive {
        var isZExt := v.zext > 0 || v.v.ZExt?;
        var signKnownZero := known(v.v).nonNegative || isZExt;
        var signKnownOne := known(v.v).negative && !isZExt;
        allPositive := (signKnownZero && v.scale >= 0) || (signKnownOne && v.scale < 0);
      }
      OneMoreTerm(varIndices, i, known);
      i := i + 1;
    }
    assert varIndices[..i] == varIndices;
  }

  method AliasGepTail(gep1BaseOffset: int, varIndices: seq<VarIndex>, v1Size: nat, v2Size: nat,
                      known: Expr -> Sign, stable: Expr -> bool) returns (verdict: Verdict)
    ensures verdict == OffsetTail(gep1BaseOffset, varIndices, v1Size, v2Size, known, stable)
  {
    hide BitAnd;
    hide BitOr;
    hide BitXor;
    hide FarApart;
    hide OrScales;
    hide AllPositiveTerms;
    if gep1BaseOffset == 0 && varIndices == [] {
      return Verdict(MustAlias, Constant);
    }
    if gep1BaseOffset != 0 && varIndices == [] {
      if gep1BaseOffset >= 0 {
        if v2Size != UNKNOWN_SIZE {
          if gep1BaseOffset < v2Size {
            return Verdict(PartialAlias, Constant);
          }
          return Verdict(NoAlias, Constant);
        }
      } else {
        if v1Size != UNKNOWN_SIZE && v2Size != UNKNOWN_SIZE {
          if -gep1BaseOffset < v1Size {
            return Verdict(PartialAlias, Constant);
          }
          return Verdict(NoAlias, Constant);
        }
      }
    }
    if varIndices != [] {
      var modulo, allPositive := ScalesAndSigns(varIndices, known);
      modulo := BitXor(modulo, BitAnd(modulo, (modulo - 1) % TWO_TO_64));
      var modOffset := BitAnd(gep1BaseOffset % TWO_TO_64, (modulo - 1) % TWO_TO_64);
      if v1Size != UNKNOWN_SIZE && v2Size != UNKNOWN_SIZE
             && modOffset >= v2Size && v1Size <= (modulo - modOffset) % TWO_TO_64 {
        return Verdict(NoAlias, Modulus);
      }
      if allPositive && gep1BaseOffset > 0 && v2Size <= gep1BaseOffset {
        return Verdict(NoAlias, AllPositive);
      }
      if FarApart(varIndices, v1Size, v2Size, gep1BaseOffset, stable) {
        return Verdict(NoAlias, MinimumDistance);
      }
    }
    return Verdict(MayAlias, NoRule);
  }

  // ----- What the verdicts are worth -----

  // A verdict about two accesses of n1 and n2 bytes whose addresses differ by d.
  predicate Right(result: AliasResult, d: int, n1: nat, n2: nat) {
    match result
    case MustAlias => d == 0
    case PartialAlias => 0 < d + n1 && d < n2
    case NoAlias => d + n1 <= 0 || n2 <= d
    case MayAlias => true
  }

  predicate SizeOf(s: nat, n: nat) {
    s == UNKNOWN_SIZE || s == n
  }

  // An access of n bytes at address a: not empty, inside memory, at most half of it.
  predicate Access(a: int, n: nat) {
    0 <= a && 0 < n <= TWO_TO_63 && a + n <= TWO_TO_64
  }

  lemma CongWithinTwo(d: int, base: int)
    requires Cong(d, base, TWO_TO_64) && 0 - TWO_TO_64 < d < TWO_TO_64 && 0 - TWO_TO_63 <= base < TWO_TO_63
    ensures d == base || (base > 0 && d == base - TWO_TO_64) || (base < 0 && d == base + TWO_TO_64)
  {
    var k :| d == base + Times(k, TWO_TO_64);
  }

  // A constant difference, modulo 2^64.
  lemma ConstantIsRight(base: int, s1: nat, s2: nat, known: Expr -> Sign, stable: Expr -> bool,
                        a1: int, a2: int, n1: nat, n2: nat)
    requires 0 - TWO_TO_63 <= base < TWO_TO_63 && Access(a1, n1) && Access(a2, n2) && SizeOf(s1, n1) && SizeOf(s2, n2)
    requires Cong(a1 - a2, base, TWO_TO_64)
    ensures Right(OffsetTail(base, [], s1, s2, known, stable).result, a1 - a2, n1, n2)
  {
    CongWithinTwo(a1 - a2, base);
  }

  lemma {:induction false} ScalesDivide(vars: seq<VarIndex>, k: nat)
    requires OrScales(vars) % Pow2(k) == 0
    ensures forall i | 0 <= i < |vars| :: (vars[i].scale % TWO_TO_64) % Pow2(k) == 0
    decreases |vars|
  {
    if vars != [] {
      var n := |vars| - 1;
      OrDivides(OrScales(vars[..n]), vars[n].scale % TWO_TO_64, k);
      ScalesDivide(vars[..n], k);
      forall i | 0 <= i < |vars| ensures (vars[i].scale % TWO_TO_64) % Pow2(k) == 0 {
        if i < n {
          assert vars[..n][i] == vars[i];
        }
      }
    }
  }

  // A scale that is 0 modulo 2^k in 64 bits is 0 modulo 2^k.
  lemma {:induction false} ScaleVanishes(scale: int, k: nat)
    requires k <= 64 && (scale % TWO_TO_64) % Pow2(k) == 0
    ensures Cong(scale, 0, Pow2(k))
  {
    Pow2Of64();
    CongMod(scale, TWO_TO_64);
    CongNarrow(scale, scale % TWO_TO_64, 64, k);
    CongMod(scale % TWO_TO_64, Pow2(k));
    CongTrans(scale, scale % TWO_TO_64, 0, Pow2(k));
  }

  lemma {:induction false} SumVanishes(vars: seq<VarIndex>, k: nat, env: Env)
    requires k <= 64 && forall i | 0 <= i < |vars| :: (vars[i].scale % TWO_TO_64) % Pow2(k) == 0
    ensures Cong(Sum(vars, env), 0, Pow2(k))
    decreases |vars|
  {
    if vars == [] {
      CongRefl(0, Pow2(k));
    } else {
      var scale, x := vars[0].scale, Extended(vars[0], env);
      ScaleVanishes(scale, k);
      SumVanishes(vars[1..], k, env);
      hide Cong;
      CongScale(scale, 0, Pow2(k), x);
      CongAdd(scale * x, 0, Sum(vars[1..], env), 0, Pow2(k));
    }
  }

  // The lowest bit as a modulus, the largest one: 2^64 when no bit is set.
  lemma LowBitAsModulus(scales: nat) returns (k: nat)
    requires scales < TWO_TO_64
    ensures k <= 64 && scales % Pow2(k) == 0 && (k < 64 ==> scales % Pow2(k + 1) != 0)
    ensures (LowBit(scales) - 1) % TWO_TO_64 == Pow2(k) - 1
    ensures LowBit(scales) == Pow2(k) || (LowBit(scales) == 0 && Pow2(k) == TWO_TO_64)
    ensures Pow2(k) <= TWO_TO_64
  {
    Pow2Of64();
    if scales == 0 {
      k := 64;
      assert LowBit(0) == 0;
    } else {
      k := LowBitDivides(scales);
      hide LowBit;
      if k > 64 {
        Pow2Monotone(64, k);
      }
      DivUnique(Pow2(k) - 1, TWO_TO_64, 0, Pow2(k) - 1);
    }
  }

  lemma RuleUnfolds(base: int, scales: nat, s1: nat, s2: nat, o: nat, m: nat)
    requires s2 > 0 && scales < TWO_TO_64 && o < m <= TWO_TO_64
    requires LowBit(scales) == m || (LowBit(scales) == 0 && m == TWO_TO_64)
    requires (LowBit(scales) - 1) % TWO_TO_64 == m - 1 && BitAnd(base % TWO_TO_64, m - 1) == o
    ensures ModulusRule(base, scales, s1, s2)
            <==> s1 != UNKNOWN_SIZE && s2 != UNKNOWN_SIZE && s2 <= o && s1 + o <= m
  {
    hide LowBit;
    hide BitAnd;
    if o > 0 {
      RestOfModulus(LowBit(scales), m, o);
    }
  }

  lemma RestOfModulus(modulo: nat, m: nat, o: nat)
    requires 0 < o < m <= TWO_TO_64 && (modulo == m || (modulo == 0 && m == TWO_TO_64))
    ensures (modulo - o) % TWO_TO_64 == m - o
  {
    if modulo == 0 {
      CongWitness(0 - o, m - o, TWO_TO_64, -1);
      CongModEqual(0 - o, m - o, TWO_TO_64);
    }
    SmallMod(m - o, TWO_TO_64);
  }

  // The modulus of the rule is a power of two that divides every scale.
  lemma ModulusMeans(base: int, scales: nat, s1: nat, s2: nat) returns (k: nat)
    requires scales < TWO_TO_64 && s2 > 0 && ModulusRule(base, scales, s1, s2)
    ensures k <= 64 && scales % Pow2(k) == 0
    ensures s1 != UNKNOWN_SIZE && s2 != UNKNOWN_SIZE && s2 <= base % Pow2(k) && s1 + base % Pow2(k) <= Pow2(k)
  {
    k := LowBitAsModulus(scales);
    hide *;
    MaskIsMod(base % TWO_TO_64, k);
    ModOfMod(base, k);
    RuleUnfolds(base, scales, s1, s2, base % Pow2(k), Pow2(k));
  }

  lemma {:induction false} ModOfMod(base: int, k: nat)
    requires k <= 64
    ensures (base % TWO_TO_64) % Pow2(k) == base % Pow2(k)
  {
    Pow2Of64();
    CongMod(base, TWO_TO_64);
    CongNarrow(base % TWO_TO_64, base, 64, k);
    CongModEqual(base % TWO_TO_64, base, Pow2(k));
  }

  lemma ApartModulo(d: int, base: int, m: nat, n1: nat, n2: nat)
    requires m > 0 && Cong(d, base, m) && n2 <= base % m && n1 + base % m <= m
    ensures d + n1 <= 0 || n2 <= d
  {
    CongModEqual(d, base, m);
    var q := d / m;
    assert d == q * m + base % m;
    AtLeast(q, m);
  }

  lemma {:induction false} ModulusIsRight(base: int, vars: seq<VarIndex>, s1: nat, s2: nat, env: Env, d: int, n1: nat,
                                          n2: nat)
    requires SizeOf(s1, n1) && SizeOf(s2, n2) && n2 > 0
    requires ModulusRule(base, OrScales(vars), s1, s2)
    requires Cong(d, base + Sum(vars, env), TWO_TO_64)
    ensures d + n1 <= 0 || n2 <= d
  {
    var k := ModulusMeans(base, OrScales(vars), s1, s2);
    Pow2Of64();
    hide ModulusRule;
    ScalesDivide(vars, k);
    SumVanishes(vars, k, env);
    CongNarrow(d, base + Sum(vars, env), 64, k);
    CongRefl(base, Pow2(k));
    CongAdd(base, base, Sum(vars, env), 0, Pow2(k));
    CongTrans(d, base + Sum(vars, env), base, Pow2(k));
    ApartModulo(d, base, Pow2(k), n1, n2);
  }

  /** Whatever wraps on the way to the two addresses: the verdicts of the constant and of the modulus
      rule are right for all values of the variables. */
  lemma {:induction false} ModularSound(base: int, vars: seq<VarIndex>, s1: nat, s2: nat, known: Expr -> Sign,
                                        stable: Expr -> bool,
                                        env: Env, a1: int, a2: int, n1: nat, n2: nat)
    requires 0 - TWO_TO_63 <= base < TWO_TO_63 && Access(a1, n1) && Access(a2, n2) && SizeOf(s1, n1) && SizeOf(s2, n2)
    requires Cong(a1 - a2, base + Sum(vars, env), TWO_TO_64)
    ensures var v := OffsetTail(base, vars, s1, s2, known, stable);
            v.rule !in {AllPositive, MinimumDistance} ==> Right(v.result, a1 - a2, n1, n2)
  {
    if vars == [] {
      ConstantIsRight(base, s1, s2, known, stable, a1, a2, n1, n2);
    } else if ModulusRule(base, OrScales(vars), s1, s2) {
      ModulusIsRight(base, vars, s1, s2, env, a1 - a2, n1, n2);
    }
  }

  // What an index variable is for the minimum-distance rule, which decomposes it: its decomposition
  // is exact, and it is extended to the width of a pointer.
  ghost predicate GoodIndex(i: VarIndex, env: Env) {
    WellFormed(i.v) && NoPoison(i.v, env) && Kept(i.v, env, Width(i.v), 0) && Width(i.v) + i.zext + i.sext == 64
  }

  ghost predicate GoodIndices(vars: seq<VarIndex>, env: Env) {
    forall i | 0 <= i < |vars| :: GoodIndex(vars[i], env)
  }

  ghost predicate KnownIsRight(known: Expr -> Sign, env: Env) {
    forall e :: (known(e).nonNegative ==> Signed(Val(e, env), Width(e)) >= 0)
                && (known(e).negative ==> Signed(Val(e, env), Width(e)) < 0)
  }

  lemma PositiveTermIsPositive(i: VarIndex, known: Expr -> Sign, env: Env)
    requires PositiveTerm(i, known) && WellFormed(i.v) && KnownIsRight(known, env)
    ensures i.scale * Extended(i, env) >= 0
  {
    var x, w := Extended(i, env), Width(i.v);
    if i.zext == 0 && i.v.ZExt? {
      ValInWidth(i.v.a, env);
      Pow2Monotone(Width(i.v.a), w - 1);
    }
    assert (x >= 0 && i.scale >= 0) || (x < 0 && i.scale < 0);
    SameSigns(i.scale, x);
  }

  lemma SameSigns(a: int, b: int)
    requires (a >= 0 && b >= 0) || (a < 0 && b < 0)
    ensures a * b >= 0
  {
  }

  lemma {:induction false} SumIsPositive(vars: seq<VarIndex>, known: Expr -> Sign, env: Env)
    requires AllPositiveTerms(vars, known) && WellFormedIndices(vars) && KnownIsRight(known, env)
    ensures Sum(vars, env) >= 0
    decreases |vars|
  {
    if vars != [] {
      PositiveTermIsPositive(vars[0], known, env);
      assert forall k | 0 <= k < |vars[1..]| :: vars[1..][k] == vars[k + 1];
      hide PositiveTerm;
      hide WellFormed;
      hide KnownIsRight;
      SumIsPositive(vars[1..], known, env);
    }
  }

  // Modulo its own width, an extension does not change a value.
  lemma ExtendedCong(i: VarIndex, env: Env)
    ensures Cong(Extended(i, env), Val(i.v, env), Pow2(Width(i.v)))
  {
    var w, v := Width(i.v), Val(i.v, env);
    SignedCong(v, w);
    if i.zext > 0 {
      CongMod(Signed(v, w), Pow2(w + i.sext));
      CongNarrow(Signed(v, w) % Pow2(w + i.sext), Signed(v, w), w + i.sext, w);
      CongTrans(Signed(v, w) % Pow2(w + i.sext), Signed(v, w), v, Pow2(w));
    }
  }

  // A difference of two decompositions that differ in the offset only.
  lemma OffsetsDiffer(v: int, u: int, x: int, r: int, s: int, m: int)
    requires m > 0 && Cong(v, x + r, m) && Cong(u, x + s, m)
    ensures Cong(v - u, (r - s) % m, m)
  {
    CongMod(r - s, m);
    hide Cong;
    CongAdd(v, x + r, u, x + s, m);
    CongTrans(v - u, r - s, (r - s) % m, m);
  }

  lemma ExtensionsDiffer(i: VarIndex, j: VarIndex, env: Env, d: int)
    requires Width(i.v) == Width(j.v) && Cong(Val(i.v, env) - Val(j.v, env), d, Pow2(Width(j.v)))
    ensures Cong(Extended(i, env) - Extended(j, env), d, Pow2(Width(j.v)))
  {
    var m := Pow2(Width(j.v));
    ExtendedCong(i, env);
    ExtendedCong(j, env);
    hide Cong;
    hide Extended;
    CongAdd(Extended(i, env), Val(i.v, env), Extended(j, env), Val(j.v, env), m);
    CongTrans(Extended(i, env) - Extended(j, env), Val(i.v, env) - Val(j.v, env), d, m);
  }

  // What the decomposition of an index is good for here.
  lemma IndexAgrees(i: VarIndex, env: Env)
    requires GoodIndex(i, env)
    ensures var w := Width(i.v);
            var r := GetLinear(i.v, w, 0);
            Cong(Val(i.v, env), At(Affine(r.scale, r.offset), BaseValue(r, env)), Pow2(w))
  {
    hide GetLinear;
    hide Kept;
    hide NoPoison;
    LinearAgrees(i.v, env, Width(i.v), 0);
  }

  // Two indices with the same decomposition up to the offset differ by the difference of the offsets.
  lemma DifferByConstant(i: VarIndex, j: VarIndex, env: Env)
    requires GoodIndex(i, env) && GoodIndex(j, env) && Width(i.v) == Width(j.v) && SameBase(i, j, Width(j.v))
    ensures Cong(Extended(i, env) - Extended(j, env), Gap(i, j, Width(j.v)), Pow2(Width(j.v)))
  {
    ValuesDiffer(i, j, env);
    hide *;
    ExtensionsDiffer(i, j, env, Gap(i, j, Width(j.v)));
  }

  lemma ValuesDiffer(i: VarIndex, j: VarIndex, env: Env)
    requires GoodIndex(i, env) && GoodIndex(j, env) && Width(i.v) == Width(j.v) && SameBase(i, j, Width(j.v))
    ensures Cong(Val(i.v, env) - Val(j.v, env), Gap(i, j, Width(j.v)), Pow2(Width(j.v)))
  {
    hide Cong;
    hide GetLinear;
    hide Val;
    hide Width;
    hide GoodIndex;
    hide Pow2;
    hide BaseValue;
    var w := Width(j.v);
    IndexAgrees(i, env);
    IndexAgrees(j, env);
    var r, s := GetLinear(i.v, w, 0), GetLinear(j.v, w, 0);
    SameBaseValue(r, s, env);
    OffsetsDiffer(Val(i.v, env), Val(j.v, env), r.scale * BaseValue(r, env), r.offset, s.offset, Pow2(w));
  }

  lemma SameBaseValue(r: Linear, s: Linear, env: Env)
    requires r.base == s.base && r.sext == s.sext
    ensures BaseValue(r, env) == BaseValue(s, env)
  {
  }

  // However a difference wraps, it is at least this far from zero.
  lemma NotNearZero(x: int, d: nat, m: nat)
    requires m > 0 && d < m && Cong(x, d, m)
    ensures Abs(x) >= Min(d, (0 - d) % m)
  {
    var k :| x == d + Times(k, m);
    AtLeast(k, m);
    if d == 0 {
      assert Min(d, (0 - d) % m) == 0;
    } else {
      CongWitness(0 - d, m - d, m, -1);
      CongModEqual(0 - d, m - d, m);
      DivUnique(m - d, m, 0, m - d);
    }
  }

  lemma FarApartMeans(vars: seq<VarIndex>, s1: nat, s2: nat, base: int, stable: Expr -> bool, n1: nat, n2: nat)
    requires FarApart(vars, s1, s2, base, stable)
    requires 0 - TWO_TO_63 <= base < TWO_TO_63 && SizeOf(s1, n1) && SizeOf(s2, n2)
             && 0 < n1 < TWO_TO_63 && 0 < n2 < TWO_TO_63
    ensures var i, j := vars[0], vars[1];
            && i.zext == j.zext && i.sext == j.sext && i.scale == -j.scale && SameBase(i, j, Width(j.v))
            && n1 + Abs(base) <= GapBytes(i, j) && n2 + Abs(base) <= GapBytes(i, j)
  {
    var bytes := GapBytes(vars[0], vars[1]);
    hide GapBytes;
    hide SameBase;
    hide GetLinear;
    ModShrinks(bytes, TWO_TO_64);
    SmallMod(n1 + Abs(base), TWO_TO_64);
    SmallMod(n2 + Abs(base), TWO_TO_64);
  }

  lemma ModShrinks(x: nat, m: nat)
    requires m > 0
    ensures x % m <= x
  {
  }

  lemma GapIsKept(i: VarIndex, j: VarIndex, env: Env)
    requires GoodIndex(i, env) && GoodIndex(j, env)
             && i.zext == j.zext && i.sext == j.sext && SameBase(i, j, Width(j.v))
    ensures Abs(i.scale * (Extended(i, env) - Extended(j, env))) >= GapBytes(i, j)
  {
    SameWidth(i, j, env);
    hide GoodIndex;
    hide GetLinear;
    hide SameBase;
    hide Extended;
    hide Cong;
    hide Gap;
    hide Width;
    hide Pow2;
    DifferByConstant(i, j, env);
    GapInRange(i, j, Width(j.v));
    var w := Width(j.v);
    NotNearZero(Extended(i, env) - Extended(j, env), Gap(i, j, w), Pow2(w));
    FarEnough(i.scale, Extended(i, env) - Extended(j, env), Min(Gap(i, j, w), (0 - Gap(i, j, w)) % Pow2(w)));
  }

  lemma SameWidth(i: VarIndex, j: VarIndex, env: Env)
    requires GoodIndex(i, env) && GoodIndex(j, env) && i.zext == j.zext && i.sext == j.sext
    ensures Width(i.v) == Width(j.v)
  {
    hide Kept;
    hide NoPoison;
    hide Width;
  }

  lemma {:induction false} GapInRange(i: VarIndex, j: VarIndex, w: nat)
    ensures Gap(i, j, w) < Pow2(w)
  {
    hide GetLinear;
    hide Pow2;
  }

  lemma {:induction false} FarApartIsRight(vars: seq<VarIndex>, s1: nat, s2: nat, base: int, stable: Expr -> bool,
                                           env: Env, d: int, n1: nat, n2: nat)
    requires FarApart(vars, s1, s2, base, stable) && GoodIndices(vars, env)
    requires 0 - TWO_TO_63 <= base < TWO_TO_63 && SizeOf(s1, n1) && SizeOf(s2, n2)
             && 0 < n1 < TWO_TO_63 && 0 < n2 < TWO_TO_63
    requires d == base + Sum(vars, env)
    ensures d + n1 <= 0 || n2 <= d
  {
    FarApartMeans(vars, s1, s2, base, stable, n1, n2);
    var i, j := vars[0], vars[1];
    assert |vars| == 2;
    assert GoodIndex(i, env) && GoodIndex(j, env);
    assert vars[1..] == [j];
    hide FarApart;
    hide GetLinear;
    GapIsKept(i, j, env);
    hide Extended;
    hide GoodIndex;
    var x, y := Extended(i, env), Extended(j, env);
    assert Sum([j], env) == j.scale * y;
    TermsDiffer(i.scale, j.scale, x, y);
  }

  lemma TermsDiffer(a: int, b: int, x: int, y: int)
    requires a == -b
    ensures a * x + b * y == a * (x - y)
  {
  }

  lemma FarEnough(scale: int, x: int, least: nat)
    requires Abs(x) >= least
    ensures Abs(scale * x) >= least * Abs(scale)
  {
    AbsOfProduct(scale, x);
    ProductGrows(least, Abs(x), Abs(scale));
    hide Abs;
  }

  lemma AbsOfProduct(a: int, b: int)
    ensures Abs(a * b) == Abs(b) * Abs(a)
  {
  }

  lemma ProductGrows(a: nat, b: nat, c: nat)
    requires a <= b
    ensures a * c <= b * c
  {
  }

  // What the minimum-distance rule needs, and no other rule.
  ghost predicate DistanceHolds(rule: Rule, vars: seq<VarIndex>, env: Env, n1: nat, n2: nat) {
    rule == MinimumDistance ==> GoodIndices(vars, env) && n1 < TWO_TO_63 && n2 < TWO_TO_63
  }

  /** Over mathematical integers every verdict is right, for all values of the variables. */
  lemma {:induction false} ExactSound(base: int, vars: seq<VarIndex>, s1: nat, s2: nat, known: Expr -> Sign,
                                      stable: Expr -> bool, env: Env, a1: int, a2: int, n1: nat, n2: nat)
    requires 0 - TWO_TO_63 <= base < TWO_TO_63 && SizeOf(s1, n1) && SizeOf(s2, n2) && n1 > 0 && n2 > 0
    requires WellFormedIndices(vars) && KnownIsRight(known, env)
    requires DistanceHolds(OffsetTail(base, vars, s1, s2, known, stable).rule, vars, env, n1, n2)
    requires a1 - a2 == base + Sum(vars, env)
    ensures Right(OffsetTail(base, vars, s1, s2, known, stable).result, a1 - a2, n1, n2)
  {
    hide KnownIsRight;
    hide GoodIndices;
    hide WellFormedIndices;
    hide FarApart;
    hide ModulusRule;
    hide AllPositiveTerms;
    if vars == [] {
    } else if ModulusRule(base, OrScales(vars), s1, s2) {
      CongRefl(a1 - a2, TWO_TO_64);
      ModulusIsRight(base, vars, s1, s2, env, a1 - a2, n1, n2);
    } else if AllPositiveTerms(vars, known) && base > 0 && s2 <= base {
      SumIsPositive(vars, known, env);
    } else if FarApart(vars, s1, s2, base, stable) {
      FarApartIsRight(vars, s1, s2, base, stable, env, a1 - a2, n1, n2);
    }
  }

  // ----- Two decomposed addresses -----

  // An address as a constant and variable offsets from a common base pointer.
  datatype Decomposed = Decomposed(offset: int, vars: seq<VarIndex>)

  function Offset(g: Decomposed, env: Env): int {
    g.offset + Sum(g.vars, env)
  }

  function AliasGep(g1: Decomposed, g2: Decomposed, s1: nat, s2: nat, known: Expr -> Sign,
                    stable: Expr -> bool): Verdict {
    OffsetTail(Wrap64(g1.offset - g2.offset), Difference(g1.vars, g2.vars, stable), s1, s2, known, stable)
  }

  lemma AddressesDiffer(g1: Decomposed, g2: Decomposed, stable: Expr -> bool, env: Env, p: int)
    ensures Cong((p + Offset(g1, env)) % TWO_TO_64 - (p + Offset(g2, env)) % TWO_TO_64,
                 Wrap64(g1.offset - g2.offset) + Sum(Difference(g1.vars, g2.vars, stable), env), TWO_TO_64)
  {
    var x1, x2 := p + Offset(g1, env), p + Offset(g2, env);
    var base, rest := Wrap64(g1.offset - g2.offset), Sum(Difference(g1.vars, g2.vars, stable), env);
    hide Cong;
    hide Difference;
    CongMod(x1, TWO_TO_64);
    CongMod(x2, TWO_TO_64);
    CongAdd(x1 % TWO_TO_64, x1, x2 % TWO_TO_64, x2, TWO_TO_64);
    DifferenceSum(g1.vars, g2.vars, stable, env);
    Wrap64Cong(g1.offset - g2.offset);
    CongAdd(base, g1.offset - g2.offset, rest, Sum(g1.vars, env) - Sum(g2.vars, env), TWO_TO_64);
    CongSym(base + rest, x1 - x2, TWO_TO_64);
    CongTrans(x1 % TWO_TO_64 - x2 % TWO_TO_64, x1 - x2, base + rest, TWO_TO_64);
  }

  /** Two addresses off one base pointer, computed in 64-bit arithmetic: every verdict of the
      constant and of the modulus rule about them is right. */
  lemma AliasGepModular(g1: Decomposed, g2: Decomposed, s1: nat, s2: nat, known: Expr -> Sign, stable: Expr -> bool,
                        env: Env, p: int, n1: nat, n2: nat)
    requires SizeOf(s1, n1) && SizeOf(s2, n2)
    requires Access((p + Offset(g1, env)) % TWO_TO_64, n1) && Access((p + Offset(g2, env)) % TWO_TO_64, n2)
    ensures var v := AliasGep(g1, g2, s1, s2, known, stable);
            v.rule !in {AllPositive, MinimumDistance} ==>
              Right(v.result, (p + Offset(g1, env)) % TWO_TO_64 - (p + Offset(g2, env)) % TWO_TO_64, n1, n2)
  {
    var x1, x2 := p + Offset(g1, env), p + Offset(g2, env);
    var base, vars := Wrap64(g1.offset - g2.offset), Difference(g1.vars, g2.vars, stable);
    hide OffsetTail;
    hide Difference;
    hide Cong;
    AddressesDiffer(g1, g2, stable, env, p);
    ModularSound(base, vars, s1, s2, known, stable, env, x1 % TWO_TO_64, x2 % TWO_TO_64, n1, n2);
  }

  lemma AliasGepUnfolds(g1: Decomposed, g2: Decomposed, s1: nat, s2: nat, known: Expr -> Sign, stable: Expr -> bool)
    requires 0 - TWO_TO_63 <= g1.offset - g2.offset < TWO_TO_63
    ensures AliasGep(g1, g2, s1, s2, known, stable)
            == OffsetTail(g1.offset - g2.offset, Difference(g1.vars, g2.vars, stable), s1, s2, known, stable)
  {
    hide OffsetTail;
    hide Difference;
  }

  lemma OffsetGap(g1: Decomposed, g2: Decomposed, stable: Expr -> bool, env: Env)
    requires DifferenceFits(g1.vars, g2.vars, stable)
    ensures Offset(g1, env) - Offset(g2, env)
            == g1.offset - g2.offset + Sum(Difference(g1.vars, g2.vars, stable), env)
  {
    hide Sum;
    hide Difference;
    hide DifferenceFits;
    DifferenceIsExact(g1.vars, g2.vars, stable, env);
  }

  /** When neither the constant offsets nor the scales overflow as they are subtracted, and the two
      addresses are computed without wrapping, every verdict is right. */
  lemma AliasGepExact(g1: Decomposed, g2: Decomposed, s1: nat, s2: nat, known: Expr -> Sign, stable: Expr -> bool,
                      env: Env, p: int, n1: nat, n2: nat)
    requires SizeOf(s1, n1) && SizeOf(s2, n2) && n1 > 0 && n2 > 0
    requires 0 - TWO_TO_63 <= g1.offset - g2.offset < TWO_TO_63 && DifferenceFits(g1.vars, g2.vars, stable)
    requires WellFormedIndices(g1.vars) && WellFormedIndices(g2.vars) && KnownIsRight(known, env)
    requires var rule := AliasGep(g1, g2, s1, s2, known, stable).rule;
             DistanceHolds(rule, Difference(g1.vars, g2.vars, stable), env, n1, n2)
    ensures Right(AliasGep(g1, g2, s1, s2, known, stable).result, (p + Offset(g1, env)) - (p + Offset(g2, env)), n1, n2)
  {
    hide *;
    var base, vars := g1.offset - g2.offset, Difference(g1.vars, g2.vars, stable);
    AliasGepUnfolds(g1, g2, s1, s2, known, stable);
    OffsetGap(g1, g2, stable, env);
    DifferenceIsWellFormed(g1.vars, g2.vars, stable);
    ExactSound(base, vars, s1, s2, known, stable, env, p + Offset(g1, env), p + Offset(g2, env), n1, n2);
  }

  // ----- The all-positive rule where addresses wrap -----

  // Two accesses are apart if and only if, modulo 2^64, the first lies from the end of the second on
  // and ends before it comes round to the second again.
  lemma ApartOnTheCircle(a1: int, a2: int, n1: nat, n2: nat, d: int)
    requires Access(a1, n1) && Access(a2, n2) && Cong(a1 - a2, d, TWO_TO_64)
    ensures Right(NoAlias, a1 - a2, n1, n2) <==> n2 <= d % TWO_TO_64 <= TWO_TO_64 - n1
  {
    CongModEqual(a1 - a2, d, TWO_TO_64);
    if a1 >= a2 {
      SmallMod(a1 - a2, TWO_TO_64);
    } else {
      CongWitness(a1 - a2, a1 - a2 + TWO_TO_64, TWO_TO_64, -1);
      CongModEqual(a1 - a2, a1 - a2 + TWO_TO_64, TWO_TO_64);
      SmallMod(a1 - a2 + TWO_TO_64, TWO_TO_64);
    }
  }

  // What a variable comes to at most, after its extensions and in either direction.
  function Extent(i: VarIndex): nat {
    if i.zext > 0 then Pow2(Width(i.v) + i.sext) else Pow2(Width(i.v)) / 2
  }

  /** The largest offset that the variables can bring about, by their widths and scales alone. */
  function Reach(vars: seq<VarIndex>): nat {
    if vars == [] then 0 else Abs(vars[0].scale) * Extent(vars[0]) + Reach(vars[1..])
  }

  lemma ExtentBounds(i: VarIndex, env: Env)
    requires WellFormed(i.v)
    ensures Abs(Extended(i, env)) <= Extent(i)
  {
    ValInWidth(i.v, env);
    SignedRange(Val(i.v, env), Width(i.v));
    assert Pow2(Width(i.v)) == 2 * Pow2(Width(i.v) - 1);
    hide Pow2;
  }

  lemma TermWithin(a: int, x: int, e: nat)
    requires Abs(x) <= e
    ensures Abs(a * x) <= Abs(a) * e
  {
    assert Abs(a) * e == Abs(a) * Abs(x) + Abs(a) * (e - Abs(x));
    assert Abs(a * x) == Abs(a) * Abs(x);
  }

  lemma {:induction false} SumWithinReach(vars: seq<VarIndex>, env: Env)
    requires WellFormedIndices(vars)
    ensures Abs(Sum(vars, env)) <= Reach(vars)
    decreases |vars|
  {
    if vars != [] {
      ExtentBounds(vars[0], env);
      assert forall k | 0 <= k < |vars[1..]| :: vars[1..][k] == vars[k + 1];
      hide WellFormed;
      hide Extended;
      hide Extent;
      SumWithinReach(vars[1..], env);
      TermWithin(vars[0].scale, Extended(vars[0], env), Extent(vars[0]));
    }
  }

  /** The all-positive rule for addresses that may wrap: its answer is right if and only if the
      distance, modulo 2^64, leaves room for both accesses. It is when the distance itself, which the
      rule knows to be at least `base`, leaves this room, and so when the variables cannot reach
      further. */
  lemma {:induction false} AllPositiveOnTheCircle(base: int, vars: seq<VarIndex>, s1: nat, s2: nat, known: Expr -> Sign,
                                                  stable: Expr -> bool, env: Env, a1: int, a2: int, n1: nat, n2: nat)
    requires SizeOf(s2, n2)
    requires Access(a1, n1) && Access(a2, n2) && Cong(a1 - a2, base + Sum(vars, env), TWO_TO_64)
    requires WellFormedIndices(vars) && KnownIsRight(known, env)
    requires OffsetTail(base, vars, s1, s2, known, stable).rule == AllPositive
    ensures var d := base + Sum(vars, env);
            && (Right(NoAlias, a1 - a2, n1, n2) <==> n2 <= d % TWO_TO_64 <= TWO_TO_64 - n1)
            && (d + n1 <= TWO_TO_64 ==> Right(NoAlias, a1 - a2, n1, n2))
            && base <= d <= base + Reach(vars)
  {
    var d := base + Sum(vars, env);
    hide Cong;
    hide ModulusRule;
    hide FarApart;
    assert AllPositiveTerms(vars, known) && base > 0 && s2 <= base;
    hide OffsetTail;
    hide AllPositiveTerms;
    hide Right;
    hide Sum;
    hide Reach;
    ApartOnTheCircle(a1, a2, n1, n2, d);
    SumWithinReach(vars, env);
    SumIsPositive(vars, known, env);
    hide WellFormedIndices;
    hide KnownIsRight;
    if d + n1 <= TWO_TO_64 {
      SmallMod(d, TWO_TO_64);
    }
  }

  /** The minimum-distance rule for addresses that may wrap, likewise: its answer is right if and only if
      the distance, modulo 2^64, leaves room for both accesses. As the accesses are apart where nothing
      wraps, it is enough that the distance does not come round to them on either side. */
  lemma {:induction false} FarApartOnTheCircle(base: int, vars: seq<VarIndex>, s1: nat, s2: nat, known: Expr -> Sign,
                                               stable: Expr -> bool, env: Env, a1: int, a2: int, n1: nat, n2: nat)
    requires 0 - TWO_TO_63 <= base < TWO_TO_63 && SizeOf(s1, n1) && SizeOf(s2, n2)
    requires Access(a1, n1) && Access(a2, n2) && Cong(a1 - a2, base + Sum(vars, env), TWO_TO_64)
    requires WellFormedIndices(vars) && OffsetTail(base, vars, s1, s2, known, stable).rule == MinimumDistance
    ensures var d := base + Sum(vars, env);
            && (Right(NoAlias, a1 - a2, n1, n2) <==> n2 <= d % TWO_TO_64 <= TWO_TO_64 - n1)
            && (GoodIndices(vars, env) && n1 < TWO_TO_63 && n2 < TWO_TO_63 && n2 - TWO_TO_64 <= d <= TWO_TO_64 - n1 ==>
                  Right(NoAlias, a1 - a2, n1, n2))
            && Abs(d) <= Abs(base) + Reach(vars)
  {
    var d := base + Sum(vars, env);
    hide Cong;
    hide Right;
    hide Sum;
    hide Reach;
    hide GoodIndices;
    hide WellFormedIndices;
    FarApartByRule(base, vars, s1, s2, known, stable);
    hide OffsetTail;
    hide FarApart;
    ApartOnTheCircle(a1, a2, n1, n2, d);
    SumWithinReach(vars, env);
    if GoodIndices(vars, env) && n1 < TWO_TO_63 && n2 < TWO_TO_63 && n2 - TWO_TO_64 <= d <= TWO_TO_64 - n1 {
      FarApartIsRight(vars, s1, s2, base, stable, env, d, n1, n2);
      RoomOnTheCircle(d, n1, n2);
    }
  }

  lemma FarApartByRule(base: int, vars: seq<VarIndex>, s1: nat, s2: nat, known: Expr -> Sign, stable: Expr -> bool)
    requires OffsetTail(base, vars, s1, s2, known, stable).rule == MinimumDistance
    ensures FarApart(vars, s1, s2, base, stable)
  {
    hide FarApart;
    hide ModulusRule;
    hide AllPositiveTerms;
  }

  // A distance that leaves room on the line, and is not so far that it comes round, leaves room on the circle.
  lemma RoomOnTheCircle(d: int, n1: nat, n2: nat)
    requires n1 > 0 && (d + n1 <= 0 || n2 <= d) && n2 - TWO_TO_64 <= d <= TWO_TO_64 - n1
    ensures n2 <= d % TWO_TO_64 <= TWO_TO_64 - n1
  {
    if d >= 0 {
      SmallMod(d, TWO_TO_64);
    } else {
      CongWitness(d, d + TWO_TO_64, TWO_TO_64, -1);
      CongModEqual(d, d + TWO_TO_64, TWO_TO_64);
      SmallMod(d + TWO_TO_64, TWO_TO_64);
    }
  }

  /** The same for two decomposed addresses off one base pointer. */
  lemma AliasGepOnTheCircle(g1: Decomposed, g2: Decomposed, s1: nat, s2: nat, known: Expr -> Sign,
                            stable: Expr -> bool, env: Env, p: int, n1: nat, n2: nat)
    requires SizeOf(s2, n2)
    requires Access((p + Offset(g1, env)) % TWO_TO_64, n1) && Access((p + Offset(g2, env)) % TWO_TO_64, n2)
    requires WellFormedIndices(g1.vars) && WellFormedIndices(g2.vars) && KnownIsRight(known, env)
    requires AliasGep(g1, g2, s1, s2, known, stable).rule == AllPositive
    ensures var base, vars := Wrap64(g1.offset - g2.offset), Difference(g1.vars, g2.vars, stable);
            var d, gap := base + Sum(vars, env), (p + Offset(g1, env)) % TWO_TO_64 - (p + Offset(g2, env)) % TWO_TO_64;
            && (Right(NoAlias, gap, n1, n2) <==> n2 <= d % TWO_TO_64 <= TWO_TO_64 - n1)
            && (d + n1 <= TWO_TO_64 ==> Right(NoAlias, gap, n1, n2))
            && (base + Reach(vars) + n1 <= TWO_TO_64 ==> Right(NoAlias, gap, n1, n2))
  {
    hide OffsetTail;
    hide Difference;
    hide Cong;
    hide WellFormedIndices;
    hide KnownIsRight;
    hide Reach;
    hide Sum;
    hide Right;
    AddressesDiffer(g1, g2, stable, env, p);
    DifferenceIsWellFormed(g1.vars, g2.vars, stable);
    AllPositiveOnTheCircle(Wrap64(g1.offset - g2.offset), Difference(g1.vars, g2.vars, stable),
                           s1, s2, known, stable, env,
                           (p + Offset(g1, env)) % TWO_TO_64, (p + Offset(g2, env)) % TWO_TO_64, n1, n2);
  }

  /** The minimum-distance rule for two decomposed addresses off one base pointer. */
  lemma AliasGepFarOnTheCircle(g1: Decomposed, g2: Decomposed, s1: nat, s2: nat, known: Expr -> Sign,
                               stable: Expr -> bool, env: Env, p: int, n1: nat, n2: nat)
    requires SizeOf(s1, n1) && SizeOf(s2, n2)
    requires Access((p + Offset(g1, env)) % TWO_TO_64, n1) && Access((p + Offset(g2, env)) % TWO_TO_64, n2)
    requires WellFormedIndices(g1.vars) && WellFormedIndices(g2.vars)
    requires AliasGep(g1, g2, s1, s2, known, stable).rule == MinimumDistance
    ensures var base, vars := Wrap64(g1.offset - g2.offset), Difference(g1.vars, g2.vars, stable);
            var d, gap := base + Sum(vars, env), (p + Offset(g1, env)) % TWO_TO_64 - (p + Offset(g2, env)) % TWO_TO_64;
            && (Right(NoAlias, gap, n1, n2) <==> n2 <= d % TWO_TO_64 <= TWO_TO_64 - n1)
            && (GoodIndices(vars, env) && n1 < TWO_TO_63 && n2 < TWO_TO_63
                && Abs(base) + Reach(vars) + n1 <= TWO_TO_64 && Abs(base) + Reach(vars) + n2 <= TWO_TO_64 ==>
                  Right(NoAlias, gap, n1, n2))
  {
    hide OffsetTail;
    hide Difference;
    hide Cong;
    hide WellFormedIndices;
    hide GoodIndices;
    hide Reach;
    hide Sum;
    hide Right;
    AddressesDiffer(g1, g2, stable, env, p);
    DifferenceIsWellFormed(g1.vars, g2.vars, stable);
    FarApartOnTheCircle(Wrap64(g1.offset - g2.offset), Difference(g1.vars, g2.vars, stable),
                        s1, s2, known, stable, env,
                        (p + Offset(g1, env)) % TWO_TO_64, (p + Offset(g2, env)) % TWO_TO_64, n1, n2);
  }

  /** Where addresses wrap, the all-positive rule can be wrong: a variable that is 2 and never
      negative, scaled by 2^63 - 1, brings an address 4 bytes ahead back to 2 bytes ahead. */
  lemma WrappingMisleadsAllPositive()
    ensures var vars := [VarIndex(Var(0, 64), 0, 0, TWO_TO_63 - 1)];
            var env: Env := (_: nat) => 2;
            var known := (e: Expr) => Sign(e == Var(0, 64), false);
            var stable := (_: Expr) => true;
            && OffsetTail(4, vars, 4, 4, known, stable) == Verdict(NoAlias, AllPositive)
            && KnownIsRight(known, env)
            && Cong(2, 4 + Sum(vars, env), TWO_TO_64)
            && !Right(NoAlias, 2, 4, 4)
  {
    var vars := [VarIndex(Var(0, 64), 0, 0, TWO_TO_63 - 1)];
    var env: Env := (_: nat) => 2;
    Pow2Of64();
    assert Pow2(64) == 2 * Pow2(63);
    DivUnique(2, Pow2(64), 0, 2);
    assert Val(Var(0, 64), env) == 2;
    assert Extended(vars[0], env) == 2;
    assert Sum(vars, env) == (TWO_TO_63 - 1) * 2;
    CongWitness(2, 4 + Sum(vars, env), TWO_TO_64, -1);
    OddModulus(vars);
  }

  lemma {:induction false} OddModulus(vars: seq<VarIndex>)
    requires |vars| >= 1 && vars[|vars| - 1].scale % 2 == 1
    ensures LowBit(OrScales(vars)) == 1
  {
    var n, m := |vars| - 1, OrScales(vars);
    var scale := vars[n].scale % TWO_TO_64;
    assert Pow2(1) == 2;
    if m % 2 == 0 {
      OrDivides(OrScales(vars[..n]), scale, 1);
    }
    hide OrScales;
    AndPredecessorOfOdd(m);
    XorPredecessorOfOdd(m);
  }

  // Two indices that differ by 2, with opposite scales.
  const FIRST := VarIndex(Bin(Add, Var(0, 64), 2, false, false), 0, 0, TWO_TO_63 - 1)
  const SECOND := VarIndex(Var(0, 64), 0, 0, 1 - TWO_TO_63)

  function Anything(): Expr -> bool {
    (_: Expr) => true
  }

  function Nothing(): Expr -> Sign {
    (_: Expr) => Sign(false, false)
  }

  function Zero(): Env {
    (_: nat) => 0
  }

  /** So can the minimum-distance rule: two indices that differ by 2, scaled by 2^63 - 1, are 2 bytes apart
      on the circle, as 2^64 - 2 is. */
  lemma WrappingMisleadsMinimumDistance()
    ensures OffsetTail(0, [FIRST, SECOND], 4, 4, Nothing(), Anything()) == Verdict(NoAlias, MinimumDistance)
    ensures GoodIndices([FIRST, SECOND], Zero()) && KnownIsRight(Nothing(), Zero())
    ensures Cong(-2, 0 + Sum([FIRST, SECOND], Zero()), TWO_TO_64) && !Right(NoAlias, -2, 4, 4)
  {
    hide *;
    PairVerdict();
    PairIsGood();
    NothingIsKnown();
    PairSum();
    CongWitness(-2, TWO_TO_64 - 2, TWO_TO_64, -1);
    OverlapIsNotApart();
  }

  lemma OverlapIsNotApart()
    ensures !Right(NoAlias, -2, 4, 4)
  {
  }

  lemma NothingIsKnown()
    ensures KnownIsRight(Nothing(), Zero())
  {
  }

  lemma PairVerdict()
    ensures OffsetTail(0, [FIRST, SECOND], 4, 4, Nothing(), Anything()) == Verdict(NoAlias, MinimumDistance)
  {
    hide FarApart;
    hide ModulusRule;
    hide AllPositiveTerms;
    PairIsFarApart();
    PairHasNoModulus();
    PairIsNotPositive();
  }

  lemma PairHasNoModulus()
    ensures !ModulusRule(0, OrScales([FIRST, SECOND]), 4, 4)
  {
    OddModulus([FIRST, SECOND]);
    hide LowBit;
    hide OrScales;
  }

  lemma PairIsNotPositive()
    ensures !AllPositiveTerms([FIRST, SECOND], Nothing())
  {
    assert !PositiveTerm([FIRST, SECOND][0], Nothing());
    hide PositiveTerm;
  }

  lemma TwoApart()
    ensures var r, s := GetLinear(FIRST.v, 64, 0), GetLinear(SECOND.v, 64, 0);
            && r.scale == s.scale && r.zext == s.zext && r.sext == s.sext && r.base == s.base
            && r.offset == 2 && s.offset == 0
    ensures Extended(FIRST, Zero()) == 2 && Extended(SECOND, Zero()) == 0
    ensures Pow2(64) == TWO_TO_64
  {
    Pow2Of64();
    assert Pow2(64) == 2 * Pow2(63);
    assert Val(SECOND.v, Zero()) == 0 && Val(FIRST.v, Zero()) == 2;
  }

  lemma PairIsGood()
    ensures GoodIndices([FIRST, SECOND], Zero())
  {
    Pow2Of64();
    assert GoodIndex(FIRST, Zero()) && GoodIndex(SECOND, Zero());
  }

  lemma PairIsFarApart()
    ensures FarApart([FIRST, SECOND], 4, 4, 0, Anything())
  {
    TwoApart();
    hide GetLinear;
    hide Pow2;
    assert Gap(FIRST, SECOND, 64) == 2;
    assert (0 - Gap(FIRST, SECOND, 64)) % TWO_TO_64 == TWO_TO_64 - 2;
    assert GapBytes(FIRST, SECOND) == 2 * (TWO_TO_63 - 1);
    hide Gap;
    hide GapBytes;
  }

  lemma {:induction false} PairSum()
    ensures Sum([FIRST, SECOND], Zero()) == TWO_TO_64 - 2
  {
    TwoApart();
    hide Extended;
    assert [FIRST, SECOND][1..] == [SECOND] && [SECOND][1..] == [];
    assert Sum([SECOND], Zero()) == 0;
  }
}
