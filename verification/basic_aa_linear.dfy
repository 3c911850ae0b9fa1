/** GetLinearExpression: an index expression taken apart into scale * base + offset
    (llvm/lib/Analysis/BasicAliasAnalysis.cpp). */
module BasicAALinear {
  import opened Arithmetic
  import opened BasicAAArithmetic
  import opened Options
  import opened Words

  datatype Op = Add | Sub | Mul | Shl

  /** An integer expression of some bit width. A variable stands for anything that is not looked
      through. In `Or`, `masked` is what MaskedValueIsZero says: no bit of `c` is set in `a`. */
  datatype Expr =
    | Var(id: nat, bits: nat)
    | Const(value: nat, bits: nat)
    | Bin(op: Op, a: Expr, c: nat, nsw: bool, nuw: bool)
    | Or(a: Expr, c: nat, masked: bool)
    | ZExt(a: Expr, to: nat)
    | SExt(a: Expr, to: nat)

  type Env = nat -> nat

  function Width(e: Expr): nat {
    match e
    case Var(_, w) => w
    case Const(_, w) => w
    case Bin(_, a, _, _, _) => Width(a)
    case Or(a, _, _) => Width(a)
    case ZExt(_, to) => to
    case SExt(_, to) => to
  }

  predicate WellFormed(e: Expr) {
    match e
    case Var(_, w) => w > 0
    case Const(v, w) => w > 0 && v < Pow2(w)
    case Bin(_, a, c, _, _) => WellFormed(a) && c < Pow2(Width(a))
    case Or(a, c, _) => WellFormed(a) && c < Pow2(Width(a))
    case ZExt(a, to) => WellFormed(a) && Width(a) < to
    case SExt(a, to) => WellFormed(a) && Width(a) < to
  }

  // A bit pattern of width w, read as a two's complement number.
  function Signed(v: int, w: nat): int {
    if w > 0 && v >= Pow2(w - 1) then v - Pow2(w) else v
  }

  function Combine(op: Op, x: int, c: int): int {
    match op
    case Add => x + c
    case Sub => x - c
    case _ => x * c
  }

  function Apply(op: Op, x: int, c: nat): int {
    Combine(op, x, if op.Shl? then Pow2(c) else c)
  }

  function Val(e: Expr, env: Env): (v: nat) {
    match e
    case Var(id, w) => env(id) % Pow2(w)
    case Const(v, _) => v
    case Bin(op, a, c, _, _) => Apply(op, Val(a, env), c) % Pow2(Width(a))
    case Or(a, c, _) => BitOr(Val(a, env), c)
    case ZExt(a, _) => Val(a, env)
    case SExt(a, to) => Signed(Val(a, env), Width(a)) % Pow2(to)
  }

  /** No operation of the expression is poison: flagged operations do not wrap, shifts are in
      range, and masks are right. */
  ghost predicate NoPoison(e: Expr, env: Env) {
    match e
    case Var(_, _) => true
    case Const(_, _) => true
    case Bin(op, a, c, nsw, nuw) =>
      && NoPoison(a, env)
      && (nuw ==> 0 <= Apply(op, Val(a, env), c) < Pow2(Width(a)))
      && (nsw && !op.Shl? && Width(a) > 0 ==>
            0 - Pow2(Width(a) - 1) <=
            Combine(op, Signed(Val(a, env), Width(a)), Signed(c, Width(a))) < Pow2(Width(a) - 1))
      && (op.Shl? ==> c < Width(a))
    case Or(a, c, masked) => NoPoison(a, env) && (masked ==> BitAnd(Val(a, env), c) == 0)
    case ZExt(a, _) => NoPoison(a, env)
    case SExt(a, _) => NoPoison(a, env)
  }

  // ----- The decomposition -----

  /** scale * base + offset, in arithmetic modulo 2 to the width asked for. `zext` and `sext` count
      the bits by which the base was extended; `nsw` and `nuw` say that nothing wrapped. */
  datatype Linear = Linear(base: Expr, scale: nat, offset: nat, zext: nat, sext: nat, nsw: bool, nuw: bool)

  const MAX_DEPTH: nat := 6

  function Opaque(e: Expr): Linear {
    Linear(e, 1, 0, 0, 0, true, true)
  }

  function GetLinear(e: Expr, wide: nat, depth: nat): Linear
    requires depth <= MAX_DEPTH
    decreases e
  {
    var M := Pow2(wide);
    if depth == MAX_DEPTH then Opaque(e)
    else
      match e
      case Var(_, _) => Opaque(e)
      case Const(v, _) => Linear(e, 0, v % M, 0, 0, true, true)
      case Or(a, c, masked) =>
        if !masked then Opaque(e)
        else
          var r := GetLinear(a, wide, depth + 1);
          r.(offset := (r.offset + c) % M)
      case Bin(op, a, c, nsw, nuw) =>
        var r := GetLinear(a, wide, depth + 1);
        if !op.Shl? then Operated(op, r, c, wide).(nsw := r.nsw && nsw, nuw := r.nuw && nuw)
        // A shift beyond the width is poison.
        else if wide < c then r.(scale := 1, offset := 0)
        else Operated(op, r, c, wide).(nsw := false, nuw := false)
      case ZExt(a, to) => Extend(false, a, to, GetLinear(a, wide, depth + 1), wide)
      case SExt(a, to) => Extend(true, a, to, GetLinear(a, wide, depth + 1), wide)
  }

  // The new scale and offset of an operation with a constant.
  function Operated(op: Op, r: Linear, c: nat, wide: nat): Linear {
    var M := Pow2(wide);
    match op
    case Add => r.(offset := (r.offset + c) % M)
    case Sub => r.(offset := (r.offset - c) % M)
    case Mul => r.(offset := (r.offset * c) % M, scale := (r.scale * c) % M)
    case Shl => r.(offset := (r.offset * Pow2(c)) % M, scale := (r.scale * Pow2(c)) % M)
  }

  // Looks through an extension of `a`, whose own decomposition is `r`.
  function Extend(signed: bool, a: Expr, to: nat, r: Linear, wide: nat): Linear {
    var bits := if to > Width(a) then to - Width(a) else 0;
    if signed && r.zext == 0 then
      if r.nsw then
        r.(offset := (Signed(r.offset % Pow2(Width(a)), Width(a)) % Pow2(to)) % Pow2(wide), sext := r.sext + bits)
      else
        Linear(a, 1, 0, 0, bits, r.nsw, r.nuw)
    else if !r.nuw then Linear(a, 1, 0, bits, 0, r.nsw, r.nuw)
    else r.(zext := r.zext + bits)
  }

  // ----- What the operations amount to over the integers -----

  datatype Affine = Affine(scale: int, offset: int)

  /** The operations on the base, with all numbers read as signed ones and as unsigned ones. Under a
      sign extension the unsigned reading is known only if both readings have the same scale. */
  datatype Exact = Exact(signed: Affine, unsigned: Option<Affine>)

  const IDENTITY: Exact := Exact(Affine(1, 0), Some(Affine(1, 0)))

  function At(f: Affine, x: int): int {
    f.scale * x + f.offset
  }

  // A shift is left out: it clears both flags.
  function Applied(op: Op, f: Affine, c: int): Affine {
    match op
    case Add => f.(offset := f.offset + c)
    case Sub => f.(offset := f.offset - c)
    case Mul => Affine(f.scale * c, f.offset * c)
    case Shl => f
  }

  function ApplyExact(op: Op, x: Exact, c: nat, w: nat): Exact {
    Exact(Applied(op, x.signed, Signed(c, w)),
          if x.unsigned.Some? then Some(Applied(op, x.unsigned.value, c)) else None)
  }

  function SignExtended(x: Exact, w: nat, to: nat): Option<Affine> {
    if x.unsigned.Some? && x.unsigned.value.scale == x.signed.scale then
      var carries := (x.unsigned.value.offset - x.signed.offset) / Pow2(w);
      Some(Affine(x.signed.scale, x.signed.offset + carries * Pow2(to)))
    else None
  }

  // Whether an extension is looked through: its operand has not wrapped.
  predicate LookedThrough(signed: bool, r: Linear) {
    if signed && r.zext == 0 then r.nsw else r.nuw
  }

  function ExtendExact(signed: bool, a: Expr, to: nat, r: Linear, x: Exact): Exact {
    if !LookedThrough(signed, r) then IDENTITY
    else if signed && r.zext == 0 then x.(unsigned := SignExtended(x, Width(a), to))
    else x
  }

  function Exactly(e: Expr, wide: nat, depth: nat): Exact
    requires depth <= MAX_DEPTH
    decreases e
  {
    if depth == MAX_DEPTH then IDENTITY
    else
      match e
      case Var(_, _) => IDENTITY
      case Const(v, w) => Exact(Affine(0, Signed(v, w)), Some(Affine(0, v)))
      case Or(a, c, masked) => if masked then ApplyExact(Add, Exactly(a, wide, depth + 1), c, Width(a)) else IDENTITY
      case Bin(op, a, c, _, _) => ApplyExact(op, Exactly(a, wide, depth + 1), c, Width(a))
      case ZExt(a, to) => ExtendExact(false, a, to, GetLinear(a, wide, depth + 1), Exactly(a, wide, depth + 1))
      case SExt(a, to) => ExtendExact(true, a, to, GetLinear(a, wide, depth + 1), Exactly(a, wide, depth + 1))
  }

  predicate Same(f: Affine, scale: int, offset: int, bits: nat) {
    (f.scale - scale) % Pow2(bits) == 0 && (f.offset - offset) % Pow2(bits) == 0
  }

  // A sign extension from w to `to` bits keeps scale and offset: `scale` is not extended, and
  // `offset` is extended from its lowest w bits.
  predicate SignedKept(r: Linear, f: Affine, w: nat, to: nat) {
    Same(f, r.scale, Signed(r.offset % Pow2(w), w), to)
  }

  predicate UnsignedKept(r: Linear, f: Option<Affine>, to: nat) {
    f.Some? && Same(f.value, r.scale, r.offset, to)
  }

  predicate ExtensionKept(signed: bool, a: Expr, to: nat, r: Linear, x: Exact, env: Env) {
    && (signed && r.zext > 0 ==> Signed(Val(a, env), Width(a)) >= 0)
    && (LookedThrough(signed, r) ==>
          if signed && r.zext == 0 then SignedKept(r, x.signed, Width(a), to) else UnsignedKept(r, x.unsigned, to))
  }

  /** What it takes that every extension the decomposition looks through is exact: it keeps scale and
      offset, which depends on the constants alone, and a sign extension that is taken for a zero
      extension does not meet a negative number. */
  predicate Kept(e: Expr, env: Env, wide: nat, depth: nat)
    requires depth <= MAX_DEPTH
    decreases e
  {
    depth == MAX_DEPTH
    || match e
       case Var(_, _) => true
       case Const(_, _) => true
       case Bin(_, a, _, _, _) => Kept(a, env, wide, depth + 1)
       case Or(a, _, masked) => masked ==> Kept(a, env, wide, depth + 1)
       case ZExt(a, to) => ExtensionKept(false, a, to, GetLinear(a, wide, depth + 1), Exactly(a, wide, depth + 1), env)
                           && (LookedThrough(false, GetLinear(a, wide, depth + 1)) ==> Kept(a, env, wide, depth + 1))
       case SExt(a, to) => ExtensionKept(true, a, to, GetLinear(a, wide, depth + 1), Exactly(a, wide, depth + 1), env)
                           && (LookedThrough(true, GetLinear(a, wide, depth + 1)) ==> Kept(a, env, wide, depth + 1))
  }

  // ----- What the decomposition is worth -----

  lemma {:induction false} ValInWidth(e: Expr, env: Env)
    requires WellFormed(e)
    ensures Width(e) > 0 && Val(e, env) < Pow2(Width(e))
  {
    match e
    case Var(_, _) =>
    case Const(_, _) =>
    case Bin(_, a, _, _, _) => ValInWidth(a, env);
    case Or(a, c, _) => ValInWidth(a, env); OrInWidth(Val(a, env), c, Width(a));
    case ZExt(a, to) => ValInWidth(a, env); Pow2Monotone(Width(a), to);
    case SExt(a, _) => ValInWidth(a, env);
  }

  function SignedBase(r: Linear, env: Env): int {
    Signed(Val(r.base, env), Width(r.base))
  }

  /** The base after its extensions: it is sign-extended first, and then zero-extended. */
  function BaseValue(r: Linear, env: Env): int {
    SignedBase(r, env) % Pow2(Width(r.base) + r.sext)
  }

  // A value and its decomposition, modulo 2 to the width of the expression.
  ghost predicate Agrees(e: Expr, r: Linear, env: Env) {
    Cong(Val(e, env), At(Affine(r.scale, r.offset), BaseValue(r, env)), Pow2(Width(e)))
  }

  // The same over the integers, as signed and as unsigned numbers, as long as nothing wrapped.
  ghost predicate AgreesSigned(e: Expr, r: Linear, x: Exact, env: Env) {
    r.nsw && r.zext == 0 ==> Signed(Val(e, env), Width(e)) == At(x.signed, SignedBase(r, env))
  }

  ghost predicate AgreesUnsigned(e: Expr, r: Linear, x: Exact, env: Env) {
    r.nuw && x.unsigned.Some? ==> Val(e, env) == At(x.unsigned.value, BaseValue(r, env))
  }

  ghost predicate Fits(e: Expr, r: Linear, x: Exact, env: Env) {
    && WellFormed(r.base) && NoPoison(r.base, env) && Width(r.base) + r.sext + r.zext == Width(e)
    && Agrees(e, r, env) && AgreesSigned(e, r, x, env) && AgreesUnsigned(e, r, x, env)
  }

  // A signed number in w bits is its bit pattern read as a signed number.
  lemma SignedPattern(s: int, w: nat)
    requires w > 0 && 0 - Pow2(w - 1) <= s < Pow2(w - 1)
    ensures s % Pow2(w) == (if s < 0 then s + Pow2(w) else s) && Signed(s % Pow2(w), w) == s
  {
    if s < 0 {
      CongWitness(s + Pow2(w), s, Pow2(w), 1);
      CongModEqual(s + Pow2(w), s, Pow2(w));
      SmallMod(s + Pow2(w), Pow2(w));
    } else {
      SmallMod(s, Pow2(w));
    }
  }

  lemma SignedRange(v: nat, w: nat)
    requires w > 0 && v < Pow2(w)
    ensures 0 - Pow2(w - 1) <= Signed(v, w) < Pow2(w - 1)
    ensures Signed(v, w) % Pow2(w) == v
    ensures v == Signed(v, w) + (if Signed(v, w) < 0 then Pow2(w) else 0)
  {
    SignedPattern(Signed(v, w), w);
  }

  lemma {:induction false} SignedCong(v: int, w: nat)
    requires v >= 0
    ensures Cong(Signed(v, w), v, Pow2(w)) && Cong(v, Signed(v, w), Pow2(w))
  {
    CongWitness(v - Pow2(w), v, Pow2(w), -1);
    CongRefl(v, Pow2(w));
    CongSym(Signed(v, w), v, Pow2(w));
  }

  // The signed number that a bit pattern is congruent to.
  lemma SignedUnique(v: nat, s: int, w: nat)
    requires w > 0 && v < Pow2(w) && 0 - Pow2(w - 1) <= s < Pow2(w - 1) && Cong(v, s, Pow2(w))
    ensures Signed(v, w) == s
  {
    SignedPattern(s, w);
    CongModEqual(v, s, Pow2(w));
    SmallMod(v, Pow2(w));
  }

  // Without extension bits below it, a base is its own value.
  lemma PlainBase(r: Linear, env: Env)
    requires WellFormed(r.base) && r.sext == 0
    ensures BaseValue(r, env) == Val(r.base, env)
  {
    ValInWidth(r.base, env);
    SignedRange(Val(r.base, env), Width(r.base));
  }

  lemma {:induction false} OpaqueFits(e: Expr, env: Env)
    requires WellFormed(e) && NoPoison(e, env)
    ensures Fits(e, Opaque(e), IDENTITY, env)
  {
    hide Cong;
    hide At;
    hide Signed;
    hide Val;
    hide Pow2;
    hide BaseValue;
    PlainBase(Opaque(e), env);
    CongRefl(Val(e, env), Pow2(Width(e)));
    AtIdentity(Val(e, env));
    AtIdentity(SignedBase(Opaque(e), env));
  }

  lemma AtIdentity(x: int)
    ensures At(Affine(1, 0), x) == x
  {
  }

  lemma {:induction false} ConstFits(v: nat, w: nat, env: Env, wide: nat)
    requires WellFormed(Const(v, w)) && w <= wide
    ensures Fits(Const(v, w), Linear(Const(v, w), 0, v % Pow2(wide), 0, 0, true, true),
                 Exact(Affine(0, Signed(v, w)), Some(Affine(0, v))), env)
  {
    Pow2Monotone(w, wide);
    SmallMod(v, Pow2(wide));
    CongRefl(v, Pow2(w));
  }

  // Applying an operation to both sides of a decomposition.
  lemma {:induction false} ApplyAgrees(op: Op, v: int, scale: int, x: int, offset: int, c: nat, m: int)
    requires Cong(v, scale * x + offset, m)
    ensures op.Add? ==> Cong(Apply(op, v, c), scale * x + (offset + c), m)
    ensures op.Sub? ==> Cong(Apply(op, v, c), scale * x + (offset - c), m)
    ensures op.Mul? ==> Cong(Apply(op, v, c), (scale * c) * x + offset * c, m)
    ensures op.Shl? ==> Cong(Apply(op, v, c), (scale * Pow2(c)) * x + offset * Pow2(c), m)
  {
    var k := if op.Shl? then Pow2(c) else c;
    hide Pow2;
    CongRefl(c, m);
    CongAdd(v, scale * x + offset, c, c, m);
    CongScale(v, scale * x + offset, m, k);
    hide Cong;
    assert (scale * x + offset) * k == (scale * k) * x + offset * k;
  }

  // Reducing scale and offset modulo a multiple of the modulus.
  lemma {:induction false} ReduceAgrees(v: int, scale: int, x: int, offset: int, wide: nat, bits: nat)
    requires bits <= wide && Cong(v, scale * x + offset, Pow2(bits))
    ensures Cong(v, (scale % Pow2(wide)) * x + offset % Pow2(wide), Pow2(bits))
    ensures Cong(v, scale * x + offset % Pow2(wide), Pow2(bits))
  {
    var M := Pow2(wide);
    CongMod(scale, M);
    CongMod(offset, M);
    CongNarrow(scale, scale % M, wide, bits);
    CongNarrow(offset, offset % M, wide, bits);
    CongScale(scale, scale % M, Pow2(bits), x);
    CongRefl(scale * x, Pow2(bits));
    CongAdd(scale * x, (scale % M) * x, offset, offset % M, Pow2(bits));
    CongAdd(scale * x, scale * x, offset, offset % M, Pow2(bits));
    hide Cong;
    CongTrans(v, scale * x + offset, (scale % M) * x + offset % M, Pow2(bits));
    CongTrans(v, scale * x + offset, scale * x + offset % M, Pow2(bits));
  }

  // The value of an operation, modulo the width.
  lemma {:induction false} OperatedAgrees(op: Op, v: nat, c: nat, r: Linear, x: int, w: nat, wide: nat)
    requires w <= wide && Cong(v, At(Affine(r.scale, r.offset), x), Pow2(w))
    ensures var u := Operated(op, r, c, wide);
            Cong(Apply(op, v, c) % Pow2(w), At(Affine(u.scale, u.offset), x), Pow2(w))
  {
    var exact := Apply(op, v, c);
    ApplyAgrees(op, v, r.scale, x, r.offset, c, Pow2(w));
    CongMod(exact, Pow2(w));
    hide Cong;
    hide Apply;
    var k := if op.Mul? then c else if op.Shl? then Pow2(c) else 1;
    var scale := r.scale * k;
    var offset := if op.Add? then r.offset + c else if op.Sub? then r.offset - c else r.offset * k;
    CongTrans(exact % Pow2(w), exact, scale * x + offset, Pow2(w));
    ReduceAgrees(exact % Pow2(w), scale, x, offset, wide, w);
  }

  lemma AppliedAt(op: Op, f: Affine, c: int, x: int)
    ensures !op.Shl? ==> At(Applied(op, f, c), x) == Combine(op, At(f, x), c)
  {
    assert (f.scale * x + f.offset) * c == (f.scale * c) * x + f.offset * c;
  }

  // A flagged operation gives the same number in w bits as over the integers.
  lemma CombineSigned(op: Op, v: nat, c: nat, w: nat)
    requires w > 0 && !op.Shl? && v < Pow2(w) && c < Pow2(w)
    requires 0 - Pow2(w - 1) <= Combine(op, Signed(v, w), Signed(c, w)) < Pow2(w - 1)
    ensures Signed(Apply(op, v, c) % Pow2(w), w) == Combine(op, Signed(v, w), Signed(c, w))
  {
    var m, s, d := Pow2(w), Signed(v, w), Signed(c, w);
    SignedCong(v, w);
    SignedCong(c, w);
    CombineCong(op, v, s, c, d, m);
    CongMod(Combine(op, v, c), m);
    hide Cong;
    CongTrans(Combine(op, v, c) % m, Combine(op, v, c), Combine(op, s, d), m);
    SignedUnique(Combine(op, v, c) % m, Combine(op, s, d), w);
  }

  lemma CombineCong(op: Op, v: int, s: int, c: int, d: int, m: int)
    requires Cong(v, s, m) && Cong(c, d, m)
    ensures Cong(Combine(op, v, c), Combine(op, s, d), m)
  {
    CongAdd(v, s, c, d, m);
    CongScale(v, s, m, c);
    CongScale(c, d, m, s);
    hide Cong;
    CongTrans(v * c, s * c, s * d, m);
  }

  // One operation with a constant.
  lemma BinFits(e: Expr, r: Linear, x: Exact, env: Env, wide: nat, depth: nat)
    requires e.Bin? && depth < MAX_DEPTH && WellFormed(e) && NoPoison(e, env) && Width(e) <= wide
    requires r == GetLinear(e.a, wide, depth + 1) && Fits(e.a, r, x, env)
    ensures Fits(e, GetLinear(e, wide, depth), ApplyExact(e.op, x, e.c, Width(e.a)), env)
  {
    var v, w, b, sb := Val(e.a, env), Width(e.a), BaseValue(r, env), SignedBase(r, env);
    var u := GetLinear(e, wide, depth);
    ValInWidth(e.a, env);
    BinFlags(e, r, u, env, wide, depth);
    hide GetLinear;
    hide NoPoison;
    hide WellFormed;
    hide Val;
    hide Pow2;
    hide Signed;
    hide BaseValue;
    hide SignedBase;
    OperatedAgrees(e.op, v, e.c, r, b, w, wide);
    hide Cong;
    hide Operated;
    if u.nuw && x.unsigned.Some? {
      AppliedAt(e.op, x.unsigned.value, e.c, b);
      SmallMod(Apply(e.op, v, e.c), Pow2(w));
    }
    if u.nsw && r.zext == 0 {
      AppliedAt(e.op, x.signed, Signed(e.c, w), sb);
      CombineSigned(e.op, v, e.c, w);
    }
    hide Apply;
    hide At;
  }

  lemma BinFlags(e: Expr, r: Linear, u: Linear, env: Env, wide: nat, depth: nat)
    requires e.Bin? && depth < MAX_DEPTH && WellFormed(e) && NoPoison(e, env) && Width(e) <= wide && Width(e) > 0
    requires r == GetLinear(e.a, wide, depth + 1) && u == GetLinear(e, wide, depth)
    ensures var v, w := Val(e.a, env), Width(e.a);
            && Val(e, env) == Apply(e.op, v, e.c) % Pow2(w)
            && BaseValue(u, env) == BaseValue(r, env) && SignedBase(u, env) == SignedBase(r, env)
            && u == Operated(e.op, r, e.c, wide).(nsw := u.nsw, nuw := u.nuw)
            && (u.nuw ==> r.nuw && !e.op.Shl? && 0 <= Apply(e.op, v, e.c) < Pow2(w))
            && (u.nsw ==> r.nsw && !e.op.Shl?
                          && 0 - Pow2(w - 1) <= Combine(e.op, Signed(v, w), Signed(e.c, w)) < Pow2(w - 1))
  {
    hide Apply;
    hide Combine;
    hide Pow2;
    hide Signed;
  }

  // Numbers without common bits do not wrap when they are added, read as signed numbers.
  lemma DisjointSigned(v: nat, c: nat, w: nat)
    requires w > 0 && v < Pow2(w) && c < Pow2(w) && BitAnd(v, c) == 0
    ensures 0 - Pow2(w - 1) <= Signed(v, w) + Signed(c, w) < Pow2(w - 1) && v + c < Pow2(w)
  {
    DisjointOrIsAdd(v, c);
    OrInWidth(v, c, w);
    if v < Pow2(w - 1) && c < Pow2(w - 1) {
      OrInWidth(v, c, w - 1);
    }
    hide BitOr;
    hide BitAnd;
  }

  // A disjoint or is an addition that wraps in neither reading.
  lemma {:induction false} OrFits(a: Expr, c: nat, r: Linear, x: Exact, env: Env, wide: nat)
    requires WellFormed(a) && c < Pow2(Width(a)) && NoPoison(Or(a, c, true), env) && Width(a) <= wide
    requires Fits(a, r, x, env)
    ensures Fits(Or(a, c, true), r.(offset := (r.offset + c) % Pow2(wide)), ApplyExact(Add, x, c, Width(a)), env)
  {
    var v, w, b := Val(a, env), Width(a), BaseValue(r, env);
    var u := r.(offset := (r.offset + c) % Pow2(wide));
    ValInWidth(a, env);
    DisjointOrIsAdd(v, c);
    DisjointSigned(v, c, w);
    hide BitOr;
    hide BitAnd;
    assert Val(Or(a, c, true), env) == v + c;
    assert BaseValue(u, env) == b && SignedBase(u, env) == SignedBase(r, env);
    hide Val;
    hide Pow2;
    hide Signed;
    hide BaseValue;
    hide SignedBase;
    SmallMod(v + c, Pow2(w));
    AddFits(v, c, r, x, b, SignedBase(r, env), w, wide);
    hide Cong;
    hide At;
  }

  lemma AddFits(v: nat, c: nat, r: Linear, x: Exact, b: int, sb: int, w: nat, wide: nat)
    requires 0 < w <= wide && v + c < Pow2(w) && Cong(v, At(Affine(r.scale, r.offset), b), Pow2(w))
    requires 0 - Pow2(w - 1) <= Signed(v, w) + Signed(c, w) < Pow2(w - 1)
    ensures Cong(v + c, At(Affine(r.scale, (r.offset + c) % Pow2(wide)), b), Pow2(w))
    ensures Signed(v, w) == At(x.signed, sb) ==> Signed(v + c, w) == At(Applied(Add, x.signed, Signed(c, w)), sb)
    ensures x.unsigned.Some? && v == At(x.unsigned.value, b) ==> v + c == At(Applied(Add, x.unsigned.value, c), b)
  {
    SmallMod(v + c, Pow2(w));
    CombineSigned(Add, v, c, w);
    hide Signed;
    hide Pow2;
    OperatedAgrees(Add, v, c, r, b, w, wide);
    hide Cong;
  }

  lemma {:induction false} SameAt(f: Affine, scale: int, offset: int, bits: nat, x: int)
    requires Same(f, scale, offset, bits)
    ensures Cong(At(f, x), At(Affine(scale, offset), x), Pow2(bits))
  {
    var m := Pow2(bits);
    ZeroModCong(f.scale, scale, m);
    ZeroModCong(f.offset, offset, m);
    CongScale(f.scale, scale, m, x);
    CongAdd(f.scale * x, scale * x, f.offset, offset, m);
  }

  lemma ZeroModCong(a: int, b: int, m: int)
    requires m > 0
    ensures (a - b) % m == 0 <==> Cong(a, b, m)
  {
    if (a - b) % m == 0 {
      CongWitness(a, b, m, (a - b) / m);
    }
    if Cong(a, b, m) {
      CongRefl(b, m);
      CongAdd(a, b, b, b, m);
      CongModEqual(a - b, 0, m);
    }
  }

  // An extension that is not looked through makes its operand the base.
  lemma {:induction false} ResetZExt(e: Expr, a: Expr, to: nat, env: Env, nsw: bool, nuw: bool)
    requires e == ZExt(a, to) && WellFormed(e) && NoPoison(a, env)
    ensures Fits(e, Linear(a, 1, 0, to - Width(a), 0, nsw, nuw), IDENTITY, env)
  {
    var z := Linear(a, 1, 0, to - Width(a), 0, nsw, nuw);
    assert Val(e, env) == Val(a, env);
    hide Cong;
    hide At;
    hide Signed;
    hide Val;
    hide Pow2;
    hide BaseValue;
    PlainBase(z, env);
    CongRefl(Val(a, env), Pow2(to));
    AtIdentity(Val(a, env));
  }

  lemma {:induction false} ResetSExt(e: Expr, a: Expr, to: nat, env: Env, nuw: bool)
    requires e == SExt(a, to) && WellFormed(e) && NoPoison(a, env)
    ensures Fits(e, Linear(a, 1, 0, 0, to - Width(a), false, nuw), IDENTITY, env)
  {
    var s := Linear(a, 1, 0, 0, to - Width(a), false, nuw);
    assert Val(e, env) == BaseValue(s, env);
    hide Cong;
    hide At;
    hide Signed;
    hide Val;
    hide Pow2;
    hide BaseValue;
    CongRefl(Val(e, env), Pow2(to));
    AtIdentity(Val(e, env));
  }

  // A zero extension that is looked through.
  lemma {:induction false} ZExtFits(a: Expr, to: nat, r: Linear, x: Exact, env: Env, wide: nat)
    requires WellFormed(ZExt(a, to)) && NoPoison(a, env) && r.nuw && Fits(a, r, x, env)
    requires UnsignedKept(r, x.unsigned, to)
    ensures Fits(ZExt(a, to), r.(zext := r.zext + (to - Width(a))), x, env)
  {
    SameAt(x.unsigned.value, r.scale, r.offset, to, BaseValue(r, env));
  }

  // A sign extension of a number that is not negative is a zero extension.
  lemma {:induction false} PositiveSExt(a: Expr, to: nat, r: Linear, x: Exact, env: Env)
    requires WellFormed(SExt(a, to)) && Signed(Val(a, env), Width(a)) >= 0
    requires r.zext > 0 && Fits(ZExt(a, to), r, x, env)
    ensures Fits(SExt(a, to), r, x, env)
  {
    ValInWidth(a, env);
    Pow2Monotone(Width(a), to);
    SmallMod(Val(a, env), Pow2(to));
  }

  // A sign extension that is looked through.
  lemma {:induction false} SExtFits(e: Expr, a: Expr, to: nat, r: Linear, x: Exact, env: Env, wide: nat)
    requires e == SExt(a, to) && WellFormed(e) && NoPoison(a, env) && to <= wide
    requires r.nsw && r.zext == 0 && Fits(a, r, x, env) && SignedKept(r, x.signed, Width(a), to)
    ensures Fits(e, Extend(true, a, to, r, wide), ExtendExact(true, a, to, r, x), env)
  {
    var w, v, s, b := Width(a), Val(a, env), Signed(Val(a, env), Width(a)), SignedBase(r, env);
    var u := Extend(true, a, to, r, wide);
    SExtValue(e, a, to, env);
    SExtBase(r, u, env, w, to);
    hide NoPoison;
    hide WellFormed;
    hide Val;
    hide Signed;
    hide Pow2;
    hide BaseValue;
    hide SignedBase;
    SignedOffset(x.signed, r, s, b, w, to, wide);
    hide Cong;
    hide SignedKept;
    if r.nuw && SignExtended(x, w, to).Some? {
      UnsignedAgain(x, v, s, b, w, to);
    }
    hide At;
    hide SignExtended;
  }

  lemma {:induction false} SExtValue(e: Expr, a: Expr, to: nat, env: Env)
    requires e == SExt(a, to) && WellFormed(e)
    ensures var s, w := Signed(Val(a, env), Width(a)), Width(a);
            && Val(e, env) == s % Pow2(to) && Signed(Val(e, env), to) == s
            && Val(e, env) == s + (if s < 0 then Pow2(to) else 0) && Val(a, env) == s + (if s < 0 then Pow2(w) else 0)
  {
    ValInWidth(a, env);
    SignedRange(Val(a, env), Width(a));
    Pow2Monotone(Width(a) - 1, to - 1);
    SignedPattern(Signed(Val(a, env), Width(a)), to);
  }

  lemma {:induction false} SExtBase(r: Linear, u: Linear, env: Env, w: nat, to: nat)
    requires WellFormed(r.base) && r.base == u.base && w == Width(r.base) + r.sext <= to == Width(u.base) + u.sext
    ensures var b := SignedBase(r, env);
            && SignedBase(u, env) == b && BaseValue(u, env) == b % Pow2(to)
            && BaseValue(r, env) == b + (if b < 0 then Pow2(w) else 0)
            && BaseValue(u, env) == b + (if b < 0 then Pow2(to) else 0)
  {
    ValInWidth(r.base, env);
    SignedRange(Val(r.base, env), Width(r.base));
    Pow2Monotone(Width(r.base) - 1, w - 1);
    Pow2Monotone(Width(r.base) - 1, to - 1);
    SignedPattern(SignedBase(r, env), w);
    SignedPattern(SignedBase(r, env), to);
  }

  // The signed equation gives the one modulo 2^to.
  lemma {:induction false} SignedOffset(f: Affine, r: Linear, s: int, b: int, w: nat, to: nat, wide: nat)
    requires s == At(f, b) && SignedKept(r, f, w, to) && to <= wide
    ensures var offset := (Signed(r.offset % Pow2(w), w) % Pow2(to)) % Pow2(wide);
            Cong(s % Pow2(to), At(Affine(r.scale, offset), b % Pow2(to)), Pow2(to))
  {
    var m, offset := Pow2(to), Signed(r.offset % Pow2(w), w);
    SameAt(f, r.scale, offset, to, b);
    Pow2Monotone(to, wide);
    hide Same;
    hide Pow2;
    hide Signed;
    hide At;
    hide Cong;
    SmallMod(offset % m, Pow2(wide));
    CongMod(s, m);
    ReduceAt(r.scale, offset, b, m);
    CongTrans(s % m, s, At(Affine(r.scale, offset), b), m);
    CongTrans(s % m, At(Affine(r.scale, offset), b), At(Affine(r.scale, offset % m), b % m), m);
  }

  lemma ReduceAt(scale: int, offset: int, x: int, m: int)
    requires m > 0
    ensures Cong(At(Affine(scale, offset), x), At(Affine(scale, offset % m), x % m), m)
  {
    CongMod(x, m);
    CongMod(offset, m);
    CongScale(x, x % m, m, scale);
    CongAdd(x * scale, (x % m) * scale, offset, offset % m, m);
    hide Cong;
  }

  // The unsigned equation survives a sign extension.
  lemma {:induction false} UnsignedAgain(x: Exact, v: nat, s: int, b: int, w: nat, to: nat)
    requires SignExtended(x, w, to).Some? && s == At(x.signed, b)
    requires v == s + (if s < 0 then Pow2(w) else 0)
    requires v == At(x.unsigned.value, b + (if b < 0 then Pow2(w) else 0))
    ensures s + (if s < 0 then Pow2(to) else 0) == At(SignExtended(x, w, to).value, b + (if b < 0 then Pow2(to) else 0))
  {
    hide Pow2;
    Carries(x.signed.scale, if s < 0 then 1 else 0, if b < 0 then 1 else 0, Pow2(w), Pow2(to), b, x.signed.offset,
            x.unsigned.value.offset);
  }

  lemma Carries(k: int, i: int, j: int, m: int, n: int, b: int, p: int, q: int)
    requires m > 0 && k * b + p + i * m == k * (b + j * m) + q
    ensures k * b + p + i * n == k * (b + j * n) + (p + ((q - p) / m) * n)
  {
    CarriesCancel(k, i, j, m, b, p);
    ExactQuotient(i - k * j, m);
    CarriesCancel(k, i, j, n, b, p);
  }

  lemma CarriesCancel(k: int, i: int, j: int, m: int, b: int, p: int)
    ensures k * (b + j * m) + p + (i - k * j) * m == k * b + p + i * m
  {
    assert k * (b + j * m) == k * b + (k * j) * m;
    assert (i - k * j) * m == i * m - (k * j) * m;
  }

  lemma ExactQuotient(q: int, m: int)
    requires m > 0
    ensures (q * m) / m == q
  {
    SameQuotient((q * m) / m, (q * m) % m, q, 0, m);
  }

  /** For every expression and every cut-off depth: when the extensions are kept, the value is
      scale * base + offset modulo 2 to the expression's width, the base being extended by the bits
      counted; and as long as nothing wrapped, this holds over the integers. */
  lemma {:induction false} LinearFits(e: Expr, env: Env, wide: nat, depth: nat)
    requires depth <= MAX_DEPTH
    requires WellFormed(e) && NoPoison(e, env) && Width(e) <= wide && Kept(e, env, wide, depth)
    ensures Fits(e, GetLinear(e, wide, depth), Exactly(e, wide, depth), env)
    decreases e
  {
    hide Fits;
    hide Val;
    hide Pow2;
    if depth == MAX_DEPTH || e.Var? || (e.Or? && !e.masked) {
      OpaqueFits(e, env);
    } else if e.Const? {
      ConstFits(e.value, e.bits, env, wide);
    } else {
      var r, x := GetLinear(e.a, wide, depth + 1), Exactly(e.a, wide, depth + 1);
      if e.Bin? || e.Or? || LookedThrough(e.SExt?, r) {
        LinearFits(e.a, env, wide, depth + 1);
      }
      if e.Bin? {
        BinFits(e, r, x, env, wide, depth);
      } else if e.Or? {
        OrFits(e.a, e.c, r, x, env, wide);
      } else {
        hide NoPoison;
        hide LookedThrough;
        hide ExtensionKept;
        hide Extend;
        hide ExtendExact;
        ExtensionFits(e, r, x, env, wide);
      }
    }
  }

  lemma {:induction false} ExtensionFits(e: Expr, r: Linear, x: Exact, env: Env, wide: nat)
    requires (e.ZExt? || e.SExt?) && WellFormed(e) && NoPoison(e.a, env) && Width(e) <= wide
    requires ExtensionKept(e.SExt?, e.a, e.to, r, x, env) && (LookedThrough(e.SExt?, r) ==> Fits(e.a, r, x, env))
    ensures Fits(e, Extend(e.SExt?, e.a, e.to, r, wide), ExtendExact(e.SExt?, e.a, e.to, r, x), env)
  {
    hide Fits;
    hide Val;
    hide Pow2;
    hide NoPoison;
    hide SignedKept;
    hide UnsignedKept;
    if e.SExt? && r.zext == 0 {
      if r.nsw {
        SExtFits(e, e.a, e.to, r, x, env, wide);
      } else {
        ResetSExt(e, e.a, e.to, env, r.nuw);
      }
    } else {
      if r.nuw {
        ZExtFits(e.a, e.to, r, x, env, wide);
      } else {
        ResetZExt(ZExt(e.a, e.to), e.a, e.to, env, r.nsw, r.nuw);
      }
      if e.SExt? {
        PositiveSExt(e.a, e.to, Extend(false, e.a, e.to, r, wide), ExtendExact(false, e.a, e.to, r, x), env);
      }
    }
  }

  lemma {:induction false} LinearAgrees(e: Expr, env: Env, wide: nat, depth: nat)
    requires depth <= MAX_DEPTH
    requires WellFormed(e) && NoPoison(e, env) && Width(e) <= wide && Kept(e, env, wide, depth)
    ensures Agrees(e, GetLinear(e, wide, depth), env)
  {
    hide *;
    LinearFits(e, env, wide, depth);
    FitsAgrees(e, GetLinear(e, wide, depth), Exactly(e, wide, depth), env);
  }

  lemma FitsAgrees(e: Expr, r: Linear, x: Exact, env: Env)
    requires Fits(e, r, x, env)
    ensures Agrees(e, r, env)
  {
    hide Agrees;
  }

  /** The decomposition of a whole index: its value is (scale * base + offset) modulo 2^width. */
  lemma {:induction false} LinearIsExact(e: Expr, env: Env)
    requires WellFormed(e) && NoPoison(e, env) && Kept(e, env, Width(e), 0)
    ensures var r := GetLinear(e, Width(e), 0);
            Val(e, env) == (r.scale * BaseValue(r, env) + r.offset) % Pow2(Width(e))
  {
    hide *;
    LinearAgrees(e, env, Width(e), 0);
    ValInWidth(e, env);
    ModOfCong(e, GetLinear(e, Width(e), 0), env);
  }

  lemma {:induction false} ModOfCong(e: Expr, r: Linear, env: Env)
    requires Agrees(e, r, env) && Val(e, env) < Pow2(Width(e))
    ensures Val(e, env) == (r.scale * BaseValue(r, env) + r.offset) % Pow2(Width(e))
  {
    hide Val;
    hide BaseValue;
    hide Pow2;
    hide Cong;
    CongModEqual(Val(e, env), r.scale * BaseValue(r, env) + r.offset, Pow2(Width(e)));
    SmallMod(Val(e, env), Pow2(Width(e)));
  }

  // ----- When an extension is not kept -----

  // Two neighbours for the base: the next number, in the reading that the extension uses.
  predicate Neighbours(signed: bool, r: Linear, env: Env, next: Env) {
    if signed then SignedBase(r, next) == SignedBase(r, env) + 1 else BaseValue(r, next) == BaseValue(r, env) + 1
  }

  /** The condition on the constants is exact: at an extension that is looked through, the identity
      holds for two neighbouring values of the base if and only if scale and offset are kept. */
  lemma KeptIsExact(e: Expr, env: Env, next: Env, wide: nat, depth: nat)
    requires depth < MAX_DEPTH && (e.ZExt? || e.SExt?) && WellFormed(e) && Width(e) <= wide
    requires NoPoison(e, env) && NoPoison(e, next)
             && Kept(e.a, env, wide, depth + 1) && Kept(e.a, next, wide, depth + 1)
    requires var r, x := GetLinear(e.a, wide, depth + 1), Exactly(e.a, wide, depth + 1);
             && LookedThrough(e.SExt?, r) && (if e.SExt? then r.zext == 0 else x.unsigned.Some?)
             && Neighbours(e.SExt?, r, env, next)
    ensures var u := GetLinear(e, wide, depth);
            Agrees(e, u, env) && Agrees(e, u, next) <==> Kept(e, env, wide, depth)
  {
    var r, x, u := GetLinear(e.a, wide, depth + 1), Exactly(e.a, wide, depth + 1), GetLinear(e, wide, depth);
    hide Agrees;
    hide Val;
    hide Pow2;
    hide NoPoison;
    hide Kept;
    hide GetLinear;
    hide Exactly;
    hide ExtensionKept;
    ExtensionUnfolds(e, env, next, wide, depth);
    if Kept(e, env, wide, depth) {
      LinearAgrees(e, env, wide, depth);
      LinearAgrees(e, next, wide, depth);
    }
    OperandFits(e, env, wide, depth);
    OperandFits(e, next, wide, depth);
    hide Extend;
    if Agrees(e, u, env) && Agrees(e, u, next) {
      AgreeingIsKept(e, r, x, env, next, wide);
    }
  }

  lemma OperandFits(e: Expr, env: Env, wide: nat, depth: nat)
    requires depth < MAX_DEPTH && (e.ZExt? || e.SExt?) && WellFormed(e) && Width(e) <= wide
    requires NoPoison(e, env) && Kept(e.a, env, wide, depth + 1)
    ensures Fits(e.a, GetLinear(e.a, wide, depth + 1), Exactly(e.a, wide, depth + 1), env)
  {
    LinearFits(e.a, env, wide, depth + 1);
    hide *;
  }

  lemma ExtensionUnfolds(e: Expr, env: Env, next: Env, wide: nat, depth: nat)
    requires depth < MAX_DEPTH && (e.ZExt? || e.SExt?)
    requires Kept(e.a, env, wide, depth + 1) && Kept(e.a, next, wide, depth + 1)
    ensures var r, x := GetLinear(e.a, wide, depth + 1), Exactly(e.a, wide, depth + 1);
            && GetLinear(e, wide, depth) == Extend(e.SExt?, e.a, e.to, r, wide)
            && (Kept(e, env, wide, depth) <==> ExtensionKept(e.SExt?, e.a, e.to, r, x, env))
            && (!(e.SExt? && r.zext > 0) ==> Kept(e, env, wide, depth) ==> Kept(e, next, wide, depth))
  {
    hide Val;
    hide Pow2;
    hide Same;
    hide Signed;
    hide Extend;
    hide ExtendExact;
  }

  lemma {:induction false} AgreeingIsKept(e: Expr, r: Linear, x: Exact, env: Env, next: Env, wide: nat)
    requires (e.ZExt? || e.SExt?) && WellFormed(e) && Width(e) <= wide && Fits(e.a, r, x, env) && Fits(e.a, r, x, next)
    requires LookedThrough(e.SExt?, r) && (if e.SExt? then r.zext == 0 else x.unsigned.Some?)
    requires Neighbours(e.SExt?, r, env, next)
    requires var u := Extend(e.SExt?, e.a, e.to, r, wide); Agrees(e, u, env) && Agrees(e, u, next)
    ensures ExtensionKept(e.SExt?, e.a, e.to, r, x, env)
  {
    hide Fits;
    hide Agrees;
    hide Pow2;
    if e.SExt? {
      AgreesExtended(e, r, x, env, wide);
      AgreesExtended(e, r, x, next, wide);
      TwoPoints(x.signed, Affine(r.scale, Signed(r.offset % Pow2(Width(e.a)), Width(e.a))), SignedBase(r, env), e.to);
    } else {
      AgreesPlain(e, r, x, env);
      AgreesPlain(e, r, x, next);
      TwoPoints(x.unsigned.value, Affine(r.scale, r.offset), BaseValue(r, env), e.to);
    }
  }

  lemma AgreesPlain(e: Expr, r: Linear, x: Exact, env: Env)
    requires e.ZExt? && r.nuw && x.unsigned.Some? && Fits(e.a, r, x, env)
    requires Agrees(e, Extend(false, e.a, e.to, r, 0), env)
    ensures Cong(At(x.unsigned.value, BaseValue(r, env)), At(Affine(r.scale, r.offset), BaseValue(r, env)), Pow2(e.to))
  {
    hide At;
    hide Cong;
    hide Pow2;
  }

  // An identity at a sign extension, read off its operand.
  lemma {:induction false} AgreesExtended(e: Expr, r: Linear, x: Exact, env: Env, wide: nat)
    requires e.SExt? && WellFormed(e) && e.to <= wide && r.nsw && r.zext == 0 && Fits(e.a, r, x, env)
    requires Agrees(e, Extend(true, e.a, e.to, r, wide), env)
    ensures var offset := Signed(r.offset % Pow2(Width(e.a)), Width(e.a));
            Cong(At(x.signed, SignedBase(r, env)), At(Affine(r.scale, offset), SignedBase(r, env)), Pow2(e.to))
  {
    var w, m, b, u := Width(e.a), Pow2(e.to), SignedBase(r, env), Extend(true, e.a, e.to, r, wide);
    var s, offset := Signed(Val(e.a, env), w), Signed(r.offset % Pow2(w), w);
    SExtValue(e, e.a, e.to, env);
    SExtBase(r, u, env, w, e.to);
    Pow2Monotone(e.to, wide);
    SmallMod(offset % m, Pow2(wide));
    assert Cong(s % m, At(Affine(r.scale, offset % m), b % m), m);
    hide *;
    CongMod(s, m);
    ReduceAt(r.scale, offset, b, m);
    CongSym(At(Affine(r.scale, offset), b), At(Affine(r.scale, offset % m), b % m), m);
    CongTrans(s, s % m, At(Affine(r.scale, offset % m), b % m), m);
    CongTrans(s, At(Affine(r.scale, offset % m), b % m), At(Affine(r.scale, offset), b), m);
  }

  // Two functions that agree at two neighbours have the same scale and the same offset.
  lemma {:induction false} TwoPoints(f: Affine, g: Affine, x: int, bits: nat)
    requires Cong(At(f, x), At(g, x), Pow2(bits)) && Cong(At(f, x + 1), At(g, x + 1), Pow2(bits))
    ensures Same(f, g.scale, g.offset, bits)
  {
    var m := Pow2(bits);
    FromTwoPoints(f, x);
    FromTwoPoints(g, x);
    hide Pow2;
    hide At;
    CongAdd(At(f, x + 1), At(g, x + 1), At(f, x), At(g, x), m);
    CongScale(f.scale, g.scale, m, x);
    CongAdd(At(f, x), At(g, x), f.scale * x, g.scale * x, m);
    ZeroModCong(f.scale, g.scale, m);
    ZeroModCong(f.offset, g.offset, m);
    hide Cong;
  }

  lemma FromTwoPoints(f: Affine, x: int)
    ensures At(f, x + 1) - At(f, x) == f.scale && At(f, x) - f.scale * x == f.offset
  {
  }

  /** A sign extension that is taken for a zero extension: right if and only if its operand is not
      negative. */
  lemma {:induction false} NegativeIsMisread(a: Expr, to: nat, u: Linear, env: Env)
    requires WellFormed(SExt(a, to)) && Agrees(ZExt(a, to), u, env)
    ensures Agrees(SExt(a, to), u, env) <==> Signed(Val(a, env), Width(a)) >= 0
  {
    var t := At(Affine(u.scale, u.offset), BaseValue(u, env));
    SExtValue(SExt(a, to), a, to, env);
    ValInWidth(a, env);
    ValInWidth(SExt(a, to), env);
    Pow2Monotone(Width(a) + 1, to);
    assert Val(ZExt(a, to), env) == Val(a, env);
    hide Val;
    hide At;
    hide Signed;
    hide BaseValue;
    hide WellFormed;
    SecondPattern(Val(a, env), Val(SExt(a, to), env), t, Pow2(to));
    hide Cong;
    hide Pow2;
  }

  // At most one number below the modulus is congruent to t.
  lemma SecondPattern(v: nat, s: nat, t: int, m: nat)
    requires v < m && s < m && Cong(v, t, m)
    ensures Cong(s, t, m) <==> s == v
  {
    if Cong(s, t, m) {
      CongSym(v, t, m);
      CongTrans(s, t, v, m);
      CongEqual(s, v, m);
    }
  }

  /** One flagged operation on a variable under a sign extension: what is lost is a negative factor,
      and the subtraction of the least number. */
  lemma {:induction false} OneOperation(op: Op, id: nat, w: nat, c: nat, nuw: bool, to: nat, wide: nat, env: Env)
    requires 0 < w < to <= wide && c < Pow2(w) && (op.Shl? ==> c < w)
    ensures Kept(SExt(Bin(op, Var(id, w), c, true, nuw), to), env, wide, 0)
            <==> op.Add? || op.Shl? || (op.Sub? && c != Pow2(w - 1)) || (op.Mul? && c < Pow2(w - 1))
  {
    var a, e := Bin(op, Var(id, w), c, true, nuw), SExt(Bin(op, Var(id, w), c, true, nuw), to);
    var r, x := GetLinear(a, wide, 1), Exactly(a, wide, 1);
    hide Operated;
    hide ApplyExact;
    assert GetLinear(Var(id, w), wide, 2) == Opaque(Var(id, w)) && Exactly(Var(id, w), wide, 2) == IDENTITY;
    assert if op.Shl? then !r.nsw else r == Operated(op, Opaque(Var(id, w)), c, wide).(nuw := nuw);
    assert x == ApplyExact(op, IDENTITY, c, w);
    assert Kept(Var(id, w), env, wide, 2) && Kept(a, env, wide, 1);
    assert Kept(e, env, wide, 0) <==> ExtensionKept(true, a, to, r, x, env);
    hide Kept;
    hide GetLinear;
    hide Exactly;
    hide SignedKept;
    hide Pow2;
    hide Signed;
    match op
    case Add => AddKept(c, Opaque(Var(id, w)), w, to, wide);
    case Sub => SubKept(c, Opaque(Var(id, w)), w, to, wide);
    case Mul => MulKept(c, Opaque(Var(id, w)), w, to, wide);
    case Shl =>
  }

  lemma {:induction false} AddKept(c: nat, o: Linear, w: nat, to: nat, wide: nat)
    requires 0 < w < to <= wide && c < Pow2(w) && o.scale == 1 && o.offset == 0
    ensures SignedKept(Operated(Add, o, c, wide), Applied(Add, IDENTITY.signed, Signed(c, w)), w, to)
  {
    Pow2Monotone(w, wide);
    SmallMod(c, Pow2(wide));
    SmallMod(c, Pow2(w));
    hide Pow2;
    hide Signed;
  }

  lemma SubKept(c: nat, o: Linear, w: nat, to: nat, wide: nat)
    requires 0 < w < to <= wide && c < Pow2(w) && o.scale == 1 && o.offset == 0
    ensures SignedKept(Operated(Sub, o, c, wide), Applied(Sub, IDENTITY.signed, Signed(c, w)), w, to)
            <==> c != Pow2(w - 1)
  {
    var v, s := ((0 - c) % Pow2(wide)) % Pow2(w), 0 - Signed(c, w);
    NegatedPattern(c, w, wide);
    SignedRange(c, w);
    if c != Pow2(w - 1) {
      SignedUnique(v, s, w);
      ZeroModCong(s, s, Pow2(to));
      CongRefl(s, Pow2(to));
    } else {
      SignedUnique(v, 0 - Pow2(w - 1), w);
      Pow2Monotone(w + 1, to);
      SmallMod(Pow2(w), Pow2(to));
    }
  }

  lemma {:induction false} NegatedPattern(c: nat, w: nat, wide: nat)
    requires w <= wide
    ensures Cong(((0 - c) % Pow2(wide)) % Pow2(w), 0 - Signed(c, w), Pow2(w))
    ensures Cong(((0 - c) % Pow2(wide)) % Pow2(w), 0 - c, Pow2(w))
  {
    var m := Pow2(w);
    CongMod(0 - c, Pow2(wide));
    CongNarrow((0 - c) % Pow2(wide), 0 - c, wide, w);
    CongMod((0 - c) % Pow2(wide), m);
    SignedCong(c, w);
    CongRefl(0, m);
    CongAdd(0, 0, c, Signed(c, w), m);
    hide Cong;
    CongTrans(((0 - c) % Pow2(wide)) % m, (0 - c) % Pow2(wide), 0 - c, m);
    CongTrans(((0 - c) % Pow2(wide)) % m, 0 - c, 0 - Signed(c, w), m);
  }

  lemma MulKept(c: nat, o: Linear, w: nat, to: nat, wide: nat)
    requires 0 < w < to <= wide && c < Pow2(w) && o.scale == 1 && o.offset == 0
    ensures SignedKept(Operated(Mul, o, c, wide), Applied(Mul, IDENTITY.signed, Signed(c, w)), w, to)
            <==> c < Pow2(w - 1)
  {
    Pow2Monotone(w, wide);
    SmallMod(c, Pow2(wide));
    SmallMod(0, Pow2(wide));
    SmallMod(0, Pow2(w));
    assert Operated(Mul, o, c, wide).scale == c && Operated(Mul, o, c, wide).offset == 0;
    assert Applied(Mul, IDENTITY.signed, Signed(c, w)) == Affine(Signed(c, w), 0);
    SmallMod(0, Pow2(to));
    if c >= Pow2(w - 1) {
      Pow2Monotone(w + 1, to);
      CongWitness(0 - Pow2(w), Pow2(to) - Pow2(w), Pow2(to), -1);
      CongModEqual(0 - Pow2(w), Pow2(to) - Pow2(w), Pow2(to));
      SmallMod(Pow2(to) - Pow2(w), Pow2(to));
    }
    hide Cong;
    hide Operated;
  }

  predicate NoSignExtension(e: Expr) {
    match e
    case Var(_, _) => true
    case Const(_, _) => true
    case Bin(_, a, _, _, _) => NoSignExtension(a)
    case Or(a, _, _) => NoSignExtension(a)
    case ZExt(a, _) => NoSignExtension(a)
    case SExt(_, _) => false
  }

  // What zero extensions leave of the decomposition.
  ghost predicate Exactness(r: Linear, x: Exact, wide: nat) {
    r.nuw ==> x.unsigned.Some? && Same(x.unsigned.value, r.scale, r.offset, wide)
  }

  /** Without sign extensions nothing is lost. */
  lemma {:induction false} ZeroExtensionsAreKept(e: Expr, env: Env, wide: nat, depth: nat)
    requires depth <= MAX_DEPTH && WellFormed(e) && NoSignExtension(e) && NoPoison(e, env) && Width(e) <= wide
    ensures Kept(e, env, wide, depth) && Exactness(GetLinear(e, wide, depth), Exactly(e, wide, depth), wide)
    decreases e
  {
    hide Same;
    hide Pow2;
    hide Val;
    if depth < MAX_DEPTH && !e.Var? && !e.Const? && (!e.Or? || e.masked) {
      var r, x := GetLinear(e.a, wide, depth + 1), Exactly(e.a, wide, depth + 1);
      ZeroExtensionsAreKept(e.a, env, wide, depth + 1);
      hide Operated;
      hide Applied;
      if r.nuw {
        if e.ZExt? {
          SameNarrow(x.unsigned.value, r.scale, r.offset, e.to, wide);
        } else if e.Or? {
          SameStep(Add, x.unsigned.value, r, e.c, wide);
        } else if !e.op.Shl? {
          SameStep(e.op, x.unsigned.value, r, e.c, wide);
        }
      }
    } else {
      SameIsSame(GetLinear(e, wide, depth), Exactly(e, wide, depth).unsigned.value, wide);
    }
  }

  lemma {:induction false} SameIsSame(r: Linear, f: Affine, wide: nat)
    requires f.scale == r.scale && (f.offset == r.offset || r.offset == f.offset % Pow2(wide))
    ensures Same(f, r.scale, r.offset, wide)
  {
    var m := Pow2(wide);
    CongRefl(f.scale, m);
    CongRefl(f.offset, m);
    CongMod(f.offset, m);
    ZeroModCong(f.scale, r.scale, m);
    ZeroModCong(f.offset, r.offset, m);
    hide Pow2;
    hide Cong;
  }

  lemma SameNarrow(f: Affine, scale: int, offset: int, bits: nat, wide: nat)
    requires bits <= wide && Same(f, scale, offset, wide)
    ensures Same(f, scale, offset, bits)
  {
    ZeroModCong(f.scale, scale, Pow2(wide));
    ZeroModCong(f.offset, offset, Pow2(wide));
    hide Cong;
    CongNarrow(f.scale, scale, wide, bits);
    CongNarrow(f.offset, offset, wide, bits);
    ZeroModCong(f.scale, scale, Pow2(bits));
    ZeroModCong(f.offset, offset, Pow2(bits));
  }

  lemma SameStep(op: Op, f: Affine, r: Linear, c: nat, wide: nat)
    requires Same(f, r.scale, r.offset, wide) && !op.Shl?
    ensures Same(Applied(op, f, c), Operated(op, r, c, wide).scale, Operated(op, r, c, wide).offset, wide)
  {
    var m, g, u := Pow2(wide), Applied(op, f, c), Operated(op, r, c, wide);
    ZeroModCong(f.scale, r.scale, m);
    ZeroModCong(f.offset, r.offset, m);
    ZeroModCong(g.scale, u.scale, m);
    ZeroModCong(g.offset, u.offset, m);
    CongRefl(c, m);
    hide Pow2;
    hide Cong;
    CombineCong(op, f.offset, r.offset, c, c, m);
    CongMod(Combine(op, r.offset, c), m);
    CongTrans(g.offset, Combine(op, r.offset, c), u.offset, m);
    if op.Mul? {
      CombineCong(Mul, f.scale, r.scale, c, c, m);
      CongMod(r.scale * c, m);
      CongTrans(g.scale, r.scale * c, u.scale, m);
    }
  }

  /** Two examples in 8 bits, extended to 16. The product x * -1 is -1 at x = 1, but its decomposition
      says 255: the scale is not sign-extended. */
  lemma SignExtensionLosesScale()
    ensures var e := SExt(Bin(Mul, Var(0, 8), 255, true, false), 16);
            var env := (_: nat) => 1;
            var r := GetLinear(e, 16, 0);
            && WellFormed(e) && NoPoison(e, env)
            && Val(e, env) == 65535
            && r.base == Var(0, 8) && r.scale == 255 && r.offset == 0 && r.sext == 8
            && (r.scale * BaseValue(r, env) + r.offset) % Pow2(16) == 255
  {
    assert Pow2(8) == 256 && Pow2(7) == 128;
    Pow2Add(8, 8);
    hide Pow2;
    var a := Bin(Mul, Var(0, 8), 255, true, false);
    var env := (_: nat) => 1;
    assert Val(Var(0, 8), env) == 1;
    assert Val(a, env) == 255;
    assert GetLinear(Var(0, 8), 16, 2) == Opaque(Var(0, 8));
    assert GetLinear(a, 16, 1) == Linear(Var(0, 8), 255, 0, 0, 0, true, false);
  }

  /** The product (x + 100) * 3 is 30 at x = -90, but its decomposition says 65310: the offset 300 is
      cut to 44. */
  lemma SignExtensionCutsOffset()
    ensures var e := SExt(Bin(Mul, Bin(Add, Var(0, 8), 100, true, false), 3, true, false), 16);
            var env := (_: nat) => 166;
            var r := GetLinear(e, 16, 0);
            && WellFormed(e) && NoPoison(e, env)
            && Val(e, env) == 30
            && r.base == Var(0, 8) && r.scale == 3 && r.offset == 44 && r.sext == 8
            && (r.scale * BaseValue(r, env) + r.offset) % Pow2(16) == 65310
  {
    hide GetLinear;
    assert Pow2(8) == 256 && Pow2(7) == 128;
    Pow2Add(8, 8);
    hide Pow2;
    var a := Bin(Add, Var(0, 8), 100, true, false);
    var b := Bin(Mul, a, 3, true, false);
    var env := (_: nat) => 166;
    assert Val(Var(0, 8), env) == 166;
    assert Val(a, env) == 10;
    assert Val(b, env) == 30;
    CutOffset();
  }

  lemma CutOffset()
    ensures GetLinear(SExt(Bin(Mul, Bin(Add, Var(0, 8), 100, true, false), 3, true, false), 16), 16, 0)
            == Linear(Var(0, 8), 3, 44, 0, 8, true, false)
  {
    var a := Bin(Add, Var(0, 8), 100, true, false);
    assert Pow2(8) == 256 && Pow2(7) == 128;
    Pow2Add(8, 8);
    hide Pow2;
    assert GetLinear(Var(0, 8), 16, 3) == Opaque(Var(0, 8));
    assert GetLinear(a, 16, 2) == Linear(Var(0, 8), 1, 100, 0, 0, true, false);
    assert GetLinear(Bin(Mul, a, 3, true, false), 16, 1) == Linear(Var(0, 8), 3, 300, 0, 0, true, false);
  }

  // ----- How far it looks -----

  predicate NoExtensions(e: Expr) {
    match e
    case Bin(_, a, _, _, _) => NoExtensions(a)
    case Or(a, _, _) => NoExtensions(a)
    case ZExt(_, _) => false
    case SExt(_, _) => false
    case _ => true
  }

  // The operand of an operation that can be looked through.
  function Operand(e: Expr): Option<Expr> {
    match e
    case Bin(_, a, _, _, _) => Some(a)
    case Or(a, _, true) => Some(a)
    case _ => None
  }

  // From an expression to the operand under its first `n` operations.
  function Under(e: Expr, n: nat): Expr {
    if n == 0 || Operand(e).None? then e else Under(Operand(e).value, n - 1)
  }

  // How many operations are on top of each other.
  function Operations(e: Expr): (r: nat)
    ensures r == 0 <==> Operand(e).None?
  {
    if Operand(e).None? then 0 else 1 + Operations(Operand(e).value)
  }

  /** Without extensions the decomposition looks through every operation, an or of disjoint bits among
      them, down to six of them: the base is none, unless there are more. */
  lemma {:induction false} LooksThroughOperations(e: Expr, wide: nat, depth: nat)
    requires NoExtensions(e) && depth <= 6
    ensures GetLinear(e, wide, depth).base == Under(e, 6 - depth)
    ensures Operations(e) <= 6 - depth ==> Operand(GetLinear(e, wide, depth).base).None?
    decreases e
  {
    if depth < 6 && Operand(e).Some? {
      LooksThroughOperations(Operand(e).value, wide, depth + 1);
    }
    hide Pow2;
  }

  // Every operation says that it does not wrap, signed or unsigned, which a shift cannot say.
  predicate AllFlagged(e: Expr) {
    match e
    case Bin(op, a, _, nsw, nuw) => !op.Shl? && nsw && nuw && AllFlagged(a)
    case Or(a, _, _) => AllFlagged(a)
    case ZExt(a, _) => AllFlagged(a)
    case SExt(a, _) => AllFlagged(a)
    case _ => true
  }

  // The operand of an operation or an extension.
  function Inner(e: Expr): Option<Expr> {
    match e
    case ZExt(a, _) => Some(a)
    case SExt(a, _) => Some(a)
    case _ => Operand(e)
  }

  function Below(e: Expr, n: nat): Expr {
    if n == 0 || Inner(e).None? then e else Below(Inner(e).value, n - 1)
  }

  /** If nothing wraps the decomposition looks through extensions as well, down to six operations and
      extensions. */
  lemma {:induction false} LooksThroughExtensions(e: Expr, wide: nat, depth: nat)
    requires AllFlagged(e) && depth <= 6
    ensures var r := GetLinear(e, wide, depth); r.base == Below(e, 6 - depth) && r.nsw && r.nuw
    decreases e
  {
    if depth < 6 && Inner(e).Some? {
      LooksThroughExtensions(Inner(e).value, wide, depth + 1);
    }
    hide Pow2;
    hide Signed;
  }

  /** Whatever is looked through, the bits that the base was extended by make up the width. */
  lemma {:induction false} ExtensionsMakeWidth(e: Expr, wide: nat, depth: nat)
    requires WellFormed(e) && depth <= MAX_DEPTH
    ensures var r := GetLinear(e, wide, depth); Width(r.base) + r.zext + r.sext == Width(e)
    decreases e
  {
    if depth < MAX_DEPTH && (e.Bin? || e.Or? || e.ZExt? || e.SExt?) {
      ExtensionsMakeWidth(e.a, wide, depth + 1);
    }
    hide Pow2;
    hide Signed;
  }
}
