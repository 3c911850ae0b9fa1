/** Unwrapping packaged loops: from masses inside loops to frequencies of blocks, with exact
    arithmetic (llvm/lib/Analysis/BlockFrequencyInfoImpl.cpp, unwrapLoops). */
module LoopUnwrapping {
  import opened Words
  import opened Options

  // A loop: the loop around it, its headers and members, and its mass inside that loop.
  datatype Loop = Loop(parent: Option<nat>, numHeaders: nat, nodes: seq<nat>, mass: nat)

  // A block: the innermost loop it is in, and its mass there.
  datatype Block = Block(loop: Option<nat>, mass: nat)

  function ToScaled(mass: nat): real {
    if mass == MAX_64 then 1.0 else (mass + 1) as real / TWO_TO_64 as real
  }

  /** As a number: m + 1 parts of 2^64, so never 0, and exactly 1 for the full mass alone. */
  lemma ScaledMass(mass: nat)
    requires mass <= MAX_64
    ensures ToScaled(mass) * TWO_TO_64 as real == mass as real + 1.0
    ensures ToScaled(mass) == 1.0 <==> mass == MAX_64
  {
    Quotient((mass + 1) as real, TWO_TO_64 as real);
  }

  lemma Quotient(n: real, m: real)
    requires m > 0.0
    ensures (n / m) * m == n
  {
  }

  function Head(loops: seq<Loop>, l: nat): nat
    requires l < |loops| && loops[l].nodes != []
  {
    loops[l].nodes[0]
  }

  predicate ParentIs(loops: seq<Loop>, c: nat, l: nat)
    requires c < |loops|
  {
    loops[c].parent == Some(l)
  }

  // Multiplication as a function, so that a proof can hide what it is.
  function Product(a: real, b: real): real {
    a * b
  }

  lemma ProductLaws(a: real, b: real)
    ensures Product(Product(a, 1.0), b) == Product(a, b) && Product(b, Product(a, 1.0)) == Product(a, b)
  {
  }

  predicate InOrder(loops: seq<Loop>) {
    forall i | 0 <= i < |loops| :: loops[i].parent.Some? ==> loops[i].parent.value < i
  }

  /** Loops come after the loops around them. A loop lists the blocks whose innermost loop it is, and
      one block, its first, for every loop right inside it; no block twice. */
  ghost predicate WellNested(loops: seq<Loop>, blocks: seq<Block>) {
    && InOrder(loops)
    && (forall l | 0 <= l < |loops| :: 0 < loops[l].numHeaders <= |loops[l].nodes|)
    && (forall l, i | 0 <= l < |loops| && 0 <= i < |loops[l].nodes| :: loops[l].nodes[i] < |blocks|)
    && (forall l, i, j | 0 <= l < |loops| && 0 <= i < j < |loops[l].nodes| :: loops[l].nodes[i] != loops[l].nodes[j])
    && (forall n | 0 <= n < |blocks| :: blocks[n].loop.Some? ==> blocks[n].loop.value < |loops|)
    && (forall l, n | 0 <= l < |loops| && 0 <= n < |blocks| :: n in loops[l].nodes <==> Listed(loops, blocks, l, n))
  }

  ghost predicate Listed(loops: seq<Loop>, blocks: seq<Block>, l: nat, n: nat)
    requires n < |blocks|
  {
    blocks[n].loop == Some(l)
    || exists c :: 0 <= c < |loops| && ParentIs(loops, c, l) && loops[c].nodes != [] && Head(loops, c) == n
  }

  // The product of scale and mass over a loop and all loops around it.
  function Total(loops: seq<Loop>, scales: seq<real>, l: nat): real
    requires |scales| == |loops| && l < |loops|
    requires InOrder(loops)
    decreases l
  {
    Product(Product(scales[l], ToScaled(loops[l].mass)), Around(loops, scales, loops[l].parent, l))
  }

  // The product over the loops around loop `l`.
  function Around(loops: seq<Loop>, scales: seq<real>, p: Option<nat>, l: nat): real
    requires |scales| == |loops| && l <= |loops| && (p.Some? ==> p.value < l)
    requires InOrder(loops)
    decreases l, 0
  {
    if p.Some? then Total(loops, scales, p.value) else 1.0
  }

  // The outermost loop around loop `d`, itself included, that is numbered above `l`.
  function Outermost(loops: seq<Loop>, d: nat, l: nat): (r: nat)
    requires d < |loops| && InOrder(loops)
    ensures r <= d
    decreases d
  {
    if loops[d].parent.Some? && loops[d].parent.value > l then Outermost(loops, loops[d].parent.value, l) else d
  }

  /** A block that heads a loop below `l` also heads its innermost loop, and climbing up from there
      leads to where climbing up from the first loop leads. */
  lemma ClimbsTo(loops: seq<Loop>, blocks: seq<Block>, c: nat, l: nat) returns (d: nat)
    requires WellNested(loops, blocks) && l < c < |loops|
    ensures d < |loops| && c <= d && blocks[Head(loops, c)].loop == Some(d) && Head(loops, d) == Head(loops, c)
    ensures Outermost(loops, d, l) == Outermost(loops, c, l)
    decreases |loops| - c
  {
    var n := Head(loops, c);
    assert n in loops[c].nodes;
    assert Listed(loops, blocks, c, n);
    if blocks[n].loop == Some(c) {
      d := c;
    } else {
      var c' :| 0 <= c' < |loops| && ParentIs(loops, c', c) && loops[c'].nodes != [] && Head(loops, c') == n;
      d := ClimbsTo(loops, blocks, c', l);
    }
  }

  // What a loop right inside `l` is found by.
  lemma {:induction false} PackageInside(loops: seq<Loop>, blocks: seq<Block>, l: nat, c: nat)
    requires WellNested(loops, blocks) && l < |loops| && c < |loops| && ParentIs(loops, c, l)
    ensures l < c && Head(loops, c) < |blocks|
    ensures var n := Head(loops, c);
            blocks[n].loop.Some?
            && var d := blocks[n].loop.value;
               l < d < |loops| && Head(loops, d) == n && Outermost(loops, d, l) == c
  {
    assert loops[c].nodes[0] < |blocks|;
    var d := ClimbsTo(loops, blocks, c, l);
  }

  predicate WholePackage(loops: seq<Loop>, l: nat, n: nat, c: nat)
    requires c < |loops| && loops[c].nodes != []
  {
    ParentIs(loops, c, l) && Head(loops, c) == n
  }

  /** A node of loop `l` is a block of that loop, or stands for exactly one loop right inside it. */
  lemma {:induction false} NodeOf(loops: seq<Loop>, blocks: seq<Block>, l: nat, n: nat)
    requires WellNested(loops, blocks) && l < |loops| && n in loops[l].nodes
    ensures n < |blocks| && blocks[n].loop.Some?
    ensures blocks[n].loop == Some(l) ==> forall c | 0 <= c < |loops| :: !WholePackage(loops, l, n, c)
    ensures blocks[n].loop != Some(l) ==>
              var d := blocks[n].loop.value;
              && l < d < |loops| && Head(loops, d) == n
              && WholePackage(loops, l, n, Outermost(loops, d, l))
              && forall c | 0 <= c < |loops| :: WholePackage(loops, l, n, c) ==> c == Outermost(loops, d, l)
  {
    var i :| 0 <= i < |loops[l].nodes| && loops[l].nodes[i] == n;
    assert Listed(loops, blocks, l, n);
    forall c | 0 <= c < |loops| && WholePackage(loops, l, n, c)
      ensures blocks[n].loop.Some?
      ensures var d := blocks[n].loop.value; l < d < |loops| && Head(loops, d) == n && Outermost(loops, d, l) == c
    {
      PackageInside(loops, blocks, l, c);
    }
    if blocks[n].loop != Some(l) {
      var c :| 0 <= c < |loops| && ParentIs(loops, c, l) && loops[c].nodes != [] && Head(loops, c) == n;
      assert WholePackage(loops, l, n, c);
    }
  }

  // The product over a loop and those around it, once the loops before `k` are unwrapped.
  function SoFar(loops: seq<Loop>, given: seq<real>, p: Option<nat>, k: nat): real
    requires |given| == |loops| && InOrder(loops) && (p.Some? ==> p.value < |loops|)
  {
    if p.Some? && p.value < k then Total(loops, given, p.value) else 1.0
  }

  lemma OneMoreLoop(loops: seq<Loop>, given: seq<real>, p: Option<nat>, l: nat)
    requires |given| == |loops| && InOrder(loops) && (p.Some? ==> p.value < |loops|)
    ensures p != Some(l) ==> SoFar(loops, given, p, l + 1) == SoFar(loops, given, p, l)
    ensures p == Some(l) ==> SoFar(loops, given, p, l + 1) == Total(loops, given, l) && SoFar(loops, given, p, l) == 1.0
  {
  }

  // While loop `l` is unwrapped: the loops that its nodes in `done` stand for have been multiplied
  // with its total, other loops only with the loops before it.
  ghost predicate InsideLoops(loops: seq<Loop>, given: seq<real>, scale: seq<real>, l: nat, done: seq<nat>)
    requires InOrder(loops) && |given| == |scale| == |loops|
    requires forall c | 0 <= c < |loops| :: loops[c].nodes != []
  {
    forall c | l < c < |loops| ::
      scale[c] == Product(given[c], SoFar(loops, given, loops[c].parent, if Head(loops, c) in done then l + 1 else l))
  }

  // The same for blocks.
  ghost predicate InsideBlocks(loops: seq<Loop>, blocks: seq<Block>, given: seq<real>, freq: seq<real>, l: nat,
                               done: seq<nat>)
    requires InOrder(loops) && |given| == |loops| && |freq| == |blocks|
    requires forall n | 0 <= n < |blocks| :: blocks[n].loop.Some? ==> blocks[n].loop.value < |loops|
  {
    forall n | 0 <= n < |blocks| ::
      freq[n] == Product(ToScaled(blocks[n].mass), SoFar(loops, given, blocks[n].loop, if n in done then l + 1 else l))
  }

  ghost predicate Inside(loops: seq<Loop>, blocks: seq<Block>, given: seq<real>, scale: seq<real>, freq: seq<real>,
                         l: nat, done: seq<nat>)
    requires WellNested(loops, blocks) && |given| == |scale| == |loops| && |freq| == |blocks| && l < |loops|
  {
    InsideLoops(loops, given, scale, l, done) && InsideBlocks(loops, blocks, given, freq, l, done)
  }

  // A node that stands for no loop, or for the loop `c` whose scale is multiplied.
  lemma {:induction false} LoopMultiplied(loops: seq<Loop>, given: seq<real>, scale: seq<real>, l: nat,
                                          done: seq<nat>, n: nat, c: Option<nat>)
    requires InOrder(loops) && |given| == |scale| == |loops| && forall x | 0 <= x < |loops| :: loops[x].nodes != []
    requires InsideLoops(loops, given, scale, l, done) && n !in done
    requires c.Some? ==> l < c.value < |loops| && WholePackage(loops, l, n, c.value)
    requires forall x | 0 <= x < |loops| && WholePackage(loops, l, n, x) :: c == Some(x)
    ensures c.None? ==> InsideLoops(loops, given, scale, l, done + [n])
    ensures c.Some? ==>
          InsideLoops(loops, given, scale[c.value := Product(Total(loops, given, l), scale[c.value])], l, done + [n])
  {
    hide Total;
    hide Product;
    var after := if c.None? then scale else scale[c.value := Product(Total(loops, given, l), scale[c.value])];
    forall x | l < x < |loops|
      ensures after[x] == Product(given[x], SoFar(loops, given, loops[x].parent,
                            if Head(loops, x) in done + [n] then l + 1 else l))
    {
      OneMoreLoop(loops, given, loops[x].parent, l);
      ProductLaws(given[x], Total(loops, given, l));
      hide SoFar;
      assert WholePackage(loops, l, n, x) <==> c == Some(x);
    }
  }

  lemma {:induction false} BlockMultiplied(loops: seq<Loop>, blocks: seq<Block>, given: seq<real>, freq: seq<real>,
                                           l: nat, done: seq<nat>, n: nat)
    requires InOrder(loops) && |given| == |loops| && |freq| == |blocks| && l < |loops| && n < |blocks|
    requires forall x | 0 <= x < |blocks| :: blocks[x].loop.Some? ==> blocks[x].loop.value < |loops|
    requires InsideBlocks(loops, blocks, given, freq, l, done) && n !in done
    ensures blocks[n].loop != Some(l) ==> InsideBlocks(loops, blocks, given, freq, l, done + [n])
    ensures blocks[n].loop == Some(l) ==>
              InsideBlocks(loops, blocks, given, freq[n := Product(Total(loops, given, l), freq[n])], l, done + [n])
  {
    OneMoreLoop(loops, given, blocks[n].loop, l);
    ProductLaws(ToScaled(blocks[n].mass), Total(loops, given, l));
    hide Total;
    hide Product;
    hide ToScaled;
    hide SoFar;
  }

  lemma {:induction false} BlockStep(loops: seq<Loop>, blocks: seq<Block>, given: seq<real>, scale: seq<real>,
                                     freq: seq<real>,
                                     l: nat, done: seq<nat>, n: nat)
    requires WellNested(loops, blocks) && |given| == |scale| == |loops| && |freq| == |blocks| && l < |loops|
    requires Inside(loops, blocks, given, scale, freq, l, done)
    requires n in loops[l].nodes && n !in done && n < |blocks| && blocks[n].loop == Some(l)
    ensures Inside(loops, blocks, given, scale, freq[n := Product(Total(loops, given, l), freq[n])], l, done + [n])
  {
    NodeOf(loops, blocks, l, n);
    LoopMultiplied(loops, given, scale, l, done, n, None);
    BlockMultiplied(loops, blocks, given, freq, l, done, n);
    hide InsideLoops;
    hide InsideBlocks;
    hide Total;
  }

  lemma {:induction false} PackageStep(loops: seq<Loop>, blocks: seq<Block>, given: seq<real>, scale: seq<real>,
                                       freq: seq<real>,
                                       l: nat, done: seq<nat>, n: nat, c: nat)
    requires WellNested(loops, blocks) && |given| == |scale| == |loops| && |freq| == |blocks| && l < c < |loops|
    requires Inside(loops, blocks, given, scale, freq, l, done)
    requires n !in done && n < |blocks| && blocks[n].loop != Some(l)
    requires WholePackage(loops, l, n, c) && forall x | 0 <= x < |loops| :: WholePackage(loops, l, n, x) ==> x == c
    ensures Inside(loops, blocks, given, scale[c := Product(Total(loops, given, l), scale[c])], freq, l, done + [n])
  {
    LoopMultiplied(loops, given, scale, l, done, n, Some(c));
    BlockMultiplied(loops, blocks, given, freq, l, done, n);
    hide InsideLoops;
    hide InsideBlocks;
    hide Total;
  }

  // Between loops.
  ghost predicate Outside(loops: seq<Loop>, blocks: seq<Block>, given: seq<real>, scale: seq<real>, freq: seq<real>,
                          k: nat)
    requires WellNested(loops, blocks) && |given| == |scale| == |loops| && |freq| == |blocks|
  {
    && (forall c | k <= c < |loops| :: scale[c] == Product(given[c], SoFar(loops, given, loops[c].parent, k)))
    && (forall n | 0 <= n < |blocks| ::
              freq[n] == Product(ToScaled(blocks[n].mass), SoFar(loops, given, blocks[n].loop, k)))
  }

  lemma {:induction false} Entering(loops: seq<Loop>, blocks: seq<Block>, given: seq<real>, scale: seq<real>,
                                    freq: seq<real>, l: nat)
    requires WellNested(loops, blocks) && |given| == |scale| == |loops| && |freq| == |blocks| && l < |loops|
    requires Outside(loops, blocks, given, scale, freq, l)
    ensures Product(scale[l], ToScaled(loops[l].mass)) == Total(loops, given, l)
    ensures Inside(loops, blocks, given, scale[l := Total(loops, given, l)], freq, l, [])
  {
    SwapFactors(given[l], ToScaled(loops[l].mass), Around(loops, given, loops[l].parent, l));
    hide Product;
  }

  lemma SwapFactors(a: real, b: real, c: real)
    ensures Product(Product(a, c), b) == Product(Product(a, b), c)
  {
  }

  lemma Leaving(loops: seq<Loop>, blocks: seq<Block>, given: seq<real>, scale: seq<real>, freq: seq<real>, l: nat)
    requires WellNested(loops, blocks) && |given| == |scale| == |loops| && |freq| == |blocks| && l < |loops|
    requires Inside(loops, blocks, given, scale, freq, l, loops[l].nodes)
    ensures Outside(loops, blocks, given, scale, freq, l + 1)
  {
    hide Total;
    forall c | l < c < |loops|
      ensures scale[c] == Product(given[c], SoFar(loops, given, loops[c].parent, l + 1))
    {
      if ParentIs(loops, c, l) {
        assert loops[c].nodes[0] < |blocks|;
        assert Listed(loops, blocks, l, Head(loops, c));
      }
    }
    forall n | 0 <= n < |blocks|
      ensures freq[n] == Product(ToScaled(blocks[n].mass), SoFar(loops, given, blocks[n].loop, l + 1))
    {
      assert blocks[n].loop == Some(l) ==> Listed(loops, blocks, l, n);
    }
  }

  class BlockFrequencies {
    const loops: seq<Loop>
    const blocks: seq<Block>
    // The scales as the loops were given.
    ghost const given: seq<real>
    var scale: seq<real>
    var packaged: seq<bool>
    var freq: seq<real>

    ghost predicate Shaped()
      reads this
    {
      && WellNested(loops, blocks)
      && |given| == |scale| == |packaged| == |loops| && |freq| == |blocks|
    }

    constructor (loops: seq<Loop>, blocks: seq<Block>, scales: seq<real>)
      requires WellNested(loops, blocks) && |scales| == |loops|
      ensures Shaped() && this.loops == loops && this.blocks == blocks
      ensures given == scale == scales && forall l | 0 <= l < |packaged| :: packaged[l]
    {
      this.loops, this.blocks, given := loops, blocks, scales;
      scale, packaged := scales, seq(|loops|, _ => true);
      freq := seq(|blocks|, _ => 0.0);
    }

    method IsAPackage(n: nat) returns (r: bool)
      requires Shaped() && n < |blocks|
      ensures r <==> blocks[n].loop.Some? && blocks[n].loop.value < |loops| && packaged[blocks[n].loop.value]
                     && n in loops[blocks[n].loop.value].nodes[..loops[blocks[n].loop.value].numHeaders]
    {
      match blocks[n].loop
      case None => return false;
      case Some(l) => return n in loops[l].nodes[..loops[l].numHeaders] && packaged[l];
    }

    method GetPackagedLoop(n: nat, ghost k: nat) returns (l: nat)
      requires Shaped() && n < |blocks| && blocks[n].loop.Some?
      requires forall i | 0 <= i < |loops| :: packaged[i] == (i > k)
      ensures l < |loops| && l == Outermost(loops, blocks[n].loop.value, k)
    {
      l := blocks[n].loop.value;
      while loops[l].parent.Some? && packaged[loops[l].parent.value]
        invariant l < |loops| && Outermost(loops, l, k) == Outermost(loops, blocks[n].loop.value, k)
        decreases l
      {
        l := loops[l].parent.value;
      }
    }

    // Multiplies what one node of loop `l` stands for with the scale of the loop.
    method UnwrapNode(l: nat, n: nat, ghost done: seq<nat>)
      requires Shaped() && l < |loops| && n in loops[l].nodes && n !in done
      requires scale[l] == Total(loops, given, l) && forall i | 0 <= i < |loops| :: packaged[i] == (i > l)
      requires Inside(loops, blocks, given, scale, freq, l, done)
      modifies this`scale, this`freq
      ensures Shaped() && scale[l] == Total(loops, given, l)
      ensures Inside(loops, blocks, given, scale, freq, l, done + [n])
    {
      NodeOf(loops, blocks, l, n);
      hide Total;
      hide Product;
      hide Inside;
      var package := IsAPackage(n);
      if package {
        var c := GetPackagedLoop(n, l);
        PackageStep(loops, blocks, given, scale, freq, l, done, n, c);
        hide Inside;
        scale := scale[c := Product(scale[l], scale[c])];
      } else {
        BlockStep(loops, blocks, given, scale, freq, l, done, n);
        hide Inside;
        freq := freq[n := Product(scale[l], freq[n])];
      }
    }

    /** Multiplies everything right inside loop `l` with the scale of `l`. */
    method UnwrapLoop(l: nat)
      requires Shaped() && l < |loops|
      requires Outside(loops, blocks, given, scale, freq, l) && forall i | 0 <= i < |loops| :: packaged[i] == (i >= l)
      modifies this
      ensures Shaped()
      ensures Outside(loops, blocks, given, scale, freq, l + 1) && forall i | 0 <= i < |loops| :: packaged[i] == (i > l)
    {
      Entering(loops, blocks, given, scale, freq, l);
      hide Inside;
      hide Outside;
      hide Total;
      scale := scale[l := Product(scale[l], ToScaled(loops[l].mass))];
      packaged := packaged[l := false];
      var nodes := loops[l].nodes;
      assert nodes[..0] == [];
      for j := 0 to |nodes|
        invariant Shaped() && scale[l] == Total(loops, given, l)
        invariant forall i | 0 <= i < |loops| :: packaged[i] == (i > l)
        invariant Inside(loops, blocks, given, scale, freq, l, nodes[..j])
      {
        assert nodes[..j + 1] == nodes[..j] + [nodes[j]];
        UnwrapNode(l, nodes[j], nodes[..j]);
      }
      assert nodes[..|nodes|] == nodes;
      Leaving(loops, blocks, given, scale, freq, l);
    }

    /** The frequency of a block is its mass times scale and mass of every loop around it, although
        each loop is visited once and touches only what is right inside it. */
    method UnwrapLoops()
      requires Shaped() && given == scale && forall l | 0 <= l < |packaged| :: packaged[l]
      modifies this
      ensures Shaped()
      ensures forall n | 0 <= n < |blocks| ::
                freq[n] == Product(ToScaled(blocks[n].mass),
                                   if blocks[n].loop.Some? then Total(loops, given, blocks[n].loop.value) else 1.0)
    {
      freq := seq(|blocks|, n requires 0 <= n < |blocks| => ToScaled(blocks[n].mass));
      hide Total;
      for l := 0 to |loops|
        invariant Shaped()
        invariant Outside(loops, blocks, given, scale, freq, l)
        invariant forall i | 0 <= i < |loops| :: packaged[i] == (i >= l)
      {
        UnwrapLoop(l);
      }
    }
  }
}
