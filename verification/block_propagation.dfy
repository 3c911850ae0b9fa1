/** Propagating mass through the nodes of a loop or function in reverse post-order
    (llvm/lib/Analysis/BlockFrequencyInfoImpl.cpp, llvm/include/llvm/Analysis/BlockFrequencyInfoImpl.h). */
module BlockPropagation {
  import opened Options
  import opened Words
  import opened BlockMass
  import opened BlockWeights
  import opened BlockNormalize

  // ----- Where mass goes -----

  // The masses of the nodes, what flowed back to each header, and the masses of the exits.
  datatype Flow = Flow(mass: seq<nat>, backedge: seq<nat>, exits: seq<(nat, nat)>)

  function ExitSum(exits: seq<(nat, nat)>): nat {
    if exits == [] then 0 else ExitSum(exits[..|exits| - 1]) + exits[|exits| - 1].1
  }

  // The node or header of a weight exists.
  predicate Placed(f: Flow, w: Weight) {
    (w.kind.Local? ==> w.target < |f.mass|) && (w.kind.Backedge? ==> w.target < |f.backedge|)
  }

  // One portion to where its weight says, with saturating additions.
  function Give(f: Flow, w: Weight, x: nat): (r: Flow)
    requires Placed(f, w)
    ensures |r.mass| == |f.mass| && |r.backedge| == |f.backedge|
  {
    match w.kind
    case Local => f.(mass := f.mass[w.target := Plus(f.mass[w.target], x)])
    case Backedge => f.(backedge := f.backedge[w.target := Plus(f.backedge[w.target], x)])
    case Exit => f.(exits := f.exits + [(w.target, x)])
  }

  predicate AllPlaced(f: Flow, ws: seq<Weight>) {
    forall i | 0 <= i < |ws| ::
      (ws[i].kind.Local? ==> ws[i].target < |f.mass|) && (ws[i].kind.Backedge? ==> ws[i].target < |f.backedge|)
  }

  // Local weights point past node `k`, backedges to headers.
  predicate Forward(ws: seq<Weight>, k: nat, headers: nat, n: nat) {
    forall i | 0 <= i < |ws| ::
      (ws[i].kind.Local? ==> k < ws[i].target < n) && (ws[i].kind.Backedge? ==> ws[i].target < headers)
  }

  function GiveAll(f: Flow, ws: seq<Weight>, portions: seq<nat>): (r: Flow)
    requires |portions| == |ws| && AllPlaced(f, ws)
    ensures |r.mass| == |f.mass| && |r.backedge| == |f.backedge|
    decreases |ws|
  {
    if ws == [] then f else GiveAll(Give(f, ws[0], portions[0]), ws[1..], portions[1..])
  }

  // All the mass that nodes from `k` on still have to pass on, or that has left the region.
  function Outstanding(f: Flow, k: nat): nat
    requires k <= |f.mass|
  {
    Sum(f.mass[k..]) + Sum(f.backedge) + ExitSum(f.exits)
  }

  lemma {:induction false} SumOfUpdate(xs: seq<nat>, i: nat, x: nat)
    requires i < |xs|
    ensures Sum(xs[i := x]) == Sum(xs) - xs[i] + x
  {
    var n := |xs| - 1;
    if i == n {
      assert xs[i := x][..n] == xs[..n];
    } else {
      assert xs[i := x][..n] == xs[..n][i := x];
      SumOfUpdate(xs[..n], i, x);
    }
  }

  lemma {:induction false} PartOfSum(xs: seq<nat>, i: nat)
    requires i < |xs|
    ensures xs[i] <= Sum(xs)
  {
    if i < |xs| - 1 {
      PartOfSum(xs[..|xs| - 1], i);
    }
  }

  lemma {:induction false} SumOfZeros(xs: seq<nat>)
    requires forall i | 0 <= i < |xs| :: xs[i] == 0
    ensures Sum(xs) == 0
  {
    if xs != [] {
      SumOfZeros(xs[..|xs| - 1]);
    }
  }

  // As long as no more than the full mass is around, a portion arrives unsaturated.
  lemma GiveConserves(f: Flow, w: Weight, x: nat, k: nat)
    requires k < |f.mass| && Placed(f, w) && (w.kind.Local? ==> k < w.target)
    requires Outstanding(f, k + 1) + x <= MAX_64
    ensures Outstanding(Give(f, w, x), k + 1) == Outstanding(f, k + 1) + x
    ensures w.kind.Local? ==> Give(f, w, x).mass == f.mass[w.target := f.mass[w.target] + x]
    ensures w.kind.Backedge? ==> Give(f, w, x).backedge == f.backedge[w.target := f.backedge[w.target] + x]
  {
    match w.kind
    case Local =>
      var rest: seq<nat>, i := f.mass[k + 1..], w.target - (k + 1);
      var y: nat := f.mass[w.target] + x;
      PartOfSum(rest, i);
      PlusIsExact(f.mass[w.target], x);
      SumOfUpdate(rest, i, y);
      assert f.mass[w.target := y][k + 1..] == rest[i := y];
    case Backedge =>
      PartOfSum(f.backedge, w.target);
      PlusIsExact(f.backedge[w.target], x);
      SumOfUpdate(f.backedge, w.target, f.backedge[w.target] + x);
    case Exit =>
      assert (f.exits + [(w.target, x)])[..|f.exits|] == f.exits;
  }

  lemma {:induction false} GiveAllConserves(f: Flow, ws: seq<Weight>, portions: seq<nat>, k: nat)
    requires |portions| == |ws| && k < |f.mass| && Forward(ws, k, |f.backedge|, |f.mass|)
    requires Outstanding(f, k + 1) + Sum(portions) <= MAX_64
    ensures Outstanding(GiveAll(f, ws, portions), k + 1) == Outstanding(f, k + 1) + Sum(portions)
    decreases |ws|
  {
    if ws != [] {
      SumOfFirst(portions);
      GiveConserves(f, ws[0], portions[0], k);
      hide Give;
      hide Outstanding;
      hide Sum;
      GiveAllConserves(Give(f, ws[0], portions[0]), ws[1..], portions[1..], k);
    }
  }

  function Amounts(ws: seq<Weight>): (r: seq<nat>)
    ensures |r| == |ws|
    ensures forall i | 0 <= i < |ws| :: r[i] == ws[i].amount
  {
    seq(|ws|, i requires 0 <= i < |ws| => ws[i].amount)
  }

  lemma {:induction false} SumOfAmounts(ws: seq<Weight>)
    ensures Sum(Amounts(ws)) == TrueSum(ws)
  {
    if ws != [] {
      var n := |ws| - 1;
      assert Amounts(ws)[..n] == Amounts(ws[..n]);
      SumOfAmounts(ws[..n]);
    }
  }

  // How a mass is split over positive weights.
  function Shares(mass: nat, ws: seq<Weight>): (r: seq<nat>)
    requires mass <= MAX_64 && AllPositive(ws) && TrueSum(ws) <= MAX_32
    ensures |r| == |ws|
  {
    SumOfAmounts(ws);
    Portions(mass, Amounts(ws))
  }

  // ----- The region -----

  // An edge of a region of `n` nodes: to one of the headers, which come first, it is a backedge; to a
  // node numbered `n` or more it leaves the region. A function has no header, a natural loop has
  // one, and an irreducible loop has several.
  datatype Edge = Edge(succ: nat, weight: nat)

  function KindOf(headers: nat, n: nat, succ: nat): Kind {
    if succ < headers then Backedge else if succ >= n then Exit else Local
  }

  // Does the edge run backwards to something that is not a header?
  predicate Irreducible(headers: nat, n: nat, pred: nat, succ: nat) {
    KindOf(headers, n, succ).Local? && succ < pred
  }

  function WeightOf(headers: nat, n: nat, e: Edge): Weight {
    Weight(KindOf(headers, n, e.succ), e.succ, if e.weight == 0 then 1 else e.weight)
  }

  function WeightsOf(headers: nat, n: nat, edges: seq<Edge>): (r: seq<Weight>)
    ensures |r| == |edges|
    ensures forall i | 0 <= i < |edges| :: r[i] == WeightOf(headers, n, edges[i])
  {
    seq(|edges|, i requires 0 <= i < |edges| => WeightOf(headers, n, edges[i]))
  }

  // The sum overflows at most once, and its normalized total fits.
  predicate GoodWeights(ws: seq<Weight>) {
    TrueSum(ws) < 2 * TWO_TO_64 && TotalFits(TrueSum(ws), |Targets(ws)|)
  }

  /** What holds of the edges out of one node: 64-bit weights whose normalized total fits, no edge to
      the node itself unless it is a header, and no exit from a whole function. */
  predicate GoodEdges(headers: nat, n: nat, pred: nat, edges: seq<Edge>) {
    && (forall i | 0 <= i < |edges| :: edges[i].weight <= MAX_64)
    && (forall i | 0 <= i < |edges| :: edges[i].succ == pred ==> pred < headers)
    && (forall i | 0 <= i < |edges| :: headers == 0 ==> edges[i].succ < n)
    && GoodWeights(WeightsOf(headers, n, edges))
  }

  predicate GoodRegion(headers: nat, edges: seq<seq<Edge>>) {
    forall k | 0 <= k < |edges| :: GoodEdges(headers, |edges|, k, edges[k])
  }

  lemma WeightsAreCoherent(headers: nat, n: nat, edges: seq<Edge>)
    requires forall i | 0 <= i < |edges| :: edges[i].weight <= MAX_64
    ensures Coherent(WeightsOf(headers, n, edges))
  {
  }

  // Normalized weights of reducible edges point forward.
  lemma NormalIsForward(out: seq<Weight>, headers: nat, n: nat, pred: nat, edges: seq<Edge>)
    requires SameTargets(out, WeightsOf(headers, n, edges)) && GoodEdges(headers, n, pred, edges)
    requires Reducible(headers, n, pred, edges)
    ensures Forward(out, pred, headers, n)
  {
    var ws := WeightsOf(headers, n, edges);
    forall i | 0 <= i < |out|
      ensures out[i].kind.Local? ==> pred < out[i].target < n
      ensures out[i].kind.Backedge? ==> out[i].target < headers
    {
      assert Reaches(ws, out[i].target, out[i].kind);
      var j :| 0 <= j < |ws| && ws[j].target == out[i].target && ws[j].kind == out[i].kind;
      assert ws[j] == WeightOf(headers, n, edges[j]);
    }
  }

  // Prefixes of a list of weights sum up to no more than the list.
  lemma {:induction false} PrefixSum(ws: seq<Weight>, k: nat)
    requires k <= |ws|
    ensures TrueSum(ws[..k]) <= TrueSum(ws)
  {
    if k == |ws| {
      assert ws[..k] == ws;
    } else {
      assert ws[..|ws| - 1][..k] == ws[..k];
      PrefixSum(ws[..|ws| - 1], k);
    }
  }

  predicate Reducible(headers: nat, n: nat, pred: nat, edges: seq<Edge>) {
    forall i | 0 <= i < |edges| :: !Irreducible(headers, n, pred, edges[i].succ)
  }

  lemma ReducibleStep(headers: nat, n: nat, pred: nat, edges: seq<Edge>, i: nat)
    requires i < |edges|
    ensures Reducible(headers, n, pred, edges[..i + 1])
            <==> Reducible(headers, n, pred, edges[..i]) && !Irreducible(headers, n, pred, edges[i].succ)
    ensures Reducible(headers, n, pred, edges) ==> !Irreducible(headers, n, pred, edges[i].succ)
  {
    assert edges[..i + 1] == edges[..i] + [edges[i]];
  }

  lemma PortionsStep(mass: nat, weights: seq<nat>)
    requires mass <= MAX_64 && Sum(weights) <= MAX_32 && weights != []
    requires forall i | 0 <= i < |weights| :: weights[i] > 0
    ensures weights[0] <= Sum(weights)
    ensures Sum(weights[1..]) <= MAX_32
    ensures var p := Portion(mass, weights[0], Sum(weights));
            p <= mass && Portions(mass, weights) == [p] + Portions(mass - p, weights[1..])
  {
    SumOfFirst(weights);
  }

  lemma {:induction false} NothingToGive(f: Flow, ws: seq<Weight>, portions: seq<nat>)
    requires ws == [] && portions == []
    ensures GiveAll(f, ws, portions) == f
  {
  }

  // One portion handed out, and the rest still to do.
  lemma {:induction false} HandOutStep(f: Flow, ws: seq<Weight>, amounts: seq<nat>, mass: nat, i: nat)
    requires i < |ws| && amounts == Amounts(ws) && AllPositive(ws) && mass <= MAX_64 && Sum(amounts[i..]) <= MAX_32
    requires AllPlaced(f, ws)
    ensures 0 < amounts[i] <= Sum(amounts[i..]) && Sum(amounts[i + 1..]) == Sum(amounts[i..]) - amounts[i]
    ensures var p := Portion(mass, amounts[i], Sum(amounts[i..]));
            p <= mass && GiveAll(f, ws[i..], Portions(mass, amounts[i..]))
                         == GiveAll(Give(f, ws[i], p), ws[i + 1..], Portions(mass - p, amounts[i + 1..]))
  {
    SumOfFirst(amounts[i..]);
    PortionsStep(mass, amounts[i..]);
    assert amounts[i..][1..] == amounts[i + 1..] && ws[i..][1..] == ws[i + 1..];
    hide Portions;
    hide Portion;
    hide Give;
    hide Sum;
  }

  /** Handing out the mass of node `k` leaves the outstanding mass as it is; if there is nobody to
      hand it to, it is lost. */
  lemma {:induction false} SharesConserve(f: Flow, ws: seq<Weight>, k: nat)
    requires k < |f.mass| && Outstanding(f, k) <= MAX_64
    requires AllPositive(ws) && TrueSum(ws) <= MAX_32 && Forward(ws, k, |f.backedge|, |f.mass|)
    ensures f.mass[k] <= MAX_64
    ensures var r := GiveAll(f, ws, Shares(f.mass[k], ws));
            && Outstanding(r, k + 1) == Outstanding(f, k) - (if ws == [] then f.mass[k] else 0)
            && r.mass[..k + 1] == f.mass[..k + 1]
  {
    SumOfFirst(f.mass[k..]);
    assert f.mass[k..][1..] == f.mass[k + 1..];
    SumOfAmounts(ws);
    PortionsConserveMass(f.mass[k], Amounts(ws));
    var shares := Shares(f.mass[k], ws);
    hide Shares;
    assert Sum(shares) == if ws == [] then 0 else f.mass[k];
    GiveAllConserves(f, ws, shares, k);
    GiveAllKeeps(f, ws, shares, k);
  }

  lemma {:induction false} GiveAllKeeps(f: Flow, ws: seq<Weight>, portions: seq<nat>, k: nat)
    requires |portions| == |ws| && k < |f.mass| && Forward(ws, k, |f.backedge|, |f.mass|)
    ensures GiveAll(f, ws, portions).mass[..k + 1] == f.mass[..k + 1]
    decreases |ws|
  {
    if ws != [] {
      GiveAllKeeps(Give(f, ws[0], portions[0]), ws[1..], portions[1..], k);
    }
  }

  lemma {:induction false} OneMoreWeight(ws: seq<Weight>, i: nat)
    requires i < |ws| && Coherent(ws) && TrueSum(ws) < 2 * TWO_TO_64
    ensures ws[..i + 1] == ws[..i] + [ws[i]] && Coherent(ws[..i] + [ws[i]])
    ensures TrueSum(ws[..i]) + ws[i].amount < 2 * TWO_TO_64
  {
    assert ws[..i + 1] == ws[..i] + [ws[i]];
    CoherentPrefix(ws, i + 1);
    PrefixSum(ws, i + 1);
    TrueSumAppend(ws[..i], ws[i]);
  }

  // ----- Where every portion goes -----

  // The portions for one target.
  function Part(ws: seq<Weight>, portions: seq<nat>, t: nat): nat
    requires |portions| == |ws|
    decreases |ws|
  {
    if ws == [] then 0
    else (if ws[0].target == t then portions[0] else 0) + Part(ws[1..], portions[1..], t)
  }

  // What leaves the region for one target.
  function ExitTo(exits: seq<(nat, nat)>, t: nat): nat {
    if exits == [] then 0
    else
      var n := |exits| - 1;
      ExitTo(exits[..n], t) + (if exits[n].0 == t then exits[n].1 else 0)
  }

  /** A mass split into fair shares for all weights, without a rest. */
  predicate Splits(mass: nat, ws: seq<Weight>, portions: seq<nat>) {
    && |portions| == |ws| && (ws != [] ==> Sum(portions) == mass)
    && forall i | 0 <= i < |ws| :: FairShare(portions[i], mass, ws[i].amount, TrueSum(ws), i)
  }

  lemma {:induction false} SharesSplit(mass: nat, ws: seq<Weight>)
    requires mass <= MAX_64 && AllPositive(ws) && TrueSum(ws) <= MAX_32
    ensures Splits(mass, ws, Shares(mass, ws))
  {
    SumOfAmounts(ws);
    PortionsConserveMass(mass, Amounts(ws));
    forall i | 0 <= i < |ws| ensures FairShare(Shares(mass, ws)[i], mass, ws[i].amount, TrueSum(ws), i) {
      PortionsAreFair(mass, Amounts(ws), i);
    }
    hide FairShare;
    hide TrueSum;
  }

  /** Every portion has been added in the place that its target stands for: a header that it flows back
      to, a node of the region, or what leaves it. */
  ghost predicate Delivered(f: Flow, r: Flow, ws: seq<Weight>, portions: seq<nat>) {
    var headers, n := |f.backedge|, |f.mass|;
    && |portions| == |ws| && |r.mass| == n && |r.backedge| == headers
    && (forall t | 0 <= t < n :: r.mass[t] == f.mass[t] + (if t >= headers then Part(ws, portions, t) else 0))
    && (forall h | 0 <= h < headers :: r.backedge[h] == f.backedge[h] + Part(ws, portions, h))
    && (forall t: nat | t >= n :: ExitTo(r.exits, t) == ExitTo(f.exits, t) + Part(ws, portions, t))
  }

  predicate RightKinds(ws: seq<Weight>, headers: nat, n: nat) {
    forall i | 0 <= i < |ws| :: ws[i].kind == KindOf(headers, n, ws[i].target)
  }

  lemma NormalKinds(out: seq<Weight>, headers: nat, n: nat, edges: seq<Edge>)
    requires SameTargets(out, WeightsOf(headers, n, edges))
    ensures RightKinds(out, headers, n)
  {
    var ws := WeightsOf(headers, n, edges);
    forall i | 0 <= i < |out| ensures out[i].kind == KindOf(headers, n, out[i].target) {
      assert Reaches(ws, out[i].target, out[i].kind);
      var j :| 0 <= j < |ws| && ws[j].target == out[i].target && ws[j].kind == out[i].kind;
      assert ws[j] == WeightOf(headers, n, edges[j]);
    }
  }

  lemma {:induction false} GiveAllDelivers(f: Flow, ws: seq<Weight>, portions: seq<nat>, k: nat)
    requires |portions| == |ws| && k < |f.mass| && Forward(ws, k, |f.backedge|, |f.mass|)
    requires RightKinds(ws, |f.backedge|, |f.mass|) && |f.backedge| <= |f.mass|
    requires Outstanding(f, k + 1) + Sum(portions) <= MAX_64
    ensures Delivered(f, GiveAll(f, ws, portions), ws, portions)
    decreases |ws|
  {
    if ws == [] {
      return;
    }
    var g := Give(f, ws[0], portions[0]);
    SumOfFirst(portions);
    GiveConserves(f, ws[0], portions[0], k);
    GiveDelivers(f, ws[0], portions[0], k);
    hide Give;
    hide Outstanding;
    hide Sum;
    hide Delivered;
    hide KindOf;
    GiveAllDelivers(g, ws[1..], portions[1..], k);
    DeliveredOnTop(f, g, GiveAll(f, ws, portions), ws, portions);
  }

  lemma {:induction false} DeliveredOnTop(f: Flow, g: Flow, r: Flow, ws: seq<Weight>, portions: seq<nat>)
    requires |portions| == |ws| > 0
    requires Delivered(f, g, [ws[0]], [portions[0]]) && Delivered(g, r, ws[1..], portions[1..])
    ensures Delivered(f, r, ws, portions)
  {
    forall t: nat
      ensures Part(ws, portions, t) == Part([ws[0]], [portions[0]], t) + Part(ws[1..], portions[1..], t)
    {
      assert Part([ws[0]][1..], [portions[0]][1..], t) == 0;
    }
    hide ExitTo;
    hide Part;
  }

  lemma {:induction false} GiveDelivers(f: Flow, w: Weight, x: nat, k: nat)
    requires k < |f.mass| && Placed(f, w) && (w.kind.Local? ==> k < w.target)
    requires w.kind == KindOf(|f.backedge|, |f.mass|, w.target) && |f.backedge| <= |f.mass|
    requires Outstanding(f, k + 1) + x <= MAX_64
    ensures Delivered(f, Give(f, w, x), [w], [x])
  {
    GiveConserves(f, w, x, k);
    hide Outstanding;
    hide Plus;
    assert forall t: nat :: Part([w], [x], t) == if w.target == t then x else 0;
    assert w.kind.Exit? ==> (f.exits + [(w.target, x)])[..|f.exits|] == f.exits;
  }

  // What happened to the nodes of a region, one after the other: the weights of their edges, these in
  // normal form, and the portions of their mass.
  datatype Trace = Trace(lists: seq<seq<Weight>>, dists: seq<seq<Weight>>, portions: seq<seq<nat>>)

  // One portion for every weight of every node.
  predicate AllFit(trace: Trace) {
    |trace.portions| == |trace.dists| && forall j | 0 <= j < |trace.dists| :: |trace.portions[j]| == |trace.dists[j]|
  }

  // All portions for one target.
  function Received(dists: seq<seq<Weight>>, portions: seq<seq<nat>>, t: nat): nat
    requires |portions| == |dists| && forall j | 0 <= j < |dists| :: |portions[j]| == |dists[j]|
  {
    if dists == [] then 0
    else
      var n := |dists| - 1;
      Received(dists[..n], portions[..n], t) + Part(dists[n], portions[n], t)
  }

  // The weights of a list of edges, where 0 stands for 1.
  predicate ListsEdges(list: seq<Weight>, edges: seq<Edge>) {
    && |list| == |edges|
    && forall i | 0 <= i < |edges| ::
         list[i].target == edges[i].succ && list[i].amount == if edges[i].weight == 0 then 1 else edges[i].weight
  }

  /** A node splits its mass over its edges by their normalized weights. */
  ghost predicate NodeSplits(edges: seq<Edge>, list: seq<Weight>, dist: seq<Weight>, portions: seq<nat>, mass: nat) {
    ListsEdges(list, edges) && NormalFormOf(dist, list) && TrueSum(dist) <= MAX_32 && Splits(mass, dist, portions)
  }

  // The first `k` nodes have split their masses.
  ghost predicate AllSplit(edges: seq<seq<Edge>>, trace: Trace, k: nat, mass: seq<nat>) {
    && k <= |edges| == |mass| && |trace.lists| == |trace.dists| == |trace.portions| == k
    && forall j | 0 <= j < k :: NodeSplits(edges[j], trace.lists[j], trace.dists[j], trace.portions[j], mass[j])
  }

  /** Where all mass has gone once the first `k` nodes have split theirs: a node has what it started with
      and all portions for it, a header got back all portions for it, and for every place outside the
      exits add up to all portions for it. */
  ghost predicate Traced(headers: nat, edges: seq<seq<Edge>>, start: seq<nat>, trace: Trace, k: nat, f: Flow) {
    var n := |edges|;
    && |start| == |f.mass| == n && |f.backedge| == headers <= n
    && AllSplit(edges, trace, k, f.mass) && AllFit(trace)
    && (forall t | 0 <= t < n ::
          f.mass[t] == start[t] + (if t >= headers then Received(trace.dists, trace.portions, t) else 0))
    && (forall h | 0 <= h < headers :: f.backedge[h] == Received(trace.dists, trace.portions, h))
    && (forall t: nat | t >= n :: ExitTo(f.exits, t) == Received(trace.dists, trace.portions, t))
  }

  lemma NothingTraced(headers: nat, edges: seq<seq<Edge>>, f: Flow)
    requires |f.mass| == |edges| && |f.backedge| == headers <= |edges| && f.exits == []
    requires forall h | 0 <= h < headers :: f.backedge[h] == 0
    ensures Traced(headers, edges, f.mass, Trace([], [], []), 0, f)
  {
  }

  lemma SplitsStep(edges: seq<seq<Edge>>, trace: Trace, k: nat, was: seq<nat>, mass: seq<nat>, list: seq<Weight>,
                   dist: seq<Weight>, portions: seq<nat>)
    requires k < |edges| && AllSplit(edges, trace, k, was) && |mass| == |was| && mass[..k + 1] == was[..k + 1]
    requires NodeSplits(edges[k], list, dist, portions, was[k])
    ensures AllSplit(edges, Trace(trace.lists + [list], trace.dists + [dist], trace.portions + [portions]), k + 1, mass)
  {
    hide NodeSplits;
    assert forall j | 0 <= j <= k :: mass[j] == mass[..k + 1][j] == was[..k + 1][j] == was[j];
  }

  lemma {:induction false} ReceivedStep(trace: Trace, list: seq<Weight>, dist: seq<Weight>, portions: seq<nat>, t: nat)
    requires AllFit(trace) && |portions| == |dist|
    ensures AllFit(Trace(trace.lists + [list], trace.dists + [dist], trace.portions + [portions]))
    ensures Received(trace.dists + [dist], trace.portions + [portions], t)
            == Received(trace.dists, trace.portions, t) + Part(dist, portions, t)
  {
    hide Part;
    var n := |trace.dists|;
    assert (trace.dists + [dist])[..n] == trace.dists && (trace.portions + [portions])[..n] == trace.portions;
  }

  lemma {:induction false} TracedStep(headers: nat, edges: seq<seq<Edge>>, start: seq<nat>, trace: Trace, k: nat,
                                      f: Flow, r: Flow, list: seq<Weight>, dist: seq<Weight>, portions: seq<nat>)
    requires k < |edges| && Traced(headers, edges, start, trace, k, f) && Delivered(f, r, dist, portions)
    requires r.mass[..k + 1] == f.mass[..k + 1] && NodeSplits(edges[k], list, dist, portions, f.mass[k])
    ensures Traced(headers, edges, start,
                   Trace(trace.lists + [list], trace.dists + [dist], trace.portions + [portions]), k + 1, r)
  {
    hide NodeSplits;
    hide Part;
    hide ExitTo;
    hide Received;
    SplitsStep(edges, trace, k, f.mass, r.mass, list, dist, portions);
    hide AllSplit;
    forall t: nat
      ensures Received(trace.dists + [dist], trace.portions + [portions], t)
              == Received(trace.dists, trace.portions, t) + Part(dist, portions, t)
    {
      ReceivedStep(trace, list, dist, portions, t);
    }
  }

  // ----- The headers of an irreducible loop -----

  function Empty(headers: nat, n: nat): Flow {
    Flow(seq(n, _ => 0), seq(headers, _ => 0), [])
  }

  // The smallest weight that the metadata of a header gives.
  function MinWeight(given: seq<Option<nat>>): Option<nat> {
    if given == [] then None
    else
      var n := |given| - 1;
      var least := MinWeight(given[..n]);
      if given[n].Some? && (least.None? || given[n].value < least.value) then given[n] else least
  }

  // The headers with a weight that is not 0.
  function Given(given: seq<Option<nat>>): seq<Weight> {
    if given == [] then []
    else
      var n := |given| - 1;
      Given(given[..n]) + (if given[n].Some? && given[n].value != 0 then [Weight(Local, n, given[n].value)] else [])
  }

  // The headers without metadata.
  function Missing(given: seq<Option<nat>>, amount: nat): seq<Weight> {
    if given == [] then []
    else
      var n := |given| - 1;
      Missing(given[..n], amount) + (if given[n].None? then [Weight(Local, n, amount)] else [])
  }

  // The weight of a header without metadata: the smallest that is given, or 1.
  function FallbackWeight(given: seq<Option<nat>>): nat {
    if MinWeight(given).Some? then MinWeight(given).value else 1
  }

  function HeaderWeights(given: seq<Option<nat>>): seq<Weight> {
    Given(given) + (if FallbackWeight(given) == 0 then [] else Missing(given, FallbackWeight(given)))
  }

  predicate AllMissing(given: seq<Option<nat>>) {
    forall h | 0 <= h < |given| :: given[h].None?
  }

  predicate GoodHeaders(headers: nat, given: seq<Option<nat>>) {
    && |given| == headers <= TWO_TO_31
    && (forall h | 0 <= h < headers :: given[h].Some? ==> given[h].value <= MAX_64)
    && GoodWeights(HeaderWeights(given))
  }

  // The mass that a region starts with.
  function StartMass(headers: nat, given: seq<Option<nat>>): nat {
    if headers > 1 && HeaderWeights(given) == [] then 0 else MAX_64
  }

  lemma {:induction false} MinIsGiven(given: seq<Option<nat>>)
    ensures MinWeight(given).None? <==> AllMissing(given)
    ensures MinWeight(given).Some? ==> exists h :: 0 <= h < |given| && given[h] == MinWeight(given)
    ensures forall h | 0 <= h < |given| && given[h].Some? ::
              MinWeight(given).Some? && MinWeight(given).value <= given[h].value
  {
    if given != [] {
      var n := |given| - 1;
      MinIsGiven(given[..n]);
      assert given == given[..n] + [given[n]];
    }
  }

  predicate GivenWeight(given: seq<Option<nat>>, w: Weight) {
    w.kind.Local? && w.target < |given| && given[w.target] == Some(w.amount) && w.amount > 0
  }

  predicate MissingWeight(given: seq<Option<nat>>, amount: nat, w: Weight) {
    w.kind.Local? && w.target < |given| && given[w.target].None? && w.amount == amount
  }

  lemma {:induction false} GivenMeans(given: seq<Option<nat>>)
    ensures forall i | 0 <= i < |Given(given)| :: GivenWeight(given, Given(given)[i])
    ensures Given(given) == [] <==> forall h | 0 <= h < |given| :: given[h].Some? ==> given[h].value == 0
  {
    if given != [] {
      var n := |given| - 1;
      var front := given[..n];
      GivenMeans(front);
      forall i | 0 <= i < |Given(given)| ensures GivenWeight(given, Given(given)[i]) {
        if i < |Given(front)| {
          assert GivenWeight(front, Given(front)[i]);
        }
      }
      assert given == front + [given[n]];
    }
  }

  lemma {:induction false} MissingMeans(given: seq<Option<nat>>, amount: nat)
    ensures forall i | 0 <= i < |Missing(given, amount)| :: MissingWeight(given, amount, Missing(given, amount)[i])
    ensures Missing(given, amount) == [] <==> forall h | 0 <= h < |given| :: given[h].Some?
  {
    if given != [] {
      var n := |given| - 1;
      var front := given[..n];
      MissingMeans(front, amount);
      forall i | 0 <= i < |Missing(given, amount)| ensures MissingWeight(given, amount, Missing(given, amount)[i]) {
        if i < |Missing(front, amount)| {
          assert MissingWeight(front, amount, Missing(front, amount)[i]);
        }
      }
      assert forall h | 0 <= h < n :: front[h] == given[h];
    }
  }

  /** An irreducible loop gets no mass at all exactly when some header has metadata and all the
      metadata there is says 0. */
  lemma NoHeaderWeights(given: seq<Option<nat>>)
    requires given != []
    ensures HeaderWeights(given) == []
            <==> !AllMissing(given) && forall h | 0 <= h < |given| :: given[h].Some? ==> given[h].value == 0
  {
    MinIsGiven(given);
    GivenMeans(given);
    MissingMeans(given, FallbackWeight(given));
    hide Given;
    hide Missing;
    hide MinWeight;
    assert given[0].Some? || given[0].None?;
  }

  lemma {:induction false} GivenAmount(given: seq<Option<nat>>, h: nat)
    ensures AmountTo(Given(given), h) == if h < |given| && given[h].Some? then given[h].value else 0
  {
    if given != [] {
      hide AmountTo;
      var n := |given| - 1;
      GivenAmount(given[..n], h);
      if given[n].Some? && given[n].value != 0 {
        AppendAmount(Given(given[..n]), Weight(Local, n, given[n].value), h);
      } else {
        assert Given(given) == Given(given[..n]);
      }
      assert h < n ==> given[..n][h] == given[h];
    }
  }

  lemma {:induction false} MissingAmount(given: seq<Option<nat>>, amount: nat, h: nat)
    ensures AmountTo(Missing(given, amount), h) == if h < |given| && given[h].None? then amount else 0
  {
    if given != [] {
      hide AmountTo;
      var n := |given| - 1;
      MissingAmount(given[..n], amount, h);
      if given[n].None? {
        AppendAmount(Missing(given[..n], amount), Weight(Local, n, amount), h);
      } else {
        assert Missing(given, amount) == Missing(given[..n], amount);
      }
      assert h < n ==> given[..n][h] == given[h];
    }
  }

  /** The weight of a header is what its metadata says; without any it is the least weight that is
      given at all, or 1 if none is. */
  lemma {:induction false} HeaderAmount(given: seq<Option<nat>>, h: nat)
    requires h < |given|
    ensures AmountTo(HeaderWeights(given), h) == if given[h].Some? then given[h].value else FallbackWeight(given)
    ensures AllMissing(given) ==> FallbackWeight(given) == 1
    ensures !AllMissing(given) ==> Some(FallbackWeight(given)) in given
    ensures forall i | 0 <= i < |given| && given[i].Some? :: FallbackWeight(given) <= given[i].value
  {
    MinIsGiven(given);
    GivenAmount(given, h);
    MissingAmount(given, FallbackWeight(given), h);
    AmountOfConcat(Given(given), Missing(given, FallbackWeight(given)), h);
    hide AmountTo;
    hide Given;
    hide Missing;
    hide MinWeight;
    assert FallbackWeight(given) == 0 ==> HeaderWeights(given) == Given(given);
  }

  lemma HeadersAreCoherent(headers: nat, given: seq<Option<nat>>)
    requires GoodHeaders(headers, given)
    ensures Coherent(HeaderWeights(given))
    ensures forall i | 0 <= i < |HeaderWeights(given)| ::
              HeaderWeights(given)[i].kind.Local? && HeaderWeights(given)[i].target < headers
  {
    var ws, least, some := HeaderWeights(given), FallbackWeight(given), Given(given);
    var rest := Missing(given, least);
    MinIsGiven(given);
    GivenMeans(given);
    MissingMeans(given, least);
    assert ws == some + if least == 0 then [] else rest;
    hide Given;
    hide Missing;
    hide MinWeight;
    hide GoodWeights;
    hide HeaderWeights;
    forall i | 0 <= i < |ws| ensures ws[i].kind.Local? && ws[i].target < headers && 0 < ws[i].amount <= MAX_64 {
      if i < |some| {
        assert GivenWeight(given, some[i]);
      } else {
        assert MissingWeight(given, least, rest[i - |some|]);
      }
    }
  }

  // The headers that mass has flowed back to.
  function BackedgeWeights(backedge: seq<nat>): seq<Weight> {
    if backedge == [] then []
    else
      var n := |backedge| - 1;
      BackedgeWeights(backedge[..n]) + (if backedge[n] > 0 then [Weight(Local, n, backedge[n])] else [])
  }

  predicate BackedgeWeight(backedge: seq<nat>, w: Weight) {
    w.kind.Local? && w.target < |backedge| && w.amount == backedge[w.target] > 0
  }

  lemma {:induction false} BackedgesMean(backedge: seq<nat>)
    ensures TrueSum(BackedgeWeights(backedge)) == Sum(backedge) && |BackedgeWeights(backedge)| <= |backedge|
    ensures forall i | 0 <= i < |BackedgeWeights(backedge)| :: BackedgeWeight(backedge, BackedgeWeights(backedge)[i])
  {
    if backedge != [] {
      var n := |backedge| - 1;
      var front := backedge[..n];
      var ws, us := BackedgeWeights(backedge), BackedgeWeights(front);
      BackedgesMean(front);
      TrueSumAppend(us, Weight(Local, n, backedge[n]));
      assert ws == if backedge[n] > 0 then us + [Weight(Local, n, backedge[n])] else us;
      assert Sum(backedge) == Sum(front) + backedge[n];
      hide TrueSum;
      hide Sum;
      hide BackedgeWeights;
      forall i | 0 <= i < |ws| ensures BackedgeWeight(backedge, ws[i]) {
        if i < |us| {
          assert BackedgeWeight(front, us[i]);
        }
      }
    }
  }

  /** The weight of a header is the mass that flowed back to it. */
  lemma {:induction false} BackedgeAmount(backedge: seq<nat>, h: nat)
    ensures AmountTo(BackedgeWeights(backedge), h) == if h < |backedge| then backedge[h] else 0
  {
    if backedge != [] {
      hide AmountTo;
      var n := |backedge| - 1;
      BackedgeAmount(backedge[..n], h);
      if backedge[n] > 0 {
        AppendAmount(BackedgeWeights(backedge[..n]), Weight(Local, n, backedge[n]), h);
      } else {
        assert BackedgeWeights(backedge) == BackedgeWeights(backedge[..n]);
      }
      assert h < n ==> backedge[..n][h] == backedge[h];
    }
  }

  lemma {:induction false} BackedgesAreGood(backedge: seq<nat>)
    requires Sum(backedge) <= MAX_64 && |backedge| <= TWO_TO_31
    ensures var ws := BackedgeWeights(backedge); Coherent(ws) && GoodWeights(ws)
  {
    var ws := BackedgeWeights(backedge);
    hide TrueSum;
    hide Targets;
    hide Sum;
    hide BackedgeWeights;
    BackedgesMean(backedge);
    CountTargets(ws);
    forall i | 0 <= i < |ws| ensures 0 < ws[i].amount <= MAX_64 && ws[i].kind.Local? {
      assert BackedgeWeight(backedge, ws[i]);
      PartOfSum(backedge, ws[i].target);
    }
    hide Coherent;
    hide TotalFits;
    SmallSumsFit(TrueSum(ws), |Targets(ws)|);
  }

  // Portions assigned to nodes, one after the other.
  function Assigned(mass: seq<nat>, ws: seq<Weight>, portions: seq<nat>): (r: seq<nat>)
    requires |portions| == |ws| && forall i | 0 <= i < |ws| :: ws[i].target < |mass|
    ensures |r| == |mass|
    decreases |ws|
  {
    if ws == [] then mass else Assigned(mass[ws[0].target := portions[0]], ws[1..], portions[1..])
  }

  lemma {:induction false} AssignedElsewhere(mass: seq<nat>, ws: seq<Weight>, portions: seq<nat>, t: nat)
    requires |portions| == |ws| && forall i | 0 <= i < |ws| :: ws[i].target < |mass|
    requires t < |mass| && !Targeted(ws, t)
    ensures Assigned(mass, ws, portions)[t] == mass[t]
    decreases |ws|
  {
    if ws != [] {
      assert ws[0].target != t;
      assert forall i | 0 <= i < |ws[1..]| :: ws[1..][i] == ws[i + 1];
      AssignedElsewhere(mass[ws[0].target := portions[0]], ws[1..], portions[1..], t);
    }
  }

  // Every node has its portion, and empty nodes get no more than the portions.
  lemma {:induction false} AssignedShares(mass: seq<nat>, ws: seq<Weight>, portions: seq<nat>)
    requires |portions| == |ws| && DistinctTargets(ws) && forall i | 0 <= i < |ws| :: ws[i].target < |mass|
    ensures forall i | 0 <= i < |ws| :: Assigned(mass, ws, portions)[ws[i].target] == portions[i]
    ensures (forall i | 0 <= i < |ws| :: mass[ws[i].target] == 0) ==>
              Sum(Assigned(mass, ws, portions)) == Sum(mass) + Sum(portions)
    decreases |ws|
  {
    if ws != [] {
      var next := mass[ws[0].target := portions[0]];
      assert forall i | 0 <= i < |ws[1..]| :: ws[1..][i] == ws[i + 1];
      assert !Targeted(ws[1..], ws[0].target);
      AssignedShares(next, ws[1..], portions[1..]);
      AssignedElsewhere(next, ws[1..], portions[1..], ws[0].target);
      SumOfUpdate(mass, ws[0].target, portions[0]);
      SumOfFirst(portions);
    }
  }

  lemma {:induction false} AssignStep(mass: seq<nat>, ws: seq<Weight>, amounts: seq<nat>, rest: nat, i: nat)
    requires i < |ws| && amounts == Amounts(ws) && AllPositive(ws) && rest <= MAX_64 && Sum(amounts[i..]) <= MAX_32
    requires forall k | 0 <= k < |ws| :: ws[k].target < |mass|
    ensures 0 < amounts[i] <= Sum(amounts[i..]) && Sum(amounts[i + 1..]) == Sum(amounts[i..]) - amounts[i]
    ensures var p := Portion(rest, amounts[i], Sum(amounts[i..]));
            p <= rest && Assigned(mass, ws[i..], Portions(rest, amounts[i..]))
                         == Assigned(mass[ws[i].target := p], ws[i + 1..], Portions(rest - p, amounts[i + 1..]))
  {
    SumOfFirst(amounts[i..]);
    PortionsStep(rest, amounts[i..]);
    assert amounts[i..][1..] == amounts[i + 1..] && ws[i..][1..] == ws[i + 1..];
    hide Portions;
    hide Portion;
    hide Sum;
  }

  lemma {:induction false} NothingToAssign(mass: seq<nat>, ws: seq<Weight>, portions: seq<nat>)
    requires ws == [] && portions == []
    ensures Assigned(mass, ws, portions) == mass
  {
  }

  lemma {:induction false} GivenPrefix(given: seq<Option<nat>>, amount: nat, h: nat)
    requires h <= |given|
    ensures Given(given[..h]) <= Given(given) && Missing(given[..h], amount) <= Missing(given, amount)
  {
    if h < |given| {
      assert given[..|given| - 1][..h] == given[..h];
      GivenPrefix(given[..|given| - 1], amount, h);
    } else {
      assert given[..h] == given;
    }
  }

  lemma {:induction false} BackedgePrefix(backedge: seq<nat>, h: nat)
    requires h <= |backedge|
    ensures BackedgeWeights(backedge[..h]) <= BackedgeWeights(backedge)
  {
    if h < |backedge| {
      assert backedge[..|backedge| - 1][..h] == backedge[..h];
      BackedgePrefix(backedge[..|backedge| - 1], h);
    } else {
      assert backedge[..h] == backedge;
    }
  }

  // What is left of local weights when they are normalized.
  lemma NormalIsPlaced(out: seq<Weight>, ws: seq<Weight>, n: nat)
    requires NormalFormOf(out, ws) && forall i | 0 <= i < |ws| :: ws[i].target < n
    ensures AllPositive(out) && DistinctTargets(out) && (out == [] <==> ws == [])
    ensures forall i | 0 <= i < |out| :: out[i].target < n
  {
    NormalIsNonEmpty(out, ws);
    forall i | 0 <= i < |out| ensures out[i].target < n {
      assert Reaches(ws, out[i].target, out[i].kind);
    }
  }

  /** The full mass, split over weights in normal form, stands in place of what their nodes had. */
  ghost predicate Shared(ws: seq<Weight>, was: seq<nat>, mass: seq<nat>) {
    exists out: seq<Weight> ::
      && NormalFormOf(out, ws) && TrueSum(out) <= MAX_32 && Splits(MAX_64, out, Shares(MAX_64, out))
      && |mass| == |was| && (forall t | 0 <= t < |was| && !Targeted(out, t) :: mass[t] == was[t])
      && (forall i | 0 <= i < |out| :: out[i].target < |mass| && mass[out[i].target] == Shares(MAX_64, out)[i])
  }

  // What the nodes of a region start with: all is at the entry, or the headers of an irreducible
  // loop share it.
  ghost predicate Started(headers: nat, given: seq<Option<nat>>, n: nat, start: seq<nat>) {
    if headers > 1 then Shared(HeaderWeights(given), Empty(headers, n).mass, start)
    else 0 < n == |start| && start[0] == MAX_64 && forall t | 0 < t < n :: start[t] == 0
  }

  // What a split leaves, whatever the shares are.
  lemma {:induction false} AssignedMeans(start: seq<nat>, ws: seq<Weight>, portions: seq<nat>)
    requires |portions| == |ws| && DistinctTargets(ws) && forall i | 0 <= i < |ws| :: ws[i].target < |start|
    ensures forall i | 0 <= i < |ws| :: Assigned(start, ws, portions)[ws[i].target] == portions[i]
    ensures forall t | 0 <= t < |start| && !Targeted(ws, t) :: Assigned(start, ws, portions)[t] == start[t]
  {
    AssignedShares(start, ws, portions);
    hide Assigned;
    hide Targeted;
    hide DistinctTargets;
    forall t | 0 <= t < |start| && !Targeted(ws, t) ensures Assigned(start, ws, portions)[t] == start[t] {
      AssignedElsewhere(start, ws, portions, t);
    }
  }

  lemma {:induction false} AssignedIsShared(start: seq<nat>, mass: seq<nat>, out: seq<Weight>, ws: seq<Weight>)
    requires NormalFormOf(out, ws) && TrueSum(out) <= MAX_32 && AllPositive(out)
    requires forall i | 0 <= i < |out| :: out[i].target < |start|
    requires mass == Assigned(start, out, Shares(MAX_64, out))
    ensures Shared(ws, start, mass)
  {
    assert DistinctTargets(out);
    hide NormalFormOf;
    hide AllPositive;
    hide TrueSum;
    hide Splits;
    hide Targeted;
    hide DistinctTargets;
    hide Assigned;
    hide Shares;
    SharesSplit(MAX_64, out);
    AssignedMeans(start, out, Shares(MAX_64, out));
  }

  lemma {:induction false} BackedgesArePlaced(backedge: seq<nat>)
    ensures forall i | 0 <= i < |BackedgeWeights(backedge)| :: BackedgeWeights(backedge)[i].target < |backedge|
  {
    BackedgesMean(backedge);
    hide BackedgeWeights;
    forall i | 0 <= i < |BackedgeWeights(backedge)| ensures BackedgeWeights(backedge)[i].target < |backedge| {
      assert BackedgeWeight(backedge, BackedgeWeights(backedge)[i]);
    }
  }

  // Shares of the full mass, assigned to empty nodes.
  lemma {:induction false} SharesStart(headers: nat, n: nat, ws: seq<Weight>)
    requires AllPositive(ws) && TrueSum(ws) <= MAX_32 && DistinctTargets(ws) && headers <= n
    requires forall i | 0 <= i < |ws| :: ws[i].target < n
    ensures var f := Empty(headers, n);
            Outstanding(f.(mass := Assigned(f.mass, ws, Shares(MAX_64, ws))), 0) == if ws == [] then 0 else MAX_64
  {
    var f := Empty(headers, n);
    EmptySums(headers, n);
    hide Sum;
    hide Outstanding;
    ShareSum(ws);
    hide Shares;
    AssignedShares(f.mass, ws, Shares(MAX_64, ws));
    hide *;
    StartSum(f, Assigned(f.mass, ws, Shares(MAX_64, ws)));
  }

  lemma EmptySums(headers: nat, n: nat)
    ensures Sum(Empty(headers, n).mass) == 0 && Sum(Empty(headers, n).backedge) == 0 && Empty(headers, n).exits == []
  {
    SumOfZeros(Empty(headers, n).mass);
    SumOfZeros(Empty(headers, n).backedge);
  }

  lemma {:induction false} StartSum(f: Flow, mass: seq<nat>)
    requires Sum(f.backedge) == 0 && f.exits == []
    ensures Outstanding(f.(mass := mass), 0) == Sum(mass)
  {
    assert mass[0..] == mass;
  }

  lemma {:induction false} ShareSum(ws: seq<Weight>)
    requires AllPositive(ws) && TrueSum(ws) <= MAX_32
    ensures Sum(Shares(MAX_64, ws)) == if ws == [] then 0 else MAX_64
  {
    SumOfAmounts(ws);
    PortionsConserveMass(MAX_64, Amounts(ws));
    hide TrueSum;
  }

  class MassRegion {
    const headers: nat
    const edges: seq<seq<Edge>>
    // What the metadata of the headers of an irreducible loop says.
    const headerWeights: seq<Option<nat>>
    var mass: seq<nat>
    var backedge: seq<nat>
    var exits: seq<(nat, nat)>
    // The mass of nodes that have no successors.
    ghost var ended: nat

    ghost predicate Valid()
      reads this
    {
      && |mass| == |edges| && |backedge| == headers <= |edges| && GoodRegion(headers, edges)
      && GoodHeaders(headers, headerWeights)
    }

    ghost function State(): Flow
      reads this
    {
      Flow(mass, backedge, exits)
    }

    constructor (headers: nat, edges: seq<seq<Edge>>, headerWeights: seq<Option<nat>>)
      requires headers <= |edges| && GoodRegion(headers, edges) && GoodHeaders(headers, headerWeights)
      ensures Valid() && this.headers == headers && this.edges == edges && this.headerWeights == headerWeights
      ensures State() == Empty(headers, |edges|) && ended == 0
    {
      this.headers, this.edges, this.headerWeights := headers, edges, headerWeights;
      mass, backedge, exits, ended := seq(|edges|, _ => 0), seq(headers, _ => 0), [], 0;
    }

    // Adds an edge to a distribution, unless it is an irreducible backedge.
    method AddToDist(dist: Distribution, pred: nat, e: Edge) returns (ok: bool)
      requires dist.Valid()
      requires Coherent(dist.weights + [WeightOf(headers, |edges|, e)])
      requires TrueSum(dist.weights) + WeightOf(headers, |edges|, e).amount < 2 * TWO_TO_64
      modifies dist
      ensures ok <==> !Irreducible(headers, |edges|, pred, e.succ)
      ensures dist.Valid()
      ensures ok ==> dist.weights == old(dist.weights) + [WeightOf(headers, |edges|, e)]
    {
      var weight := if e.weight == 0 then 1 else e.weight;
      if e.succ < headers {
        dist.Add(e.succ, weight, Backedge);
        return true;
      }
      if e.succ >= |edges| {
        dist.Add(e.succ, weight, Exit);
        return true;
      }
      if e.succ < pred {
        return false;
      }
      dist.Add(e.succ, weight, Local);
      return true;
    }

    method Deliver(w: Weight, taken: nat)
      requires Placed(State(), w)
      modifies this`mass, this`backedge, this`exits
      ensures State() == Give(old(State()), w, taken)
    {
      match w.kind {
        case Local => mass := mass[w.target := Plus(mass[w.target], taken)];
        case Backedge => backedge := backedge[w.target := Plus(backedge[w.target], taken)];
        case Exit => exits := exits + [(w.target, taken)];
      }
    }

    // One round of the loop below: what is still to do afterwards gives the same result.
    method HandOut(d: DitheringDistributer, ws: seq<Weight>, ghost amounts: seq<nat>, i: nat)
      requires i < |ws| && amounts == Amounts(ws) && AllPositive(ws) && Forward(ws, 0, |backedge|, |mass|)
      requires d.remMass <= MAX_64 && d.remWeight == Sum(amounts[i..]) <= MAX_32
      modifies d, this`mass, this`backedge, this`exits
      ensures |mass| == old(|mass|) && |backedge| == old(|backedge|)
      ensures d.remMass <= MAX_64 && d.remWeight == Sum(amounts[i + 1..]) <= MAX_32
      ensures GiveAll(State(), ws[i + 1..], Portions(d.remMass, amounts[i + 1..]))
              == GiveAll(old(State()), ws[i..], Portions(old(d.remMass), amounts[i..]))
    {
      hide GiveAll;
      hide Sum;
      hide Portions;
      hide Portion;
      HandOutStep(State(), ws, amounts, d.remMass, i);
      var taken := d.TakeMass(ws[i].amount);
      Deliver(ws[i], taken);
    }

    // One weight after the other.
    method HandOutAll(d: DitheringDistributer, ws: seq<Weight>, ghost amounts: seq<nat>)
      requires amounts == Amounts(ws) && AllPositive(ws) && Forward(ws, 0, |backedge|, |mass|)
      requires d.remMass <= MAX_64 && d.remWeight == Sum(amounts) <= MAX_32
      modifies d, this`mass, this`backedge, this`exits
      ensures |mass| == old(|mass|) && |backedge| == old(|backedge|)
      ensures State() == GiveAll(old(State()), ws, Portions(old(d.remMass), amounts))
    {
      ghost var whole := GiveAll(State(), ws, Portions(d.remMass, amounts));
      hide GiveAll;
      hide Sum;
      hide Portions;
      hide AllPositive;
      assert ws[0..] == ws && amounts[0..] == amounts;
      for i := 0 to |ws|
        invariant |mass| == old(|mass|) && |backedge| == old(|backedge|)
        invariant d.remMass <= MAX_64 && d.remWeight == Sum(amounts[i..]) <= MAX_32
        invariant GiveAll(State(), ws[i..], Portions(d.remMass, amounts[i..])) == whole
      {
        HandOut(d, ws, amounts, i);
      }
      NothingToGive(State(), ws[|ws|..], Portions(d.remMass, amounts[|ws|..]));
    }

    /** The weights take their shares of the mass of `source`, one after the other. */
    method DistributeMass(source: nat, dist: Distribution)
      requires Valid() && source < |edges| && mass[source] <= MAX_64
      requires AllPositive(dist.weights) && dist.total == TrueSum(dist.weights) <= MAX_32
      requires Forward(dist.weights, source, headers, |edges|)
      modifies this`mass, this`backedge, this`exits
      ensures Valid()
      ensures State() == GiveAll(old(State()), dist.weights, Shares(old(mass[source]), dist.weights))
    {
      var ws := dist.weights;
      SumOfAmounts(ws);
      hide GiveAll;
      hide Sum;
      hide Portions;
      hide TrueSum;
      hide GoodRegion;
      hide GoodHeaders;
      var d := new DitheringDistributer(dist.total, mass[source]);
      HandOutAll(d, ws, Amounts(ws));
    }

    // The distribution over the successors of a node.
    method Successors(node: nat) returns (ok: bool, dist: Distribution)
      requires Valid() && node < |edges|
      ensures fresh(dist) && dist.Valid()
      ensures ok <==> Reducible(headers, |edges|, node, edges[node])
      ensures ok ==> dist.weights == WeightsOf(headers, |edges|, edges[node])
    {
      dist := new Distribution();
      ghost var ws := WeightsOf(headers, |edges|, edges[node]);
      WeightsAreCoherent(headers, |edges|, edges[node]);
      assert GoodEdges(headers, |edges|, node, edges[node]);
      NoEdges(headers, |edges|, node);
      hide Coherent;
      hide Irreducible;
      hide Reducible;
      hide TrueSum;
      hide GoodEdges;
      hide GoodRegion;
      hide Pow2;
      hide WeightsOf;
      hide WeightOf;
      assert edges[node][..0] == [] && ws[..0] == [];
      for i := 0 to |edges[node]|
        invariant fresh(dist) && dist.Valid() && dist.weights == ws[..i]
        invariant Reducible(headers, |edges|, node, edges[node][..i])
      {
        OneMoreWeight(ws, i);
        ReducibleStep(headers, |edges|, node, edges[node], i);
        var added := AddToDist(dist, node, edges[node][i]);
        if !added {
          return false, dist;
        }
      }
      assert ws[..|ws|] == ws && edges[node][..|edges[node]|] == edges[node];
      return true, dist;
    }

    // The same in normal form.
    method NormalSuccessors(node: nat) returns (ok: bool, dist: Distribution)
      requires Valid() && node < |edges|
      ensures fresh(dist) && (ok <==> Reducible(headers, |edges|, node, edges[node]))
      ensures ok ==> NormalFormOf(dist.weights, WeightsOf(headers, |edges|, edges[node]))
                     && dist.total == TrueSum(dist.weights) <= MAX_32
    {
      assert GoodEdges(headers, |edges|, node, edges[node]);
      hide Coherent;
      hide Targets;
      hide TrueSum;
      hide GoodRegion;
      hide GoodHeaders;
      hide Reducible;
      hide NormalFormOf;
      hide TotalFits;
      ok, dist := Successors(node);
      if ok {
        dist.Normalize();
      }
    }

    /** Splits the mass of a node over its edges by their normalized weights. */
    method PropagateMassToSuccessors(node: nat) returns (ok: bool, ghost out: seq<Weight>, ghost portions: seq<nat>)
      requires Valid() && node < |edges| && Outstanding(State(), node) + ended <= MAX_64
      modifies this
      ensures Valid()
      ensures ok <==> Reducible(headers, |edges|, node, edges[node])
      ensures ok ==> Outstanding(State(), node + 1) + ended == old(Outstanding(State(), node) + ended)
      ensures ok ==> mass[..node + 1] == old(mass[..node + 1])
      ensures ok ==> NodeSplits(edges[node], WeightsOf(headers, |edges|, edges[node]), out, portions, old(mass[node]))
      ensures ok ==> Delivered(old(State()), State(), out, portions)
      ensures edges[node] != [] ==> ended == old(ended)
    {
      hide GoodRegion;
      hide GoodHeaders;
      hide Reducible;
      hide Forward;
      hide AllPositive;
      hide NormalFormOf;
      hide Outstanding;
      hide GiveAll;
      hide Shares;
      hide TrueSum;
      hide Delivered;
      hide NodeSplits;
      var dist: Distribution;
      out, portions := [], [];
      ok, dist := NormalSuccessors(node);
      if !ok {
        return;
      }
      NormalConserves(State(), dist.weights, headers, node, edges);
      NormalDelivers(State(), dist.weights, headers, node, edges);
      out := dist.weights;
      portions := Shares(mass[node], out);
      DistributeMass(node, dist);
      if edges[node] == [] {
        ended := ended + mass[node];
      }
    }

    // One round of the loop below.
    method AssignOne(d: DitheringDistributer, ws: seq<Weight>, ghost amounts: seq<nat>, i: nat)
      requires i < |ws| && amounts == Amounts(ws) && AllPositive(ws)
               && forall k | 0 <= k < |ws| :: ws[k].target < |mass|
      requires d.remMass <= MAX_64 && d.remWeight == Sum(amounts[i..]) <= MAX_32
      modifies d, this`mass
      ensures |mass| == old(|mass|)
      ensures d.remMass <= MAX_64 && d.remWeight == Sum(amounts[i + 1..]) <= MAX_32
      ensures Assigned(mass, ws[i + 1..], Portions(d.remMass, amounts[i + 1..]))
              == Assigned(old(mass), ws[i..], Portions(old(d.remMass), amounts[i..]))
    {
      AssignStep(mass, ws, amounts, d.remMass, i);
      hide Assigned;
      hide Sum;
      hide Portions;
      hide Portion;
      var taken := d.TakeMass(ws[i].amount);
      mass := mass[ws[i].target := taken];
    }

    // The weights take their shares of the full mass, in place of what their nodes had.
    method AssignMass(dist: Distribution)
      requires AllPositive(dist.weights) && dist.total == TrueSum(dist.weights) <= MAX_32
      requires forall i | 0 <= i < |dist.weights| :: dist.weights[i].target < |mass|
      modifies this`mass
      ensures mass == Assigned(old(mass), dist.weights, Shares(MAX_64, dist.weights))
    {
      ghost var start := mass;
      var ws := dist.weights;
      ghost var amounts := Amounts(ws);
      SumOfAmounts(ws);
      hide Assigned;
      hide Sum;
      hide Portions;
      hide TrueSum;
      var d := new DitheringDistributer(dist.total, MAX_64);
      assert ws[0..] == ws && amounts[0..] == amounts;
      for i := 0 to |ws|
        invariant fresh(d) && |mass| == |start|
        invariant d.remMass <= MAX_64 && d.remWeight == Sum(amounts[i..]) <= MAX_32
        invariant Assigned(mass, ws[i..], Portions(d.remMass, amounts[i..]))
                == Assigned(start, ws, Portions(MAX_64, amounts))
      {
        AssignOne(d, ws, amounts, i);
      }
      NothingToAssign(mass, ws[|ws|..], Portions(d.remMass, amounts[|ws|..]));
    }

    method AddHeader(dist: Distribution, h: nat, amount: nat, ghost ws: seq<Weight>)
      requires dist.Valid() && Coherent(ws) && TrueSum(ws) < 2 * TWO_TO_64
      requires dist.weights + [Weight(Local, h, amount)] <= ws
      modifies dist
      ensures dist.Valid() && dist.weights == old(dist.weights) + [Weight(Local, h, amount)]
    {
      ghost var i := |dist.weights|;
      assert ws[..i] == dist.weights && ws[i] == Weight(Local, h, amount);
      OneMoreWeight(ws, i);
      hide TrueSum;
      hide Coherent;
      dist.Add(h, amount, Local);
    }

    // The weights that metadata gives, and the smallest of them.
    method GivenWeights(ghost ws: seq<Weight>) returns (dist: Distribution, least: Option<nat>)
      requires Valid() && Coherent(ws) && TrueSum(ws) < 2 * TWO_TO_64 && Given(headerWeights) <= ws
      ensures fresh(dist) && dist.Valid() && dist.weights == Given(headerWeights) && least == MinWeight(headerWeights)
    {
      hide Coherent;
      hide TrueSum;
      hide GoodRegion;
      hide GoodWeights;
      dist := new Distribution();
      least := None;
      for h := 0 to headers
        invariant fresh(dist) && dist.Valid()
        invariant dist.weights == Given(headerWeights[..h]) && least == MinWeight(headerWeights[..h])
      {
        assert headerWeights[..h + 1][..h] == headerWeights[..h];
        GivenPrefix(headerWeights, 0, h + 1);
        if headerWeights[h].Some? {
          var amount := headerWeights[h].value;
          if least.None? || amount < least.value {
            least := headerWeights[h];
          }
          if amount != 0 {
            AddHeader(dist, h, amount, ws);
          }
        }
      }
      assert headerWeights[..headers] == headerWeights;
    }

    // A weight for every header without metadata.
    method MissingWeights(dist: Distribution, amount: nat, ghost ws: seq<Weight>)
      requires Valid() && Coherent(ws) && TrueSum(ws) < 2 * TWO_TO_64
      requires dist.Valid() && dist.weights + Missing(headerWeights, amount) <= ws
      modifies dist
      ensures dist.Valid() && dist.weights == old(dist.weights) + Missing(headerWeights, amount)
    {
      hide Coherent;
      hide TrueSum;
      hide GoodRegion;
      hide GoodWeights;
      ghost var start := dist.weights;
      for h := 0 to headers
        invariant dist.Valid() && dist.weights == start + Missing(headerWeights[..h], amount)
      {
        assert headerWeights[..h + 1][..h] == headerWeights[..h];
        GivenPrefix(headerWeights, amount, h + 1);
        if headerWeights[h].None? {
          AddHeader(dist, h, amount, ws);
        }
      }
      assert headerWeights[..headers] == headerWeights;
    }

    // The weights of the headers, and whether any header has metadata: first those that are given,
    // then the smallest of them for the others.
    method HeaderDistribution() returns (dist: Distribution, weighted: bool)
      requires Valid()
      ensures fresh(dist) && dist.Valid() && dist.weights == HeaderWeights(headerWeights)
      ensures weighted <==> !AllMissing(headerWeights)
    {
      ghost var ws := HeaderWeights(headerWeights);
      HeadersAreCoherent(headers, headerWeights);
      MinIsGiven(headerWeights);
      hide Coherent;
      hide TrueSum;
      hide GoodRegion;
      hide TotalFits;
      hide Given;
      hide Missing;
      hide MinWeight;
      var least: Option<nat>;
      dist, least := GivenWeights(ws);
      weighted := least.Some?;
      var amount := if least.Some? then least.value else 1;
      if amount != 0 {
        MissingWeights(dist, amount, ws);
      }
    }

    // The weights of the headers in normal form.
    method NormalHeaders() returns (dist: Distribution, weighted: bool)
      requires Valid()
      ensures fresh(dist) && (weighted <==> !AllMissing(headerWeights))
      ensures NormalFormOf(dist.weights, HeaderWeights(headerWeights))
      ensures dist.total == TrueSum(dist.weights) <= MAX_32
    {
      HeadersAreCoherent(headers, headerWeights);
      hide Coherent;
      hide GoodRegion;
      hide TotalFits;
      hide Targets;
      hide HeaderWeights;
      hide NormalFormOf;
      hide TrueSum;
      dist, weighted := HeaderDistribution();
      dist.Normalize();
    }

    /** Distributes the full mass over the headers of an irreducible loop. */
    method DistributeHeaderMass() returns (weighted: bool, ghost out: seq<Weight>)
      requires Valid() && State() == Empty(headers, |edges|)
      modifies this`mass
      ensures Valid() && (weighted <==> !AllMissing(headerWeights))
      ensures NormalFormOf(out, HeaderWeights(headerWeights)) && AllPositive(out) && TrueSum(out) <= MAX_32
      ensures |mass| == old(|mass|) && (forall i | 0 <= i < |out| :: out[i].target < headers)
      ensures mass == Assigned(old(mass), out, Shares(MAX_64, out))
      ensures Outstanding(State(), 0) == if HeaderWeights(headerWeights) == [] then 0 else MAX_64
    {
      hide GoodRegion;
      hide HeaderWeights;
      hide NormalFormOf;
      hide TrueSum;
      hide AllPositive;
      hide DistinctTargets;
      hide Outstanding;
      hide Assigned;
      hide Shares;
      HeadersAreCoherent(headers, headerWeights);
      hide Coherent;
      hide GoodHeaders;
      var dist: Distribution;
      dist, weighted := NormalHeaders();
      out := dist.weights;
      NormalIsPlaced(out, HeaderWeights(headerWeights), headers);
      SharesStart(headers, |edges|, out);
      AssignMass(dist);
    }

    // The headers that mass has flowed back to, with this mass as their weight.
    method BackedgeDistribution() returns (dist: Distribution)
      requires Valid() && Sum(backedge) <= MAX_64
      ensures fresh(dist) && dist.Valid() && dist.weights == BackedgeWeights(backedge)
    {
      hide Coherent;
      hide GoodRegion;
      hide TotalFits;
      hide TrueSum;
      hide Sum;
      hide Targets;
      hide HeaderWeights;
      dist := new Distribution();
      ghost var ws := BackedgeWeights(backedge);
      BackedgesAreGood(backedge);
      for h := 0 to headers
        invariant fresh(dist) && dist.Valid() && dist.weights == BackedgeWeights(backedge[..h])
      {
        assert backedge[..h + 1][..h] == backedge[..h];
        BackedgePrefix(backedge, h + 1);
        if backedge[h] > 0 {
          AddHeader(dist, h, backedge[h], ws);
        }
      }
      assert backedge[..headers] == backedge;
    }

    /** Distributes the full mass over the headers once more, by the mass that flowed back to each. */
    method AdjustLoopHeaderMass()
      requires Valid() && Sum(backedge) <= MAX_64
      modifies this`mass
      ensures Valid() && Shared(BackedgeWeights(backedge), old(mass), mass)
    {
      assert headers <= TWO_TO_31;
      hide Coherent;
      hide GoodRegion;
      hide GoodHeaders;
      hide TotalFits;
      hide TrueSum;
      hide Sum;
      hide Targets;
      hide BackedgeWeights;
      hide Shared;
      hide NormalFormOf;
      hide AllPositive;
      hide DistinctTargets;
      hide Assigned;
      hide Shares;
      ghost var start := mass;
      var dist := BackedgeDistribution();
      BackedgesAreGood(backedge);
      dist.Normalize();
      ghost var out := dist.weights;
      BackedgesArePlaced(backedge);
      NormalIsPlaced(out, BackedgeWeights(backedge), headers);
      AssignMass(dist);
      AssignedIsShared(start, mass, out, BackedgeWeights(backedge));
    }

    /** Starts with the full mass at the entry, or shared by the headers of an irreducible loop.
        Unless an irreducible edge stops it, all of this mass comes back to a header, leaves through an
        exit or ends in a node without successors. */
    method ComputeMass() returns (ok: bool, ghost start: seq<nat>, ghost trace: Trace, ghost flowed: Flow)
      requires Valid() && edges != [] && State() == Empty(headers, |edges|) && ended == 0
      modifies this
      ensures Valid()
      ensures ok <==> forall k | 0 <= k < |edges| :: Reducible(headers, |edges|, k, edges[k])
      ensures ok ==> Sum(backedge) + ExitSum(exits) + ended == StartMass(headers, headerWeights)
      ensures ok && (forall k | 0 <= k < |edges| :: edges[k] != []) ==> ended == 0
      ensures ok && headers <= 1 ==> mass[0] == MAX_64
      ensures ok ==> Started(headers, headerWeights, |edges|, start)
      ensures ok ==> Traced(headers, edges, start, trace, |edges|, flowed)
      ensures ok ==> backedge == flowed.backedge && exits == flowed.exits
      ensures ok ==> if headers > 1 && AllMissing(headerWeights)
                     then Shared(BackedgeWeights(backedge), flowed.mass, mass) else mass == flowed.mass
    {
      hide Outstanding;
      hide Reducible;
      hide GoodRegion;
      hide GoodHeaders;
      hide HeaderWeights;
      hide Shared;
      hide NodeSplits;
      hide Delivered;
      hide Traced;
      var weighted;
      weighted, start := StartHeaders();
      trace, flowed := Trace([], [], []), State();
      NothingTraced(headers, edges, State());
      for k := 0 to |edges|
        invariant Valid() && (headers <= 1 ==> mass[0] == MAX_64)
        invariant Outstanding(State(), k) + ended == StartMass(headers, headerWeights)
        invariant forall j | 0 <= j < k :: Reducible(headers, |edges|, j, edges[j])
        invariant (forall j | 0 <= j < k :: edges[j] != []) ==> ended == 0
        invariant Traced(headers, edges, start, trace, k, State())
      {
        ghost var before := State();
        ghost var out, portions;
        ok, out, portions := PropagateMassToSuccessors(k);
        if !ok {
          return;
        }
        assert mass[0] == mass[..k + 1][0] == before.mass[..k + 1][0];
        ghost var list := WeightsOf(headers, |edges|, edges[k]);
        TracedStep(headers, edges, start, trace, k, before, State(), list, out, portions);
        trace := Trace(trace.lists + [list], trace.dists + [out], trace.portions + [portions]);
      }
      flowed := State();
      NothingLeft(State());
      if headers > 1 && !weighted {
        AdjustLoopHeaderMass();
      }
      ok := true;
    }

    // The mass that the region starts with.
    method StartHeaders() returns (weighted: bool, ghost start: seq<nat>)
      requires Valid() && edges != [] && State() == Empty(headers, |edges|)
      modifies this`mass
      ensures Valid() && mass == start && Started(headers, headerWeights, |edges|, start)
      ensures headers > 1 ==> (weighted <==> !AllMissing(headerWeights))
      ensures Outstanding(State(), 0) == StartMass(headers, headerWeights)
    {
      hide Outstanding;
      hide GoodRegion;
      hide GoodHeaders;
      hide HeaderWeights;
      hide Assigned;
      hide NormalFormOf;
      hide AllPositive;
      hide Shares;
      hide Shared;
      weighted := true;
      ghost var out;
      if headers > 1 {
        weighted, out := DistributeHeaderMass();
        AssignedIsShared(Empty(headers, |edges|).mass, mass, out, HeaderWeights(headerWeights));
      } else {
        AllAtEntry(headers, |edges|);
        mass := mass[0 := MAX_64];
      }
      start := mass;
    }
  }

  // Distributing the mass of a node over its normalized successors.
  lemma {:induction false} NormalConserves(f: Flow, out: seq<Weight>, headers: nat, node: nat, edges: seq<seq<Edge>>)
    requires node < |edges| == |f.mass| && |f.backedge| == headers
             && GoodRegion(headers, edges) && Outstanding(f, node) <= MAX_64
    requires Reducible(headers, |edges|, node, edges[node])
    requires NormalFormOf(out, WeightsOf(headers, |edges|, edges[node])) && TrueSum(out) <= MAX_32
    ensures AllPositive(out) && Forward(out, node, headers, |edges|) && f.mass[node] <= MAX_64
    ensures var r := GiveAll(f, out, Shares(f.mass[node], out));
            && Outstanding(r, node + 1) == Outstanding(f, node) - (if edges[node] == [] then f.mass[node] else 0)
            && r.mass[..node + 1] == f.mass[..node + 1]
  {
    var ws := WeightsOf(headers, |edges|, edges[node]);
    assert GoodEdges(headers, |edges|, node, edges[node]);
    hide GoodEdges;
    NormalIsForward(out, headers, |edges|, node, edges[node]);
    NormalIsNonEmpty(out, ws);
    hide *;
    SharesConserve(f, out, node);
  }

  // Where the portions go, and that they are fair.
  lemma {:induction false} NormalDelivers(f: Flow, out: seq<Weight>, headers: nat, node: nat, edges: seq<seq<Edge>>)
    requires node < |edges| == |f.mass| && |f.backedge| == headers <= |edges|
             && GoodRegion(headers, edges) && Outstanding(f, node) <= MAX_64
    requires Reducible(headers, |edges|, node, edges[node])
    requires NormalFormOf(out, WeightsOf(headers, |edges|, edges[node])) && TrueSum(out) <= MAX_32
    ensures AllPositive(out) && Forward(out, node, headers, |edges|) && f.mass[node] <= MAX_64
    ensures Delivered(f, GiveAll(f, out, Shares(f.mass[node], out)), out, Shares(f.mass[node], out))
    ensures NodeSplits(edges[node], WeightsOf(headers, |edges|, edges[node]), out, Shares(f.mass[node], out),
                       f.mass[node])
  {
    NormalConserves(f, out, headers, node, edges);
    NormalKinds(out, headers, |edges|, edges[node]);
    EdgesListed(headers, |edges|, edges[node]);
    hide NormalFormOf;
    hide GoodRegion;
    hide Reducible;
    hide AllPositive;
    hide Forward;
    hide TrueSum;
    hide GiveAll;
    hide Shares;
    hide RightKinds;
    hide Splits;
    hide ListsEdges;
    hide Delivered;
    hide Outstanding;
    SharesSplit(f.mass[node], out);
    SharesFit(f, out, node);
    GiveAllDelivers(f, out, Shares(f.mass[node], out), node);
  }

  lemma EdgesListed(headers: nat, n: nat, edges: seq<Edge>)
    ensures ListsEdges(WeightsOf(headers, n, edges), edges)
  {
  }

  lemma {:induction false} SharesFit(f: Flow, ws: seq<Weight>, k: nat)
    requires k < |f.mass| && Outstanding(f, k) <= MAX_64 && AllPositive(ws) && TrueSum(ws) <= MAX_32
    requires f.mass[k] <= MAX_64
    ensures Outstanding(f, k + 1) + Sum(Shares(f.mass[k], ws)) <= MAX_64
  {
    SumOfFirst(f.mass[k..]);
    assert f.mass[k..][1..] == f.mass[k + 1..];
    SumOfAmounts(ws);
    PortionsConserveMass(f.mass[k], Amounts(ws));
    assert ws == [] ==> Shares(f.mass[k], ws) == [];
    hide TrueSum;
  }

  lemma NoEdges(headers: nat, n: nat, pred: nat)
    ensures Reducible(headers, n, pred, [])
  {
  }

  lemma NormalIsNonEmpty(out: seq<Weight>, ws: seq<Weight>)
    requires SameTargets(out, ws)
    ensures out == [] <==> ws == []
  {
    if ws != [] {
      assert Targeted(out, ws[0].target);
    }
    if out != [] {
      assert Reaches(ws, out[0].target, out[0].kind);
    }
  }

  lemma AllAtEntry(headers: nat, n: nat)
    requires n > 0
    ensures var f := Empty(headers, n); Outstanding(f.(mass := f.mass[0 := MAX_64]), 0) == MAX_64
  {
    var f := Empty(headers, n);
    SumOfZeros(f.mass);
    SumOfZeros(f.backedge);
    SumOfUpdate(f.mass, 0, MAX_64);
    assert f.mass[0 := MAX_64][0..] == f.mass[0 := MAX_64];
  }

  lemma NothingLeft(f: Flow)
    ensures Outstanding(f, |f.mass|) == Sum(f.backedge) + ExitSum(f.exits)
  {
    assert f.mass[|f.mass|..] == [];
  }
}
