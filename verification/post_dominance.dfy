/** Blocks from which every path ends in an unreachable instruction, or meets a cold call
    (llvm/lib/Analysis/BranchProbabilityInfo.cpp). */
module PostDominance {

  datatype Terminator = Unreachable | Deoptimize | Invoke(normal: nat) | Other

  datatype Block = Block(successors: seq<nat>, terminator: Terminator, coldCall: bool)

  type Cfg = nat -> Block

  ghost predicate WellFormed(cfg: Cfg) {
    forall b: nat :: cfg(b).terminator.Invoke? ==> cfg(b).terminator.normal in cfg(b).successors
  }

  // ----- What the walk collects -----

  // What a path is to meet: a block that ends in an unreachable instruction or a deoptimization.
  function Dead(cfg: Cfg): nat -> bool {
    (b: nat) => cfg(b).successors == [] && (cfg(b).terminator.Unreachable? || cfg(b).terminator.Deoptimize?)
  }

  // A block with a cold call, unless the function ends in it.
  function Cold(cfg: Cfg): nat -> bool {
    (b: nat) => cfg(b).successors != [] && cfg(b).coldCall
  }

  // The edges that count: not those to the unwind destinations of invokes.
  function Likely(cfg: Cfg): nat -> seq<nat> {
    (b: nat) => if cfg(b).terminator.Invoke? then [cfg(b).terminator.normal] else cfg(b).successors
  }

  function Visit(b: nat, goal: nat -> bool, edges: nat -> seq<nat>, found: set<nat>): set<nat> {
    if goal(b) || (edges(b) != [] && forall i | 0 <= i < |edges(b)| :: edges(b)[i] in found) then found + {b} else found
  }

  function VisitAll(order: seq<nat>, goal: nat -> bool, edges: nat -> seq<nat>): set<nat> {
    if order == [] then {}
    else Visit(order[|order| - 1], goal, edges, VisitAll(order[..|order| - 1], goal, edges))
  }

  // ----- The walk -----

  class BranchProbabilityInfo {
    const cfg: Cfg
    var postDominatedByUnreachable: set<nat>
    var postDominatedByColdCall: set<nat>

    constructor (cfg: Cfg)
      ensures this.cfg == cfg && postDominatedByUnreachable == {} && postDominatedByColdCall == {}
    {
      this.cfg := cfg;
      postDominatedByUnreachable, postDominatedByColdCall := {}, {};
    }

    method UpdatePostDominatedByUnreachable(b: nat)
      requires WellFormed(cfg)
      modifies this`postDominatedByUnreachable
      ensures postDominatedByUnreachable ==
              Visit(b, Dead(cfg), Likely(cfg), old(postDominatedByUnreachable))
    {
      var block := cfg(b);
      if |block.successors| == 0 {
        if block.terminator.Unreachable? || block.terminator.Deoptimize? {
          postDominatedByUnreachable := postDominatedByUnreachable + {b};
        }
        return;
      }
      if block.terminator.Invoke? {
        assert Likely(cfg)(b) == [block.terminator.normal] && Likely(cfg)(b)[0] == block.terminator.normal;
        if block.terminator.normal in postDominatedByUnreachable {
          postDominatedByUnreachable := postDominatedByUnreachable + {b};
        }
        return;
      }
      for i := 0 to |block.successors|
        invariant forall k | 0 <= k < i :: block.successors[k] in postDominatedByUnreachable
        invariant postDominatedByUnreachable == old(postDominatedByUnreachable)
      {
        if block.successors[i] !in postDominatedByUnreachable {
          assert Likely(cfg)(b)[i] == block.successors[i];
          return;
        }
      }
      postDominatedByUnreachable := postDominatedByUnreachable + {b};
    }

    method UpdatePostDominatedByColdCall(b: nat)
      requires WellFormed(cfg)
      modifies this`postDominatedByColdCall
      ensures postDominatedByColdCall == Visit(b, Cold(cfg), Likely(cfg), old(postDominatedByColdCall))
    {
      var block := cfg(b);
      if |block.successors| == 0 {
        return;
      }
      if forall i | 0 <= i < |block.successors| :: block.successors[i] in postDominatedByColdCall {
        postDominatedByColdCall := postDominatedByColdCall + {b};
        return;
      }
      if block.terminator.Invoke? {
        if block.terminator.normal in postDominatedByColdCall {
          postDominatedByColdCall := postDominatedByColdCall + {b};
          return;
        }
      }
      assert |Likely(cfg)(b)| > 0;
      assert exists i :: 0 <= i < |Likely(cfg)(b)| && Likely(cfg)(b)[i] !in postDominatedByColdCall by {
        if block.terminator.Invoke? {
          assert Likely(cfg)(b)[0] == block.terminator.normal;
        }
      }
      if block.coldCall {
        postDominatedByColdCall := postDominatedByColdCall + {b};
      }
    }

    // The two sets at the end of the walk over the blocks in the given order.
    method Calculate(order: seq<nat>)
      requires WellFormed(cfg) && postDominatedByUnreachable == {} && postDominatedByColdCall == {}
      modifies this
      ensures postDominatedByUnreachable == VisitAll(order, Dead(cfg), Likely(cfg))
      ensures postDominatedByColdCall == VisitAll(order, Cold(cfg), Likely(cfg))
    {
      for i := 0 to |order|
        invariant postDominatedByUnreachable == VisitAll(order[..i], Dead(cfg), Likely(cfg))
        invariant postDominatedByColdCall == VisitAll(order[..i], Cold(cfg), Likely(cfg))
      {
        assert order[..i + 1][..i] == order[..i];
        UpdatePostDominatedByUnreachable(order[i]);
        UpdatePostDominatedByColdCall(order[i]);
      }
      assert order[..|order|] == order;
    }
  }

  // ----- What it means -----

  // A path along counted edges from `b` that has not met a goal.
  predicate GoalFree(p: seq<nat>, b: nat, goal: nat -> bool, edges: nat -> seq<nat>) {
    && p != [] && p[0] == b
    && (forall i | 0 <= i < |p| :: !goal(p[i]))
    && (forall i, j | 0 <= i && j == i + 1 < |p| :: p[j] in edges(p[i]))
  }

  predicate Distinct(p: seq<nat>) {
    forall i, j | 0 <= i < j < |p| :: p[i] != p[j]
  }

  /** Whichever way one goes from `b`, one meets a goal after finitely many steps: no path that has
      not met one ends, and none comes back to where it has been. */
  ghost predicate Inevitable(b: nat, goal: nat -> bool, edges: nat -> seq<nat>) {
    forall p | GoalFree(p, b, goal, edges) :: edges(p[|p| - 1]) != [] && Distinct(p)
  }

  lemma {:induction false} OnlyVisited(order: seq<nat>, goal: nat -> bool, edges: nat -> seq<nat>, b: nat)
    ensures b in VisitAll(order, goal, edges) ==> b in order
  {
    if order != [] {
      var n := |order| - 1;
      assert order == order[..n] + [order[n]];
      OnlyVisited(order[..n], goal, edges, b);
    }
  }

  // Where a member was found, everything its edges lead to had been found before.
  lemma {:induction false} FoundBefore(order: seq<nat>, goal: nat -> bool, edges: nat -> seq<nat>, b: nat)
    returns (k: nat)
    requires b in VisitAll(order, goal, edges)
    ensures k < |order| && order[k] == b && b !in VisitAll(order[..k], goal, edges)
    ensures !goal(b) ==>
              edges(b) != [] && forall i | 0 <= i < |edges(b)| :: edges(b)[i] in VisitAll(order[..k], goal, edges)
  {
    var n := |order| - 1;
    if b in VisitAll(order[..n], goal, edges) {
      k := FoundBefore(order[..n], goal, edges, b);
      assert order[..n][..k] == order[..k];
    } else {
      k := n;
    }
  }

  // The visit of a block that is visited once decides.
  lemma {:induction false} DecidedWhenVisited(order: seq<nat>, goal: nat -> bool, edges: nat -> seq<nat>, i: nat)
    requires Distinct(order) && i < |order|
    ensures order[i] in VisitAll(order, goal, edges) <==>
            goal(order[i])
            || (edges(order[i]) != []
                && forall k | 0 <= k < |edges(order[i])| :: edges(order[i])[k] in VisitAll(order[..i], goal, edges))
    decreases |order|
  {
    var n := |order| - 1;
    if i < n {
      assert order[..n][i] == order[i] && order[..n][..i] == order[..i];
      DecidedWhenVisited(order[..n], goal, edges, i);
    } else {
      OnlyVisited(order[..n], goal, edges, order[n]);
    }
  }

  // Everything that is in a list is in a set.
  predicate AllIn(bs: seq<nat>, found: set<nat>) {
    forall i | 0 <= i < |bs| :: bs[i] in found
  }

  /** In terms of the blocks, for blocks that are visited once: a block without successors is dead if it
      is unreachable or deoptimizes, an invoke if its normal destination was found to be before, any
      other one if all of its successors were. A cold call on the way counts unless the function ends
      in its block. */
  lemma {:induction false} BlocksDecide(cfg: Cfg, order: seq<nat>, i: nat)
    requires Distinct(order) && i < |order| && WellFormed(cfg)
    ensures var b, dead, was := cfg(order[i]), VisitAll(order, Dead(cfg), Likely(cfg)),
                                VisitAll(order[..i], Dead(cfg), Likely(cfg));
            order[i] in dead <==>
            if b.successors == [] then b.terminator in {Unreachable, Deoptimize}
            else if b.terminator.Invoke? then b.terminator.normal in was
            else AllIn(b.successors, was)
    ensures var b, cold, was := cfg(order[i]), VisitAll(order, Cold(cfg), Likely(cfg)),
                                VisitAll(order[..i], Cold(cfg), Likely(cfg));
            order[i] in cold <==>
            && b.successors != []
            && (b.coldCall || if b.terminator.Invoke? then b.terminator.normal in was else AllIn(b.successors, was))
  {
    var b := cfg(order[i]);
    DecidedWhenVisited(order, Dead(cfg), Likely(cfg), i);
    DecidedWhenVisited(order, Cold(cfg), Likely(cfg), i);
    hide VisitAll;
    if b.terminator.Invoke? {
      assert Likely(cfg)(order[i])[0] == b.terminator.normal;
    }
  }

  // A goal-free path from a member stays among members, and there was always something earlier.
  lemma {:induction false} PathsDescend(order: seq<nat>, goal: nat -> bool, edges: nat -> seq<nat>, b: nat, p: seq<nat>)
    requires b in VisitAll(order, goal, edges) && GoalFree(p, b, goal, edges)
    ensures edges(p[|p| - 1]) != [] && Distinct(p) && |p| <= |order|
    ensures forall i | 0 <= i < |p| :: p[i] in VisitAll(order, goal, edges)
    decreases |order|
  {
    var k := FoundBefore(order, goal, edges, b);
    if |p| > 1 {
      var rest := p[1..];
      assert p[1] in edges(p[0]);
      assert GoalFree(rest, p[1], goal, edges);
      PathsDescend(order[..k], goal, edges, p[1], rest);
      forall i | 1 <= i < |p| ensures p[i] in VisitAll(order, goal, edges) {
        assert p[i] == rest[i - 1];
        Grows(order, k, goal, edges, p[i]);
      }
      assert forall i | 1 <= i < |p| :: p[i] == rest[i - 1];
    }
  }

  lemma {:induction false} Grows(order: seq<nat>, k: nat, goal: nat -> bool, edges: nat -> seq<nat>, b: nat)
    requires k <= |order| && b in VisitAll(order[..k], goal, edges)
    ensures b in VisitAll(order, goal, edges)
  {
    if k == |order| {
      assert order[..k] == order;
    } else {
      assert order[..|order| - 1][..k] == order[..k];
      Grows(order[..|order| - 1], k, goal, edges, b);
    }
  }

  /** On any graph, in whatever order the blocks are visited: from a block in the set one always
      meets a goal, within as many steps as blocks are visited. */
  lemma {:induction false} MembersAreInevitable(order: seq<nat>, goal: nat -> bool, edges: nat -> seq<nat>, b: nat)
    requires b in VisitAll(order, goal, edges)
    ensures Inevitable(b, goal, edges)
    ensures forall p | GoalFree(p, b, goal, edges) :: |p| <= |order|
  {
    forall p | GoalFree(p, b, goal, edges) ensures edges(p[|p| - 1]) != [] && Distinct(p) && |p| <= |order| {
      PathsDescend(order, goal, edges, b, p);
    }
  }

  lemma Prepend(b: nat, v: nat, p: seq<nat>, goal: nat -> bool, edges: nat -> seq<nat>)
    requires !goal(b) && v in edges(b) && GoalFree(p, v, goal, edges)
    ensures GoalFree([b] + p, b, goal, edges)
    ensures b in p || !Distinct(p) ==> !Distinct([b] + p)
  {
    var q := [b] + p;
    assert forall i | 0 < i < |q| :: q[i] == p[i - 1];
    if b in p {
      var i :| 0 <= i < |p| && p[i] == b;
      assert q[0] == q[i + 1];
    }
    if !Distinct(p) {
      var i, j :| 0 <= i < j < |p| && p[i] == p[j];
      assert q[i + 1] == q[j + 1];
    }
  }

  // What is inevitable now is inevitable one step on.
  lemma {:induction false} InevitableNext(b: nat, v: nat, goal: nat -> bool, edges: nat -> seq<nat>)
    requires Inevitable(b, goal, edges) && !goal(b) && v in edges(b)
    ensures Inevitable(v, goal, edges)
  {
    forall p | GoalFree(p, v, goal, edges) ensures edges(p[|p| - 1]) != [] && Distinct(p) {
      Prepend(b, v, p, goal, edges);
      assert ([b] + p)[|p|] == p[|p| - 1];
    }
  }

  /** Where a goal is inevitable and still ahead, the next blocks are visited before this one. */
  ghost predicate GoalsFirst(order: seq<nat>, goal: nat -> bool, edges: nat -> seq<nat>) {
    forall k, v | 0 <= k < |order| && !goal(order[k]) && Inevitable(order[k], goal, edges) && v in edges(order[k]) ::
      v in order[..k]
  }

  // In such an order everything inevitable is found, even if blocks are visited more than once.
  lemma {:induction false} InevitableIsFound(order: seq<nat>, goal: nat -> bool, edges: nat -> seq<nat>, b: nat)
    requires GoalsFirst(order, goal, edges) && b in order && Inevitable(b, goal, edges)
    ensures b in VisitAll(order, goal, edges)
    decreases |order|
  {
    var n := |order| - 1;
    assert GoalsFirst(order[..n], goal, edges) by {
      assert forall k | 0 <= k < n :: order[..n][..k] == order[..k] && order[..n][k] == order[k];
    }
    if b in order[..n] {
      InevitableIsFound(order[..n], goal, edges, b);
    } else if !goal(b) {
      assert order[n] == b;
      assert GoalFree([b], b, goal, edges);
      forall i | 0 <= i < |edges(b)| ensures edges(b)[i] in VisitAll(order[..n], goal, edges) {
        InevitableNext(b, edges(b)[i], goal, edges);
        InevitableIsFound(order[..n], goal, edges, edges(b)[i]);
      }
    }
  }

  // A block found where it is visited once had its successors visited before.
  lemma {:induction false} FoundAfterSuccessors(order: seq<nat>, goal: nat -> bool, edges: nat -> seq<nat>, k: nat,
                                                v: nat)
    requires Distinct(order) && k < |order| && order[k] in VisitAll(order, goal, edges)
    requires !goal(order[k]) && v in edges(order[k])
    ensures v in order[..k]
  {
    var j := FoundBefore(order, goal, edges, order[k]);
    OnlyVisited(order[..k], goal, edges, v);
  }

  /** Exactly when the walk is exact, on any graph and for any goal, when each block is visited once:
      it finds the blocks from which a goal is inevitable, and no others, if and only if each of them
      that is no goal itself is visited after all of its successors. */
  lemma {:induction false} ExactIff(order: seq<nat>, goal: nat -> bool, edges: nat -> seq<nat>)
    requires Distinct(order)
    ensures (forall b | b in order :: b in VisitAll(order, goal, edges) <==> Inevitable(b, goal, edges))
            <==> GoalsFirst(order, goal, edges)
  {
    hide Inevitable;
    if GoalsFirst(order, goal, edges) {
      forall b | b in order ensures b in VisitAll(order, goal, edges) <==> Inevitable(b, goal, edges) {
        if b in VisitAll(order, goal, edges) {
          MembersAreInevitable(order, goal, edges, b);
        } else if Inevitable(b, goal, edges) {
          InevitableIsFound(order, goal, edges, b);
        }
      }
    }
    if forall b | b in order :: b in VisitAll(order, goal, edges) <==> Inevitable(b, goal, edges) {
      forall k, v | 0 <= k < |order| && !goal(order[k]) && Inevitable(order[k], goal, edges) && v in edges(order[k])
        ensures v in order[..k]
      {
        FoundAfterSuccessors(order, goal, edges, k, v);
      }
    }
  }

  // Is there a way from `v` back to `u` that meets no goal?
  ghost predicate LeadsBack(v: nat, u: nat, goal: nat -> bool, edges: nat -> seq<nat>) {
    exists p :: GoalFree(p, v, goal, edges) && p[|p| - 1] == u
  }

  /** A post-order: every edge goes to a block visited before, except for edges back along a cycle;
      the cycle has no goal on it. Without the exception the graph is acyclic. */
  ghost predicate PostOrder(order: seq<nat>, goal: nat -> bool, edges: nat -> seq<nat>) {
    forall k, v | 0 <= k < |order| && !goal(order[k]) && v in edges(order[k]) ::
      v in order[..k] || LeadsBack(v, order[k], goal, edges)
  }

  lemma {:induction false} PostOrderIsGoalsFirst(order: seq<nat>, goal: nat -> bool, edges: nat -> seq<nat>)
    requires PostOrder(order, goal, edges)
    ensures GoalsFirst(order, goal, edges)
  {
    forall k, v | 0 <= k < |order| && !goal(order[k]) && Inevitable(order[k], goal, edges) && v in edges(order[k])
      ensures v in order[..k]
    {
      if LeadsBack(v, order[k], goal, edges) {
        var p :| GoalFree(p, v, goal, edges) && p[|p| - 1] == order[k];
        Prepend(order[k], v, p, goal, edges);
        assert false;
      }
    }
  }

  /** In post-order the walk finds exactly the blocks from which a goal is inevitable. */
  lemma {:induction false} PostOrderIsExact(order: seq<nat>, goal: nat -> bool, edges: nat -> seq<nat>, b: nat)
    requires PostOrder(order, goal, edges) && b in order
    ensures b in VisitAll(order, goal, edges) <==> Inevitable(b, goal, edges)
  {
    if b in VisitAll(order, goal, edges) {
      MembersAreInevitable(order, goal, edges, b);
    } else if Inevitable(b, goal, edges) {
      PostOrderIsGoalsFirst(order, goal, edges);
      InevitableIsFound(order, goal, edges, b);
    }
  }

  // On an acyclic graph: every edge goes to a block visited before.
  predicate AcyclicPostOrder(order: seq<nat>, edges: nat -> seq<nat>) {
    forall k, i | 0 <= k < |order| && 0 <= i < |edges(order[k])| :: edges(order[k])[i] in order[..k]
  }

  /** The two sets of an acyclic function, visited in post-order. */
  lemma {:induction false} AcyclicIsExact(order: seq<nat>, cfg: Cfg, b: nat)
    requires AcyclicPostOrder(order, Likely(cfg)) && b in order
    ensures b in VisitAll(order, Dead(cfg), Likely(cfg)) <==> Inevitable(b, Dead(cfg), Likely(cfg))
    ensures b in VisitAll(order, Cold(cfg), Likely(cfg)) <==> Inevitable(b, Cold(cfg), Likely(cfg))
  {
    PostOrderIsExact(order, Dead(cfg), Likely(cfg), b);
    PostOrderIsExact(order, Cold(cfg), Likely(cfg), b);
  }

  // A path along any edges, from `b` to `c`.
  predicate Path(p: seq<nat>, b: nat, c: nat, cfg: Cfg) {
    p != [] && p[0] == b && p[|p| - 1] == c
    && forall i, j | 0 <= i && j == i + 1 < |p| :: p[j] in cfg(p[i]).successors
  }

  /** The post-order of a depth-first walk along all edges: an edge leads to a block finished before,
      or back to a block that the walk came from. */
  ghost predicate DepthFirst(order: seq<nat>, cfg: Cfg) {
    forall k, v | 0 <= k < |order| && v in cfg(order[k]).successors ::
      v in order[..k] || exists p :: Path(p, v, order[k], cfg)
  }

  // No edge to an unwind destination lies on a cycle.
  ghost predicate NoUnwindCycles(cfg: Cfg) {
    forall b: nat, v: nat, p: seq<nat> | v in cfg(b).successors && Path(p, v, b, cfg) :: v in Likely(cfg)(b)
  }

  // The way around a cycle from one of its edges.
  lemma AroundCycle(p: seq<nat>, v: nat, u: nat, cfg: Cfg, i: nat)
    requires Path(p, v, u, cfg) && v in cfg(u).successors && i + 1 < |p|
    ensures Path(p[i + 1..] + p[..i + 1], p[i + 1], p[i], cfg)
  {
    var q, n := p[i + 1..] + p[..i + 1], |p| - (i + 1);
    forall k, l | 0 <= k && l == k + 1 < |q| ensures q[l] in cfg(q[k]).successors {
      if l < n {
        assert q[k] == p[i + 1 + k] && q[l] == p[i + 1 + l];
      } else if l > n {
        assert q[k] == p[k - n] && q[l] == p[l - n];
      } else {
        assert q[k] == u && q[l] == v;
      }
    }
  }

  // A cycle of counted edges has no dead end on it.
  lemma CycleLeadsBack(p: seq<nat>, v: nat, u: nat, cfg: Cfg)
    requires NoUnwindCycles(cfg) && Path(p, v, u, cfg) && v in cfg(u).successors
    ensures GoalFree(p, v, Dead(cfg), Likely(cfg))
  {
    forall i, j | 0 <= i && j == i + 1 < |p| ensures p[j] in Likely(cfg)(p[i]) {
      AroundCycle(p, v, u, cfg, i);
    }
    forall i | 0 <= i < |p| ensures !Dead(cfg)(p[i]) {
      assert i + 1 < |p| ==> p[i + 1] in cfg(p[i]).successors;
    }
  }

  /** The first set is exact for every depth-first walk, whatever cycles there are, as long as no cycle
      goes through an unwind destination: a dead end lies on no cycle. */
  lemma {:induction false} DeadIsExact(order: seq<nat>, cfg: Cfg, b: nat)
    requires DepthFirst(order, cfg) && NoUnwindCycles(cfg) && WellFormed(cfg) && b in order
    ensures b in VisitAll(order, Dead(cfg), Likely(cfg)) <==> Inevitable(b, Dead(cfg), Likely(cfg))
  {
    forall k, v | 0 <= k < |order| && !Dead(cfg)(order[k]) && v in Likely(cfg)(order[k])
      ensures v in order[..k] || LeadsBack(v, order[k], Dead(cfg), Likely(cfg))
    {
      if v !in order[..k] {
        var p :| Path(p, v, order[k], cfg);
        CycleLeadsBack(p, v, order[k], cfg);
      }
    }
    PostOrderIsExact(order, Dead(cfg), Likely(cfg), b);
  }

  /** A complete walk from a block of the first set ends in an unreachable instruction or a
      deoptimization, if no invoke unwinds on the way. */
  lemma {:induction false} DeadEnds(order: seq<nat>, cfg: Cfg, b: nat, p: seq<nat>)
    requires b in VisitAll(order, Dead(cfg), Likely(cfg))
    requires p != [] && p[0] == b && forall i, j | 0 <= i && j == i + 1 < |p| :: p[j] in Likely(cfg)(p[i])
    ensures |p| <= |order| + 1
    ensures Likely(cfg)(p[|p| - 1]) == [] ==> Dead(cfg)(p[|p| - 1])
  {
    var n := |p| - 1;
    if !Dead(cfg)(p[n]) {
      assert GoalFree(p, b, Dead(cfg), Likely(cfg)) by {
        forall i | 0 <= i < |p| ensures !Dead(cfg)(p[i]) {
          if i < n {
            assert p[i + 1] in Likely(cfg)(p[i]);
          }
        }
      }
      MembersAreInevitable(order, Dead(cfg), Likely(cfg), b);
    } else if n > 0 {
      var q := p[..n];
      assert GoalFree(q, b, Dead(cfg), Likely(cfg)) by {
        forall i | 0 <= i < n ensures !Dead(cfg)(q[i]) {
          assert p[i + 1] in Likely(cfg)(p[i]);
        }
      }
      MembersAreInevitable(order, Dead(cfg), Likely(cfg), b);
    }
  }

  // Where every edge leads to a goal at once.
  lemma ShortPaths(p: seq<nat>, b: nat, goal: nat -> bool, edges: nat -> seq<nat>)
    requires GoalFree(p, b, goal, edges) && forall v | v in edges(b) :: goal(v)
    ensures |p| == 1
  {
    var second := if |p| > 1 then p[1] else b;
    assert |p| == 1 || second in edges(b);
  }

  // Three blocks: the entry 2 leads to 0, which calls something cold and leads to 1, which leads back to 0.
  function ColdLoop(): Cfg {
    (b: nat) => if b == 0 then Block([1], Other, true) else if b == 1 then Block([0], Other, false)
                else if b == 2 then Block([0], Other, false) else Block([], Other, false)
  }

  lemma ColdLoopOrder()
    ensures DepthFirst([1, 0, 2], ColdLoop())
  {
    var order, cfg := [1, 0, 2], ColdLoop();
    assert order[..0] == [] && order[..1] == [1] && order[..2] == [1, 0];
    forall k, v | 0 <= k < |order| && v in cfg(order[k]).successors
      ensures v in order[..k] || exists p :: Path(p, v, order[k], cfg)
    {
      assert k == 0 || k == 1 || k == 2;
      if k == 0 {
        assert Path([0, 1], v, 1, cfg);
      }
    }
  }

  /** Around a cycle with a cold call on it the second set can miss blocks: from block 1 every way leads
      straight to the cold call in block 0, but block 0 is visited later, for it leads back to 1. The
      order is that of a depth-first walk from the entry block 2, which nothing leads to. */
  lemma CyclesCanHideColdCalls()
    ensures DepthFirst([1, 0, 2], ColdLoop()) && forall b :: 2 !in ColdLoop()(b).successors
    ensures 1 !in VisitAll([1, 0, 2], Cold(ColdLoop()), Likely(ColdLoop()))
    ensures Inevitable(1, Cold(ColdLoop()), Likely(ColdLoop()))
    ensures !GoalsFirst([1, 0, 2], Cold(ColdLoop()), Likely(ColdLoop()))
  {
    ColdLoopOrder();
    FirstMeetsCold();
    hide Inevitable;
    var goal, edges := Cold(ColdLoop()), Likely(ColdLoop());
    var order := [1, 0, 2];
    assert !goal(1) && edges(1) == [0] && 0 in edges(order[0]) && 0 !in order[..0];
    if 1 in VisitAll(order, goal, edges) {
      FoundAfterSuccessors(order, goal, edges, 0, 0);
    }
  }

  lemma FirstMeetsCold()
    ensures Inevitable(1, Cold(ColdLoop()), Likely(ColdLoop()))
  {
    var goal, edges := Cold(ColdLoop()), Likely(ColdLoop());
    assert goal(0) && !goal(1) && edges(1) == [0];
    forall p | GoalFree(p, 1, goal, edges) ensures edges(p[|p| - 1]) != [] && Distinct(p) {
      ShortPaths(p, 1, goal, edges);
    }
  }
}
