/** The emitted code is well-formed SSA: every jump has a target, every phi node has exactly one
    value for each block that jumps to it, no register is assigned twice, and every use of a
    register comes after its definition on every path. */
module BrainFWellFormed {
  import opened BrainFLanguage
  import opened BrainFTarget
  import opened BrainFCompiler
  import opened BrainFCorrectness
  import opened Options

  function Targets(t: Terminator): set<Label> {
    match t
    case Br(a) => {a}
    case CondBr(_, a, b) => {a, b}
    case _ => {}
  }

  predicate Edge(code: Code, i: Label, j: Label) {
    i < |code| && j in Targets(code[i].term)
  }

  ghost predicate JumpsHaveTargets(code: Code) {
    forall i: Label, j: Label | Edge(code, i, j) :: j < |code|
  }

  predicate Names(incoming: seq<Incoming>, i: Label) {
    exists x :: 0 <= x < |incoming| && incoming[x].from == i
  }

  // Exactly one value for each predecessor.
  ghost predicate PhiMatches(code: Code, j: Label, phi: Instr)
    requires phi.Phi?
  {
    && (forall x, y | 0 <= x < y < |phi.incoming| :: phi.incoming[x].from != phi.incoming[y].from)
    && (forall i :: Names(phi.incoming, i) <==> Edge(code, i, j))
  }

  ghost predicate PhisMatch(code: Code) {
    forall j, k | 0 <= j < |code| && 0 <= k < |code[j].instrs| && code[j].instrs[k].Phi? ::
      k == 0 && PhiMatches(code, j, code[j].instrs[k])
  }

  ghost predicate AssignedAt(code: Code, r: Reg, i: Label, k: nat) {
    i < |code| && k < |code[i].instrs| && Defines(code[i].instrs[k]) && code[i].instrs[k].dst == r
  }

  ghost predicate AssignedOnce(code: Code, next: Reg) {
    && (forall r: Reg, i: Label, k: nat | AssignedAt(code, r, i, k) :: r < next)
    && (forall r: Reg, i: Label, k: nat, j: Label, l: nat | AssignedAt(code, r, i, k) && AssignedAt(code, r, j, l) ::
             i == j && k == l)
  }

  // ----- Definitions before uses -----

  function Defs(instrs: seq<Instr>): set<Reg> {
    set k | 0 <= k < |instrs| && Defines(instrs[k]) :: instrs[k].dst
  }

  // A path through the code, from the entry to its last block.
  ghost predicate Path(code: Code, path: seq<Label>) {
    && path != [] && path[0] == ENTRY
    && (forall n | 0 <= n < |path| :: path[n] < |code|)
    && (forall n | 0 < n < |path| :: Edge(code, path[n - 1], path[n]))
  }

  // What has been defined when the last block of a path is entered.
  function DefsBefore(code: Code, path: seq<Label>): set<Reg>
    requires forall n | 0 <= n < |path| :: path[n] < |code|
    requires path != []
    decreases |path|
  {
    if |path| == 1 then {}
    else
      var init := path[..|path| - 1];
      DefsBefore(code, init) + Defs(code[init[|init| - 1]].instrs)
  }

  /** Every use in the last block of a path has its definition on the path; the value a phi node
      takes for a predecessor is defined at the end of every path to that predecessor. */
  ghost predicate UsesAreDefined(code: Code, path: seq<Label>)
    requires Path(code, path)
  {
    var block := code[path[|path| - 1]];
    var before := DefsBefore(code, path);
    && (forall k, r | 0 <= k < |block.instrs| && r in Uses(block.instrs[k]) :: r in before + Defs(block.instrs[..k]))
    && (block.term.CondBr? ==> block.term.cond in before + Defs(block.instrs))
    && (|path| > 1 ==>
          forall k | 0 <= k < |block.instrs| && block.instrs[k].Phi? ::
            var v := Choose(block.instrs[k].incoming, path[|path| - 2]);
            v.Some? && v.value in before)
  }

  // A certificate: registers that are surely defined at the start of each block.
  ghost predicate Certified(code: Code, sure: seq<set<Reg>>) {
    && |sure| == |code|
    && ENTRY < |code| && sure[ENTRY] == {}
    && (forall i: Label, j: Label | Edge(code, i, j) :: j < |code| && sure[j] <= sure[i] + Defs(code[i].instrs))
    && (forall i | 0 <= i < |code| :: BlockCertified(code, sure, i))
  }

  ghost predicate BlockCertified(code: Code, sure: seq<set<Reg>>, i: Label)
    requires i < |code| == |sure|
  {
    var block := code[i];
    && (forall k, r | 0 <= k < |block.instrs| && r in Uses(block.instrs[k]) :: r in sure[i] + Defs(block.instrs[..k]))
    && (block.term.CondBr? ==> block.term.cond in sure[i] + Defs(block.instrs))
    && (forall k, x | 0 <= k < |block.instrs| && block.instrs[k].Phi? && 0 <= x < |block.instrs[k].incoming| ::
          var v := block.instrs[k].incoming[x];
          v.from < |code| && v.value in sure[v.from] + Defs(code[v.from].instrs))
  }

  lemma {:induction false} SureOnPaths(code: Code, sure: seq<set<Reg>>, path: seq<Label>)
    requires Certified(code, sure) && Path(code, path)
    ensures sure[path[|path| - 1]] <= DefsBefore(code, path)
    decreases |path|
  {
    if |path| > 1 {
      var init := path[..|path| - 1];
      SureOnPaths(code, sure, init);
      assert Edge(code, path[|path| - 2], path[|path| - 1]);
    }
  }

  lemma {:induction false} Chosen(incoming: seq<Incoming>, i: Label) returns (x: nat)
    requires Names(incoming, i)
    ensures x < |incoming| && incoming[x].from == i && Choose(incoming, i) == Some(incoming[x].value)
  {
    if incoming[0].from == i {
      x := 0;
    } else {
      assert Names(incoming[1..], i) by {
        var y :| 0 <= y < |incoming| && incoming[y].from == i;
        assert incoming[1..][y - 1].from == i;
      }
      x := Chosen(incoming[1..], i);
      x := x + 1;
    }
  }

  lemma CertifiedUsesAreDefined(code: Code, sure: seq<set<Reg>>, path: seq<Label>)
    requires Certified(code, sure) && PhisMatch(code) && Path(code, path)
    ensures UsesAreDefined(code, path)
  {
    var last := path[|path| - 1];
    var block := code[last];
    SureOnPaths(code, sure, path);
    assert BlockCertified(code, sure, last);
    if |path| > 1 {
      var from := path[|path| - 2];
      var init := path[..|path| - 1];
      assert Path(code, init);
      SureOnPaths(code, sure, init);
      assert Edge(code, from, last);
      forall k | 0 <= k < |block.instrs| && block.instrs[k].Phi?
        ensures var v := Choose(block.instrs[k].incoming, from);
                v.Some? && v.value in DefsBefore(code, path)
      {
        assert PhiMatches(code, last, block.instrs[k]);
        assert Names(block.instrs[k].incoming, from);
        var x := Chosen(block.instrs[k].incoming, from);
        assert block.instrs[k].incoming[x].value in sure[from] + Defs(code[from].instrs);
      }
    }
  }

  // ----- Every step of the builder keeps the code well formed -----

  // What is defined at the place where the builder stands.
  function Here(b: Builder, sure: seq<set<Reg>>): set<Reg>
    requires b.cur < |b.blocks| == |sure|
  {
    sure[b.cur] + Defs(b.blocks[b.cur].instrs)
  }

  ghost predicate HeaderIn(bounds: bool, code: Code, sure: seq<set<Reg>>)
    requires |code| == |sure|
  {
    && |code| > END && code[END] == Block([Free(ARR)], Ret) && sure[END] == {ARR}
    && (bounds ==> |code| > ABERROR && code[ABERROR] == Block([Puts], Br(END)) && sure[ABERROR] == {ARR})
  }

  ghost predicate Formed(bounds: bool, b: Builder, sure: seq<set<Reg>>) {
    && Sound(b)
    && |sure| == |b.blocks|
    && HeaderIn(bounds, b.blocks, sure)
    && JumpsHaveTargets(b.blocks)
    && PhisMatch(b.blocks)
    && AssignedOnce(b.blocks, b.next)
    && Certified(b.blocks, sure)
    && ARR in Here(b, sure) && b.head in Here(b, sure)
    && (bounds ==> ARRMAX in Here(b, sure))
  }

  lemma DefsOfConcat(a: seq<Instr>, b: seq<Instr>)
    ensures Defs(a + b) == Defs(a) + Defs(b)
  {
    var all := a + b;
    forall r | r in Defs(a) + Defs(b)
      ensures r in Defs(all)
    {
      if r in Defs(a) {
        var k :| 0 <= k < |a| && Defines(a[k]) && a[k].dst == r;
        assert all[k] == a[k];
      } else {
        var k :| 0 <= k < |b| && Defines(b[k]) && b[k].dst == r;
        assert all[|a| + k] == b[k];
      }
    }
    forall r | r in Defs(all)
      ensures r in Defs(a) + Defs(b)
    {
      var k :| 0 <= k < |all| && Defines(all[k]) && all[k].dst == r;
      if k < |a| { assert a[k] == all[k]; } else { assert b[k - |a|] == all[k]; }
    }
  }

  // Straight-line instructions that define fresh registers and use only defined ones.
  ghost predicate Straight(b: Builder, sure: seq<set<Reg>>, instrs: seq<Instr>, regs: nat)
    requires b.cur < |b.blocks| == |sure|
  {
    && (forall k | 0 <= k < |instrs| :: !instrs[k].Phi?)
    && (forall k, r | 0 <= k < |instrs| && r in Uses(instrs[k]) :: r in Here(b, sure) + Defs(instrs[..k]))
    && (forall k | 0 <= k < |instrs| && Defines(instrs[k]) :: b.next <= instrs[k].dst < b.next + regs)
    && (forall k, l | 0 <= k < l < |instrs| && Defines(instrs[k]) && Defines(instrs[l]) ::
             instrs[k].dst != instrs[l].dst)
  }

  lemma AppendAssigned(b: Builder, instrs: seq<Instr>, regs: nat, sure: seq<set<Reg>>)
    requires Sound(b) && |sure| == |b.blocks| && Straight(b, sure, instrs, regs)
    requires AssignedOnce(b.blocks, b.next)
    ensures AssignedOnce(Append(b, instrs, regs).blocks, b.next + regs)
  {
    var d := Append(b, instrs, regs);
    var n := |b.blocks[b.cur].instrs|;
    forall r: Reg, i: Label, k: nat | AssignedAt(d.blocks, r, i, k)
      ensures if i == b.cur && k >= n then Defines(instrs[k - n]) && instrs[k - n].dst == r
                      else AssignedAt(b.blocks, r, i, k)
    {
    }
  }

  lemma AppendCertified(b: Builder, instrs: seq<Instr>, regs: nat, sure: seq<set<Reg>>)
    requires Sound(b) && |sure| == |b.blocks| && Straight(b, sure, instrs, regs)
    requires Certified(b.blocks, sure)
    ensures Certified(Append(b, instrs, regs).blocks, sure)
  {
    var d := Append(b, instrs, regs);
    var was, now := b.blocks[b.cur].instrs, d.blocks[b.cur].instrs;
    DefsOfConcat(was, instrs);
    forall i: Label, j: Label | Edge(d.blocks, i, j)
      ensures j < |d.blocks| && sure[j] <= sure[i] + Defs(d.blocks[i].instrs)
    {
      assert Edge(b.blocks, i, j);
    }
    forall i | 0 <= i < |d.blocks|
      ensures BlockCertified(d.blocks, sure, i)
    {
      assert BlockCertified(b.blocks, sure, i);
      if i == b.cur {
        forall k, r | 0 <= k < |now| && r in Uses(now[k])
          ensures r in sure[i] + Defs(now[..k])
        {
          if k < |was| {
            assert now[..k] == was[..k];
          } else {
            assert now[k] == instrs[k - |was|];
            assert now[..k] == was + instrs[..k - |was|];
            DefsOfConcat(was, instrs[..k - |was|]);
          }
        }
      }
    }
  }

  lemma AppendFormed(bounds: bool, b: Builder, instrs: seq<Instr>, regs: nat, sure: seq<set<Reg>>)
    requires Formed(bounds, b, sure) && Straight(b, sure, instrs, regs)
    ensures Formed(bounds, Append(b, instrs, regs), sure)
    ensures Here(Append(b, instrs, regs), sure) == Here(b, sure) + Defs(instrs)
  {
    var d := Append(b, instrs, regs);
    DefsOfConcat(b.blocks[b.cur].instrs, instrs);
    AppendAssigned(b, instrs, regs, sure);
    AppendCertified(b, instrs, regs, sure);
    forall i: Label, j: Label
      ensures Edge(d.blocks, i, j) <==> Edge(b.blocks, i, j)
    {
    }
    forall j, k | 0 <= j < |d.blocks| && 0 <= k < |d.blocks[j].instrs| && d.blocks[j].instrs[k].Phi?
      ensures k == 0 && PhiMatches(d.blocks, j, d.blocks[j].instrs[k])
    {
      assert k < |b.blocks[j].instrs| && d.blocks[j].instrs[k] == b.blocks[j].instrs[k];
      assert PhiMatches(b.blocks, j, b.blocks[j].instrs[k]);
    }
  }

  // The end of a checked move: a jump to the error block or to a fresh block.
  lemma CheckFormed(b: Builder, sure: seq<set<Reg>>, r: Reg)
    requires Formed(true, b, sure) && r in Here(b, sure)
    ensures var n := |b.blocks|;
            var d := Builder(Close(b, CondBr(r, ABERROR, n)) + [Block([], Open)], n, b.head, b.next);
            Formed(true, d, sure + [Here(b, sure)]) && Here(d, sure + [Here(b, sure)]) == Here(b, sure)
  {
    var n := |b.blocks|;
    var code := Close(b, CondBr(r, ABERROR, n)) + [Block([], Open)];
    var sure' := sure + [Here(b, sure)];
    forall i: Label, j: Label
      ensures Edge(code, i, j) <==> Edge(b.blocks, i, j) || (i == b.cur && (j == ABERROR || j == n))
    {
    }
    forall j, k | 0 <= j < |code| && 0 <= k < |code[j].instrs| && code[j].instrs[k].Phi?
      ensures k == 0 && PhiMatches(code, j, code[j].instrs[k])
    {
      assert j < n && code[j].instrs == b.blocks[j].instrs;
      assert PhiMatches(b.blocks, j, b.blocks[j].instrs[k]);
    }
    forall r: Reg, i: Label, k: nat
      ensures AssignedAt(code, r, i, k) <==> AssignedAt(b.blocks, r, i, k)
    {
    }
    forall i | 0 <= i < |code|
      ensures BlockCertified(code, sure', i)
    {
      if i < n {
        assert BlockCertified(b.blocks, sure, i);
      }
    }
  }

  lemma StartLoopFormed(bounds: bool, b: Builder, sure: seq<set<Reg>>)
    requires Formed(bounds, b, sure)
    ensures var here := Here(b, sure);
            var sure' := sure + [here, here + {b.next}];
            Formed(bounds, StartLoop(b), sure') && Here(StartLoop(b), sure') == here + {b.next}
  {
    var here, n, code := Here(b, sure), |b.blocks|, StartLoop(b).blocks;
    var sure' := sure + [here, here + {b.next}];
    var phi := Phi(b.next, [Incoming(b.head, b.cur)]);
    assert Names(phi.incoming, b.cur) by { assert phi.incoming[0].from == b.cur; }
    forall i: Label, j: Label
      ensures Edge(code, i, j) <==> Edge(b.blocks, i, j) || (i == b.cur && j == n)
    {
    }
    forall j, k | 0 <= j < |code| && 0 <= k < |code[j].instrs| && code[j].instrs[k].Phi?
      ensures k == 0 && PhiMatches(code, j, code[j].instrs[k])
    {
      if j < n {
        assert code[j].instrs == b.blocks[j].instrs;
        assert PhiMatches(b.blocks, j, b.blocks[j].instrs[k]);
      }
    }
    forall r: Reg, i: Label, k: nat
      ensures AssignedAt(code, r, i, k) <==> AssignedAt(b.blocks, r, i, k) || (r == b.next && i == n && k == 0)
    {
    }
    forall i | 0 <= i < |code|
      ensures BlockCertified(code, sure', i)
    {
      if i < n {
        assert BlockCertified(b.blocks, sure, i);
      }
    }
  }

  // The state in which the end of a loop finds the code.
  ghost predicate LoopOpen(bounds: bool, b: Builder, sure: seq<set<Reg>>, before: Incoming, phi: Reg, body: Label,
                           test: Label)
    requires |sure| == |b.blocks| && b.cur < |b.blocks|
  {
    && test < |b.blocks| && body < |b.blocks| && test != b.cur
    && b.blocks[test] == Block([Phi(phi, [before])], Open)
    && (forall k | 0 <= k < |b.blocks[body].instrs| :: !b.blocks[body].instrs[k].Phi?)
    && sure[body] <= sure[test] + {phi}
    && sure[test] <= Here(b, sure)
    && ARR in sure[test] && (bounds ==> ARRMAX in sure[test])
    && END != test && END != body && ENTRY != test && (bounds ==> ABERROR != test)
    && before.from != b.cur
  }

  function EndSure(b: Builder, sure: seq<set<Reg>>, phi: Reg, test: Label): seq<set<Reg>>
    requires test < |sure|
  {
    sure + [sure[test] + {phi, b.next, b.next + 1}]
  }

  // The edges, assignments and phi nodes that the end of a loop adds.
  lemma EndLoopEdges(bounds: bool, b: Builder, sure: seq<set<Reg>>, before: Incoming, phi: Reg, body: Label,
                     test: Label)
    requires Formed(bounds, b, sure) && LoopOpen(bounds, b, sure, before, phi, body, test)
    ensures var code := EndLoop(b, phi, body, test).blocks;
            forall i: Label, j: Label ::
              Edge(code, i, j) <==>
              Edge(b.blocks, i, j) || (i == b.cur && j == test) || (i == test && (j == |b.blocks| || j == body))
  {
    EndLoopBlocks(b, before, phi, body, test);
  }

  lemma EndLoopPhis(bounds: bool, b: Builder, sure: seq<set<Reg>>, before: Incoming, phi: Reg, body: Label, test: Label)
    requires Formed(bounds, b, sure) && LoopOpen(bounds, b, sure, before, phi, body, test)
    ensures JumpsHaveTargets(EndLoop(b, phi, body, test).blocks)
    ensures PhisMatch(EndLoop(b, phi, body, test).blocks)
  {
    EndLoopEdges(bounds, b, sure, before, phi, body, test);
    EndLoopBlocks(b, before, phi, body, test);
    var code, n := EndLoop(b, phi, body, test).blocks, |b.blocks|;
    var after := Incoming(b.head, b.cur);
    hide EndLoop;
    assert code[n].instrs == EndLoop(b, phi, body, test).blocks[n].instrs;
    forall j, k | 0 <= j < |code| && 0 <= k < |code[j].instrs| && code[j].instrs[k].Phi?
      ensures k == 0 && PhiMatches(code, j, code[j].instrs[k])
    {
      if j == test {
        assert PhiMatches(b.blocks, test, b.blocks[test].instrs[0]);
        var was, now := [before], [before, after];
        assert was[0].from == before.from && now[0].from == before.from && now[1].from == b.cur;
        assert forall i :: Names(now, i) <==> Names(was, i) || i == b.cur;
        assert !Names(was, b.cur);
      } else if j < n {
        assert code[j].instrs == b.blocks[j].instrs;
        assert PhiMatches(b.blocks, j, b.blocks[j].instrs[k]);
      } else {
        ExitBlock(b, phi, body, test);
        var only := code[j].instrs[k].incoming;
        assert only[0].from == test;
      }
    }
  }

  lemma ExitBlock(b: Builder, phi: Reg, body: Label, test: Label)
    requires b.cur < |b.blocks| && test < |b.blocks|
    ensures EndLoop(b, phi, body, test).blocks[|b.blocks|] == Block([Phi(b.next + 2, [Incoming(phi, test)])], Open)
    ensures EndLoop(b, phi, body, test).cur == |b.blocks|
    ensures EndLoop(b, phi, body, test).head == b.next + 2 && EndLoop(b, phi, body, test).next == b.next + 3
  {
  }

  lemma EndLoopAssigned(bounds: bool, b: Builder, sure: seq<set<Reg>>, before: Incoming, phi: Reg, body: Label,
                        test: Label)
    requires Formed(bounds, b, sure) && LoopOpen(bounds, b, sure, before, phi, body, test)
    ensures AssignedOnce(EndLoop(b, phi, body, test).blocks, b.next + 3)
  {
    EndLoopBlocks(b, before, phi, body, test);
    ExitBlock(b, phi, body, test);
    var code, n := EndLoop(b, phi, body, test).blocks, |b.blocks|;
    hide EndLoop;
    forall r: Reg, i: Label, k: nat | AssignedAt(code, r, i, k)
      ensures
        if i == test && k > 0 then (k == 1 && r == b.next) || (k == 2 && r == b.next + 1)
        else if i == n then k == 0 && r == b.next + 2
        else AssignedAt(b.blocks, r, i, k)
    {
      if i != test && i != n {
        assert code[i].instrs == b.blocks[i].instrs;
      }
    }
  }

  lemma EndLoopCertified(bounds: bool, b: Builder, sure: seq<set<Reg>>, before: Incoming, phi: Reg, body: Label,
                         test: Label)
    requires Formed(bounds, b, sure) && LoopOpen(bounds, b, sure, before, phi, body, test)
    ensures Certified(EndLoop(b, phi, body, test).blocks, EndSure(b, sure, phi, test))
  {
    hide EndLoop;
    hide PhisMatch;
    hide AssignedOnce;
    hide JumpsHaveTargets;
    hide BlockCertified;
    hide Defs;
    var code, n := EndLoop(b, phi, body, test).blocks, |b.blocks|;
    var sure' := EndSure(b, sure, phi, test);
    EndLoopBlocks(b, before, phi, body, test);
    EndLoopSure(bounds, b, sure, before, phi, body, test);
    forall i | 0 <= i < |code|
      ensures BlockCertified(code, sure', i)
    {
      if i < n {
        assert BlockCertified(b.blocks, sure, i);
        LaterBlockCertified(bounds, b, sure, before, phi, body, test, i);
      } else {
        ExitCertified(b, sure, before, phi, body, test);
      }
    }
  }

  // What is defined on the edges that the end of a loop adds, and on all others.
  lemma EndLoopSure(bounds: bool, b: Builder, sure: seq<set<Reg>>, before: Incoming, phi: Reg, body: Label,
                    test: Label)
    requires Formed(bounds, b, sure) && LoopOpen(bounds, b, sure, before, phi, body, test)
    ensures var code, sure' := EndLoop(b, phi, body, test).blocks, EndSure(b, sure, phi, test);
            |code| == |sure'| == |b.blocks| + 1 && sure'[ENTRY] == sure[ENTRY]
            && forall i: Label, j: Label | Edge(code, i, j) :: j < |code| && sure'[j] <= sure'[i] + Defs(code[i].instrs)
  {
    hide EndLoop;
    hide PhisMatch;
    hide AssignedOnce;
    hide JumpsHaveTargets;
    hide BlockCertified;
    EndLoopEdges(bounds, b, sure, before, phi, body, test);
    EndLoopBlocks(b, before, phi, body, test);
    TestDefs(b, before, Incoming(b.head, b.cur), phi);
    hide Defs;
    var code, n := EndLoop(b, phi, body, test).blocks, |b.blocks|;
    var sure' := EndSure(b, sure, phi, test);
    forall i: Label, j: Label | Edge(code, i, j)
      ensures j < |code| && sure'[j] <= sure'[i] + Defs(code[i].instrs)
    {
      if i != test && j != n {
        assert code[i].instrs == b.blocks[i].instrs;
      }
    }
  }

  lemma ExitCertified(b: Builder, sure: seq<set<Reg>>, before: Incoming, phi: Reg, body: Label, test: Label)
    requires b.cur < |b.blocks| == |sure| && test < |b.blocks| && test != b.cur
    requires b.blocks[test].instrs == [Phi(phi, [before])]
    ensures |EndLoop(b, phi, body, test).blocks| == |EndSure(b, sure, phi, test)| == |b.blocks| + 1
    ensures BlockCertified(EndLoop(b, phi, body, test).blocks, EndSure(b, sure, phi, test), |b.blocks|)
  {
    EndLoopBlocks(b, before, phi, body, test);
    ExitBlock(b, phi, body, test);
    hide EndLoop;
    TestDefs(b, before, Incoming(b.head, b.cur), phi);
  }

  lemma TestDefs(b: Builder, before: Incoming, after: Incoming, phi: Reg)
    ensures var instrs := [Phi(phi, [before, after]), Load(b.next, phi), IcmpEqZero(b.next + 1, b.next)];
            && Defs(instrs) == {phi, b.next, b.next + 1}
            && phi in Defs(instrs[..1]) && b.next in Defs(instrs[..2])
            && Defs([Phi(phi, [before])]) == {phi}
  {
    var instrs := [Phi(phi, [before, after]), Load(b.next, phi), IcmpEqZero(b.next + 1, b.next)];
    assert instrs[0].dst == phi && instrs[1].dst == b.next && instrs[2].dst == b.next + 1;
    assert instrs[..1][0] == instrs[0] && instrs[..2][1] == instrs[1];
    assert [Phi(phi, [before])][0].dst == phi;
  }

  lemma LaterBlockCertified(bounds: bool, b: Builder, sure: seq<set<Reg>>, before: Incoming, phi: Reg, body: Label,
                            test: Label, i: Label)
    requires Formed(bounds, b, sure) && LoopOpen(bounds, b, sure, before, phi, body, test)
    requires i < |b.blocks| && BlockCertified(b.blocks, sure, i)
    ensures i < |EndLoop(b, phi, body, test).blocks| == |EndSure(b, sure, phi, test)|
    ensures BlockCertified(EndLoop(b, phi, body, test).blocks, EndSure(b, sure, phi, test), i)
  {
    EndLoopBlocks(b, before, phi, body, test);
    var code, n := EndLoop(b, phi, body, test).blocks, |b.blocks|;
    var sure' := EndSure(b, sure, phi, test);
    hide EndLoop;
    hide Formed;
    var after := Incoming(b.head, b.cur);
    TestDefs(b, before, after, phi);
    assert forall f | 0 <= f < n && f != test :: code[f].instrs == b.blocks[f].instrs;
    if i == test {
      assert BlockCertified(b.blocks, sure, test);
      assert b.blocks[test].instrs[0].incoming[0] == before;
      assert b.head in Here(b, sure) by { HeadIsHere(bounds, b, sure); }
      FinishedTest(b, code, sure', before, phi, body, test);
    } else {
      forall k, x | 0 <= k < |code[i].instrs| && code[i].instrs[k].Phi? && 0 <= x < |code[i].instrs[k].incoming|
        ensures var v := code[i].instrs[k].incoming[x];
                v.from < |code| && v.value in sure'[v.from] + Defs(code[v.from].instrs)
      {
        var v := code[i].instrs[k].incoming[x];
        assert b.blocks[i].instrs[k].incoming[x] == v;
      }
    }
  }

  lemma HeadIsHere(bounds: bool, b: Builder, sure: seq<set<Reg>>)
    requires Formed(bounds, b, sure)
    ensures b.cur < |b.blocks| == |sure| && b.head in Here(b, sure)
  {
    hide PhisMatch;
    hide AssignedOnce;
    hide Certified;
    hide JumpsHaveTargets;
  }

  // The uses in a finished test block.
  lemma FinishedTest(b: Builder, code: Code, sure: seq<set<Reg>>, before: Incoming, phi: Reg, body: Label, test: Label)
    requires test < |code| == |sure| && before.from < |code| && b.cur < |code|
    requires code[test] ==
             Block([Phi(phi, [before, Incoming(b.head, b.cur)]), Load(b.next, phi), IcmpEqZero(b.next + 1, b.next)],
                   CondBr(b.next + 1, |b.blocks|, body))
    requires before.value in sure[before.from] + Defs(code[before.from].instrs)
    requires b.head in sure[b.cur] + Defs(code[b.cur].instrs)
    ensures BlockCertified(code, sure, test)
  {
    TestDefs(b, before, Incoming(b.head, b.cur), phi);
  }

  lemma EndLoopFormed(bounds: bool, b: Builder, sure: seq<set<Reg>>, before: Incoming, phi: Reg, body: Label,
                      test: Label)
    requires Formed(bounds, b, sure) && LoopOpen(bounds, b, sure, before, phi, body, test)
    ensures Formed(bounds, EndLoop(b, phi, body, test), EndSure(b, sure, phi, test))
    ensures sure[test] <= Here(EndLoop(b, phi, body, test), EndSure(b, sure, phi, test))
  {
    EndLoopPhis(bounds, b, sure, before, phi, body, test);
    EndLoopAssigned(bounds, b, sure, before, phi, body, test);
    EndLoopCertified(bounds, b, sure, before, phi, body, test);
    EndLoopBlocks(b, before, phi, body, test);
    ExitBlock(b, phi, body, test);
    var end := EndLoop(b, phi, body, test);
    hide EndLoop;
    hide PhisMatch;
    hide AssignedOnce;
    hide Certified;
    hide JumpsHaveTargets;
    var exit := [Phi(b.next + 2, [Incoming(phi, test)])];
    assert exit[0].dst == b.next + 2;
    assert end.head in Defs(end.blocks[end.cur].instrs);
  }

  // ----- Whole programs -----

  lemma {:induction false} EmitPlain(bounds: bool, p: Prog, b: Builder)
    requires Sound(b)
    ensures var d := Emit(bounds, p, b);
            forall k | |b.blocks[b.cur].instrs| <= k < |d.blocks[b.cur].instrs| :: !d.blocks[b.cur].instrs[k].Phi?
    decreases p
  {
    if p.Loop? {
      var start, loop := StartLoop(b), EmitLoop(bounds, p.body, b);
      LoopBlocks(bounds, p.body, b);
      LoopGrows(bounds, p.body, b);
      EmitGrows(bounds, p.rest, loop);
      hide EndLoop;
      assert Emit(bounds, p, b).blocks[b.cur].instrs == b.blocks[b.cur].instrs;
    } else if !p.Nil? {
      var d := EmitFirst(bounds, p, b);
      EmitPlain(bounds, p.rest, d);
      EmitGrows(bounds, p.rest, d);
      assert Emit(bounds, p, b) == Emit(bounds, p.rest, d);
      assert forall k | |b.blocks[b.cur].instrs| <= k < |d.blocks[b.cur].instrs| :: !d.blocks[b.cur].instrs[k].Phi?;
    }
  }

  // Every block that is begun between two builders is also finished, except the one being filled.
  ghost predicate Closes(b: Builder, d: Builder) {
    forall i | |b.blocks| <= i < |d.blocks| && i != d.cur :: d.blocks[i].term != Open
  }

  lemma ClosesTransitive(b: Builder, d: Builder, e: Builder)
    requires Grows(b, d) && Grows(d, e) && Closes(b, d) && Closes(d, e)
    ensures Closes(b, e)
  {
    forall i | |b.blocks| <= i < |e.blocks| && i != e.cur
      ensures e.blocks[i].term != Open
    {
      if i < |d.blocks| && i != d.cur {
        assert e.blocks[i] == d.blocks[i];
      }
    }
  }

  lemma {:induction false} EmitCloses(bounds: bool, p: Prog, b: Builder)
    requires Sound(b)
    ensures Closes(b, Emit(bounds, p, b))
    decreases p, 1
  {
    if !p.Nil? {
      var d := if p.Loop? then EmitLoop(bounds, p.body, b) else EmitFirst(bounds, p, b);
      if p.Loop? {
        LoopCloses(bounds, p.body, b);
        LoopGrows(bounds, p.body, b);
      } else {
        assert Grows(b, d) && Closes(b, d);
      }
      assert Emit(bounds, p, b) == Emit(bounds, p.rest, d);
      EmitCloses(bounds, p.rest, d);
      EmitGrows(bounds, p.rest, d);
      ClosesTransitive(b, d, Emit(bounds, p, b));
    }
  }

  lemma LoopCloses(bounds: bool, body: Prog, b: Builder)
    requires Sound(b)
    ensures Closes(b, EmitLoop(bounds, body, b))
    decreases body, 2
  {
    var start := StartLoop(b);
    LoopBlocks(bounds, body, b);
    EmitCloses(bounds, body, start);
    var filled := Emit(bounds, body, start);
    ExitBlock(filled, b.next, |b.blocks| + 1, |b.blocks|);
    hide EndLoop;
    hide Emit;
    assert start.cur == filled.cur || filled.blocks[start.cur].term != Open;
  }

  // Three instructions: one that defines a register, one that defines a second register from it, and
  // one with an effect.
  lemma TripleStraight(b: Builder, sure: seq<set<Reg>>, x: Instr, y: Instr, z: Instr)
    requires b.cur < |b.blocks| == |sure| && b.head in Here(b, sure)
    requires Defines(x) && !x.Phi? && x.dst == b.next && forall r | r in Uses(x) :: r == b.head
    requires Defines(y) && !y.Phi? && y.dst == b.next + 1 && forall r | r in Uses(y) :: r == b.next
    requires !Defines(z) && forall r | r in Uses(z) :: r == b.next + 1 || r == b.head
    ensures Straight(b, sure, [x, y, z], 2)
  {
    var instrs := [x, y, z];
    assert b.next in Defs(instrs[..1]) by { assert instrs[..1][0] == x; }
    assert b.next + 1 in Defs(instrs[..2]) by { assert instrs[..2][1] == y; }
    hide Defs;
    hide Here;
  }

  // One command that is not a loop.
  lemma FirstFormed(bounds: bool, p: Prog, b: Builder, sure: seq<set<Reg>>) returns (more: seq<set<Reg>>)
    requires !p.Loop? && !p.Nil? && Formed(bounds, b, sure)
    ensures Formed(bounds, EmitFirst(bounds, p, b), more) && sure <= more
    ensures Here(b, sure) <= Here(EmitFirst(bounds, p, b), more)
  {
    HeadIsHere(bounds, b, sure);
    hide Formed;
    hide Straight;
    hide Here;
    var r := b.next;
    more := sure;
    match p
    case Read(_) =>
      TripleStraight(b, sure, GetChar(r), Trunc(r + 1, r), Store(r + 1, b.head));
      AppendFormed(bounds, b, [GetChar(r), Trunc(r + 1, r), Store(r + 1, b.head)], 2, sure);
    case Write(_) =>
      TripleStraight(b, sure, Load(r, b.head), SExt(r + 1, r), PutChar(r + 1));
      AppendFormed(bounds, b, [Load(r, b.head), SExt(r + 1, r), PutChar(r + 1)], 2, sure);
    case Change(k, _) =>
      TripleStraight(b, sure, Load(r, b.head), AddByte(r + 1, r, k), Store(r + 1, b.head));
      AppendFormed(bounds, b, [Load(r, b.head), AddByte(r + 1, r, k), Store(r + 1, b.head)], 2, sure);
    case Move(k, _) => more := MoveFormed(bounds, k, b, sure);
  }

  lemma MoveFormed(bounds: bool, k: int, b: Builder, sure: seq<set<Reg>>) returns (more: seq<set<Reg>>)
    requires Formed(bounds, b, sure)
    ensures Formed(bounds, EmitMove(bounds, k, b), more) && sure <= more
    ensures Here(b, sure) <= Here(EmitMove(bounds, k, b), more)
  {
    hide PhisMatch;
    hide AssignedOnce;
    hide Certified;
    hide JumpsHaveTargets;
    var h := b.next;
    more := sure;
    if bounds {
      MoveTestStraight(k, b, sure);
      var instrs := MoveTest(k, b.head, h);
      AppendFormed(true, b, instrs, 4, sure);
      var d := Append(b, instrs, 4).(head := h);
      hide Straight;
      CheckFormed(d, sure, h + 3);
      more := sure + [Here(d, sure)];
    } else {
      var instrs := [Gep(h, b.head, k)];
      AppendFormed(false, b, instrs, 1, sure);
      assert h in Defs(instrs) by { assert instrs[0].dst == h; }
    }
  }

  function MoveTest(k: int, head: Reg, h: Reg): seq<Instr> {
    [Gep(h, head, k), IcmpUge(h + 1, h, ARRMAX), IcmpUlt(h + 2, h, ARR), Or(h + 3, h + 1, h + 2)]
  }

  lemma MoveTestStraight(k: int, b: Builder, sure: seq<set<Reg>>)
    requires b.cur < |b.blocks| == |sure|
    requires b.head in Here(b, sure) && ARR in Here(b, sure) && ARRMAX in Here(b, sure)
    ensures Straight(b, sure, MoveTest(k, b.head, b.next), 4)
    ensures b.next in Defs(MoveTest(k, b.head, b.next)) && b.next + 3 in Defs(MoveTest(k, b.head, b.next))
  {
    var h := b.next;
    var instrs := MoveTest(k, b.head, h);
    assert h in Defs(instrs[..1]) by { assert instrs[..1][0].dst == h; }
    assert h in Defs(instrs[..2]) by { assert instrs[..2][0].dst == h; }
    assert h + 1 in Defs(instrs[..3]) by { assert instrs[..3][1].dst == h + 1; }
    assert h + 2 in Defs(instrs[..3]) by { assert instrs[..3][2].dst == h + 2; }
    assert instrs[0].dst == h && instrs[3].dst == h + 3;
  }

  lemma {:induction false} EmitFormed(bounds: bool, p: Prog, b: Builder, sure: seq<set<Reg>>)
    returns (more: seq<set<Reg>>)
    requires Formed(bounds, b, sure)
    ensures Formed(bounds, Emit(bounds, p, b), more) && sure <= more
    ensures Here(b, sure) <= Here(Emit(bounds, p, b), more)
    decreases p, 1
  {
    if p.Nil? {
      more := sure;
    } else if p.Loop? {
      more := LoopFormed(bounds, p.body, b, sure);
      hide Formed;
      hide EmitLoop;
      more := EmitFormed(bounds, p.rest, EmitLoop(bounds, p.body, b), more);
    } else {
      more := FirstFormed(bounds, p, b, sure);
      hide Formed;
      more := EmitFormed(bounds, p.rest, EmitFirst(bounds, p, b), more);
    }
  }

  lemma LoopFormed(bounds: bool, body: Prog, b: Builder, sure: seq<set<Reg>>) returns (more: seq<set<Reg>>)
    requires Formed(bounds, b, sure)
    ensures Formed(bounds, EmitLoop(bounds, body, b), more) && sure <= more
    ensures Here(b, sure) <= Here(EmitLoop(bounds, body, b), more)
    decreases body, 2
  {
    HeadIsHere(bounds, b, sure);
    hide *;
    var here := Here(b, sure);
    StartLoopFormed(bounds, b, sure);
    var filledSure := EmitFormed(bounds, body, StartLoop(b), sure + [here, here + {b.next}]);
    HeadIsHere(bounds, Emit(bounds, body, StartLoop(b)), filledSure);
    BodyFilled(bounds, body, b, sure, filledSure);
    more := LoopEnds(bounds, body, b, sure, filledSure);
  }

  lemma {:induction false} BodyFilled(bounds: bool, body: Prog, b: Builder, sure: seq<set<Reg>>,
                                      filledSure: seq<set<Reg>>)
    requires b.cur < |b.blocks| == |sure|
    requires var here, filled := Here(b, sure), Emit(bounds, body, StartLoop(b));
             var startSure := sure + [here, here + {b.next}];
             && startSure <= filledSure && |startSure| == |StartLoop(b).blocks| && |filledSure| == |filled.blocks|
             && Here(StartLoop(b), startSure) == here + {b.next} <= Here(filled, filledSure)
    ensures LoopFilled(bounds, body, b, sure, filledSure)
  {
    hide Emit;
    hide StartLoop;
    hide Here;
  }

  lemma {:induction false} LoopIsEnded(bounds: bool, body: Prog, b: Builder)
    requires b.cur < |b.blocks|
    ensures StartLoop(b).cur < |StartLoop(b).blocks| && |b.blocks| < |Emit(bounds, body, StartLoop(b)).blocks|
    ensures EmitLoop(bounds, body, b)
            == EndLoop(Emit(bounds, body, StartLoop(b)), b.next, |b.blocks| + 1, |b.blocks|)
  {
    hide Emit;
    hide EndLoop;
  }

  // What is known of the blocks once the body of a loop has been emitted.
  ghost predicate LoopFilled(bounds: bool, body: Prog, b: Builder, sure: seq<set<Reg>>, filledSure: seq<set<Reg>>) {
    && b.cur < |b.blocks| == |sure|
    && var here, filled := Here(b, sure), Emit(bounds, body, StartLoop(b));
       var startSure := sure + [here, here + {b.next}];
       && startSure <= filledSure && |startSure| == |StartLoop(b).blocks| && |filledSure| == |filled.blocks|
       && Here(StartLoop(b), startSure) == here + {b.next} <= Here(filled, filledSure)
  }

  lemma LoopEnds(bounds: bool, body: Prog, b: Builder, sure: seq<set<Reg>>, filledSure: seq<set<Reg>>)
    returns (more: seq<set<Reg>>)
    requires b.cur < |b.blocks| == |sure| && LoopFilled(bounds, body, b, sure, filledSure)
    requires Formed(bounds, b, sure) && Formed(bounds, Emit(bounds, body, StartLoop(b)), filledSure)
    ensures Formed(bounds, EmitLoop(bounds, body, b), more) && sure <= more
    ensures Here(b, sure) <= Here(EmitLoop(bounds, body, b), more)
  {
    hide *;
    LoopIsEnded(bounds, body, b);
    var test, filled := |b.blocks|, Emit(bounds, body, StartLoop(b));
    LoopIsOpen(bounds, body, b, sure, filledSure);
    EndSureExtends(bounds, body, b, sure, filledSure);
    more := EndSure(filled, filledSure, b.next, test);
    EndLoopFormed(bounds, filled, filledSure, Incoming(b.head, b.cur), b.next, test + 1, test);
  }

  lemma {:induction false} EndSureExtends(bounds: bool, body: Prog, b: Builder, sure: seq<set<Reg>>,
                                          filledSure: seq<set<Reg>>)
    requires LoopFilled(bounds, body, b, sure, filledSure)
    ensures |b.blocks| < |filledSure|
    ensures sure <= EndSure(Emit(bounds, body, StartLoop(b)), filledSure, b.next, |b.blocks|)
  {
    hide Emit;
    hide StartLoop;
  }

  lemma {:induction false} LoopIsOpen(bounds: bool, body: Prog, b: Builder, sure: seq<set<Reg>>,
                                      filledSure: seq<set<Reg>>)
    requires Formed(bounds, b, sure) && LoopFilled(bounds, body, b, sure, filledSure)
    ensures var here, filled := Here(b, sure), Emit(bounds, body, StartLoop(b));
            && |b.blocks| < |filledSure| && filledSure[|b.blocks|] == here
            && LoopOpen(bounds, filled, filledSure, Incoming(b.head, b.cur), b.next, |b.blocks| + 1, |b.blocks|)
  {
    var here, start, filled, test := Here(b, sure), StartLoop(b), Emit(bounds, body, StartLoop(b)), |b.blocks|;
    var startSure := sure + [here, here + {b.next}];
    hide Emit;
    hide EndLoop;
    hide Defs;
    hide PhisMatch;
    hide AssignedOnce;
    hide Certified;
    hide JumpsHaveTargets;
    StartLoopSound(b);
    EmitGrows(bounds, body, start);
    LoopBegins(b, filled);
    BodyIsPlain(bounds, body, b);
    assert filledSure[test] == startSure[test] && filledSure[test + 1] == startSure[test + 1];
    hide Grows;
  }

  // The first block of a loop body has no phi nodes.
  lemma {:induction false} BodyIsPlain(bounds: bool, body: Prog, b: Builder)
    requires Sound(b)
    ensures var filled, first := Emit(bounds, body, StartLoop(b)), |b.blocks| + 1;
            first < |filled.blocks|
            && forall k | 0 <= k < |filled.blocks[first].instrs| :: !filled.blocks[first].instrs[k].Phi?
  {
    hide Emit;
    StartLoopSound(b);
    BodyIsEmpty(b);
    hide StartLoop;
    EmitPlain(bounds, body, StartLoop(b));
    hide Sound;
  }

  lemma BodyIsEmpty(b: Builder)
    requires b.cur < |b.blocks|
    ensures var start := StartLoop(b);
            start.cur == |b.blocks| + 1 < |start.blocks| && start.blocks[start.cur].instrs == []
  {
  }

  /** For every program, with and without bounds checking, the emitted code is well formed. */
  lemma {:induction false} CompiledIsWellFormed(bounds: bool, memtotal: nat, p: Prog)
    ensures var code := Compile(bounds, memtotal, p);
            && (forall i | 0 <= i < |code| :: code[i].term != Open)
            && JumpsHaveTargets(code)
            && PhisMatch(code)
            && AssignedOnce(code, Emit(bounds, p, Header(bounds, memtotal)).next)
            && (forall path | Path(code, path) :: UsesAreDefined(code, path))
  {
    var h := Header(bounds, memtotal);
    var sure := HeaderFormed(bounds, memtotal);
    EmitGrows(bounds, p, h);
    EmitCloses(bounds, p, h);
    var more := EmitFormed(bounds, p, h, sure);
    var e := Emit(bounds, p, h);
    var code := Compile(bounds, memtotal, p);
    FinishFormed(bounds, e, more);
    forall path | Path(code, path)
      ensures UsesAreDefined(code, path)
    {
      CertifiedUsesAreDefined(code, more, path);
    }
  }

  lemma HeaderFormed(bounds: bool, memtotal: nat) returns (sure: seq<set<Reg>>)
    ensures Formed(bounds, Header(bounds, memtotal), sure)
  {
    var h := Header(bounds, memtotal);
    sure := HeaderSure(bounds);
    HeaderDefs(bounds, memtotal);
    assert forall r: Reg, i: Label, k: nat | AssignedAt(h.blocks, r, i, k) :: i == ENTRY;
    HeaderCertified(bounds, memtotal);
    hide Certified;
  }

  function HeaderSure(bounds: bool): seq<set<Reg>> {
    if bounds then [{}, {ARR}, {ARR}] else [{}, {ARR}]
  }

  lemma HeaderCertified(bounds: bool, memtotal: nat)
    ensures Certified(Header(bounds, memtotal).blocks, HeaderSure(bounds))
  {
    var h := Header(bounds, memtotal);
    HeaderDefs(bounds, memtotal);
    forall i | 0 <= i < |h.blocks|
      ensures BlockCertified(h.blocks, HeaderSure(bounds), i)
    {
    }
  }

  lemma HeaderDefs(bounds: bool, memtotal: nat)
    ensures var first := Header(bounds, memtotal).blocks[ENTRY].instrs;
            && Defs(first) == (if bounds then {ARR, ARRMAX, HEAD} else {ARR, HEAD})
            && (forall k | 1 <= k <= |first| :: ARR in Defs(first[..k]))
            && (forall k | 0 <= k < |first| :: !first[k].Phi? && forall r | r in Uses(first[k]) :: k > 0 && r == ARR)
            && (forall k | 0 <= k < |first| && Defines(first[k]) ::
                  first[k].dst == (if k == 0 then ARR else if k == |first| - 1 then HEAD else ARRMAX))
            && (forall k | 0 <= k < |first| :: Defines(first[k]) <==> k != 1)
            && |first| == (if bounds then 4 else 3)
  {
    var first := Header(bounds, memtotal).blocks[ENTRY].instrs;
    assert first[0].dst == ARR && first[|first| - 1].dst == HEAD;
    assert bounds ==> first[2].dst == ARRMAX;
    forall k | 1 <= k <= |first|
      ensures ARR in Defs(first[..k])
    {
      assert first[..k][0] == first[0];
    }
  }

  lemma FinishFormed(bounds: bool, b: Builder, sure: seq<set<Reg>>)
    requires Formed(bounds, b, sure)
    ensures var code := Finish(b).blocks;
            JumpsHaveTargets(code) && PhisMatch(code) && AssignedOnce(code, b.next) && Certified(code, sure)
  {
    var code := Finish(b).blocks;
    forall i: Label, j: Label
      ensures Edge(code, i, j) <==> Edge(b.blocks, i, j) || (i == b.cur && j == END)
    {
    }
    forall j, k | 0 <= j < |code| && 0 <= k < |code[j].instrs| && code[j].instrs[k].Phi?
      ensures k == 0 && PhiMatches(code, j, code[j].instrs[k])
    {
      assert code[j].instrs == b.blocks[j].instrs;
      assert PhiMatches(b.blocks, j, b.blocks[j].instrs[k]);
    }
    forall r: Reg, i: Label, k: nat
      ensures AssignedAt(code, r, i, k) <==> AssignedAt(b.blocks, r, i, k)
    {
    }
    forall i | 0 <= i < |code|
      ensures BlockCertified(code, sure, i)
    {
      assert BlockCertified(b.blocks, sure, i);
    }
  }
}
