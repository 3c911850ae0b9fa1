/** The compiled code does what the program means: forward and backward, with and without
    bounds checking, for runs that end and runs that do not. */
module BrainFCorrectness {
  import opened BrainFLanguage
  import opened BrainFTarget
  import opened BrainFCompiler
  import opened Options

  // ----- How a builder grows -----

  // Finished blocks and blocks waiting for their loop to end are left alone; the block
  // being filled only gets more instructions.
  ghost predicate Grows(b: Builder, d: Builder) {
    && Sound(b) && Sound(d)
    && |b.blocks| <= |d.blocks|
    && (forall i | 0 <= i < |b.blocks| && i != b.cur :: d.blocks[i] == b.blocks[i])
    && b.blocks[b.cur].instrs <= d.blocks[b.cur].instrs
    && (d.cur == b.cur || (d.cur >= |b.blocks| && d.blocks[b.cur].term != Open))
    && b.next <= d.next
  }

  // `code` is what `b` may still become.
  ghost predicate Becomes(b: Builder, code: Code) {
    && Sound(b)
    && |b.blocks| <= |code|
    && b.blocks[b.cur].instrs <= code[b.cur].instrs
    && (forall i | 0 <= i < |b.blocks| && b.blocks[i].term != Open :: code[i] == b.blocks[i])
  }

  lemma GrowsThenBecomes(b: Builder, d: Builder, code: Code)
    requires Grows(b, d) && Becomes(d, code)
    ensures Becomes(b, code)
  {
  }

  lemma GrowsTransitive(b: Builder, d: Builder, e: Builder)
    requires Grows(b, d) && Grows(d, e)
    ensures Grows(b, e)
  {
  }

  // The whole of a loop, emitted at `b`.
  function EmitLoop(bounds: bool, body: Prog, b: Builder): Builder
    requires b.cur < |b.blocks|
  {
    EndLoop(Emit(bounds, body, StartLoop(b)), b.next, |b.blocks| + 1, |b.blocks|)
  }

  lemma StartLoopSound(b: Builder)
    requires Sound(b)
    ensures Sound(StartLoop(b))
  {
  }

  function EmitFirst(bounds: bool, p: Prog, b: Builder): Builder
    requires b.cur < |b.blocks|
  {
    match p
    case Read(_) => EmitRead(b)
    case Write(_) => EmitWrite(b)
    case Change(k, _) => EmitChange(k, b)
    case Move(k, _) => EmitMove(bounds, k, b)
    case _ => b
  }

  lemma FirstGrows(bounds: bool, p: Prog, b: Builder)
    requires Sound(b)
    ensures Sound(EmitFirst(bounds, p, b)) && Grows(b, EmitFirst(bounds, p, b))
  {
  }

  lemma {:induction false} EmitGrows(bounds: bool, p: Prog, b: Builder)
    requires Sound(b)
    ensures Grows(b, Emit(bounds, p, b))
    decreases p, 0
  {
    match p
    case Nil =>
    case Loop(body, rest) =>
      LoopGrows(bounds, body, b);
      EmitGrows(bounds, rest, EmitLoop(bounds, body, b));
      GrowsTransitive(b, EmitLoop(bounds, body, b), Emit(bounds, p, b));
    case _ =>
      FirstGrows(bounds, p, b);
      hide Grows;
      EmitGrows(bounds, p.rest, EmitFirst(bounds, p, b));
      GrowsTransitive(b, EmitFirst(bounds, p, b), Emit(bounds, p, b));
  }

  lemma LoopGrows(bounds: bool, body: Prog, b: Builder)
    requires Sound(b)
    ensures Grows(b, EmitLoop(bounds, body, b))
    decreases body, 1
  {
    var start := StartLoop(b);
    StartLoopSound(b);
    EmitGrows(bounds, body, start);
    var filled := Emit(bounds, body, start);
    assert filled.blocks[b.cur] == start.blocks[b.cur];
  }

  // ----- Places -----

  // The machine stands at the end of what `b` has emitted so far, with the head register,
  // the tape limits and the world as state `s` says.
  ghost predicate Stands(env: Env, b: Builder, c: Config, s: State)
    requires b.cur < |b.blocks|
  {
    && c.block == b.cur
    && c.index == |b.blocks[b.cur].instrs|
    && Holds(env, b.head, c, s)
  }

  ghost predicate Holds(env: Env, head: Reg, c: Config, s: State) {
    && c.world == s.world
    && head in c.regs && c.regs[head] == s.head
    && ARR in c.regs && c.regs[ARR] == env.arr
    && (env.limit.Within? ==> env.limit.lo == env.arr && ARRMAX in c.regs && c.regs[ARRMAX] == env.limit.hi)
    && env.limit.Allows(s.head)
  }

  // One more step: the instruction in front of the machine, or the jump at the end of a block.
  lemma Does(code: Code, env: Env, c: Config, n: nat, d: Config, i: Instr) returns (e: Config)
    requires Leads(code, env, Run(c), n, Run(d))
    requires d.block < |code| && d.index < |code[d.block].instrs| && code[d.block].instrs[d.index] == i
    requires (forall r | r in Uses(i) :: r in d.regs) && RunInstr(env, i, d).Run?
    ensures RunInstr(env, i, d) == Run(e)
    ensures Leads(code, env, Run(c), n + 1, Run(e))
  {
    e := RunInstr(env, i, d).c;
    LeadsStep(code, env, Run(c), n, Run(d));
  }

  lemma Jumps(code: Code, env: Env, c: Config, n: nat, d: Config, target: Label) returns (e: Config)
    requires Leads(code, env, Run(c), n, Run(d))
    requires d.block < |code| && d.index == |code[d.block].instrs|
    requires match code[d.block].term
             case Br(t) => t == target
             case CondBr(r, yes, no) => r in d.regs && target == if d.regs[r] != 0 then yes else no
             case _ => false
    ensures Goto(d, target) == Run(e)
    ensures Leads(code, env, Run(c), n + 1, Run(e))
  {
    e := Goto(d, target).c;
    LeadsStep(code, env, Run(c), n, Run(d));
  }

  lemma LeadsNowhere(code: Code, env: Env, s: Status)
    ensures Leads(code, env, s, 0, s)
  {
  }

  // ----- One instruction at a time -----

  function Assign(c: Config, dst: Reg, v: int): Config {
    c.(index := c.index + 1, regs := c.regs[dst := v])
  }

  function Effect(c: Config, w: World): Config {
    c.(index := c.index + 1, world := w)
  }

  // After `n` steps the machine stands in front of instruction `i`.
  ghost predicate Faces(code: Code, env: Env, c: Config, n: nat, d: Config, i: Instr) {
    && Leads(code, env, Run(c), n, Run(d))
    && d.block < |code| && d.index < |code[d.block].instrs| && code[d.block].instrs[d.index] == i
  }

  lemma {:induction false} DoesLoad(code: Code, env: Env, c: Config, n: nat, d: Config, dst: Reg, p: Reg)
    returns (e: Config)
    requires Faces(code, env, c, n, d, Load(dst, p)) && p in d.regs && env.limit.Allows(d.regs[p])
    ensures Leads(code, env, Run(c), n + 1, Run(e)) && e == Assign(d, dst, d.world.Cell(d.regs[p]))
  {
    e := Does(code, env, c, n, d, Load(dst, p));
  }

  lemma {:induction false} DoesStore(code: Code, env: Env, c: Config, n: nat, d: Config, src: Reg, p: Reg)
    returns (e: Config)
    requires Faces(code, env, c, n, d, Store(src, p)) && src in d.regs && p in d.regs && env.limit.Allows(d.regs[p])
    ensures Leads(code, env, Run(c), n + 1, Run(e)) && e == Effect(d, d.world.Put(d.regs[p], d.regs[src] % 256))
  {
    e := Does(code, env, c, n, d, Store(src, p));
  }

  lemma {:induction false} DoesGetChar(code: Code, env: Env, c: Config, n: nat, d: Config, dst: Reg) returns (e: Config)
    requires Faces(code, env, c, n, d, GetChar(dst))
    ensures Leads(code, env, Run(c), n + 1, Run(e))
    ensures e == Assign(d.(world := ReadByte(d.world).1), dst, if d.world.input == [] then -1 else d.world.input[0])
  {
    e := Does(code, env, c, n, d, GetChar(dst));
  }

  lemma {:induction false} DoesPutChar(code: Code, env: Env, c: Config, n: nat, d: Config, src: Reg) returns (e: Config)
    requires Faces(code, env, c, n, d, PutChar(src)) && src in d.regs
    ensures Leads(code, env, Run(c), n + 1, Run(e)) && e == Effect(d, d.world.Emit(Char(d.regs[src] % 256)))
  {
    e := Does(code, env, c, n, d, PutChar(src));
  }

  lemma {:induction false} DoesTrunc(code: Code, env: Env, c: Config, n: nat, d: Config, dst: Reg, src: Reg)
    returns (e: Config)
    requires Faces(code, env, c, n, d, Trunc(dst, src)) && src in d.regs
    ensures Leads(code, env, Run(c), n + 1, Run(e)) && e == Assign(d, dst, d.regs[src] % 256)
  {
    e := Does(code, env, c, n, d, Trunc(dst, src));
  }

  lemma {:induction false} DoesSExt(code: Code, env: Env, c: Config, n: nat, d: Config, dst: Reg, src: Reg)
    returns (e: Config)
    requires Faces(code, env, c, n, d, SExt(dst, src)) && src in d.regs
    ensures Leads(code, env, Run(c), n + 1, Run(e))
    ensures e == Assign(d, dst, if d.regs[src] < 128 then d.regs[src] else d.regs[src] - 256)
  {
    e := Does(code, env, c, n, d, SExt(dst, src));
  }

  lemma {:induction false} DoesAddByte(code: Code, env: Env, c: Config, n: nat, d: Config, dst: Reg, src: Reg, k: int)
    returns (e: Config)
    requires Faces(code, env, c, n, d, AddByte(dst, src, k)) && src in d.regs
    ensures Leads(code, env, Run(c), n + 1, Run(e)) && e == Assign(d, dst, (d.regs[src] + k % 256) % 256)
  {
    e := Does(code, env, c, n, d, AddByte(dst, src, k));
  }

  lemma {:induction false} DoesGep(code: Code, env: Env, c: Config, n: nat, d: Config, dst: Reg, src: Reg, k: int)
    returns (e: Config)
    requires Faces(code, env, c, n, d, Gep(dst, src, k)) && src in d.regs
    ensures Leads(code, env, Run(c), n + 1, Run(e)) && e == Assign(d, dst, d.regs[src] + k)
  {
    e := Does(code, env, c, n, d, Gep(dst, src, k));
  }

  lemma {:induction false} DoesUge(code: Code, env: Env, c: Config, n: nat, d: Config, dst: Reg, a: Reg, b: Reg)
    returns (e: Config)
    requires Faces(code, env, c, n, d, IcmpUge(dst, a, b)) && a in d.regs && b in d.regs
    ensures Leads(code, env, Run(c), n + 1, Run(e)) && e == Assign(d, dst, Bit(d.regs[a] >= d.regs[b]))
  {
    e := Does(code, env, c, n, d, IcmpUge(dst, a, b));
  }

  lemma {:induction false} DoesUlt(code: Code, env: Env, c: Config, n: nat, d: Config, dst: Reg, a: Reg, b: Reg)
    returns (e: Config)
    requires Faces(code, env, c, n, d, IcmpUlt(dst, a, b)) && a in d.regs && b in d.regs
    ensures Leads(code, env, Run(c), n + 1, Run(e)) && e == Assign(d, dst, Bit(d.regs[a] < d.regs[b]))
  {
    e := Does(code, env, c, n, d, IcmpUlt(dst, a, b));
  }

  lemma {:induction false} DoesOr(code: Code, env: Env, c: Config, n: nat, d: Config, dst: Reg, a: Reg, b: Reg)
    returns (e: Config)
    requires Faces(code, env, c, n, d, Or(dst, a, b)) && a in d.regs && b in d.regs
    ensures Leads(code, env, Run(c), n + 1, Run(e)) && e == Assign(d, dst, Bit(d.regs[a] != 0 || d.regs[b] != 0))
  {
    e := Does(code, env, c, n, d, Or(dst, a, b));
  }

  lemma {:induction false} DoesEqZero(code: Code, env: Env, c: Config, n: nat, d: Config, dst: Reg, src: Reg)
    returns (e: Config)
    requires Faces(code, env, c, n, d, IcmpEqZero(dst, src)) && src in d.regs
    ensures Leads(code, env, Run(c), n + 1, Run(e)) && e == Assign(d, dst, Bit(d.regs[src] == 0))
  {
    e := Does(code, env, c, n, d, IcmpEqZero(dst, src));
  }

  lemma {:induction false} DoesMalloc(code: Code, env: Env, c: Config, n: nat, d: Config, dst: Reg) returns (e: Config)
    requires Faces(code, env, c, n, d, Malloc(dst))
    ensures Leads(code, env, Run(c), n + 1, Run(e)) && e == Assign(d, dst, env.arr)
  {
    e := Does(code, env, c, n, d, Malloc(dst));
  }

  lemma {:induction false} DoesMemset(code: Code, env: Env, c: Config, n: nat, d: Config, p: Reg, size: nat)
    returns (e: Config)
    requires Faces(code, env, c, n, d, Memset(p, size)) && p in d.regs
    ensures Leads(code, env, Run(c), n + 1, Run(e))
    ensures e == Effect(d, d.world.(tape := Zeroed(d.world.tape, d.regs[p], d.regs[p] + size)))
  {
    e := Does(code, env, c, n, d, Memset(p, size));
  }

  lemma {:induction false} DoesPhi(code: Code, env: Env, c: Config, n: nat, d: Config,
                                   dst: Reg, incoming: seq<Incoming>, r: Reg) returns (e: Config)
    requires Faces(code, env, c, n, d, Phi(dst, incoming)) && Choose(incoming, d.from) == Some(r) && r in d.regs
    ensures Leads(code, env, Run(c), n + 1, Run(e)) && e == Assign(d, dst, d.regs[r])
  {
    e := Does(code, env, c, n, d, Phi(dst, incoming));
  }

  lemma {:induction false} DoesPuts(code: Code, env: Env, c: Config, n: nat, d: Config) returns (e: Config)
    requires Faces(code, env, c, n, d, Puts)
    ensures Leads(code, env, Run(c), n + 1, Run(e)) && e == Effect(d, d.world.Emit(BoundsMessage))
  {
    e := Does(code, env, c, n, d, Puts);
  }

  // The instructions that follow the ones already emitted.
  lemma Fetch(b: Builder, instrs: seq<Instr>, code: Code)
    requires b.cur < |b.blocks| && b.cur < |code|
    requires b.blocks[b.cur].instrs + instrs <= code[b.cur].instrs
    ensures |b.blocks[b.cur].instrs| + |instrs| <= |code[b.cur].instrs|
    ensures forall j | 0 <= j < |instrs| :: code[b.cur].instrs[|b.blocks[b.cur].instrs| + j] == instrs[j]
  {
    var all := b.blocks[b.cur].instrs + instrs;
    forall j | 0 <= j < |instrs|
      ensures code[b.cur].instrs[|b.blocks[b.cur].instrs| + j] == instrs[j]
    {
      assert all[|b.blocks[b.cur].instrs| + j] == instrs[j];
    }
  }

  lemma RunsRead(env: Env, b: Builder, code: Code, c: Config, s: State) returns (d: Config)
    requires Sound(b) && Becomes(EmitRead(b), code)
    requires Stands(env, b, c, s)
    ensures Leads(code, env, Run(c), 3, Run(d))
    ensures var (x, w) := ReadByte(s.world); Stands(env, EmitRead(b), d, s.(world := w.Put(s.head, x)))
  {
    hide Leads;
    hide RunInstr;
    var r := b.next;
    Fetch(b, [GetChar(r), Trunc(r + 1, r), Store(r + 1, b.head)], code);
    hide Becomes;
    LeadsNowhere(code, env, Run(c));
    d := DoesGetChar(code, env, c, 0, c, r);
    d := DoesTrunc(code, env, c, 1, d, r + 1, r);
    d := DoesStore(code, env, c, 2, d, r + 1, b.head);
  }

  lemma RunsWrite(env: Env, b: Builder, code: Code, c: Config, s: State) returns (d: Config)
    requires Sound(b) && Becomes(EmitWrite(b), code)
    requires Stands(env, b, c, s)
    ensures Leads(code, env, Run(c), 3, Run(d))
    ensures Stands(env, EmitWrite(b), d, s.(world := s.world.Emit(Char(s.world.Cell(s.head)))))
  {
    hide Leads;
    hide RunInstr;
    var r := b.next;
    Fetch(b, [Load(r, b.head), SExt(r + 1, r), PutChar(r + 1)], code);
    hide Becomes;
    LeadsNowhere(code, env, Run(c));
    d := DoesLoad(code, env, c, 0, c, r, b.head);
    d := DoesSExt(code, env, c, 1, d, r + 1, r);
    d := DoesPutChar(code, env, c, 2, d, r + 1);
  }

  lemma RunsChange(env: Env, k: int, b: Builder, code: Code, c: Config, s: State) returns (d: Config)
    requires Sound(b) && Becomes(EmitChange(k, b), code)
    requires Stands(env, b, c, s)
    ensures Leads(code, env, Run(c), 3, Run(d))
    ensures Stands(env, EmitChange(k, b), d, s.(world := s.world.Put(s.head, (s.world.Cell(s.head) + k) % 256)))
  {
    hide Leads;
    hide RunInstr;
    hide Step;
    hide Iter;
    var r := b.next;
    Fetch(b, [Load(r, b.head), AddByte(r + 1, r, k), Store(r + 1, b.head)], code);
    hide Becomes;
    LeadsNowhere(code, env, Run(c));
    d := DoesLoad(code, env, c, 0, c, r, b.head);
    d := DoesAddByte(code, env, c, 1, d, r + 1, r, k);
    d := DoesStore(code, env, c, 2, d, r + 1, b.head);
  }

  // The four instructions of a checked move, up to the jump.
  lemma RunsMoveTest(env: Env, k: int, head: Reg, h: Reg, code: Code, c: Config, s: State) returns (d: Config)
    requires env.limit.Within? && Holds(env, head, c, s) && HEAD < h
    requires c.block < |code| && c.index + 4 <= |code[c.block].instrs|
    requires code[c.block].instrs[c.index] == Gep(h, head, k)
    requires code[c.block].instrs[c.index + 1] == IcmpUge(h + 1, h, ARRMAX)
    requires code[c.block].instrs[c.index + 2] == IcmpUlt(h + 2, h, ARR)
    requires code[c.block].instrs[c.index + 3] == Or(h + 3, h + 1, h + 2)
    ensures Leads(code, env, Run(c), 4, Run(d))
    ensures d.block == c.block && d.index == c.index + 4 && h in d.regs && h + 3 in d.regs
    ensures d.regs[h + 3] == Bit(!env.limit.Allows(s.head + k))
    ensures d.world == s.world && d.regs[h] == s.head + k
    ensures ARR in d.regs && d.regs[ARR] == env.arr && ARRMAX in d.regs && d.regs[ARRMAX] == env.limit.hi
  {
    hide Leads;
    hide RunInstr;
    LeadsNowhere(code, env, Run(c));
    d := DoesGep(code, env, c, 0, c, h, head, k);
    d := DoesUge(code, env, c, 1, d, h + 1, h, ARRMAX);
    d := DoesUlt(code, env, c, 2, d, h + 2, h, ARR);
    d := DoesOr(code, env, c, 3, d, h + 3, h + 1, h + 2);
  }

  // A move leads on, or to the error block when it leaves the tape.
  lemma RunsMove(env: Env, k: int, b: Builder, code: Code, c: Config, s: State) returns (n: nat, d: Config)
    requires Sound(b) && Becomes(EmitMove(env.limit.Within?, k, b), code)
    requires Stands(env, b, c, s)
    ensures Leads(code, env, Run(c), n, Run(d))
    ensures env.limit.Allows(s.head + k) ==>
              Stands(env, EmitMove(env.limit.Within?, k, b), d, s.(head := s.head + k))
    ensures !env.limit.Allows(s.head + k) ==> d.block == ABERROR && d.index == 0 && d.world == s.world && ARR in d.regs
  {
    hide Leads;
    hide RunInstr;
    var h := b.next;
    if env.limit.Within? {
      var instrs := [Gep(h, b.head, k), IcmpUge(h + 1, h, ARRMAX), IcmpUlt(h + 2, h, ARR), Or(h + 3, h + 1, h + 2)];
      assert EmitMove(true, k, b).blocks[b.cur].instrs == b.blocks[b.cur].instrs + instrs;
      Fetch(b, instrs, code);
      assert code[c.block].instrs[c.index + 0] == instrs[0];
      d := RunsMoveTest(env, k, b.head, h, code, c, s);
      d := Jumps(code, env, c, 4, d, if env.limit.Allows(s.head + k) then |b.blocks| else ABERROR);
      n := 5;
    } else {
      Fetch(b, [Gep(h, b.head, k)], code);
      LeadsNowhere(code, env, Run(c));
      d := DoesGep(code, env, c, 0, c, h, b.head, k);
      n := 1;
    }
  }

  // ----- Loops -----

  // The finished test block of a loop emitted at `b`.
  function TestBlock(bounds: bool, body: Prog, b: Builder): Block
    requires b.cur < |b.blocks|
  {
    var filled := Emit(bounds, body, StartLoop(b));
    Block([Phi(b.next, [Incoming(b.head, b.cur), Incoming(filled.head, filled.cur)]),
           Load(filled.next, b.next), IcmpEqZero(filled.next + 1, filled.next)],
          CondBr(filled.next + 1, |filled.blocks|, |b.blocks| + 1))
  }

  // Where the blocks of a loop end up.
  lemma {:induction false} LoopLayout(bounds: bool, body: Prog, b: Builder, code: Code)
    requires Sound(b) && Becomes(EmitLoop(bounds, body, b), code)
    ensures var filled := Emit(bounds, body, StartLoop(b));
            && Becomes(StartLoop(b), code) && Becomes(filled, code)
            && b.cur < |code| && |b.blocks| < filled.cur < |code|
            && code[b.cur] == Block(b.blocks[b.cur].instrs, Br(|b.blocks|))
            && code[|b.blocks|] == TestBlock(bounds, body, b)
            && code[filled.cur] == Block(filled.blocks[filled.cur].instrs, Br(|b.blocks|))
            && b.next < filled.next
  {
    LoopBlocks(bounds, body, b);
    hide Emit;
    var start := StartLoop(b);
    var filled := Emit(bounds, body, start);
    assert Becomes(filled, code);
    GrowsThenBecomes(start, filled, code);
  }

  lemma {:induction false} LoopBlocks(bounds: bool, body: Prog, b: Builder)
    requires Sound(b)
    ensures Sound(StartLoop(b)) && Grows(StartLoop(b), Emit(bounds, body, StartLoop(b)))
    ensures var filled, end := Emit(bounds, body, StartLoop(b)), EmitLoop(bounds, body, b);
            && |b.blocks| < filled.cur < |filled.blocks| < |end.blocks|
            && end.blocks[b.cur] == Block(b.blocks[b.cur].instrs, Br(|b.blocks|))
            && end.blocks[|b.blocks|] == TestBlock(bounds, body, b)
            && end.blocks[filled.cur] == Block(filled.blocks[filled.cur].instrs, Br(|b.blocks|))
            && forall i | 0 <= i < |filled.blocks| && i != filled.cur && i != |b.blocks| ::
                    end.blocks[i] == filled.blocks[i]
  {
    hide Emit;
    hide EndLoop;
    var start := StartLoop(b);
    var filled := Emit(bounds, body, start);
    StartLoopSound(b);
    EmitGrows(bounds, body, start);
    LoopBegins(b, filled);
    hide Grows;
    hide StartLoop;
    hide Sound;
    EndLoopBlocks(filled, Incoming(b.head, b.cur), b.next, |b.blocks| + 1, |b.blocks|);
  }

  // The blocks around a loop body that has been filled.
  lemma LoopBegins(b: Builder, filled: Builder)
    requires Sound(b) && Grows(StartLoop(b), filled)
    ensures b.cur < |b.blocks| < filled.cur < |filled.blocks|
    ensures filled.blocks[|b.blocks|] == Block([Phi(b.next, [Incoming(b.head, b.cur)])], Open)
    ensures filled.blocks[b.cur] == Block(b.blocks[b.cur].instrs, Br(|b.blocks|))
  {
    var start := StartLoop(b);
    assert filled.blocks[|b.blocks|] == start.blocks[|b.blocks|];
    assert filled.blocks[b.cur] == start.blocks[b.cur];
  }

  // What the end of a loop does to the block under construction and to the test block.
  lemma EndLoopBlocks(b: Builder, before: Incoming, phi: Reg, body: Label, test: Label)
    requires b.cur < |b.blocks| && test < |b.blocks| && test != b.cur
    requires b.blocks[test].instrs == [Phi(phi, [before])]
    ensures var end := EndLoop(b, phi, body, test);
            && |end.blocks| == |b.blocks| + 1
            && end.blocks[b.cur] == Block(b.blocks[b.cur].instrs, Br(test))
            && end.blocks[test] ==
               Block([Phi(phi, [before, Incoming(b.head, b.cur)]), Load(b.next, phi), IcmpEqZero(b.next + 1, b.next)],
                     CondBr(b.next + 1, |b.blocks|, body))
            && forall i | 0 <= i < |b.blocks| && i != b.cur && i != test :: end.blocks[i] == b.blocks[i]
  {
    var after := Incoming(b.head, b.cur);
    assert [before] + [after] == [before, after];
    assert AddIncoming(b.blocks[test].instrs, after) == [Phi(phi, [before, after])];
  }

  lemma {:induction false} ExitLayout(bounds: bool, body: Prog, b: Builder, code: Code)
    requires Sound(b) && Becomes(EmitLoop(bounds, body, b), code)
    ensures var filled, end := Emit(bounds, body, StartLoop(b)), EmitLoop(bounds, body, b);
            && b.next < filled.next
            && end.cur == |filled.blocks| < |code|
            && end.head == filled.next + 2
            && |end.blocks[end.cur].instrs| == 1
            && code[end.cur].instrs != []
            && code[end.cur].instrs[0] == Phi(filled.next + 2, [Incoming(b.next, |b.blocks|)])
  {
    StartLoopSound(b);
    EmitGrows(bounds, body, StartLoop(b));
    hide Emit;
    var end := EmitLoop(bounds, body, b);
    assert code[end.cur].instrs[0] == end.blocks[end.cur].instrs[0];
  }

  // The machine stands behind the phi node of the test block.
  ghost predicate AtTest(env: Env, b: Builder, c: Config, s: State)
    requires b.cur < |b.blocks|
  {
    c.block == |b.blocks| && c.index == 1 && Holds(env, b.next, c, s)
  }

  lemma EntersLoop(env: Env, body: Prog, b: Builder, code: Code, c: Config, s: State) returns (d: Config)
    requires Sound(b) && Becomes(EmitLoop(env.limit.Within?, body, b), code)
    requires Stands(env, b, c, s)
    ensures Leads(code, env, Run(c), 2, Run(d)) && AtTest(env, b, d, s)
  {
    hide Becomes;
    hide Leads;
    hide RunInstr;
    hide Emit;
    hide EmitLoop;
    LoopLayout(env.limit.Within?, body, b, code);
    LeadsNowhere(code, env, Run(c));
    d := Jumps(code, env, c, 0, c, |b.blocks|);
    d := DoesPhi(code, env, c, 1, d, b.next, code[|b.blocks|].instrs[0].incoming, b.head);
  }

  lemma RepeatsLoop(env: Env, body: Prog, b: Builder, code: Code, c: Config, s: State) returns (d: Config)
    requires Sound(b) && Becomes(EmitLoop(env.limit.Within?, body, b), code)
    requires Stands(env, Emit(env.limit.Within?, body, StartLoop(b)), c, s)
    ensures Leads(code, env, Run(c), 2, Run(d)) && AtTest(env, b, d, s)
  {
    hide Becomes;
    hide Leads;
    hide RunInstr;
    hide Emit;
    hide EmitLoop;
    LoopLayout(env.limit.Within?, body, b, code);
    var filled := Emit(env.limit.Within?, body, StartLoop(b));
    LeadsNowhere(code, env, Run(c));
    d := Jumps(code, env, c, 0, c, |b.blocks|);
    var incoming := code[|b.blocks|].instrs[0].incoming;
    assert Choose(incoming, filled.cur) == Choose(incoming[1..], filled.cur) == Some(filled.head);
    d := DoesPhi(code, env, c, 1, d, b.next, incoming, filled.head);
  }

  // The test itself: the machine stands in front of the conditional jump.
  lemma TestsLoop(env: Env, body: Prog, b: Builder, code: Code, c: Config, s: State) returns (d: Config)
    requires Sound(b) && Becomes(EmitLoop(env.limit.Within?, body, b), code)
    requires AtTest(env, b, c, s)
    ensures Leads(code, env, Run(c), 2, Run(d))
    ensures var filled := Emit(env.limit.Within?, body, StartLoop(b));
            && |b.blocks| < |code| && code[|b.blocks|] == TestBlock(env.limit.Within?, body, b)
            && d.block == |b.blocks| && d.index == 3 && Holds(env, b.next, d, s)
            && filled.next + 1 in d.regs
            && d.regs[filled.next + 1] == Bit(s.world.Cell(s.head) == 0)
  {
    hide Becomes;
    hide Leads;
    hide RunInstr;
    hide Emit;
    hide EmitLoop;
    LoopLayout(env.limit.Within?, body, b, code);
    var filled := Emit(env.limit.Within?, body, StartLoop(b));
    LeadsNowhere(code, env, Run(c));
    d := DoesLoad(code, env, c, 0, c, filled.next, b.next);
    d := DoesEqZero(code, env, c, 1, d, filled.next + 1, filled.next);
  }

  lemma LeavesLoop(env: Env, body: Prog, b: Builder, code: Code, c: Config, s: State) returns (d: Config)
    requires Sound(b) && Becomes(EmitLoop(env.limit.Within?, body, b), code)
    requires AtTest(env, b, c, s) && s.world.Cell(s.head) == 0
    ensures Leads(code, env, Run(c), 4, Run(d))
    ensures Stands(env, EmitLoop(env.limit.Within?, body, b), d, s)
  {
    hide StartLoop;
    hide Becomes;
    hide Step;
    hide Iter;
    hide Emit;
    hide EmitLoop;
    d := TestsLoop(env, body, b, code, c, s);
    ExitLayout(env.limit.Within?, body, b, code);
    var end := EmitLoop(env.limit.Within?, body, b);
    d := Jumps(code, env, c, 2, d, end.cur);
    d := DoesPhi(code, env, c, 3, d, end.head, [Incoming(b.next, |b.blocks|)], b.next);
  }

  lemma EntersBody(env: Env, body: Prog, b: Builder, code: Code, c: Config, s: State) returns (d: Config)
    requires Sound(b) && Becomes(EmitLoop(env.limit.Within?, body, b), code)
    requires AtTest(env, b, c, s) && s.world.Cell(s.head) != 0
    ensures Leads(code, env, Run(c), 3, Run(d))
    ensures Stands(env, StartLoop(b), d, s)
  {
    hide Becomes;
    hide Step;
    hide Iter;
    hide Emit;
    hide EmitLoop;
    d := TestsLoop(env, body, b, code, c, s);
    d := Jumps(code, env, c, 2, d, |b.blocks| + 1);
  }

  // ----- The simulation -----

  // The code, run from `c` for `n` steps, is where outcome `o` of the program says:
  // at the end of `e`, at the error block, or still on its way after at least `fuel` steps.
  ghost predicate Reaches(code: Code, env: Env, c: Config, n: nat, d: Config, e: Builder, o: Outcome, fuel: nat)
    requires e.cur < |e.blocks|
  {
    && Leads(code, env, Run(c), n, Run(d))
    && match o
       case Done(s) => Stands(env, e, d, s)
       case Left(s) => d.block == ABERROR && d.index == 0 && d.world == s.world && ARR in d.regs && env.limit.Within?
       case Running(s) => d.world == s.world && n >= fuel
  }

  lemma ReachesAfter(code: Code, env: Env, c: Config, n: nat, d: Config, m: nat, x: Config, e: Builder, o: Outcome,
                     fuel: nat, more: nat)
    requires e.cur < |e.blocks|
    requires Leads(code, env, Run(c), n, Run(d))
    requires Reaches(code, env, d, m, x, e, o, fuel) && more <= n
    ensures Reaches(code, env, c, n + m, x, e, o, fuel + more)
  {
    LeadsOn(code, env, Run(c), n, Run(d), m, Run(x));
  }

  // How the meaning and the code of a loop unfold.
  lemma LoopUnfolds(env: Env, p: Prog, b: Builder, s: State, fuel: nat)
    requires p.Loop? && b.cur < |b.blocks|
    ensures Emit(env.limit.Within?, p, b)
         == Emit(env.limit.Within?, p.rest, EmitLoop(env.limit.Within?, p.body, b))
    ensures s.world.Cell(s.head) == 0 ==> Exec(env.limit, p, s, fuel) == Exec(env.limit, p.rest, s, fuel)
    ensures s.world.Cell(s.head) != 0 && fuel == 0 ==> Exec(env.limit, p, s, fuel) == Running(s)
    ensures s.world.Cell(s.head) != 0 && fuel > 0 ==>
              var inner := Exec(env.limit, p.body, s, fuel - 1);
              Exec(env.limit, p, s, fuel) == if inner.Done? then Exec(env.limit, p, inner.s, fuel - 1) else inner
  {
  }

  lemma {:induction false} LoopBecomes(bounds: bool, p: Prog, b: Builder, code: Code)
    requires p.Loop?
    requires Sound(b) && Becomes(Emit(bounds, p, b), code)
    ensures Becomes(EmitLoop(bounds, p.body, b), code)
  {
    LoopGrows(bounds, p.body, b);
    EmitGrows(bounds, p.rest, EmitLoop(bounds, p.body, b));
    GrowsThenBecomes(EmitLoop(bounds, p.body, b), Emit(bounds, p, b), code);
  }

  /** From the place where a program's code starts, the machine follows the program. */
  lemma {:induction false} Simulates(env: Env, p: Prog, b: Builder, code: Code, c: Config, s: State, fuel: nat)
    returns (n: nat, d: Config)
    requires Sound(b) && Becomes(Emit(env.limit.Within?, p, b), code)
    requires Stands(env, b, c, s)
    ensures Reaches(code, env, c, n, d, Emit(env.limit.Within?, p, b), Exec(env.limit, p, s, fuel), fuel)
    decreases fuel, p, 2
  {
    if p == Nil {
      n, d := 0, c;
    } else if p.Loop? {
      n, d := SimulatesLoop(env, p, b, code, c, s, fuel);
    } else {
      n, d := SimulatesCommand(env, p, b, code, c, s, fuel);
    }
  }

  lemma {:induction false} SimulatesLoop(env: Env, p: Prog, b: Builder, code: Code, c: Config, s: State, fuel: nat)
    returns (n: nat, d: Config)
    requires p.Loop?
    requires Sound(b) && Becomes(Emit(env.limit.Within?, p, b), code)
    requires Stands(env, b, c, s)
    ensures Reaches(code, env, c, n, d, Emit(env.limit.Within?, p, b), Exec(env.limit, p, s, fuel), fuel)
    decreases fuel, p, 1
  {
    hide Emit;
    hide Exec;
    hide EmitLoop;
    hide Step;
    hide Iter;
    hide Becomes;
    hide AtTest;
    hide Stands;
    hide Reaches;
    LoopBecomes(env.limit.Within?, p, b, code);
    var at := EntersLoop(env, p.body, b, code, c, s);
    n, d := SimulatesTest(env, p, b, code, at, s, fuel);
    ReachesAfter(code, env, c, 2, at, n, d, Emit(env.limit.Within?, p, b), Exec(env.limit, p, s, fuel), fuel, 0);
    n := 2 + n;
  }

  // The same, from behind the phi node of a loop.
  lemma {:induction false} SimulatesTest(env: Env, p: Prog, b: Builder, code: Code, c: Config, s: State, fuel: nat)
    returns (n: nat, d: Config)
    requires p.Loop?
    requires Sound(b) && Becomes(Emit(env.limit.Within?, p, b), code)
    requires AtTest(env, b, c, s)
    ensures Reaches(code, env, c, n, d, Emit(env.limit.Within?, p, b), Exec(env.limit, p, s, fuel), fuel)
    decreases fuel, p, 0
  {
    hide Emit;
    hide Exec;
    hide EmitLoop;
    hide StartLoop;
    hide Step;
    hide Iter;
    hide Becomes;
    hide TestBlock;
    hide Stands;
    var bounds := env.limit.Within?;
    var e := Emit(bounds, p, b);
    var o := Exec(env.limit, p, s, fuel);
    LoopBecomes(bounds, p, b, code);
    LoopLayout(bounds, p.body, b, code);
    LoopUnfolds(env, p, b, s, fuel);
    if s.world.Cell(s.head) == 0 {
      var out := LeavesLoop(env, p.body, b, code, c, s);
      n, d := Simulates(env, p.rest, EmitLoop(bounds, p.body, b), code, out, s, fuel);
      ReachesAfter(code, env, c, 4, out, n, d, e, o, fuel, 0);
      n := 4 + n;
    } else if fuel == 0 {
      n, d := 0, c;
      LeadsNowhere(code, env, Run(c));
    } else {
      StartLoopSound(b);
      var into := EntersBody(env, p.body, b, code, c, s);
      var m, x := Simulates(env, p.body, StartLoop(b), code, into, s, fuel - 1);
      var inner := Exec(env.limit, p.body, s, fuel - 1);
      ReachesAfter(code, env, c, 3, into, m, x, Emit(bounds, p.body, StartLoop(b)), inner, fuel - 1, 1);
      if inner.Done? {
        var again := RepeatsLoop(env, p.body, b, code, x, inner.s);
        LeadsOn(code, env, Run(c), 3 + m, Run(x), 2, Run(again));
        n, d := SimulatesTest(env, p, b, code, again, inner.s, fuel - 1);
        ReachesAfter(code, env, c, 3 + m + 2, again, n, d, e, o, fuel - 1, 1);
        n := 3 + m + 2 + n;
      } else {
        n, d := 3 + m, x;
      }
    }
  }

  // ----- One command that is not a loop -----

  lemma {:induction false} FirstBecomes(bounds: bool, p: Prog, b: Builder, code: Code)
    requires !p.Loop? && !p.Nil?
    requires Sound(b) && Becomes(Emit(bounds, p, b), code)
    ensures Sound(EmitFirst(bounds, p, b)) && Becomes(EmitFirst(bounds, p, b), code)
    ensures Emit(bounds, p, b) == Emit(bounds, p.rest, EmitFirst(bounds, p, b))
  {
    EmitGrows(bounds, p.rest, EmitFirst(bounds, p, b));
    GrowsThenBecomes(EmitFirst(bounds, p, b), Emit(bounds, p, b), code);
  }

  lemma RunsFirst(env: Env, p: Prog, b: Builder, code: Code, c: Config, s: State)
    returns (n: nat, d: Config)
    requires !p.Loop? && !p.Nil?
    requires Sound(b) && Becomes(EmitFirst(env.limit.Within?, p, b), code)
    requires Stands(env, b, c, s)
    ensures Leads(code, env, Run(c), n, Run(d))
    ensures
      if p.Move? && !env.limit.Allows(s.head + p.k) then
        d.block == ABERROR && d.index == 0 && d.world == s.world && ARR in d.regs
      else
        Stands(env, EmitFirst(env.limit.Within?, p, b), d, ExecFirst(p, s))
  {
    hide Becomes;
    hide Emit;
    hide Step;
    hide Iter;
    hide Stands;
    n := 3;
    match p
    case Read(_) => d := RunsRead(env, b, code, c, s);
    case Write(_) => d := RunsWrite(env, b, code, c, s);
    case Change(k, _) => d := RunsChange(env, k, b, code, c, s);
    case Move(k, _) => n, d := RunsMove(env, k, b, code, c, s);
  }

  lemma SimulatesCommand(env: Env, p: Prog, b: Builder, code: Code, c: Config, s: State, fuel: nat)
    returns (n: nat, d: Config)
    requires !p.Loop? && !p.Nil?
    requires Sound(b) && Becomes(Emit(env.limit.Within?, p, b), code)
    requires Stands(env, b, c, s)
    ensures Reaches(code, env, c, n, d, Emit(env.limit.Within?, p, b), Exec(env.limit, p, s, fuel), fuel)
    decreases fuel, p, 0
  {
    hide Emit;
    hide EmitFirst;
    hide Becomes;
    hide Leads;
    var bounds := env.limit.Within?;
    FirstBecomes(bounds, p, b, code);
    var m, x := RunsFirst(env, p, b, code, c, s);
    if p.Move? && !env.limit.Allows(s.head + p.k) {
      n, d := m, x;
    } else {
      ExecStep(env.limit, p, s, fuel);
      hide Exec;
      hide Stands;
      hide Reaches;
      n, d := Simulates(env, p.rest, EmitFirst(bounds, p, b), code, x, ExecFirst(p, s), fuel);
      ReachesAfter(code, env, c, m, x, n, d, Emit(bounds, p, b), Exec(env.limit, p, s, fuel), fuel, 0);
      n := m + n;
    }
  }

  // ----- Whole programs -----

  function EnvOf(bounds: bool, memtotal: nat, arr: int): Env {
    Env(arr, if bounds then Within(arr, arr + memtotal) else Unchecked)
  }

  // The state in which a program starts: a cleared tape and the head in its middle.
  function Start(memtotal: nat, arr: int, w: World): State {
    State(w.(tape := Zeroed(w.tape, arr, arr + memtotal)), arr + memtotal / 2)
  }

  function Entry(w: World): Status {
    Run(Config(ENTRY, 0, ENTRY, map[], w))
  }

  // What the world looks like when a program has come to an end.
  function Final(o: Outcome): World
    requires !o.Running?
  {
    if o.Done? then o.s.world else o.s.world.Emit(BoundsMessage)
  }

  lemma {:induction false} FinishedCode(bounds: bool, memtotal: nat, p: Prog)
    ensures var e, code := Emit(bounds, p, Header(bounds, memtotal)), Compile(bounds, memtotal, p);
            && Sound(Header(bounds, memtotal)) && Sound(e) && Becomes(e, code)
            && Becomes(Header(bounds, memtotal), code)
            && |code| > END && code[END] == Block([Free(ARR)], Ret)
            && (bounds ==> |code| > ABERROR && code[ABERROR] == Block([Puts], Br(END)))
            && code[e.cur] == Block(e.blocks[e.cur].instrs, Br(END))
  {
    var h := Header(bounds, memtotal);
    EmitGrows(bounds, p, h);
    GrowsThenBecomes(h, Emit(bounds, p, h), Compile(bounds, memtotal, p));
  }

  lemma RunsHeader(bounds: bool, memtotal: nat, arr: int, w: World, code: Code) returns (n: nat, d: Config)
    requires bounds ==> memtotal > 0
    requires Becomes(Header(bounds, memtotal), code)
    ensures Leads(code, EnvOf(bounds, memtotal, arr), Entry(w), n, Run(d))
    ensures Stands(EnvOf(bounds, memtotal, arr), Header(bounds, memtotal), d, Start(memtotal, arr, w))
  {
    var env := EnvOf(bounds, memtotal, arr);
    var c := Entry(w).c;
    var first := Header(bounds, memtotal).blocks[ENTRY].instrs;
    assert forall j | 0 <= j < |first| :: code[ENTRY].instrs[j] == first[j];
    hide Becomes;
    hide Leads;
    hide RunInstr;
    LeadsNowhere(code, env, Run(c));
    d := DoesMalloc(code, env, c, 0, c, ARR);
    d := DoesMemset(code, env, c, 1, d, ARR, memtotal);
    n := 2;
    if bounds {
      d := DoesGep(code, env, c, 2, d, ARRMAX, ARR, memtotal);
      n := 3;
    }
    d := DoesGep(code, env, c, n, d, HEAD, ARR, memtotal / 2);
    n := n + 1;
  }

  // From the jump to the return block, the run ends.
  lemma RunsFooter(code: Code, env: Env, c: Config, n: nat, d: Config) returns (m: nat)
    requires |code| > END && code[END] == Block([Free(ARR)], Ret)
    requires Leads(code, env, Run(c), n, Run(d))
    requires d.block < |code| && d.index == |code[d.block].instrs| && code[d.block].term == Br(END)
    requires ARR in d.regs
    ensures Leads(code, env, Run(c), m, Halted(d.world))
  {
    var e := Jumps(code, env, c, n, d, END);
    e := Does(code, env, c, n + 1, e, Free(ARR));
    LeadsStep(code, env, Run(c), n + 2, Run(e));
    m := n + 3;
  }

  /** Forward: when the program comes to an end, so does its code, with the same tape, input
      and output; and as long as the program is still running, so is its code. */
  lemma CompiledRuns(bounds: bool, memtotal: nat, p: Prog, arr: int, w: World, fuel: nat) returns (n: nat)
    requires bounds ==> memtotal > 0
    ensures var code, env := Compile(bounds, memtotal, p), EnvOf(bounds, memtotal, arr);
            var o := Exec(env.limit, p, Start(memtotal, arr, w), fuel);
            var s := Iter(code, env, Entry(w), n);
            if o.Running? then n >= fuel && s.Run? && s.c.world == o.s.world
            else s == Halted(Final(o))
  {
    var code, env := Compile(bounds, memtotal, p), EnvOf(bounds, memtotal, arr);
    var h := Header(bounds, memtotal);
    var s := Start(memtotal, arr, w);
    hide Emit;
    hide Exec;
    hide Becomes;
    hide Step;
    hide Iter;
    hide Compile;
    hide RunInstr;
    FinishedCode(bounds, memtotal, p);
    var k, c := RunsHeader(bounds, memtotal, arr, w, code);
    var m, d := Simulates(env, p, h, code, c, s, fuel);
    hide Header;
    hide Start;
    var o := Exec(env.limit, p, s, fuel);
    LeadsOn(code, env, Entry(w), k, Run(c), m, Run(d));
    n := k + m;
    if o.Done? {
      n := RunsFooter(code, env, Entry(w).c, n, d);
    } else if o.Left? {
      var e := DoesPuts(code, env, Entry(w).c, n, d);
      n := RunsFooter(code, env, Entry(w).c, n + 1, e);
    }
  }

  /** Both directions: the code ends in a world exactly when the program does. In particular
      the code runs forever exactly when the program does. */
  lemma {:induction false} CompiledEquivalent(bounds: bool, memtotal: nat, p: Prog, arr: int, w: World, end: World)
    requires bounds ==> memtotal > 0
    ensures var code, env := Compile(bounds, memtotal, p), EnvOf(bounds, memtotal, arr);
            var s := Start(memtotal, arr, w);
            (exists n: nat :: Iter(code, env, Entry(w), n) == Halted(end)) <==>
            (exists fuel: nat :: !Exec(env.limit, p, s, fuel).Running? && Final(Exec(env.limit, p, s, fuel)) == end)
  {
    var code, env := Compile(bounds, memtotal, p), EnvOf(bounds, memtotal, arr);
    var s := Start(memtotal, arr, w);
    if n: nat :| Iter(code, env, Entry(w), n) == Halted(end) {
      var m := CompiledRuns(bounds, memtotal, p, arr, w, n);
      SameEnd(code, env, Entry(w), n, m);
      assert !Exec(env.limit, p, s, n).Running?;
    }
    if fuel: nat :| !Exec(env.limit, p, s, fuel).Running? && Final(Exec(env.limit, p, s, fuel)) == end {
      var m := CompiledRuns(bounds, memtotal, p, arr, w, fuel);
    }
  }

  // A run that has stopped once has stopped in the same way ever after.
  lemma {:induction false} SameEnd(code: Code, env: Env, s: Status, n: nat, m: nat)
    requires !Iter(code, env, s, n).Run?
    ensures m >= n ==> Iter(code, env, s, m) == Iter(code, env, s, n)
    ensures m < n && !Iter(code, env, s, m).Run? ==> Iter(code, env, s, m) == Iter(code, env, s, n)
  {
    if m >= n {
      IterAdd(code, env, s, n, m - n);
      StoppedStays(code, env, Iter(code, env, s, n), m - n);
    } else if !Iter(code, env, s, m).Run? {
      IterAdd(code, env, s, m, n - m);
      StoppedStays(code, env, Iter(code, env, s, m), n - m);
    }
  }

  /** Safety of every step of every run: the code never reads an undefined register, never
      enters a block for which a phi node has no value, never falls off a block, and with
      bounds checking never touches memory outside a non-empty tape. */
  lemma {:induction false} CompiledIsSafe(bounds: bool, memtotal: nat, p: Prog, arr: int, w: World, n: nat)
    requires bounds ==> memtotal > 0
    ensures var s := Iter(Compile(bounds, memtotal, p), EnvOf(bounds, memtotal, arr), Entry(w), n);
            s.Run? || s.Halted?
  {
    var code, env := Compile(bounds, memtotal, p), EnvOf(bounds, memtotal, arr);
    var m := CompiledRuns(bounds, memtotal, p, arr, w, n + 1);
    if !Iter(code, env, Entry(w), n).Run? {
      SameEnd(code, env, Entry(w), n, m);
      if m < n {
        assert Iter(code, env, Entry(w), m).Halted?;
      }
    }
  }

  /** With bounds checking, the next load or store of every reachable configuration is inside
      the tape. */
  lemma {:induction false} AccessesStayOnTape(memtotal: nat, p: Prog, arr: int, w: World, n: nat)
    requires memtotal > 0
    ensures var code := Compile(true, memtotal, p);
            var s := Iter(code, EnvOf(true, memtotal, arr), Entry(w), n);
            s.Run? && s.c.block < |code| && s.c.index < |code[s.c.block].instrs| ==>
              var i := code[s.c.block].instrs[s.c.index];
              (i.Load? || i.Store?) ==> i.ptr in s.c.regs && arr <= s.c.regs[i.ptr] < arr + memtotal
  {
    var code, env := Compile(true, memtotal, p), EnvOf(true, memtotal, arr);
    CompiledIsSafe(true, memtotal, p, arr, w, n + 1);
    var s := Iter(code, env, Entry(w), n);
    IterAdd(code, env, Entry(w), n, 1);
    assert Iter(code, env, s, 1) == Step(code, env, s);
    hide Compile;
    hide Iter;
    if s.Run? && s.c.block < |code| && s.c.index < |code[s.c.block].instrs| {
      NextAccess(code, env, s.c);
    }
  }

  // An access that neither faults nor gets stuck.
  lemma NextAccess(code: Code, env: Env, c: Config)
    requires c.block < |code| && c.index < |code[c.block].instrs|
    requires Step(code, env, Run(c)).Run? || Step(code, env, Run(c)).Halted?
    ensures var i := code[c.block].instrs[c.index];
            (i.Load? || i.Store?) ==> i.ptr in c.regs && env.limit.Allows(c.regs[i.ptr])
  {
    var i := code[c.block].instrs[c.index];
    assert i.Load? ==> i.ptr in Uses(i);
    assert i.Store? ==> Uses(i)[1] == i.ptr;
  }

  /** The head is not checked before its first move, so an empty tape is not safe: checked
      code for `+` touches memory outside it. */
  lemma EmptyTapeFaults(arr: int, w: World)
    ensures exists n: nat :: Iter(Compile(true, 0, Change(1, Nil)), EnvOf(true, 0, arr), Entry(w), n) == Fault
  {
    var p := Change(1, Nil);
    var code, env := Compile(true, 0, p), EnvOf(true, 0, arr);
    FinishedCode(true, 0, p);
    var c := Entry(w).c;
    var instrs := [Malloc(ARR), Memset(ARR, 0), Gep(ARRMAX, ARR, 0), Gep(HEAD, ARR, 0),
                       Load(3, HEAD), AddByte(4, 3, 1), Store(4, HEAD)];
    assert code[ENTRY].instrs == instrs;
    LeadsNowhere(code, env, Run(c));
    var d := Does(code, env, c, 0, c, instrs[0]);
    d := Does(code, env, c, 1, d, instrs[1]);
    d := Does(code, env, c, 2, d, instrs[2]);
    d := Does(code, env, c, 3, d, instrs[3]);
    LeadsStep(code, env, Run(c), 4, Run(d));
    assert Iter(code, env, Entry(w), 5) == Fault;
  }

  /** Checked code is safe for every program and input exactly when its tape is not empty. */
  lemma CheckedCodeIsSafeIff(memtotal: nat)
    ensures memtotal > 0 <==>
            forall p, arr, w, n: nat ::
              Iter(Compile(true, memtotal, p), EnvOf(true, memtotal, arr), Entry(w), n) != Fault
  {
    if memtotal > 0 {
      forall p, arr, w, n: nat
        ensures Iter(Compile(true, memtotal, p), EnvOf(true, memtotal, arr), Entry(w), n) != Fault
      {
        CompiledIsSafe(true, memtotal, p, arr, w, n);
      }
    } else {
      EmptyTapeFaults(0, World(map[], [], []));
    }
  }

  // What the per-character program and the folded one tell about a run, whatever is checked.
  lemma {:induction false} SameFinal(limit: Limit, p: Prog, s: State, fuel: nat)
    requires limit.Allows(s.head) && (limit.Within? ==> Direct(p))
    ensures var o, u := Exec(limit, Fold(p), s, fuel), Exec(limit, p, s, fuel);
            (o.Running? <==> u.Running?) && (!o.Running? ==> Final(o) == Final(u))
  {
    if limit.Within? {
      FoldKeepsChecks(limit, p, s, fuel);
    } else {
      FoldKeepsMeaning(p, s, fuel);
      UncheckedNeverLeaves(p, s, fuel);
    }
  }

  /** The whole compiler: what it makes of a balanced text ends in a world exactly when the text, run
      one character at a time, ends in that world. With bounds checking this takes that no run of
      moves leaves the span between its ends. */
  lemma {:induction false} TextAndCodeAgree(bounds: bool, text: seq<char>, memtotal: nat, arr: int,
                                            w: World, end: World)
    requires Parse(Units(text)).Parsed?
    requires bounds ==> memtotal > 0 && Direct(Parse(Units(text)).prog)
    ensures var p := Parse(Units(text)).prog;
            var code, env := Compile(bounds, memtotal, Fold(p)), EnvOf(bounds, memtotal, arr);
            var s := Start(memtotal, arr, w);
            (exists n: nat :: Iter(code, env, Entry(w), n) == Halted(end)) <==>
            (exists fuel: nat :: !Exec(env.limit, p, s, fuel).Running? && Final(Exec(env.limit, p, s, fuel)) == end)
    ensures !bounds ==>
              forall fuel: nat :: !Exec(Unchecked, Parse(Units(text)).prog, Start(memtotal, arr, w), fuel).Left?
  {
    var p := Parse(Units(text)).prog;
    var env := EnvOf(bounds, memtotal, arr);
    var s := Start(memtotal, arr, w);
    CompiledEquivalent(bounds, memtotal, Fold(p), arr, w, end);
    assert env.limit.Allows(s.head);
    hide *;
    forall fuel: nat ensures !Exec(Unchecked, p, s, fuel).Left? {
      UncheckedNeverLeaves(p, s, fuel);
    }
    if fuel: nat :| !Exec(env.limit, Fold(p), s, fuel).Running? && Final(Exec(env.limit, Fold(p), s, fuel)) == end {
      SameFinal(env.limit, p, s, fuel);
      assert !Exec(env.limit, p, s, fuel).Running?;
    }
    if fuel: nat :| !Exec(env.limit, p, s, fuel).Running? && Final(Exec(env.limit, p, s, fuel)) == end {
      SameFinal(env.limit, p, s, fuel);
      assert !Exec(env.limit, Fold(p), s, fuel).Running?;
    }
  }

  lemma {:induction false} UncheckedNeverLeaves(p: Prog, s: State, fuel: nat)
    ensures !Exec(Unchecked, p, s, fuel).Left?
    decreases fuel, p
  {
    match p
    case Nil =>
    case Read(rest) => UncheckedNeverLeaves(rest, ExecFirst(p, s), fuel);
    case Write(rest) => UncheckedNeverLeaves(rest, ExecFirst(p, s), fuel);
    case Move(_, rest) => UncheckedNeverLeaves(rest, ExecFirst(p, s), fuel);
    case Change(_, rest) => UncheckedNeverLeaves(rest, ExecFirst(p, s), fuel);
    case Loop(body, rest) =>
      UncheckedNeverLeaves(rest, s, fuel);
      if fuel > 0 {
        UncheckedNeverLeaves(body, s, fuel - 1);
        var o := Exec(Unchecked, body, s, fuel - 1);
        if o.Done? {
          UncheckedNeverLeaves(p, o.s, fuel - 1);
        }
      }
  }
}
