/** The code that the BrainF compiler emits: basic blocks of register instructions with phi
    nodes, and a machine that runs them one instruction at a time. */
module BrainFTarget {
  import opened BrainFLanguage
  import opened Options

  type Reg = nat
  type Label = nat

  // One value that a phi node takes, and the block from which it takes it.
  datatype Incoming = Incoming(value: Reg, from: Label)

  datatype Instr =
    | Malloc(dst: Reg)
    | Memset(ptr: Reg, size: nat)
    | Free(ptr: Reg)
    | Puts
    | GetChar(dst: Reg)
    | PutChar(src: Reg)
    | Trunc(dst: Reg, src: Reg)
    | SExt(dst: Reg, src: Reg)
    | Load(dst: Reg, ptr: Reg)
    | Store(src: Reg, ptr: Reg)
    | AddByte(dst: Reg, src: Reg, k: int)
    | Gep(dst: Reg, src: Reg, k: int)
    | IcmpUge(dst: Reg, a: Reg, b: Reg)
    | IcmpUlt(dst: Reg, a: Reg, b: Reg)
    | Or(dst: Reg, a: Reg, b: Reg)
    | IcmpEqZero(dst: Reg, src: Reg)
    | Phi(dst: Reg, incoming: seq<Incoming>)

  // `Open` is a block that has no terminator yet.
  datatype Terminator = Open | Br(target: Label) | CondBr(cond: Reg, yes: Label, no: Label) | Ret

  datatype Block = Block(instrs: seq<Instr>, term: Terminator)

  type Code = seq<Block>

  // Where the machine is: about to run instruction `index` of `block`, which it entered
  // from block `from`.
  datatype Config = Config(block: Label, index: nat, from: Label, regs: map<Reg, int>, world: World)

  /** Stuck is an undefined register, a phi node without a value for the block it was entered
      from, a missing block or a missing terminator. Fault is an access outside the tape. */
  datatype Status = Run(c: Config) | Halted(w: World) | Fault | Stuck

  // The address that malloc returns, and which accesses are allowed.
  datatype Env = Env(arr: int, limit: Limit)

  function Zeroed(tape: map<int, Byte>, lo: int, hi: int): map<int, Byte> {
    map a | a in tape && !(lo <= a < hi) :: tape[a]
  }

  function Bit(b: bool): int {
    if b then 1 else 0
  }

  predicate Defines(i: Instr) {
    !(i.Memset? || i.Free? || i.Puts? || i.PutChar? || i.Store?)
  }

  function Uses(i: Instr): seq<Reg> {
    match i
    case Malloc(_) => []
    case Memset(p, _) => [p]
    case Free(p) => [p]
    case Puts => []
    case GetChar(_) => []
    case PutChar(s) => [s]
    case Trunc(_, s) => [s]
    case SExt(_, s) => [s]
    case Load(_, p) => [p]
    case Store(s, p) => [s, p]
    case AddByte(_, s, _) => [s]
    case Gep(_, s, _) => [s]
    case IcmpUge(_, a, b) => [a, b]
    case IcmpUlt(_, a, b) => [a, b]
    case Or(_, a, b) => [a, b]
    case IcmpEqZero(_, s) => [s]
    case Phi(_, _) => []
  }

  // The value that a phi node takes when its block is entered from `from`.
  function Choose(incoming: seq<Incoming>, from: Label): Option<Reg> {
    if incoming == [] then None
    else if incoming[0].from == from then Some(incoming[0].value)
    else Choose(incoming[1..], from)
  }

  function Goto(c: Config, target: Label): Status {
    Run(c.(block := target, index := 0, from := c.block))
  }

  function Set(c: Config, dst: Reg, v: int): Status {
    Run(c.(index := c.index + 1, regs := c.regs[dst := v]))
  }

  function Next(c: Config, w: World): Status {
    Run(c.(index := c.index + 1, world := w))
  }

  // getchar() gives the next character, or -1 at the end of the input.
  function RunInstr(env: Env, i: Instr, c: Config): Status
    requires forall r | r in Uses(i) :: r in c.regs
  {
    match i
    case Malloc(dst) => Set(c, dst, env.arr)
    case Memset(p, n) =>
      Next(c, c.world.(tape := Zeroed(c.world.tape, c.regs[p], c.regs[p] + n)))
    case Free(_) => Next(c, c.world)
    case Puts => Next(c, c.world.Emit(BoundsMessage))
    case GetChar(dst) =>
      var w := c.world;
      if w.input == [] then Set(c, dst, -1)
      else Set(c.(world := w.(input := w.input[1..])), dst, w.input[0])
    case PutChar(src) => Next(c, c.world.Emit(Char(c.regs[src] % 256)))
    case Trunc(dst, src) => Set(c, dst, c.regs[src] % 256)
    case SExt(dst, src) => Set(c, dst, if c.regs[src] < 128 then c.regs[src] else c.regs[src] - 256)
    case Load(dst, p) =>
      if env.limit.Allows(c.regs[p]) then Set(c, dst, c.world.Cell(c.regs[p])) else Fault
    case Store(src, p) =>
      if env.limit.Allows(c.regs[p]) then Next(c, c.world.Put(c.regs[p], c.regs[src] % 256)) else Fault
    case AddByte(dst, src, k) => Set(c, dst, (c.regs[src] + k % 256) % 256)
    case Gep(dst, src, k) => Set(c, dst, c.regs[src] + k)
    case IcmpUge(dst, a, b) => Set(c, dst, Bit(c.regs[a] >= c.regs[b]))
    case IcmpUlt(dst, a, b) => Set(c, dst, Bit(c.regs[a] < c.regs[b]))
    case Or(dst, a, b) => Set(c, dst, Bit(c.regs[a] != 0 || c.regs[b] != 0))
    case IcmpEqZero(dst, src) => Set(c, dst, Bit(c.regs[src] == 0))
    case Phi(dst, incoming) =>
      match Choose(incoming, c.from)
      case None => Stuck
      case Some(r) => if r in c.regs then Set(c, dst, c.regs[r]) else Stuck
  }

  function Step(code: Code, env: Env, s: Status): Status {
    if !s.Run? then s
    else
      var c := s.c;
      if c.block >= |code| || c.index > |code[c.block].instrs| then Stuck
      else if c.index < |code[c.block].instrs| then
        var i := code[c.block].instrs[c.index];
        if forall r | r in Uses(i) :: r in c.regs then RunInstr(env, i, c) else Stuck
      else
        match code[c.block].term
        case Open => Stuck
        case Br(t) => Goto(c, t)
        case CondBr(r, yes, no) =>
          if r in c.regs then Goto(c, if c.regs[r] != 0 then yes else no) else Stuck
        case Ret => Halted(c.world)
  }

  function Iter(code: Code, env: Env, s: Status, n: nat): Status
    decreases n
  {
    if n == 0 then s else Iter(code, env, Step(code, env, s), n - 1)
  }

  lemma {:induction false} IterAdd(code: Code, env: Env, s: Status, n: nat, m: nat)
    ensures Iter(code, env, s, n + m) == Iter(code, env, Iter(code, env, s, n), m)
    decreases n
  {
    if n > 0 {
      IterAdd(code, env, Step(code, env, s), n - 1, m);
    }
  }

  // A machine that has stopped stays where it is.
  lemma {:induction false} StoppedStays(code: Code, env: Env, s: Status, n: nat)
    requires !s.Run?
    ensures Iter(code, env, s, n) == s
  {
    if n > 0 {
      StoppedStays(code, env, s, n - 1);
    }
  }

  // `n` steps lead from one place to another.
  ghost predicate Leads(code: Code, env: Env, s: Status, n: nat, t: Status) {
    Iter(code, env, s, n) == t
  }

  lemma LeadsOn(code: Code, env: Env, s: Status, n: nat, t: Status, m: nat, u: Status)
    requires Leads(code, env, s, n, t) && Leads(code, env, t, m, u)
    ensures Leads(code, env, s, n + m, u)
  {
    IterAdd(code, env, s, n, m);
  }

  // One more step at the end.
  lemma LeadsStep(code: Code, env: Env, s: Status, n: nat, t: Status)
    requires Leads(code, env, s, n, t)
    ensures Leads(code, env, s, n + 1, Step(code, env, t))
  {
    var u := Step(code, env, t);
    assert Iter(code, env, t, 1) == Iter(code, env, u, 0);
    LeadsOn(code, env, s, n, t, 1, u);
  }
}
