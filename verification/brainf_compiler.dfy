/** The one-pass BrainF compiler: a reader with one symbol of lookahead drives a builder that
    appends instructions to the block under construction. Follows BrainF::header and
    BrainF::readloop. */
module BrainFCompiler {
  import opened BrainFLanguage
  import opened BrainFTarget
  import opened Options

  // Registers and blocks that the header makes.
  const ARR: Reg := 0
  const ARRMAX: Reg := 1
  const HEAD: Reg := 2
  const ENTRY: Label := 0
  const END: Label := 1
  const ABERROR: Label := 2

  // `cur` is the block being filled, `head` the register that holds the head,
  // `next` the first register that is not in use yet.
  datatype Builder = Builder(blocks: seq<Block>, cur: Label, head: Reg, next: Reg)

  ghost predicate Sound(b: Builder) {
    && b.cur < |b.blocks|
    && b.blocks[b.cur].term == Open
    && b.head < b.next
    && HEAD < b.next
    && END < |b.blocks|
  }

  // ----- What each symbol emits -----

  function Append(b: Builder, instrs: seq<Instr>, regs: nat): Builder
    requires b.cur < |b.blocks|
  {
    var block := b.blocks[b.cur];
    b.(blocks := b.blocks[b.cur := block.(instrs := block.instrs + instrs)], next := b.next + regs)
  }

  function Close(b: Builder, t: Terminator): seq<Block>
    requires b.cur < |b.blocks|
  {
    b.blocks[b.cur := b.blocks[b.cur].(term := t)]
  }

  function Header(bounds: bool, memtotal: nat): Builder {
    var first :=
      [Malloc(ARR), Memset(ARR, memtotal)]
      + (if bounds then [Gep(ARRMAX, ARR, memtotal)] else [])
      + [Gep(HEAD, ARR, memtotal / 2)];
    var end := Block([Free(ARR)], Ret);
    var aberror := Block([Puts], Br(END));
    Builder([Block(first, Open), end] + (if bounds then [aberror] else []), ENTRY, HEAD, HEAD + 1)
  }

  function EmitRead(b: Builder): Builder
    requires b.cur < |b.blocks|
  {
    Append(b, [GetChar(b.next), Trunc(b.next + 1, b.next), Store(b.next + 1, b.head)], 2)
  }

  function EmitWrite(b: Builder): Builder
    requires b.cur < |b.blocks|
  {
    Append(b, [Load(b.next, b.head), SExt(b.next + 1, b.next), PutChar(b.next + 1)], 2)
  }

  function EmitChange(k: int, b: Builder): Builder
    requires b.cur < |b.blocks|
  {
    Append(b, [Load(b.next, b.head), AddByte(b.next + 1, b.next, k), Store(b.next + 1, b.head)], 2)
  }

  function EmitMove(bounds: bool, k: int, b: Builder): Builder
    requires b.cur < |b.blocks|
  {
    var h := b.next;
    if !bounds then
      Append(b, [Gep(h, b.head, k)], 1).(head := h)
    else
      var guarded := Append(b,
               [Gep(h, b.head, k), IcmpUge(h + 1, h, ARRMAX), IcmpUlt(h + 2, h, ARR), Or(h + 3, h + 1, h + 2)], 4);
      var nextbb := |b.blocks|;
      Builder(Close(guarded, CondBr(h + 3, ABERROR, nextbb)) + [Block([], Open)], nextbb, h, guarded.next)
  }

  // The test block gets a phi node with the value from before the loop; the body starts
  // in a block of its own.
  function StartLoop(b: Builder): Builder
    requires b.cur < |b.blocks|
  {
    var test := |b.blocks|;
    Builder(
      Close(b, Br(test)) + [Block([Phi(b.next, [Incoming(b.head, b.cur)])], Open), Block([], Open)],
      test + 1, b.next, b.next + 1)
  }

  // The test block gets the value from the end of the body and its test.
  function EndLoop(b: Builder, phi: Reg, body: Label, test: Label): Builder
    requires b.cur < |b.blocks| && test < |b.blocks|
  {
    var closed := Close(b, Br(test));
    var exit := |b.blocks|;
    var head := closed[test];
    Builder(
      closed[test := Block(AddIncoming(head.instrs, Incoming(b.head, b.cur))
                   + [Load(b.next, phi), IcmpEqZero(b.next + 1, b.next)],
                           CondBr(b.next + 1, exit, body))]
      + [Block([Phi(b.next + 2, [Incoming(phi, test)])], Open)],
      exit, b.next + 2, b.next + 3)
  }

  // Gives the phi node at the start of a block one more value.
  function AddIncoming(instrs: seq<Instr>, i: Incoming): seq<Instr> {
    if instrs != [] && instrs[0].Phi? then
      [instrs[0].(incoming := instrs[0].incoming + [i])] + instrs[1..]
    else
      instrs
  }

  function Finish(b: Builder): Builder
    requires b.cur < |b.blocks|
  {
    b.(blocks := Close(b, Br(END)))
  }

  // ----- What a program emits -----

  function Emit(bounds: bool, p: Prog, b: Builder): (r: Builder)
    requires b.cur < |b.blocks|
    ensures r.cur < |r.blocks| && |b.blocks| <= |r.blocks|
    decreases p
  {
    match p
    case Nil => b
    case Read(rest) => Emit(bounds, rest, EmitRead(b))
    case Write(rest) => Emit(bounds, rest, EmitWrite(b))
    case Move(k, rest) => Emit(bounds, rest, EmitMove(bounds, k, b))
    case Change(k, rest) => Emit(bounds, rest, EmitChange(k, b))
    case Loop(body, rest) =>
      var test := |b.blocks|;
      var filled := Emit(bounds, body, StartLoop(b));
      Emit(bounds, rest, EndLoop(filled, b.next, test + 1, test))
  }

  function Compile(bounds: bool, memtotal: nat, p: Prog): Code {
    Finish(Emit(bounds, p, Header(bounds, memtotal))).blocks
  }

  // ----- The compiler -----

  datatype Symbol = SymNone | SymRead | SymWrite | SymMove | SymChange | SymLoop | SymEndLoop | SymEof

  // What readloop returns, or the message with which it aborts.
  datatype Result = Ok | ExtraClose | MissingClose

  function TokenOf(sym: Symbol, value: int): Token
    requires sym != SymNone && sym != SymEof
  {
    match sym
    case SymRead => TRead
    case SymWrite => TWrite
    case SymMove => TMove(value)
    case SymChange => TChange(value)
    case SymLoop => TOpen
    case _ => TClose
  }

  function EmitSymbol(bounds: bool, sym: Symbol, value: int, b: Builder): Builder
    requires b.cur < |b.blocks|
  {
    if sym == SymRead then EmitRead(b)
    else if sym == SymWrite then EmitWrite(b)
    else if sym == SymMove then EmitMove(bounds, value, b)
    else EmitChange(value, b)
  }

  // How many characters at least a symbol was made of.
  function Weight(sym: Symbol): nat {
    if sym == SymNone || sym == SymEof then 0 else 1
  }

  // Reading the tokens `ts` on from builder `b` comes to the same as reading `ts0` from `b0`.
  ghost predicate Continues(bounds: bool, ts0: seq<Token>, b0: Builder, ts: seq<Token>, b: Builder)
    requires b0.cur < |b0.blocks| && b.cur < |b.blocks|
  {
    match Parse(ts)
    case Unclosed => Parse(ts0) == Unclosed
    case Parsed(p, rest) =>
      && Parse(ts0).Parsed?
      && Parse(ts0).rest == rest
      && Emit(bounds, Parse(ts0).prog, b0) == Emit(bounds, p, b)
  }

  // The tokens still to come when `sym` has been looked at and `ts` not yet.
  function Pending(sym: Symbol, value: int, ts: seq<Token>): seq<Token> {
    if sym == SymNone then ts
    else if sym == SymEof then []
    else Push(TokenOf(sym, value), ts)
  }

  // The tokens still to come when a complete symbol is in front.
  function Ahead(sym: Symbol, value: int, ts: seq<Token>): seq<Token> {
    if sym == SymNone then ts
    else if sym == SymEof then []
    else [TokenOf(sym, value)] + ts
  }

  lemma ContinuesSymbol(bounds: bool, ts0: seq<Token>, b0: Builder, sym: Symbol, value: int, after: seq<Token>,
                        b: Builder)
    requires b0.cur < |b0.blocks| && b.cur < |b.blocks|
    requires sym in {SymRead, SymWrite, SymMove, SymChange}
    requires Continues(bounds, ts0, b0, [TokenOf(sym, value)] + after, b)
    ensures EmitSymbol(bounds, sym, value, b).cur < |EmitSymbol(bounds, sym, value, b).blocks|
    ensures Continues(bounds, ts0, b0, after, EmitSymbol(bounds, sym, value, b))
  {
    assert ([TokenOf(sym, value)] + after)[1..] == after;
  }

  /** What readloop comes to: on the tokens `ts0` from builder `b0` it stops with `ts1` unread
      and builder `b1`. With a phi node it reads one loop body and its ']'; without, it reads
      the whole program. */
  ghost predicate Comes(bounds: bool, phi: Option<Reg>, body: Label, test: Label,
                        ts0: seq<Token>, b0: Builder, ts1: seq<Token>, b1: Builder, result: Result)
    requires b0.cur < |b0.blocks|
    requires phi.Some? ==> test < |b0.blocks|
  {
    var parsed := Parse(ts0);
    match result
    case MissingClose => parsed.Unclosed? || (phi.Some? && parsed.rest == [])
    case ExtraClose => parsed.Parsed? && phi.None? && parsed.rest != []
    case Ok =>
      && parsed.Parsed?
      && (if phi.None? then
            parsed.rest == [] && b1 == Finish(Emit(bounds, parsed.prog, b0))
          else
            && parsed.rest != []
            && ts1 == parsed.rest[1..]
            && b1 == EndLoop(Emit(bounds, parsed.prog, b0), phi.value, body, test))
  }

  lemma {:induction false} ParseOfLoop(after: seq<Token>)
    ensures var inner := Parse(after);
            Parse([TOpen] + after) ==
            if inner.Unclosed? || inner.rest == [] then Unclosed
            else
              var outer := Parse(inner.rest[1..]);
              if outer.Unclosed? then Unclosed else Parsed(Loop(inner.prog, outer.prog), outer.rest)
  {
    assert ([TOpen] + after)[1..] == after;
  }

  lemma {:induction false} EmitOfLoop(bounds: bool, body: Prog, rest: Prog, b: Builder)
    requires b.cur < |b.blocks|
    ensures Emit(bounds, Loop(body, rest), b)
            == Emit(bounds, rest, EndLoop(Emit(bounds, body, StartLoop(b)), b.next, |b.blocks| + 1, |b.blocks|))
  {
  }

  lemma {:induction false} ContinuesLoop(bounds: bool, ts0: seq<Token>, b0: Builder, after: seq<Token>, b: Builder,
                                         ts1: seq<Token>, b1: Builder, result: Result)
    requires b0.cur < |b0.blocks| && b.cur < |b.blocks|
    requires Continues(bounds, ts0, b0, [TOpen] + after, b)
    requires Comes(bounds, Some(b.next), |b.blocks| + 1, |b.blocks|, after, StartLoop(b), ts1, b1, result)
    ensures result == Ok ==> b1.cur < |b1.blocks| && |b.blocks| <= |b1.blocks| && Continues(bounds, ts0, b0, ts1, b1)
    ensures result != Ok ==> result == MissingClose && Parse(ts0).Unclosed?
  {
    var inner := Parse(after);
    ParseOfLoop(after);
    hide Parse;
    if inner.Parsed? && inner.rest != [] {
      var outer := Parse(inner.rest[1..]);
      if outer.Parsed? {
        EmitOfLoop(bounds, inner.prog, outer.prog, b);
      }
    }
    hide Emit;
    hide StartLoop;
    hide EndLoop;
  }

  class BrainF {
    var input: seq<char>
    const memtotal: nat
    const arraybounds: bool
    var blocks: seq<Block>
    var insert: Label
    var curhead: Reg
    var nextreg: Reg

    ghost function Made(): Builder
      reads this
    {
      Builder(blocks, insert, curhead, nextreg)
    }

    constructor (text: seq<char>, mem: nat, bounds: bool)
      ensures input == text && memtotal == mem && arraybounds == bounds
    {
      input, memtotal, arraybounds := text, mem, bounds;
      blocks, insert, curhead, nextreg := [], 0, 0, 0;
    }

    // Emits the function header, the return block and the error block.
    method WriteHeader()
      modifies this
      ensures Made() == Header(arraybounds, memtotal)
      ensures input == old(input)
    {
      var first := [Malloc(ARR), Memset(ARR, memtotal)];
      if arraybounds {
        first := first + [Gep(ARRMAX, ARR, memtotal)];
      }
      curhead := HEAD;
      first := first + [Gep(curhead, ARR, memtotal / 2)];
      assert first == Header(arraybounds, memtotal).blocks[ENTRY].instrs;
      blocks := [Block(first, Open), Block([Free(ARR)], Ret)];
      if arraybounds {
        blocks := blocks + [Block([Puts], Br(END))];
      }
      insert, nextreg := ENTRY, HEAD + 1;
    }

    // Appends one instruction that defines the next register.
    method Define(i: Instr) returns (r: Reg)
      requires insert < |blocks|
      modifies this`blocks, this`nextreg
      ensures Made() == Append(old(Made()), [i], 1) && r == old(nextreg)
    {
      r := nextreg;
      blocks := blocks[insert := blocks[insert].(instrs := blocks[insert].instrs + [i])];
      nextreg := nextreg + 1;
    }

    method Effect(i: Instr)
      requires insert < |blocks|
      modifies this`blocks
      ensures Made() == Append(old(Made()), [i], 0)
    {
      blocks := blocks[insert := blocks[insert].(instrs := blocks[insert].instrs + [i])];
    }

    method CreateBlock() returns (bb: Label)
      modifies this`blocks
      ensures blocks == old(blocks) + [Block([], Open)] && bb == |old(blocks)|
    {
      bb := |blocks|;
      blocks := blocks + [Block([], Open)];
    }

    method Terminate(bb: Label, t: Terminator)
      requires bb < |blocks|
      modifies this`blocks
      ensures blocks == old(blocks)[bb := old(blocks)[bb].(term := t)]
    {
      blocks := blocks[bb := blocks[bb].(term := t)];
    }

    // A move of the head, with a test of the tape limits where bounds are checked.
    method WriteMove(value: int)
      requires insert < |blocks|
      modifies this`blocks, this`insert, this`curhead, this`nextreg
      ensures insert < |blocks|
      ensures Made() == EmitMove(arraybounds, value, old(Made()))
    {
      ghost var b := Made();
      curhead := Define(Gep(nextreg, curhead, value));
      if arraybounds {
        var test0 := Define(IcmpUge(nextreg, curhead, ARRMAX));
        var test1 := Define(IcmpUlt(nextreg, curhead, ARR));
        var test2 := Define(Or(nextreg, test0, test1));
        var nextbb := CreateBlock();
        Terminate(insert, CondBr(test2, ABERROR, nextbb));
        assert blocks[insert].instrs == EmitMove(true, value, b).blocks[insert].instrs;
        assert blocks == EmitMove(true, value, b).blocks;
        insert := nextbb;
      } else {
        assert blocks[insert].instrs == EmitMove(false, value, b).blocks[insert].instrs;
      }
    }

    // Writes out one symbol other than a loop.
    method WriteSymbol(sym: Symbol, value: int)
      requires insert < |blocks|
      requires sym in {SymRead, SymWrite, SymMove, SymChange}
      modifies this`blocks, this`insert, this`curhead, this`nextreg
      ensures insert < |blocks|
      ensures Made() == EmitSymbol(arraybounds, sym, value, old(Made()))
    {
      ghost var b := Made();
      match sym {
        case SymRead =>
          var tape0 := Define(GetChar(nextreg));
          var tape1 := Define(Trunc(nextreg, tape0));
          Effect(Store(tape1, curhead));
          assert blocks[insert].instrs == EmitRead(b).blocks[insert].instrs;
        case SymWrite =>
          var tape0 := Define(Load(nextreg, curhead));
          var tape1 := Define(SExt(nextreg, tape0));
          Effect(PutChar(tape1));
          assert blocks[insert].instrs == EmitWrite(b).blocks[insert].instrs;
        case SymMove =>
          WriteMove(value);
        case SymChange =>
          var tape0 := Define(Load(nextreg, curhead));
          var tape1 := Define(AddByte(nextreg, tape0, value));
          Effect(Store(tape1, curhead));
          assert blocks[insert].instrs == EmitChange(value, b).blocks[insert].instrs;
      }
    }

    // Takes one character of a run into account: it extends the current symbol, becomes the
    // current symbol, or becomes the lookahead. `ts` stands for what follows it.
    static method LookRun(run: Symbol, direction: int, sym: Symbol, value: int, ghost ts: seq<Token>)
      returns (cursym: Symbol, curvalue: int, nextsym: Symbol, nextvalue: int, loop: bool)
      requires sym in {SymNone, SymMove, SymChange} && run in {SymMove, SymChange}
      ensures sym != SymNone ==> cursym == sym
      ensures cursym in {SymMove, SymChange} && nextsym in {SymNone, SymMove, SymChange}
      ensures (loop <==> nextsym == SymNone) && (sym == SymNone ==> loop)
      ensures Pending(sym, value, Push(TokenOf(run, direction), ts)) ==
              if loop then Pending(cursym, curvalue, ts)
              else Ahead(cursym, curvalue, Pending(nextsym, nextvalue, ts))
    {
      cursym, curvalue, nextsym, nextvalue, loop := sym, value, SymNone, 0, true;
      if cursym == run {
        curvalue := curvalue + direction;
      } else if cursym == SymNone {
        cursym, curvalue := run, direction;
      } else {
        nextsym, nextvalue, loop := run, direction, false;
      }
    }

    // The same for a character that stands alone.
    static method LookSingle(single: Symbol, sym: Symbol, value: int, ghost ts: seq<Token>)
      returns (cursym: Symbol, nextsym: Symbol)
      requires sym in {SymNone, SymMove, SymChange} && single in {SymRead, SymWrite, SymLoop, SymEndLoop}
      ensures if sym == SymNone then cursym == single && nextsym == SymNone else cursym == sym && nextsym == single
      ensures Pending(sym, value, Push(TokenOf(single, 0), ts)) == Ahead(cursym, value, Pending(nextsym, 0, ts))
    {
      cursym, nextsym := sym, SymNone;
      if cursym == SymNone {
        cursym := single;
      } else {
        nextsym := single;
      }
    }

    // The same for any character; other characters are comments.
    static method Look(c: char, sym: Symbol, value: int, ghost ts: seq<Token>)
      returns (cursym: Symbol, curvalue: int, nextsym: Symbol, nextvalue: int, loop: bool)
      requires sym in {SymNone, SymMove, SymChange}
      ensures sym != SymNone ==> cursym == sym
      ensures Weight(nextsym) + Weight(cursym) <= 1 + Weight(sym)
      ensures loop ==> nextsym == SymNone && cursym in {SymNone, SymMove, SymChange}
      ensures !loop ==> cursym != SymNone && cursym != SymEof
      ensures nextsym != SymNone ==> cursym in {SymMove, SymChange} && nextsym != SymEof
      ensures var seen := if IsCommand(c) then Push(Unit(c), ts) else ts;
              Pending(sym, value, seen) ==
              if loop then Pending(cursym, curvalue, ts)
              else Ahead(cursym, curvalue, Pending(nextsym, nextvalue, ts))
    {
      cursym, curvalue, nextsym, nextvalue, loop := sym, value, SymNone, 0, false;
      hide Push;
      if c == '-' || c == '+' {
        cursym, curvalue, nextsym, nextvalue, loop := LookRun(SymChange, if c == '-' then -1 else 1, sym, value, ts);
      } else if c == '<' || c == '>' {
        cursym, curvalue, nextsym, nextvalue, loop := LookRun(SymMove, if c == '<' then -1 else 1, sym, value, ts);
      } else if c == ',' {
        cursym, nextsym := LookSingle(SymRead, sym, value, ts);
      } else if c == '.' {
        cursym, nextsym := LookSingle(SymWrite, sym, value, ts);
      } else if c == '[' {
        cursym, nextsym := LookSingle(SymLoop, sym, value, ts);
      } else if c == ']' {
        cursym, nextsym := LookSingle(SymEndLoop, sym, value, ts);
      } else {
        loop := true;
      }
    }

    // Completes the current symbol by reading on. A run of moves or changes is folded into
    // one value; the first symbol after it becomes the lookahead.
    method ReadSymbol(sym0: Symbol, value0: int)
      returns (cursym: Symbol, curvalue: int, nextsym: Symbol, nextvalue: int)
      modifies this`input
      ensures cursym != SymNone
      ensures |input| + Weight(nextsym) + Weight(cursym) <= |old(input)| + Weight(sym0)
      ensures sym0 != SymNone ==> cursym == sym0
      ensures nextsym != SymNone ==> cursym in {SymMove, SymChange}
      ensures Pending(sym0, value0, Lex(old(input))) == Ahead(cursym, curvalue, Pending(nextsym, nextvalue, Lex(input)))
    {
      cursym, curvalue, nextsym, nextvalue := sym0, value0, SymNone, 0;
      var loop := cursym in {SymNone, SymMove, SymChange};
      while loop
        invariant |input| + Weight(nextsym) + Weight(cursym) <= |old(input)| + Weight(sym0)
        invariant sym0 != SymNone ==> cursym == sym0
        invariant loop ==> nextsym == SymNone && cursym in {SymNone, SymMove, SymChange}
        invariant nextsym != SymNone ==> cursym in {SymMove, SymChange}
        invariant !loop ==> cursym != SymNone
        invariant loop ==> Pending(sym0, value0, Lex(old(input))) == Pending(cursym, curvalue, Lex(input))
        invariant !loop ==> Pending(sym0, value0, Lex(old(input)))
                            == Ahead(cursym, curvalue, Pending(nextsym, nextvalue, Lex(input)))
        decreases if loop then 1 else 0, |input|
      {
        if input == [] {
          if cursym == SymNone {
            cursym := SymEof;
          } else {
            nextsym := SymEof;
          }
          loop := false;
        } else {
          var c := input[0];
          ghost var before := Lex(input);
          input := input[1..];
          assert before == if IsCommand(c) then Push(Unit(c), Lex(input)) else Lex(input);
          cursym, curvalue, nextsym, nextvalue, loop := Look(c, cursym, curvalue, Lex(input));
        }
      }
    }

    // Writes the start of a loop: the test block with the first half of its phi node.
    method WriteLoopStart() returns (phi: Reg, oldbb: Label, testbb: Label)
      requires insert < |blocks|
      modifies this`blocks, this`insert, this`curhead, this`nextreg
      ensures Made() == StartLoop(old(Made()))
      ensures phi == old(nextreg) && testbb == |old(blocks)| && oldbb == testbb + 1
    {
      ghost var b := Made();
      testbb := CreateBlock();
      Terminate(insert, Br(testbb));
      var bb0 := insert;
      oldbb := CreateBlock();
      insert := oldbb;
      phi := nextreg;
      nextreg := nextreg + 1;
      blocks := blocks[testbb := blocks[testbb].(instrs := [Phi(phi, [Incoming(curhead, bb0)])])];
      curhead := phi;
      assert blocks == StartLoop(b).blocks;
    }

    // Writes the loop test and finishes the phi node.
    method WriteLoopEnd(phi: Reg, oldbb: Label, testbb: Label)
      requires insert < |blocks| && testbb < |blocks|
      modifies this`blocks, this`insert, this`curhead, this`nextreg
      ensures Made() == EndLoop(old(Made()), phi, oldbb, testbb)
    {
      ghost var b := Made();
      Terminate(insert, Br(testbb));
      var test := AddIncoming(blocks[testbb].instrs, Incoming(curhead, insert));
      var tape0 := nextreg;
      var test0 := nextreg + 1;
      var bb0 := CreateBlock();
      blocks := blocks[testbb := Block(test + [Load(tape0, phi), IcmpEqZero(test0, tape0)], CondBr(test0, bb0, oldbb))];
      var phi1 := nextreg + 2;
      blocks := blocks[bb0 := blocks[bb0].(instrs := [Phi(phi1, [Incoming(phi, testbb)])])];
      insert, curhead, nextreg := bb0, phi1, nextreg + 3;
      assert blocks == EndLoop(b, phi, oldbb, testbb).blocks;
    }

    // Writes out the current symbol, which for a '[' is a whole loop. `ts0` and `b0` are what
    // the enclosing call started from, `after` the tokens that follow the symbol.
    method WriteOut(sym: Symbol, value: int, ghost ts0: seq<Token>, ghost b0: Builder, ghost after: seq<Token>)
      returns (result: Result)
      requires insert < |blocks| && b0.cur < |b0.blocks|
      requires sym != SymEndLoop && sym != SymEof
      requires sym == SymLoop ==> after == Lex(input)
      requires Continues(arraybounds, ts0, b0, Ahead(sym, value, after), Made())
      modifies this`input, this`blocks, this`insert, this`curhead, this`nextreg
      ensures |input| <= |old(input)|
      ensures sym != SymLoop ==> input == old(input)
      ensures insert < |blocks|
      ensures result == Ok ==>
                && |old(blocks)| <= |blocks|
                && Continues(arraybounds, ts0, b0, if sym == SymLoop then Lex(input) else after, Made())
      ensures result != Ok ==> result == MissingClose && Parse(ts0).Unclosed?
      decreases |input|, if sym == SymLoop then 2 else 0
    {
      hide Continues;
      hide Comes;
      hide Emit;
      hide Parse;
      hide Lex;
      ghost var b := Made();
      result := Ok;
      if sym == SymLoop {
        var phi0, bb1, testbb := WriteLoopStart();
        ghost var start := Made();
        result := ReadLoop(Some(phi0), bb1, testbb);
        assert Comes(arraybounds, Some(phi0), bb1, testbb, after, start, Lex(input), Made(), result);
        ContinuesLoop(arraybounds, ts0, b0, after, b, Lex(input), Made(), result);
      } else if sym != SymNone {
        ContinuesSymbol(arraybounds, ts0, b0, sym, value, after, b);
        WriteSymbol(sym, value);
      }
    }

    /** Reads and writes out symbols up to the end of the loop that `phi` belongs to, or up to
        the end of the program when there is none. */
    method ReadLoop(phi: Option<Reg>, oldbb: Label, testbb: Label) returns (result: Result)
      requires insert < |blocks|
      requires phi.Some? ==> testbb < |blocks|
      modifies this`input, this`blocks, this`insert, this`curhead, this`nextreg
      ensures insert < |blocks|
      ensures |input| <= |old(input)|
      ensures Comes(arraybounds, phi, oldbb, testbb, Lex(old(input)), old(Made()), Lex(input), Made(), result)
      decreases |input|, 1
    {
      ghost var ts0, b0 := Lex(input), Made();
      var cursym, curvalue, nextsym, nextvalue := SymNone, 0, SymNone, 0;
      while cursym != SymEof && cursym != SymEndLoop
        invariant insert < |blocks| && |old(blocks)| <= |blocks|
        invariant |input| + Weight(cursym) + Weight(nextsym) <= |old(input)|
        invariant nextsym != SymNone ==> cursym in {SymMove, SymChange}
        invariant Continues(arraybounds, ts0, b0,
                            Ahead(cursym, curvalue, Pending(nextsym, nextvalue, Lex(input))), Made())
        decreases |input| + Weight(nextsym) + (if cursym == SymEof then 0 else 1)
      {
        ghost var after := Pending(nextsym, nextvalue, Lex(input));
        result := WriteOut(cursym, curvalue, ts0, b0, after);
        if result != Ok {
          return;
        }
        cursym, curvalue, nextsym, nextvalue := ReadSymbol(nextsym, nextvalue);
      }

      if cursym == SymEndLoop {
        if phi.None? {
          return ExtraClose;
        }
        assert ([TClose] + Lex(input))[1..] == Lex(input);
        WriteLoopEnd(phi.value, oldbb, testbb);
        return Ok;
      }
      if phi.Some? {
        return MissingClose;
      }
      Terminate(insert, Br(END));
      return Ok;
    }

    /** Compiles a text. It succeeds exactly on the texts whose brackets balance, and what it
        emits is the compiled form of the text's program with runs folded. */
    method Translate() returns (result: Result)
      modifies this
      ensures result == Ok <==> Balanced(old(input))
      ensures result == ExtraClose ==> Parse(Units(old(input))).Parsed?
      ensures result == MissingClose ==> Parse(Units(old(input))).Unclosed?
      ensures result == Ok ==>
                && Parse(Units(old(input))).Parsed?
                && blocks == Compile(arraybounds, memtotal, Fold(Parse(Units(old(input))).prog))
    {
      ParsesIffBalanced(input);
      LexedProgramIsFolded(input);
      WriteHeader();
      result := ReadLoop(None, 0, 0);
    }
  }
}
