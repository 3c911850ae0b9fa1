/** The BrainF language: programs, the meaning of a program, and the reader that turns
    characters into programs (llvm/examples/BrainF/BrainF.cpp). */
module BrainFLanguage {

  type Byte = b: int | 0 <= b < 256

  // What a program can send to its standard output: characters, and the message printed
  // when the head leaves the tape.
  datatype Output = Char(b: Byte) | BoundsMessage

  // The part of a machine state that both the language and the compiled code talk about.
  datatype World = World(tape: map<int, Byte>, input: seq<Byte>, output: seq<Output>)
  {
    function Cell(address: int): Byte {
      if address in tape then tape[address] else 0
    }

    function Put(address: int, b: Byte): World {
      this.(tape := tape[address := b])
    }

    function Emit(o: Output): World {
      this.(output := output + [o])
    }
  }

  datatype State = State(world: World, head: int)

  // Where the head may go: anywhere, or inside [lo, hi).
  datatype Limit = Unchecked | Within(lo: int, hi: int)
  {
    predicate Allows(address: int) {
      Within? ==> lo <= address < hi
    }
  }

  /** A program. One character of source is one command with `k` equal to 1 or -1;
      a folded run of characters is one command with any `k`. */
  datatype Prog =
    | Nil
    | Read(rest: Prog)
    | Write(rest: Prog)
    | Move(k: int, rest: Prog)
    | Change(k: int, rest: Prog)
    | Loop(body: Prog, rest: Prog)

  // How far a run got: to the end, off the tape, or out of fuel in the middle of a loop.
  datatype Outcome = Done(s: State) | Left(s: State) | Running(s: State)

  // getchar() truncated to a byte: the next character, or 255 at the end of the input
  function ReadByte(w: World): (Byte, World) {
    if w.input == [] then (255, w) else (w.input[0], w.(input := w.input[1..]))
  }

  /** The meaning of a program. `fuel` bounds the number of loop tests that succeed one after
      or inside another; a run that needs more is cut off where it stands. */
  function Exec(limit: Limit, p: Prog, s: State, fuel: nat): Outcome
    decreases fuel, p
  {
    match p
    case Nil => Done(s)
    case Read(rest) =>
      var (b, w) := ReadByte(s.world);
      Exec(limit, rest, s.(world := w.Put(s.head, b)), fuel)
    case Write(rest) =>
      Exec(limit, rest, s.(world := s.world.Emit(Char(s.world.Cell(s.head)))), fuel)
    case Move(k, rest) =>
      var t := s.(head := s.head + k);
      if limit.Allows(t.head) then Exec(limit, rest, t, fuel) else Left(t)
    case Change(k, rest) =>
      Exec(limit, rest, s.(world := s.world.Put(s.head, (s.world.Cell(s.head) + k) % 256)), fuel)
    case Loop(body, rest) =>
      if s.world.Cell(s.head) == 0 then
        Exec(limit, rest, s, fuel)
      else if fuel == 0 then
        Running(s)
      else
        match Exec(limit, body, s, fuel - 1)
        case Done(t) => Exec(limit, p, t, fuel - 1)
        case other => other
  }

  // The effect of a command that is not a loop.
  function ExecFirst(p: Prog, s: State): State {
    match p
    case Read(_) => var (b, w) := ReadByte(s.world); s.(world := w.Put(s.head, b))
    case Write(_) => s.(world := s.world.Emit(Char(s.world.Cell(s.head))))
    case Change(k, _) => s.(world := s.world.Put(s.head, (s.world.Cell(s.head) + k) % 256))
    case Move(k, _) => s.(head := s.head + k)
    case _ => s
  }

  lemma {:induction false} ExecStep(limit: Limit, p: Prog, s: State, fuel: nat)
    requires !p.Nil? && !p.Loop? && (p.Move? ==> limit.Allows(s.head + p.k))
    ensures Exec(limit, p, s, fuel) == Exec(limit, p.rest, ExecFirst(p, s), fuel)
  {
  }

  // ----- Folding runs -----

  // Every maximal run of moves, and of changes, becomes one command.
  function Fold(p: Prog): Prog {
    match p
    case Nil => Nil
    case Read(rest) => Read(Fold(rest))
    case Write(rest) => Write(Fold(rest))
    case Move(k, rest) =>
      var q := Fold(rest);
      if q.Move? then Move(k + q.k, q.rest) else Move(k, q)
    case Change(k, rest) =>
      var q := Fold(rest);
      if q.Change? then Change(k + q.k, q.rest) else Change(k, q)
    case Loop(body, rest) => Loop(Fold(body), Fold(rest))
  }

  // Folding a command into what follows does not change its effect; a move only if its end need not
  // be looked at.
  lemma {:induction false} FoldFirst(limit: Limit, p: Prog, s: State, fuel: nat)
    requires !p.Nil? && !p.Loop? && (p.Move? ==> limit.Unchecked?)
    ensures Exec(limit, Fold(p), s, fuel) == Exec(limit, Fold(p.rest), ExecFirst(p, s), fuel)
  {
    var q := Fold(p.rest);
    ExecStep(limit, Fold(p), s, fuel);
    if (p.Move? && q.Move?) || (p.Change? && q.Change?) {
      ExecStep(limit, q, ExecFirst(p, s), fuel);
      JoinedFirst(p, q, s);
    }
    hide Exec;
  }

  lemma JoinedFirst(p: Prog, q: Prog, s: State)
    requires (p.Move? && q.Move?) || (p.Change? && q.Change?)
    ensures ExecFirst(if p.Move? then Move(p.k + q.k, q.rest) else Change(p.k + q.k, q.rest), s)
            == ExecFirst(q, ExecFirst(p, s))
  {
    if p.Change? {
      var c, d := s.world.Cell(s.head), (s.world.Cell(s.head) + (p.k + q.k)) % 256;
      assert ((c + p.k) % 256 + q.k) % 256 == d;
      assert ExecFirst(p, s).world.tape[s.head := d] == s.world.tape[s.head := d];
    }
  }

  /** Folding does not change what an unchecked program does, step for step of fuel. */
  lemma {:induction false} FoldKeepsMeaning(p: Prog, s: State, fuel: nat)
    ensures Exec(Unchecked, Fold(p), s, fuel) == Exec(Unchecked, p, s, fuel)
    decreases fuel, p
  {
    match p
    case Nil =>
    case Loop(body, rest) =>
      if s.world.Cell(s.head) == 0 {
        FoldKeepsMeaning(rest, s, fuel);
      } else if fuel > 0 {
        FoldKeepsMeaning(body, s, fuel - 1);
        var o := Exec(Unchecked, body, s, fuel - 1);
        if o.Done? {
          FoldKeepsMeaning(p, o.s, fuel - 1);
        }
      }
    case _ =>
      FoldFirst(Unchecked, p, s, fuel);
      ExecStep(Unchecked, p, s, fuel);
      FoldKeepsMeaning(p.rest, ExecFirst(p, s), fuel);
      hide *;
  }

  // ----- Folding under a limit -----

  // The distance that the run of moves at the front of a program goes, and what comes after the run.
  function Total(p: Prog): int {
    if p.Move? then p.k + Total(p.rest) else 0
  }

  function After(p: Prog): (r: Prog)
    ensures !r.Move?
    ensures p.Move? ==> r < p
  {
    if p.Move? then After(p.rest) else p
  }

  // The run at the front, from distance `d` on, does not leave [lo, hi].
  predicate StaysBetween(p: Prog, d: int, lo: int, hi: int) {
    p.Move? ==> lo <= d + p.k <= hi && StaysBetween(p.rest, d + p.k, lo, hi)
  }

  // The run at the front goes to no place that is not between its two ends.
  predicate DirectRun(p: Prog) {
    var d := Total(p);
    StaysBetween(p, 0, if d < 0 then d else 0, if d < 0 then 0 else d)
  }

  // Every maximal run of moves is direct.
  predicate Direct(p: Prog) {
    match p
    case Nil => true
    case Read(rest) => Direct(rest)
    case Write(rest) => Direct(rest)
    case Move(_, _) => DirectRun(p) && Direct(After(p))
    case Change(_, rest) => Direct(rest)
    case Loop(body, rest) => Direct(body) && Direct(rest)
  }

  // What can be told from outside: a run off the tape is reported wherever the head is.
  predicate SameOutcome(o: Outcome, u: Outcome) {
    o == u || (o.Left? && u.Left? && o.s.world == u.s.world)
  }

  // Every place that the run at the front comes to is allowed.
  predicate AllowedAlong(limit: Limit, p: Prog, head: int) {
    p.Move? ==> limit.Allows(head + p.k) && AllowedAlong(limit, p.rest, head + p.k)
  }

  lemma {:induction false} FoldOfRun(p: Prog)
    requires p.Move?
    ensures Fold(p) == Move(Total(p), Fold(After(p)))
  {
    if p.rest.Move? {
      FoldOfRun(p.rest);
    }
  }

  lemma {:induction false} ExecOfRun(limit: Limit, p: Prog, s: State, fuel: nat)
    ensures var o, t := Exec(limit, p, s, fuel), s.(head := s.head + Total(p));
            if AllowedAlong(limit, p, s.head) then o == Exec(limit, After(p), t, fuel)
            else o.Left? && o.s.world == s.world
    decreases p
  {
    if p.Move? && limit.Allows(s.head + p.k) {
      ExecOfRun(limit, p.rest, s.(head := s.head + p.k), fuel);
    }
  }

  lemma {:induction false} StaysAllowed(limit: Limit, p: Prog, head: int, d: int, lo: int, hi: int)
    requires StaysBetween(p, d, lo, hi) && limit.Allows(head + lo) && limit.Allows(head + hi)
    ensures AllowedAlong(limit, p, head + d)
  {
    if p.Move? {
      StaysAllowed(limit, p.rest, head, d + p.k, lo, hi);
    }
  }

  lemma {:induction false} EndsAllowed(limit: Limit, p: Prog, head: int)
    requires AllowedAlong(limit, p, head) && limit.Allows(head)
    ensures limit.Allows(head + Total(p))
  {
    if p.Move? {
      EndsAllowed(limit, p.rest, head + p.k);
    }
  }

  // A direct run stays on the tape exactly when its end is on it.
  lemma DirectRunIsAllowed(limit: Limit, p: Prog, head: int)
    requires DirectRun(p) && limit.Allows(head)
    ensures AllowedAlong(limit, p, head) <==> limit.Allows(head + Total(p))
  {
    var d := Total(p);
    if limit.Allows(head + d) {
      StaysAllowed(limit, p, head, 0, if d < 0 then d else 0, if d < 0 then 0 else d);
    }
    if AllowedAlong(limit, p, head) {
      EndsAllowed(limit, p, head);
    }
  }

  // A program that comes to its end leaves the head at an allowed place.
  lemma {:induction false} HeadStaysAllowed(limit: Limit, p: Prog, s: State, fuel: nat)
    requires limit.Allows(s.head)
    ensures var o := Exec(limit, p, s, fuel); o.Done? ==> limit.Allows(o.s.head)
    decreases fuel, p
  {
    match p
    case Nil =>
    case Loop(body, rest) =>
      if s.world.Cell(s.head) == 0 {
        HeadStaysAllowed(limit, rest, s, fuel);
      } else if fuel > 0 {
        HeadStaysAllowed(limit, body, s, fuel - 1);
        var o := Exec(limit, body, s, fuel - 1);
        if o.Done? {
          HeadStaysAllowed(limit, p, o.s, fuel - 1);
        }
      }
    case Move(k, rest) =>
      if limit.Allows(s.head + k) {
        HeadStaysAllowed(limit, rest, s.(head := s.head + k), fuel);
      }
    case _ =>
      ExecStep(limit, p, s, fuel);
      HeadStaysAllowed(limit, p.rest, ExecFirst(p, s), fuel);
  }

  /** A checked program in which every run of moves is direct: folding its runs changes nothing that
      can be told from outside, whatever the limit and wherever on the tape the head starts. */
  lemma {:induction false} FoldKeepsChecks(limit: Limit, p: Prog, s: State, fuel: nat)
    requires Direct(p) && limit.Allows(s.head)
    ensures SameOutcome(Exec(limit, Fold(p), s, fuel), Exec(limit, p, s, fuel))
    decreases fuel, p
  {
    match p
    case Nil =>
    case Loop(body, rest) =>
      if s.world.Cell(s.head) == 0 {
        FoldKeepsChecks(limit, rest, s, fuel);
      } else if fuel > 0 {
        FoldKeepsChecks(limit, body, s, fuel - 1);
        var o := Exec(limit, body, s, fuel - 1);
        if o.Done? {
          HeadStaysAllowed(limit, body, s, fuel - 1);
          FoldKeepsChecks(limit, p, o.s, fuel - 1);
        }
      }
    case Move(_, _) =>
      var t := s.(head := s.head + Total(p));
      FoldOfRun(p);
      ExecOfRun(limit, p, s, fuel);
      DirectRunIsAllowed(limit, p, s.head);
      if limit.Allows(t.head) {
        FoldKeepsChecks(limit, After(p), t, fuel);
      }
    case _ =>
      FoldFirst(limit, p, s, fuel);
      ExecStep(limit, p, s, fuel);
      FoldKeepsChecks(limit, p.rest, ExecFirst(p, s), fuel);
  }

  // The converse of StaysAllowed, for the tape between the two ends.
  lemma {:induction false} AllowedStaysBetween(p: Prog, d: int, lo: int, hi: int)
    requires AllowedAlong(Within(lo, hi + 1), p, d)
    ensures StaysBetween(p, d, lo, hi)
  {
    if p.Move? {
      AllowedStaysBetween(p.rest, d + p.k, lo, hi);
    }
  }

  /** The condition is exact for a run of moves: folding it can be told on no tape if and only if the
      run is direct. */
  lemma RunFoldsIffDirect(p: Prog, w: World)
    requires p.Move? && After(p) == Nil
    ensures Direct(p) <==>
            forall limit: Limit, head: int, fuel: nat :: limit.Allows(head) ==>
              SameOutcome(Exec(limit, Fold(p), State(w, head), fuel), Exec(limit, p, State(w, head), fuel))
  {
    if Direct(p) {
      forall limit: Limit, head: int, fuel: nat | limit.Allows(head)
        ensures SameOutcome(Exec(limit, Fold(p), State(w, head), fuel), Exec(limit, p, State(w, head), fuel))
      {
        FoldKeepsChecks(limit, p, State(w, head), fuel);
      }
    } else {
      assert Direct(After(p));
      CrookedRunDiffers(p, w);
    }
  }

  // The tape that ends where the run starts and ends.
  lemma {:induction false} CrookedRunDiffers(p: Prog, w: World)
    requires p.Move? && After(p) == Nil && !DirectRun(p)
    ensures var d := Total(p);
            var limit := Within(if d < 0 then d else 0, if d < 0 then 1 else d + 1);
            && limit.Allows(0)
            && Exec(limit, Fold(p), State(w, 0), 0) == Done(State(w, d)) && Exec(limit, p, State(w, 0), 0).Left?
  {
    var d := Total(p);
    var lo, hi := if d < 0 then d else 0, if d < 0 then 0 else d;
    FoldOfRun(p);
    ExecOfRun(Within(lo, hi + 1), p, State(w, 0), 0);
    if AllowedAlong(Within(lo, hi + 1), p, 0) {
      AllowedStaysBetween(p, 0, lo, hi);
    }
  }

  // The run at the front goes forwards only, or backwards only.
  predicate Forwards(p: Prog) {
    p.Move? ==> p.k >= 0 && Forwards(p.rest)
  }

  predicate Backwards(p: Prog) {
    p.Move? ==> p.k <= 0 && Backwards(p.rest)
  }

  lemma {:induction false} OneWayStays(p: Prog, d: int)
    ensures Forwards(p) ==> Total(p) >= 0 && StaysBetween(p, d, d, d + Total(p))
    ensures Backwards(p) ==> Total(p) <= 0 && StaysBetween(p, d, d + Total(p), d)
  {
    if p.Move? {
      OneWayStays(p.rest, d + p.k);
      if Forwards(p) {
        Widen(p.rest, d + p.k, d + p.k, d + Total(p), d, d + Total(p));
      }
      if Backwards(p) {
        Widen(p.rest, d + p.k, d + Total(p), d + p.k, d + Total(p), d);
      }
    }
  }

  lemma {:induction false} Widen(p: Prog, d: int, lo: int, hi: int, low: int, high: int)
    requires StaysBetween(p, d, lo, hi) && low <= lo && hi <= high
    ensures StaysBetween(p, d, low, high)
  {
    if p.Move? {
      Widen(p.rest, d + p.k, lo, hi, low, high);
    }
  }

  /** A run in one direction is direct. Two moves in opposite directions never are: folding them
      hides that the head leaves a tape. */
  lemma {:induction false} OneWayIsDirect(p: Prog)
    requires Forwards(p) || Backwards(p)
    ensures DirectRun(p)
  {
    OneWayStays(p, 0);
  }

  lemma {:induction false} FoldedChecksSkipInsideRuns(k: int, m: int, w: World)
    requires k < 0 < m || m < 0 < k
    ensures var p := Move(k, Move(m, Nil));
            var limit := Within(if k + m < 0 then k + m else 0, if k + m < 0 then 1 else k + m + 1);
            limit.Allows(0) && Exec(limit, p, State(w, 0), 0).Left?
            && Exec(limit, Fold(p), State(w, 0), 0) == Done(State(w, k + m))
  {
    var p := Move(k, Move(m, Nil));
    assert Total(p.rest) == m && After(p.rest) == Nil;
    CrookedRunDiffers(p, w);
  }

  // ----- Tokens -----

  datatype Token = TRead | TWrite | TMove(k: int) | TChange(k: int) | TOpen | TClose

  predicate IsCommand(c: char) {
    c == ',' || c == '.' || c == '<' || c == '>' || c == '+' || c == '-' || c == '[' || c == ']'
  }

  // The token of one command character.
  function Unit(c: char): Token
    requires IsCommand(c)
  {
    match c
    case ',' => TRead
    case '.' => TWrite
    case '<' => TMove(-1)
    case '>' => TMove(1)
    case '-' => TChange(-1)
    case '+' => TChange(1)
    case '[' => TOpen
    case _ => TClose
  }

  // One token per command character; every other character is a comment.
  function Units(text: seq<char>): seq<Token> {
    if text == [] then []
    else if IsCommand(text[0]) then [Unit(text[0])] + Units(text[1..])
    else Units(text[1..])
  }

  // Puts a token in front, joining it with a move or change that is already there.
  function Push(t: Token, ts: seq<Token>): (r: seq<Token>)
    ensures r != []
    ensures |r| <= |ts| + 1
  {
    if t.TMove? && ts != [] && ts[0].TMove? then [TMove(t.k + ts[0].k)] + ts[1..]
    else if t.TChange? && ts != [] && ts[0].TChange? then [TChange(t.k + ts[0].k)] + ts[1..]
    else [t] + ts
  }

  // Joins maximal runs.
  function Runs(ts: seq<Token>): seq<Token> {
    if ts == [] then [] else Push(ts[0], Runs(ts[1..]))
  }

  // What the reader sees in a text: tokens with runs joined across comments.
  function Lex(text: seq<char>): seq<Token> {
    Runs(Units(text))
  }

  // ----- Brackets -----

  // A program read up to the end of the tokens or up to a ']' that it did not open
  // (which stays in front of `rest`), or an open '[' that never ends.
  datatype Parsed = Parsed(prog: Prog, rest: seq<Token>) | Unclosed

  function Parse(ts: seq<Token>): (r: Parsed)
    ensures r.Parsed? ==> |r.rest| <= |ts|
    ensures r.Parsed? && r.rest != [] ==> r.rest[0] == TClose
    decreases |ts|
  {
    if ts == [] || ts[0] == TClose then
      Parsed(Nil, ts)
    else if ts[0] == TOpen then
      var inner := Parse(ts[1..]);
      if inner.Unclosed? || inner.rest == [] then
        Unclosed
      else
        var outer := Parse(inner.rest[1..]);
        if outer.Unclosed? then Unclosed else Parsed(Loop(inner.prog, outer.prog), outer.rest)
    else
      var tail := Parse(ts[1..]);
      if tail.Unclosed? then Unclosed
      else
        Parsed(
          match ts[0]
          case TRead => Read(tail.prog)
          case TWrite => Write(tail.prog)
          case TMove(k) => Move(k, tail.prog)
          case TChange(k) => Change(k, tail.prog)
          case _ => Nil,
          tail.rest)
  }

  // The tokens of a program, in order: the inverse of Parse.
  function Flatten(p: Prog): seq<Token> {
    match p
    case Nil => []
    case Read(rest) => [TRead] + Flatten(rest)
    case Write(rest) => [TWrite] + Flatten(rest)
    case Move(k, rest) => [TMove(k)] + Flatten(rest)
    case Change(k, rest) => [TChange(k)] + Flatten(rest)
    case Loop(body, rest) => [TOpen] + Flatten(body) + [TClose] + Flatten(rest)
  }

  lemma NestedTokens(ts: seq<Token>, body: seq<Token>, close: seq<Token>, tail: seq<Token>, rest: seq<Token>)
    requires ts != [] && ts[0] == TOpen && body + close == ts[1..]
    requires close != [] && close[0] == TClose && tail + rest == close[1..]
    ensures [TOpen] + body + [TClose] + tail + rest == ts
  {
    assert close == [TClose] + (tail + rest);
    assert ts == [TOpen] + (body + close);
  }

  lemma {:induction false} ParseThenFlatten(ts: seq<Token>)
    requires Parse(ts).Parsed?
    ensures Flatten(Parse(ts).prog) + Parse(ts).rest == ts
    decreases |ts|
  {
    if ts == [] || ts[0] == TClose {
    } else if ts[0] == TOpen {
      var inner := Parse(ts[1..]);
      var outer := Parse(inner.rest[1..]);
      assert Parse(ts) == Parsed(Loop(inner.prog, outer.prog), outer.rest);
      assert Flatten(Parse(ts).prog) == [TOpen] + Flatten(inner.prog) + [TClose] + Flatten(outer.prog);
      hide *;
      ParseThenFlatten(ts[1..]);
      ParseThenFlatten(inner.rest[1..]);
      NestedTokens(ts, Flatten(inner.prog), inner.rest, Flatten(outer.prog), outer.rest);
    } else {
      var tail := Parse(ts[1..]);
      assert Flatten(Parse(ts).prog) == [ts[0]] + Flatten(tail.prog) && Parse(ts).rest == tail.rest;
      hide *;
      ParseThenFlatten(ts[1..]);
      assert ts == [ts[0]] + (Flatten(tail.prog) + tail.rest);
    }
  }

  lemma {:induction false} FlattenThenParse(p: Prog, rest: seq<Token>)
    requires rest == [] || rest[0] == TClose
    ensures Parse(Flatten(p) + rest) == Parsed(p, rest)
    decreases p
  {
    var ts := Flatten(p) + rest;
    match p
    case Nil =>
    case Loop(body, tail) =>
      var after := [TClose] + (Flatten(tail) + rest);
      assert ts == [TOpen] + (Flatten(body) + after);
      assert ts[1..] == Flatten(body) + after;
      FlattenThenParse(body, after);
      FlattenThenParse(tail, rest);
      assert after[1..] == Flatten(tail) + rest;
    case _ =>
      assert ts[1..] == Flatten(p.rest) + rest;
      FlattenThenParse(p.rest, rest);
  }

  // How many brackets are open after a text.
  function Depth(text: seq<char>): int {
    if text == [] then 0
    else
      Depth(text[..|text| - 1])
      + (if text[|text| - 1] == '[' then 1 else if text[|text| - 1] == ']' then -1 else 0)
  }

  // No ']' comes before its '[', and every '[' has its ']'.
  ghost predicate Balanced(text: seq<char>) {
    && Depth(text) == 0
    && forall n | 0 <= n <= |text| :: Depth(text[..n]) >= 0
  }

  // The same, as a scan that starts with `d` open brackets.
  predicate Scan(ts: seq<Token>, d: nat) {
    if ts == [] then d == 0
    else if ts[0] == TOpen then Scan(ts[1..], d + 1)
    else if ts[0] == TClose then d > 0 && Scan(ts[1..], d - 1)
    else Scan(ts[1..], d)
  }

  lemma {:induction false} ParseScan(ts: seq<Token>, d: nat)
    ensures
      match Parse(ts)
      case Unclosed => !Scan(ts, d)
      case Parsed(_, rest) => Scan(ts, d) == (if rest == [] then d == 0 else d > 0 && Scan(rest[1..], d - 1))
    decreases |ts|
  {
    if ts == [] || ts[0] == TClose {
    } else if ts[0] == TOpen {
      ParseScan(ts[1..], d + 1);
      var inner := Parse(ts[1..]);
      if inner.Parsed? && inner.rest != [] {
        ParseScan(inner.rest[1..], d);
      }
    } else {
      ParseScan(ts[1..], d);
    }
  }

  lemma {:induction false} DepthOfCons(text: seq<char>)
    requires text != []
    ensures Depth(text) == Depth([text[0]]) + Depth(text[1..])
    decreases |text|
  {
    var n := |text| - 1;
    if n == 0 {
      assert text == [text[0]];
    } else {
      DepthOfCons(text[..n]);
      assert text[..n][1..] == text[1..][..n - 1];
    }
  }

  ghost predicate BalancedFrom(text: seq<char>, d: nat) {
    && d + Depth(text) == 0
    && forall n | 0 <= n <= |text| :: d + Depth(text[..n]) >= 0
  }

  lemma {:induction false} ScanIsBalancedFrom(text: seq<char>, d: nat)
    ensures Scan(Units(text), d) <==> BalancedFrom(text, d)
    decreases |text|
  {
    if text == [] {
      assert text[..0] == [];
    } else {
      var delta := Depth([text[0]]);
      var tail := text[1..];
      assert [text[0]][..0] == [];
      DepthOfCons(text);
      forall n | 0 <= n <= |tail|
        ensures Depth(text[..n + 1]) == delta + Depth(tail[..n])
      {
        DepthOfCons(text[..n + 1]);
        assert text[..n + 1][1..] == tail[..n];
      }
      if d + delta >= 0 {
        ScanIsBalancedFrom(tail, d + delta);
        assert text[..0] == [];
        if BalancedFrom(tail, d + delta) {
          forall n | 0 <= n <= |text|
            ensures d + Depth(text[..n]) >= 0
          {
            if n > 0 {
              assert d + delta + Depth(tail[..n - 1]) >= 0;
              assert Depth(text[..n - 1 + 1]) == delta + Depth(tail[..n - 1]);
            }
          }
        }
        if BalancedFrom(text, d) {
          forall n | 0 <= n <= |tail|
            ensures d + delta + Depth(tail[..n]) >= 0
          {
            assert d + Depth(text[..n + 1]) >= 0;
          }
        }
      } else {
        assert tail[..0] == [];
        assert Depth(text[..0 + 1]) == delta + Depth(tail[..0]);
        assert text[0] == ']';
      }
    }
  }

  /** A text is a whole program exactly when its brackets balance. */
  lemma {:induction false} ParsesIffBalanced(text: seq<char>)
    ensures (exists p :: Parse(Units(text)) == Parsed(p, [])) <==> Balanced(text)
  {
    ParseScan(Units(text), 0);
    ScanIsBalancedFrom(text, 0);
    var r := Parse(Units(text));
    if r.Parsed? && r.rest == [] {
      assert r == Parsed(r.prog, []);
    }
  }

  // The rest of the tokens after a ']' that ends a program, with its runs joined.
  lemma {:induction false} ParseRuns(ts: seq<Token>)
    ensures
      match Parse(ts)
      case Unclosed => Parse(Runs(ts)) == Unclosed
      case Parsed(p, rest) => Parse(Runs(ts)) == Parsed(Fold(p), Runs(rest))
    decreases |ts|
  {
    if ts == [] {
    } else if ts[0] == TOpen || ts[0] == TClose {
      BracketRuns(ts);
      if ts[0] == TOpen {
        hide Runs;
        ParseRuns(ts[1..]);
        var inner := Parse(ts[1..]);
        if inner.Parsed? && inner.rest != [] {
          BracketRuns(inner.rest);
          ParseRuns(inner.rest[1..]);
        }
      }
    } else {
      ParseRuns(ts[1..]);
      PushParse(ts[0], Runs(ts[1..]));
    }
  }

  // Brackets are not joined.
  lemma {:induction false} BracketRuns(ts: seq<Token>)
    requires ts != [] && (ts[0] == TOpen || ts[0] == TClose)
    ensures Runs(ts) == [ts[0]] + Runs(ts[1..]) && Runs(ts)[1..] == Runs(ts[1..])
  {
  }

  // What joining does to a parse.
  lemma {:induction false} PushParse(t: Token, ts: seq<Token>)
    requires t != TOpen && t != TClose
    ensures
      match Parse(ts)
      case Unclosed => Parse(Push(t, ts)) == Unclosed
      case Parsed(q, rest) =>
        Parse(Push(t, ts)) ==
        Parsed(
          match t
          case TRead => Read(q)
          case TWrite => Write(q)
          case TMove(k) => if q.Move? then Move(k + q.k, q.rest) else Move(k, q)
          case TChange(k) => if q.Change? then Change(k + q.k, q.rest) else Change(k, q)
          case _ => Nil,
          rest)
  {
    assert ([t] + ts)[1..] == ts;
    if ts != [] {
      var u := Push(t, ts);
      assert |u| == |ts| ==> u[1..] == ts[1..];
    }
  }

  /** The program the reader makes of a text is its per-character program with runs folded,
      and the reader succeeds on exactly the same texts. */
  lemma {:induction false} LexedProgramIsFolded(text: seq<char>)
    ensures
      match Parse(Units(text))
      case Unclosed => Parse(Lex(text)) == Unclosed
      case Parsed(p, rest) =>
        Parse(Lex(text)).Parsed? && Parse(Lex(text)).prog == Fold(p) && (Parse(Lex(text)).rest == [] <==> rest == [])
  {
    ParseRuns(Units(text));
  }
}
