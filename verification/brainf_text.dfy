/** Texts that run by themselves: a machine that reads the characters of a BrainF text one by one, and
    what the compiler makes of the text does the same (llvm/examples/BrainF/BrainF.cpp). */
module BrainFText {
  import opened BrainFLanguage
  import opened BrainFTarget
  import opened BrainFCompiler
  import opened BrainFCorrectness

  // ----- The machine -----

  // At a place in the text; come to its end; or off the tape.
  datatype Point = At(pos: nat, world: World, head: int) | Finished(world: World)

  /** The ']' at `j` closes the '[' at `i`: in between no bracket closes it before. */
  ghost predicate Matches(text: seq<char>, i: nat, j: nat) {
    && i < j < |text| && text[i] == '[' && text[j] == ']'
    && Depth(text[i..j + 1]) == 0
    && forall k | i < k <= j :: Depth(text[i..k]) > 0
  }

  ghost function Closer(text: seq<char>, i: nat): nat {
    if j: nat :| Matches(text, i, j) then j else |text|
  }

  ghost function Opener(text: seq<char>, j: nat): nat {
    if i: nat :| Matches(text, i, j) then i else |text|
  }

  // Is the next command from `i` on one more move?
  predicate MovesOn(text: seq<char>, i: nat)
    decreases |text| - i
  {
    if i >= |text| then false
    else if text[i] == '<' || text[i] == '>' then true
    else if text[i] in {',', '.', '+', '-', '[', ']'} then false
    else MovesOn(text, i + 1)
  }

  function CellOf(w: World, head: int): Byte {
    if head in w.tape then w.tape[head] else 0
  }

  function Written(w: World, head: int, b: Byte): World {
    World(w.tape[head := b], w.input, w.output)
  }

  /** A move by one place. Where the head is looked at and is not allowed to be, a message is printed
      and the text has come to its end. */
  function Moved(text: seq<char>, limit: Limit, looks: bool, pos: nat, w: World, head: int): Point {
    if looks && limit.Within? && (head < limit.lo || limit.hi <= head)
    then Finished(World(w.tape, w.input, w.output + [BoundsMessage]))
    else At(pos + 1, w, head)
  }

  /** One character of the text. The head is looked at after every move if `every`, and otherwise where
      a run of moves ends. */
  ghost function TextStep(text: seq<char>, limit: Limit, every: bool, m: Point): Point {
    match m
    case Finished(_) => m
    case At(pos, w, head) =>
      if pos >= |text| then Finished(w)
      else
        var c, looks := text[pos], every || !MovesOn(text, pos + 1);
        if c == '+' then At(pos + 1, Written(w, head, (CellOf(w, head) + 1) % 256), head)
        else if c == '-' then At(pos + 1, Written(w, head, (CellOf(w, head) - 1) % 256), head)
        else if c == '<' then Moved(text, limit, looks, pos, w, head - 1)
        else if c == '>' then Moved(text, limit, looks, pos, w, head + 1)
        else if c == ',' then
          if w.input == [] then At(pos + 1, Written(w, head, 255), head)
          else At(pos + 1, Written(World(w.tape, w.input[1..], w.output), head, w.input[0]), head)
        else if c == '.' then At(pos + 1, World(w.tape, w.input, w.output + [Char(CellOf(w, head))]), head)
        else if c == '[' then At(if CellOf(w, head) == 0 then Closer(text, pos) + 1 else pos + 1, w, head)
        else if c == ']' then At(Opener(text, pos), w, head)
        else At(pos + 1, w, head)
  }

  ghost function TextRun(text: seq<char>, limit: Limit, every: bool, m: Point, n: nat): Point
    decreases n
  {
    if n == 0 then m else TextRun(text, limit, every, TextStep(text, limit, every, m), n - 1)
  }

  // Before the first character: a cleared tape, and the head in its middle.
  function Beginning(memtotal: nat, arr: int, w: World): Point {
    var tape := map a | a in w.tape && (a < arr || arr + memtotal <= a) :: w.tape[a];
    At(0, World(tape, w.input, w.output), arr + memtotal / 2)
  }

  lemma {:induction false} RunAdd(text: seq<char>, limit: Limit, every: bool, m: Point, n: nat, k: nat)
    ensures TextRun(text, limit, every, m, n + k)
            == TextRun(text, limit, every, TextRun(text, limit, every, m, n), k)
    decreases n
  {
    if n > 0 {
      RunAdd(text, limit, every, TextStep(text, limit, every, m), n - 1, k);
    }
  }

  lemma {:induction false} FinishedStays(text: seq<char>, limit: Limit, every: bool, m: Point, n: nat, k: nat)
    requires TextRun(text, limit, every, m, n).Finished? && k >= n
    ensures TextRun(text, limit, every, m, k) == TextRun(text, limit, every, m, n)
  {
    RunAdd(text, limit, every, m, n, k - n);
    StaysFinished(text, limit, every, TextRun(text, limit, every, m, n), k - n);
  }

  lemma {:induction false} StaysFinished(text: seq<char>, limit: Limit, every: bool, m: Point, n: nat)
    requires m.Finished?
    ensures TextRun(text, limit, every, m, n) == m
    decreases n
  {
    if n > 0 {
      StaysFinished(text, limit, every, m, n - 1);
    }
  }

  // ----- Programs that look at the head like this -----

  // Exec, with the head looked at after every move or where a run of moves ends.
  function ExecBy(every: bool, limit: Limit, p: Prog, s: State, fuel: nat): Outcome
    decreases fuel, p
  {
    match p
    case Nil => Done(s)
    case Move(k, rest) =>
      var t := s.(head := s.head + k);
      if (!every && rest.Move?) || limit.Allows(t.head) then ExecBy(every, limit, rest, t, fuel) else Left(t)
    case Loop(body, rest) =>
      if s.world.Cell(s.head) == 0 then ExecBy(every, limit, rest, s, fuel)
      else if fuel == 0 then Running(s)
      else
        (match ExecBy(every, limit, body, s, fuel - 1)
         case Done(t) => ExecBy(every, limit, p, t, fuel - 1)
         case other => other)
    case Read(rest) => ExecBy(every, limit, rest, ExecFirst(p, s), fuel)
    case Write(rest) => ExecBy(every, limit, rest, ExecFirst(p, s), fuel)
    case Change(_, rest) => ExecBy(every, limit, rest, ExecFirst(p, s), fuel)
  }

  lemma {:induction false} EveryIsExec(limit: Limit, p: Prog, s: State, fuel: nat)
    ensures ExecBy(true, limit, p, s, fuel) == Exec(limit, p, s, fuel)
    decreases fuel, p
  {
    match p
    case Nil =>
    case Loop(body, rest) =>
      if s.world.Cell(s.head) == 0 {
        EveryIsExec(limit, rest, s, fuel);
      } else if fuel > 0 {
        EveryIsExec(limit, body, s, fuel - 1);
        var o := Exec(limit, body, s, fuel - 1);
        if o.Done? {
          EveryIsExec(limit, p, o.s, fuel - 1);
        }
      }
    case Move(k, rest) =>
      if limit.Allows(s.head + k) {
        EveryIsExec(limit, rest, s.(head := s.head + k), fuel);
      }
    case _ =>
      ExecStep(limit, p, s, fuel);
      EveryIsExec(limit, p.rest, ExecFirst(p, s), fuel);
  }

  // Looking at the head where runs end is what the folded program does.
  lemma {:induction false} FoldedIsExec(limit: Limit, p: Prog, s: State, fuel: nat)
    ensures ExecBy(false, limit, p, s, fuel) == Exec(limit, Fold(p), s, fuel)
    decreases fuel, p
  {
    match p
    case Nil =>
    case Loop(body, rest) =>
      if s.world.Cell(s.head) == 0 {
        FoldedIsExec(limit, rest, s, fuel);
      } else if fuel > 0 {
        FoldedIsExec(limit, body, s, fuel - 1);
        var o := Exec(limit, Fold(body), s, fuel - 1);
        if o.Done? {
          FoldedIsExec(limit, p, o.s, fuel - 1);
        }
      }
    case Move(k, rest) =>
      assert rest.Move? <==> Fold(rest).Move?;
      FoldedIsExec(limit, rest, s.(head := s.head + k), fuel);
    case _ =>
      FoldFirst(limit, p, s, fuel);
      FoldedIsExec(limit, p.rest, ExecFirst(p, s), fuel);
  }

  // ----- Places in a text -----

  // The text from `i` to `j` is the program `p`, and after it comes a ']' or nothing.
  ghost predicate Spells(text: seq<char>, i: nat, j: nat, p: Prog) {
    i <= j <= |text| && Units(text[i..j]) == Flatten(p) && (j < |text| ==> text[j] == ']')
  }

  lemma UnitsStep(text: seq<char>, i: nat, j: nat)
    requires i < j <= |text|
    ensures Units(text[i..j]) ==
            (if IsCommand(text[i]) then [Unit(text[i])] else []) + Units(text[i + 1..j])
  {
    assert text[i..j][1..] == text[i + 1..j];
    assert [] + Units(text[i + 1..j]) == Units(text[i + 1..j]);
  }

  lemma {:induction false} UnitsNeedText(text: seq<char>)
    ensures Units(text) != [] ==> text != []
  {
  }

  // Where the token `y` stands in the text.
  lemma {:induction false} FindToken(text: seq<char>, i: nat, j: nat, xs: seq<Token>, y: Token, zs: seq<Token>)
    returns (k: nat)
    requires i <= j <= |text| && Units(text[i..j]) == xs + [y] + zs
    ensures i <= k < j && IsCommand(text[k]) && Unit(text[k]) == y
    ensures Units(text[i..k]) == xs && Units(text[k + 1..j]) == zs
    decreases j - i
  {
    UnitsNeedText(text[i..j]);
    UnitsStep(text, i, j);
    if !IsCommand(text[i]) {
      k := FindToken(text, i + 1, j, xs, y, zs);
      UnitsStep(text, i, k);
    } else if xs == [] {
      k := i;
      assert text[i..i] == [];
      assert (xs + [y] + zs)[0] == y && (xs + [y] + zs)[1..] == zs;
      assert Units(text[i..j])[1..] == Units(text[i + 1..j]);
    } else {
      assert (xs + [y] + zs)[1..] == xs[1..] + [y] + zs;
      assert Units(text[i..j])[1..] == Units(text[i + 1..j]);
      k := FindToken(text, i + 1, j, xs[1..], y, zs);
      UnitsStep(text, i, k);
      assert xs == [xs[0]] + xs[1..];
    }
  }

  lemma {:induction false} DepthAdd(a: seq<char>, b: seq<char>)
    ensures Depth(a + b) == Depth(a) + Depth(b)
    decreases |b|
  {
    if b == [] {
      assert a + b == a;
    } else {
      assert (a + b)[..|a + b| - 1] == a + b[..|b| - 1];
      DepthAdd(a, b[..|b| - 1]);
    }
  }

  lemma DepthSplit(text: seq<char>, i: nat, k: nat, j: nat)
    requires i <= k <= j <= |text|
    ensures Depth(text[i..j]) == Depth(text[i..k]) + Depth(text[k..j])
  {
    DepthAdd(text[i..k], text[k..j]);
    assert text[i..k] + text[k..j] == text[i..j];
  }

  lemma CloserIsUnique(text: seq<char>, i: nat, j: nat)
    requires Matches(text, i, j)
    ensures Closer(text, i) == j
  {
    assert Matches(text, i, Closer(text, i));
  }

  lemma OpenerIsUnique(text: seq<char>, i: nat, j: nat)
    requires Matches(text, i, j)
    ensures Opener(text, j) == i
  {
    var k := Opener(text, j);
    assert Matches(text, k, j);
    if k < i {
      DepthSplit(text, k, i, j + 1);
    } else if i < k {
      DepthSplit(text, i, k, j + 1);
    }
  }

  lemma {:induction false} ProgramIsBalanced(text: seq<char>, p: Prog)
    requires Units(text) == Flatten(p)
    ensures Depth(text) == 0
    ensures forall n | 0 <= n <= |text| :: Depth(text[..n]) >= 0
  {
    FlattenThenParse(p, []);
    assert Flatten(p) + [] == Flatten(p);
    ParseScan(Flatten(p), 0);
    ScanIsBalancedFrom(text, 0);
    hide Depth;
    hide Units;
    hide Flatten;
    hide Parse;
    hide Scan;
    assert forall n | 0 <= n <= |text| :: 0 + Depth(text[..n]) >= 0;
  }

  lemma DepthInside(text: seq<char>, i: nat, k: nat, m: nat)
    requires i < m <= k < |text| && text[i] == '['
    ensures Depth(text[i..m]) == 1 + Depth(text[i + 1..k][..m - i - 1])
  {
    OneBracket(text, i);
    hide Depth;
    DepthSplit(text, i, i + 1, m);
    assert text[i + 1..k][..m - i - 1] == text[i + 1..m];
  }

  // The brackets around a program match.
  lemma {:induction false} LoopMatches(text: seq<char>, i: nat, k: nat, body: Prog)
    requires i < k < |text| && text[i] == '[' && text[k] == ']' && Units(text[i + 1..k]) == Flatten(body)
    ensures Matches(text, i, k)
  {
    OneBracket(text, k);
    hide Depth;
    hide Units;
    hide Flatten;
    ProgramIsBalanced(text[i + 1..k], body);
    forall m | i < m <= k ensures Depth(text[i..m]) > 0 {
      DepthInside(text, i, k, m);
    }
    DepthInside(text, i, k, k);
    assert text[i + 1..k][..k - i - 1] == text[i + 1..k];
    DepthSplit(text, i, k, k + 1);
  }

  lemma OneBracket(text: seq<char>, i: nat)
    requires i < |text|
    ensures Depth(text[i..i + 1]) == if text[i] == '[' then 1 else if text[i] == ']' then -1 else 0
  {
    assert text[i..i + 1] == [text[i]] && [text[i]][..0] == [];
  }

  // A run of moves goes on in the text exactly if it does in the program.
  lemma {:induction false} MovesOnInText(text: seq<char>, i: nat, j: nat, p: Prog)
    requires Spells(text, i, j, p)
    ensures MovesOn(text, i) <==> p.Move?
    decreases j - i
  {
    if i < j {
      UnitsStep(text, i, j);
      if !IsCommand(text[i]) {
        MovesOnInText(text, i + 1, j, p);
      } else {
        FirstCommand(text, i, j, p);
      }
    } else {
      assert text[i..j] == [];
    }
  }

  // ----- The machine follows the program -----

  // Where a run comes to: the end of the program, the message, or still on the way after `fuel` steps.
  ghost predicate Follows(text: seq<char>, limit: Limit, every: bool, m: Point, j: nat, o: Outcome, fuel: nat, n: nat) {
    match o
    case Done(t) => TextRun(text, limit, every, m, n) == At(j, t.world, t.head)
    case Left(t) => TextRun(text, limit, every, m, n) == Finished(t.world.Emit(BoundsMessage))
    case Running(_) => n >= fuel && TextRun(text, limit, every, m, n).At?
  }

  lemma {:induction false} FollowsOn(text: seq<char>, limit: Limit, every: bool, m: Point, k: nat, m': Point, j: nat,
                                     o: Outcome, fuel: nat, n: nat)
    requires TextRun(text, limit, every, m, k) == m' && Follows(text, limit, every, m', j, o, fuel, n)
    ensures Follows(text, limit, every, m, j, o, fuel, k + n)
  {
    RunAdd(text, limit, every, m, k, n);
  }

  lemma {:induction false} OneStep(text: seq<char>, limit: Limit, every: bool, m: Point)
    ensures TextRun(text, limit, every, m, 1) == TextStep(text, limit, every, m)
  {
    assert TextRun(text, limit, every, TextStep(text, limit, every, m), 0) == TextStep(text, limit, every, m);
  }

  lemma {:induction false} MachineFollows(text: seq<char>, limit: Limit, every: bool, i: nat, j: nat, p: Prog,
                                          s: State, fuel: nat)
    returns (n: nat)
    requires Spells(text, i, j, p)
    ensures Follows(text, limit, every, At(i, s.world, s.head), j, ExecBy(every, limit, p, s, fuel), fuel, n)
    decreases fuel, p, j - i, 2
  {
    if i == j {
      assert text[i..j] == [];
      assert p == Nil;
      n := 0;
    } else if IsCommand(text[i]) {
      if text[i] == '[' {
        n := FollowsLoop(text, limit, every, i, j, p, s, fuel);
      } else {
        n := FollowsCommand(text, limit, every, i, j, p, s, fuel);
      }
    } else {
      UnitsStep(text, i, j);
      OneStep(text, limit, every, At(i, s.world, s.head));
      n := MachineFollows(text, limit, every, i + 1, j, p, s, fuel);
      FollowsOn(text, limit, every, At(i, s.world, s.head), 1, At(i + 1, s.world, s.head), j,
                ExecBy(every, limit, p, s, fuel), fuel, n);
      n := 1 + n;
    }
  }

  // What the first command of a text is.
  lemma FirstCommand(text: seq<char>, i: nat, j: nat, p: Prog)
    requires Spells(text, i, j, p) && i < j && IsCommand(text[i])
    ensures !p.Nil? && text[i] != ']'
    ensures text[i] == '[' <==> p.Loop?
    ensures match text[i]
            case '+' => p.Change? && p.k == 1
            case '-' => p.Change? && p.k == -1
            case '<' => p.Move? && p.k == -1
            case '>' => p.Move? && p.k == 1
            case ',' => p.Read?
            case '.' => p.Write?
            case _ => true
    ensures !p.Loop? ==> Spells(text, i + 1, j, p.rest)
  {
    UnitsStep(text, i, j);
    assert Flatten(p)[0] == Unit(text[i]) && Flatten(p)[1..] == Units(text[i + 1..j]);
  }

  // One command that is no bracket does in the text what it does in the program.
  lemma CommandStep(text: seq<char>, limit: Limit, every: bool, i: nat, j: nat, p: Prog, s: State)
    requires Spells(text, i, j, p) && i < j && IsCommand(text[i]) && text[i] != '['
    ensures !p.Nil? && !p.Loop?
    ensures var t, m := ExecFirst(p, s), TextStep(text, limit, every, At(i, s.world, s.head));
            if p.Move? && (every || !p.rest.Move?) && !limit.Allows(t.head)
            then m == Finished(t.world.Emit(BoundsMessage))
            else m == At(i + 1, t.world, t.head)
  {
    FirstCommand(text, i, j, p);
    MovesOnInText(text, i + 1, j, p.rest);
    hide Spells;
    hide MovesOn;
    hide Units;
  }

  lemma {:induction false} FollowsCommand(text: seq<char>, limit: Limit, every: bool, i: nat, j: nat, p: Prog,
                                          s: State, fuel: nat)
    returns (n: nat)
    requires Spells(text, i, j, p) && i < j && IsCommand(text[i]) && text[i] != '['
    ensures Follows(text, limit, every, At(i, s.world, s.head), j, ExecBy(every, limit, p, s, fuel), fuel, n)
    decreases fuel, p, j - i, 0
  {
    var m, t := At(i, s.world, s.head), ExecFirst(p, s);
    OneStep(text, limit, every, m);
    CommandStep(text, limit, every, i, j, p, s);
    FirstCommand(text, i, j, p);
    hide TextStep;
    hide Spells;
    if p.Move? && (every || !p.rest.Move?) && !limit.Allows(t.head) {
      n := 1;
    } else {
      n := MachineFollows(text, limit, every, i + 1, j, p.rest, t, fuel);
      var r := ExecBy(every, limit, p.rest, t, fuel);
      FollowsOn(text, limit, every, m, 1, At(i + 1, t.world, t.head), j, r, fuel, n);
      n := 1 + n;
    }
  }

  // The two ends of a loop in the text.
  lemma LoopInText(text: seq<char>, i: nat, j: nat, p: Prog) returns (k: nat)
    requires Spells(text, i, j, p) && i < j && text[i] == '['
    ensures p.Loop? && i < k < j && Matches(text, i, k)
    ensures Spells(text, i + 1, k, p.body) && Spells(text, k + 1, j, p.rest)
  {
    FirstCommand(text, i, j, p);
    UnitsStep(text, i, j);
    assert [TOpen] + Flatten(p.body) + [TClose] + Flatten(p.rest)
           == [TOpen] + (Flatten(p.body) + [TClose] + Flatten(p.rest));
    assert Units(text[i + 1..j]) == Flatten(p)[1..] == Flatten(p.body) + [TClose] + Flatten(p.rest);
    k := FindToken(text, i + 1, j, Flatten(p.body), TClose, Flatten(p.rest));
    LoopMatches(text, i, k, p.body);
  }

  lemma BracketSteps(text: seq<char>, limit: Limit, every: bool, i: nat, k: nat, s: State)
    requires Matches(text, i, k)
    ensures TextStep(text, limit, every, At(i, s.world, s.head))
            == At(if s.world.Cell(s.head) == 0 then k + 1 else i + 1, s.world, s.head)
    ensures TextStep(text, limit, every, At(k, s.world, s.head)) == At(i, s.world, s.head)
  {
    CloserIsUnique(text, i, k);
    OpenerIsUnique(text, i, k);
    hide Closer;
    hide Opener;
    hide MovesOn;
  }

  lemma {:induction false} FollowsLoop(text: seq<char>, limit: Limit, every: bool, i: nat, j: nat, p: Prog,
                                       s: State, fuel: nat)
    returns (n: nat)
    requires Spells(text, i, j, p) && i < j && text[i] == '['
    ensures Follows(text, limit, every, At(i, s.world, s.head), j, ExecBy(every, limit, p, s, fuel), fuel, n)
    decreases fuel, p, j - i, 1
  {
    var k := LoopInText(text, i, j, p);
    if s.world.Cell(s.head) == 0 {
      n := FollowsPast(text, limit, every, i, k, j, p, s, fuel);
    } else if fuel == 0 {
      n := 0;
    } else {
      n := FollowsRound(text, limit, every, i, k, j, p, s, fuel);
    }
  }

  // Past a loop.
  lemma {:induction false} FollowsPast(text: seq<char>, limit: Limit, every: bool, i: nat, k: nat, j: nat, p: Prog,
                                       s: State, fuel: nat)
    returns (n: nat)
    requires p.Loop? && i < k < j && Matches(text, i, k) && Spells(text, k + 1, j, p.rest)
    requires s.world.Cell(s.head) == 0
    ensures Follows(text, limit, every, At(i, s.world, s.head), j, ExecBy(every, limit, p, s, fuel), fuel, n)
    decreases fuel, p, j - i, 0
  {
    hide TextStep;
    hide TextRun;
    hide Spells;
    hide Matches;
    hide ExecBy;
    hide Follows;
    var m := At(i, s.world, s.head);
    BracketSteps(text, limit, every, i, k, s);
    OneStep(text, limit, every, m);
    LoopExec(every, limit, p, s, fuel);
    n := MachineFollows(text, limit, every, k + 1, j, p.rest, s, fuel);
    FollowsOn(text, limit, every, m, 1, At(k + 1, s.world, s.head), j, ExecBy(every, limit, p, s, fuel), fuel, n);
    n := 1 + n;
  }

  // Once through the body of a loop.
  lemma {:induction false} FollowsRound(text: seq<char>, limit: Limit, every: bool, i: nat, k: nat, j: nat, p: Prog,
                                        s: State, fuel: nat)
    returns (n: nat)
    requires Spells(text, i, j, p) && p.Loop? && i < k < j && Matches(text, i, k) && Spells(text, i + 1, k, p.body)
    requires s.world.Cell(s.head) != 0 && fuel > 0
    ensures Follows(text, limit, every, At(i, s.world, s.head), j, ExecBy(every, limit, p, s, fuel), fuel, n)
    decreases fuel, p, j - i, 0
  {
    var m := At(i, s.world, s.head);
    hide TextStep;
    hide TextRun;
    hide Spells;
    hide Matches;
    hide ExecBy;
    hide Follows;
    BracketSteps(text, limit, every, i, k, s);
    OneStep(text, limit, every, m);
    LoopExec(every, limit, p, s, fuel);
    var inner := ExecBy(every, limit, p.body, s, fuel - 1);
    n := MachineFollows(text, limit, every, i + 1, k, p.body, s, fuel - 1);
    FollowsFrom(text, limit, every, m, At(i + 1, s.world, s.head), k, inner, fuel - 1, n, j);
    n := 1 + n;
    if inner.Done? {
      var b := MachineFollows(text, limit, every, i, j, p, inner.s, fuel - 1);
      GoesRound(text, limit, every, i, k, j, m, inner, ExecBy(every, limit, p, inner.s, fuel - 1), fuel - 1, n, b);
      n := n + (1 + b);
    }
  }

  lemma LoopExec(every: bool, limit: Limit, p: Prog, s: State, fuel: nat)
    requires p.Loop?
    ensures ExecBy(every, limit, p, s, fuel) ==
            if s.world.Cell(s.head) == 0 then ExecBy(every, limit, p.rest, s, fuel)
            else if fuel == 0 then Running(s)
            else
              var o := ExecBy(every, limit, p.body, s, fuel - 1);
              if o.Done? then ExecBy(every, limit, p, o.s, fuel - 1) else o
  {
  }

  lemma {:induction false} FollowsFrom(text: seq<char>, limit: Limit, every: bool, m: Point, m': Point, j: nat,
                                       o: Outcome, fuel: nat, n: nat, outer: nat)
    requires TextRun(text, limit, every, m, 1) == m' && Follows(text, limit, every, m', j, o, fuel, n)
    ensures Follows(text, limit, every, m, j, o, fuel, 1 + n)
    ensures !o.Done? ==> Follows(text, limit, every, m, outer, o, fuel + 1, 1 + n)
  {
    RunAdd(text, limit, every, m, 1, n);
    hide TextRun;
  }

  // From the end of a loop's body back to its test, and on.
  lemma GoesRound(text: seq<char>, limit: Limit, every: bool, i: nat, k: nat, j: nat, m: Point, inner: Outcome,
                  o: Outcome, fuel: nat, a: nat, b: nat)
    requires Matches(text, i, k) && inner.Done? && Follows(text, limit, every, m, k, inner, fuel, a) && a > 0
    requires Follows(text, limit, every, At(i, inner.s.world, inner.s.head), j, o, fuel, b)
    ensures Follows(text, limit, every, m, j, o, fuel + 1, a + (1 + b))
  {
    var t := inner.s;
    BracketSteps(text, limit, every, i, k, t);
    OneStep(text, limit, every, At(k, t.world, t.head));
    hide TextStep;
    hide Matches;
    FollowsOn(text, limit, every, At(k, t.world, t.head), 1, At(i, t.world, t.head), j, o, fuel, b);
    FollowsOn(text, limit, every, m, a, At(k, t.world, t.head), j, o, fuel, 1 + b);
  }

  // ----- The compiler -----

  predicate EndsIn(o: Outcome, end: World) {
    !o.Running? && Final(o) == end
  }

  lemma {:induction false} TextAndExecAgree(text: seq<char>, limit: Limit, every: bool, p: Prog, s: State, end: World)
    requires Spells(text, 0, |text|, p)
    ensures (exists n: nat :: TextRun(text, limit, every, At(0, s.world, s.head), n) == Finished(end)) <==>
            (exists fuel: nat :: EndsIn(ExecBy(every, limit, p, s, fuel), end))
  {
    var m := At(0, s.world, s.head);
    if n: nat :| TextRun(text, limit, every, m, n) == Finished(end) {
      var k := Reaches(text, limit, every, p, s, n + 1);
      var o := ExecBy(every, limit, p, s, n + 1);
      if o.Running? {
        FinishedStays(text, limit, every, m, n, k);
      } else if n <= k {
        FinishedStays(text, limit, every, m, n, k);
      } else {
        FinishedStays(text, limit, every, m, k, n);
      }
      assert EndsIn(o, end);
    }
    if fuel: nat :| EndsIn(ExecBy(every, limit, p, s, fuel), end) {
      var k := Reaches(text, limit, every, p, s, fuel);
    }
  }

  // A whole text.
  lemma {:induction false} Reaches(text: seq<char>, limit: Limit, every: bool, p: Prog, s: State, fuel: nat)
    returns (n: nat)
    requires Spells(text, 0, |text|, p)
    ensures var o, m := ExecBy(every, limit, p, s, fuel), TextRun(text, limit, every, At(0, s.world, s.head), n);
            if o.Running? then n >= fuel && m.At? else m == Finished(Final(o))
  {
    var m, o := At(0, s.world, s.head), ExecBy(every, limit, p, s, fuel);
    n := MachineFollows(text, limit, every, 0, |text|, p, s, fuel);
    if o.Done? {
      OneStep(text, limit, every, At(|text|, o.s.world, o.s.head));
      RunAdd(text, limit, every, m, n, 1);
      n := n + 1;
    }
  }

  /** What the compiler makes of a balanced text and the text itself, run character by character, end in
      the same worlds, with and without bounds checking. With it the head is looked at where a run of moves
      ends. Looking at it after every move makes no difference when no run leaves the span between its
      ends. */
  lemma {:induction false} CompiledRunsText(bounds: bool, text: seq<char>, memtotal: nat, arr: int, w: World,
                                            end: World)
    requires Balanced(text) && (bounds ==> memtotal > 0)
    ensures Parse(Units(text)).Parsed?
    ensures var p := Parse(Units(text)).prog;
            var code, env := Compile(bounds, memtotal, Fold(p)), EnvOf(bounds, memtotal, arr);
            var limit := if bounds then Within(arr, arr + memtotal) else Unchecked;
            var halts := exists n: nat :: Iter(code, env, Entry(w), n) == Halted(end);
            && (halts <==>
                exists n: nat :: TextRun(text, limit, false, Beginning(memtotal, arr, w), n) == Finished(end))
            && ((bounds ==> Direct(p)) ==>
                  (halts <==>
                   exists n: nat :: TextRun(text, limit, true, Beginning(memtotal, arr, w), n) == Finished(end)))
  {
    ParsesIffBalanced(text);
    var p := Parse(Units(text)).prog;
    ParseThenFlatten(Units(text));
    assert text[0..|text|] == text && Flatten(p) + [] == Flatten(p);
    var s, limit := Start(memtotal, arr, w), EnvOf(bounds, memtotal, arr).limit;
    assert Spells(text, 0, |text|, p);
    assert Beginning(memtotal, arr, w) == At(0, s.world, s.head);
    assert limit == if bounds then Within(arr, arr + memtotal) else Unchecked;
    hide *;
    CompiledEquivalent(bounds, memtotal, Fold(p), arr, w, end);
    TextAndExecAgree(text, limit, false, p, s, end);
    FoldedEnds(limit, p, s, end);
    if bounds ==> Direct(p) {
      TextAndCodeAgree(bounds, text, memtotal, arr, w, end);
      TextAndExecAgree(text, limit, true, p, s, end);
      EveryEnds(limit, p, s, end);
    }
  }

  lemma EndsMeans(o: Outcome, end: World)
    ensures EndsIn(o, end) <==> !o.Running? && Final(o) == end
  {
  }

  lemma {:induction false} FoldedEnds(limit: Limit, p: Prog, s: State, end: World)
    ensures (exists fuel: nat :: EndsIn(ExecBy(false, limit, p, s, fuel), end)) <==>
            (exists fuel: nat :: !Exec(limit, Fold(p), s, fuel).Running? && Final(Exec(limit, Fold(p), s, fuel)) == end)
  {
    hide *;
    if fuel: nat :| EndsIn(ExecBy(false, limit, p, s, fuel), end) {
      FoldedIsExec(limit, p, s, fuel);
      EndsMeans(ExecBy(false, limit, p, s, fuel), end);
      assert !Exec(limit, Fold(p), s, fuel).Running?;
    }
    if fuel: nat :| !Exec(limit, Fold(p), s, fuel).Running? && Final(Exec(limit, Fold(p), s, fuel)) == end {
      FoldedIsExec(limit, p, s, fuel);
      EndsMeans(ExecBy(false, limit, p, s, fuel), end);
    }
  }

  lemma {:induction false} EveryEnds(limit: Limit, p: Prog, s: State, end: World)
    ensures (exists fuel: nat :: EndsIn(ExecBy(true, limit, p, s, fuel), end)) <==>
            (exists fuel: nat :: !Exec(limit, p, s, fuel).Running? && Final(Exec(limit, p, s, fuel)) == end)
  {
    hide *;
    if fuel: nat :| EndsIn(ExecBy(true, limit, p, s, fuel), end) {
      EveryIsExec(limit, p, s, fuel);
      EndsMeans(ExecBy(true, limit, p, s, fuel), end);
      assert !Exec(limit, p, s, fuel).Running?;
    }
    if fuel: nat :| !Exec(limit, p, s, fuel).Running? && Final(Exec(limit, p, s, fuel)) == end {
      EveryIsExec(limit, p, s, fuel);
      EndsMeans(ExecBy(true, limit, p, s, fuel), end);
    }
  }
}
