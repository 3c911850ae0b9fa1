/** The generator of the case folding function: a sorted table becomes a chain of comparisons
    (llvm/utils/unicode-case-fold.py). */
module CaseFold {
  import opened Arithmetic
  import opened Options

  // ----- The table -----

  // A line of the Unicode database: a character, its status and what it maps to.
  datatype Line = Line(from: nat, status: char, to: nat)

  datatype Mapping = Mapping(from: nat, to: nat)

  datatype Result<T> = Ok(value: T) | Error(message: string)

  // Common and simple mappings.
  predicate Relevant(l: Line) {
    l.status == 'C' || l.status == 'S'
  }

  function Mappings(lines: seq<Line>): seq<Mapping> {
    if lines == [] then []
    else
      var n := |lines| - 1;
      Mappings(lines[..n]) + if Relevant(lines[n]) then [Mapping(lines[n].from, lines[n].to)] else []
  }

  predicate Increasing(t: seq<Mapping>) {
    forall i, j | 0 <= i < j < |t| :: t[i].from < t[j].from
  }

  // What the table says about any character.
  function Fold(t: seq<Mapping>, c: int): int {
    if t == [] then c else if t[|t| - 1].from == c then t[|t| - 1].to else Fold(t[..|t| - 1], c)
  }

  predicate Maps(t: seq<Mapping>, c: int) {
    exists i :: 0 <= i < |t| && t[i].from == c
  }

  lemma {:induction false} FoldAt(t: seq<Mapping>, i: nat)
    requires Increasing(t) && i < |t|
    ensures Fold(t, t[i].from) == t[i].to
  {
    var n := |t| - 1;
    if i < n {
      assert t[..n][i] == t[i];
      FoldAt(t[..n], i);
    }
  }

  lemma {:induction false} FoldElsewhere(t: seq<Mapping>, c: int)
    requires !Maps(t, c)
    ensures Fold(t, c) == c
  {
    if t != [] {
      var n := |t| - 1;
      assert t[n].from != c;
      assert !Maps(t[..n], c) by {
        forall i | 0 <= i < n ensures t[..n][i].from != c {
          assert t[i].from != c;
        }
      }
      FoldElsewhere(t[..n], c);
    }
  }

  // Reads the lines one by one and stops at the first mapping that is out of order.
  method ReadMappings(lines: seq<Line>) returns (r: Result<seq<Mapping>>)
    ensures r.Ok? <==> Increasing(Mappings(lines))
    ensures r.Ok? ==> r.value == Mappings(lines)
  {
    var t: seq<Mapping> := [];
    var previous: int := -1;
    for i := 0 to |lines|
      invariant t == Mappings(lines[..i]) && Increasing(t)
      invariant previous == if t == [] then -1 else t[|t| - 1].from
    {
      assert lines[..i + 1][..i] == lines[..i];
      if !Relevant(lines[i]) {
        continue;
      }
      if lines[i].from <= previous {
        OutOfOrder(lines, i);
        return Error("Duplicate or unsorted characters in input");
      }
      assert forall k | 0 <= k < |t| :: t[k].from <= previous;
      t := t + [Mapping(lines[i].from, lines[i].to)];
      previous := lines[i].from;
    }
    assert lines[..|lines|] == lines;
    return Ok(t);
  }

  lemma {:induction false} MappingsPrefix(lines: seq<Line>, k: nat)
    requires k <= |lines|
    ensures |Mappings(lines[..k])| <= |Mappings(lines)|
    ensures Mappings(lines[..k]) == Mappings(lines)[..|Mappings(lines[..k])|]
  {
    if k == |lines| {
      assert lines[..k] == lines;
    } else {
      var n := |lines| - 1;
      assert lines[..n][..k] == lines[..k];
      MappingsPrefix(lines[..n], k);
    }
  }

  // A mapping that does not come after the one before it spoils the whole table.
  lemma {:induction false} OutOfOrder(lines: seq<Line>, i: nat)
    requires i < |lines| && Relevant(lines[i]) && Mappings(lines[..i]) != []
    requires var t := Mappings(lines[..i]); lines[i].from <= t[|t| - 1].from
    ensures !Increasing(Mappings(lines))
  {
    var t, all := Mappings(lines[..i]), Mappings(lines);
    assert lines[..i + 1][..i] == lines[..i];
    MappingsPrefix(lines, i + 1);
    var u := Mappings(lines[..i + 1]);
    assert u == t + [Mapping(lines[i].from, lines[i].to)];
    assert all[..|u|] == u;
    assert all[|t| - 1] == u[|t| - 1] == t[|t| - 1] && all[|t|] == u[|t|];
  }

  // Status C is common, S simple.
  predicate CommonOrSimple(lines: seq<Line>, i: nat)
    requires i < |lines|
  {
    lines[i].status in {'C', 'S'}
  }

  // The characters of the common and simple lines, each one after the one before.
  predicate Sorted(lines: seq<Line>) {
    forall i: nat, j: nat | i < j < |lines| && CommonOrSimple(lines, i) && CommonOrSimple(lines, j) ::
      lines[i].from < lines[j].from
  }

  // Every mapping is that of a common or simple line, and every such line has one.
  lemma {:induction false} MappingsMean(lines: seq<Line>)
    ensures forall k | 0 <= k < |Mappings(lines)| :: HasLine(lines, Mappings(lines)[k])
    ensures forall i: nat | i < |lines| && CommonOrSimple(lines, i) ::
              Mapping(lines[i].from, lines[i].to) in Mappings(lines)
  {
    if lines != [] {
      var n := |lines| - 1;
      var front, t := lines[..n], Mappings(lines[..n]);
      MappingsMean(front);
      assert forall i: nat | i < n :: front[i] == lines[i] && CommonOrSimple(front, i) == CommonOrSimple(lines, i);
      forall k | 0 <= k < |Mappings(lines)| ensures HasLine(lines, Mappings(lines)[k]) {
        if k < |t| {
          assert HasLine(front, t[k]);
          var i: nat :| i < n && CommonOrSimple(front, i) && t[k] == Mapping(front[i].from, front[i].to);
          assert CommonOrSimple(lines, i);
        } else {
          assert CommonOrSimple(lines, n);
        }
      }
    }
  }

  ghost predicate HasLine(lines: seq<Line>, m: Mapping) {
    exists i: nat :: i < |lines| && CommonOrSimple(lines, i) && m == Mapping(lines[i].from, lines[i].to)
  }

  lemma {:induction false} IncreasingIffSorted(lines: seq<Line>)
    ensures Increasing(Mappings(lines)) <==> Sorted(lines)
  {
    if lines != [] {
      var n := |lines| - 1;
      var front, t := lines[..n], Mappings(lines[..n]);
      IncreasingIffSorted(front);
      MappingsMean(front);
      SortedStep(lines);
      if Relevant(lines[n]) {
        var m := Mapping(lines[n].from, lines[n].to);
        assert Mappings(lines) == t + [m];
        IncreasingStep(t, m);
        hide *;
        LastOfBoth(front, t, m.from);
      } else {
        assert Mappings(lines) == t;
      }
    }
  }

  // A character that comes after all mappings comes after all lines.
  lemma LastOfBoth(lines: seq<Line>, t: seq<Mapping>, c: nat)
    requires forall k | 0 <= k < |t| :: HasLine(lines, t[k])
    requires forall i: nat | i < |lines| && CommonOrSimple(lines, i) :: Mapping(lines[i].from, lines[i].to) in t
    ensures (forall k | 0 <= k < |t| :: t[k].from < c)
            <==> forall i: nat | i < |lines| && CommonOrSimple(lines, i) :: lines[i].from < c
  {
    if forall k | 0 <= k < |t| :: t[k].from < c {
      forall i: nat | i < |lines| && CommonOrSimple(lines, i) ensures lines[i].from < c {
        var k :| 0 <= k < |t| && t[k] == Mapping(lines[i].from, lines[i].to);
      }
    } else {
      var k :| 0 <= k < |t| && t[k].from >= c;
      assert HasLine(lines, t[k]);
    }
  }

  lemma IncreasingStep(t: seq<Mapping>, m: Mapping)
    ensures Increasing(t + [m]) <==> Increasing(t) && forall k | 0 <= k < |t| :: t[k].from < m.from
  {
    var u := t + [m];
    assert forall k | 0 <= k < |t| :: u[k] == t[k];
    if Increasing(u) {
      assert forall k | 0 <= k < |t| :: u[k].from < u[|t|].from;
    }
  }

  lemma SortedStep(lines: seq<Line>)
    requires lines != []
    ensures var n := |lines| - 1;
            var front := lines[..n];
            Sorted(lines) <==>
              && Sorted(front)
              && (Relevant(lines[n]) ==>
                    forall i: nat | i < n && CommonOrSimple(front, i) :: front[i].from < lines[n].from)
  {
    var n := |lines| - 1;
    var front := lines[..n];
    assert forall i: nat | i < n :: front[i] == lines[i] && CommonOrSimple(front, i) == CommonOrSimple(lines, i);
    assert CommonOrSimple(lines, n) == Relevant(lines[n]);
  }

  /** In terms of the lines: the table is in order exactly when the common and simple lines are, it is
      empty exactly when there are none, and then each of them folds its character to what it maps to,
      and any other integer is left as it is. */
  lemma {:induction false} LinesFold(lines: seq<Line>)
    ensures Increasing(Mappings(lines)) <==> Sorted(lines)
    ensures Mappings(lines) == [] <==> forall i: nat | i < |lines| :: !CommonOrSimple(lines, i)
    ensures Sorted(lines) ==>
              forall i: nat | i < |lines| && CommonOrSimple(lines, i) ::
                Fold(Mappings(lines), lines[i].from) == lines[i].to
    ensures forall c: int | (forall i: nat | i < |lines| && CommonOrSimple(lines, i) :: lines[i].from != c) ::
              Fold(Mappings(lines), c) == c
  {
    var t := Mappings(lines);
    IncreasingIffSorted(lines);
    MappingsMean(lines);
    hide Mappings;
    hide Fold;
    hide Sorted;
    hide Increasing;
    if Sorted(lines) {
      forall i: nat | i < |lines| && CommonOrSimple(lines, i) ensures Fold(t, lines[i].from) == lines[i].to {
        var k :| 0 <= k < |t| && t[k] == Mapping(lines[i].from, lines[i].to);
        FoldAt(t, k);
      }
    }
    forall c: int | forall i: nat | i < |lines| && CommonOrSimple(lines, i) :: lines[i].from != c
      ensures Fold(t, c) == c
    {
      forall k | 0 <= k < |t| ensures t[k].from != c {
        assert HasLine(lines, t[k]);
      }
      FoldElsewhere(t, c);
    }
    if t != [] {
      assert HasLine(lines, t[0]);
    }
  }

  // ----- The generated code -----

  // One "if (...) return ...;" of the generated function.
  datatype Stmt =
    | IfBelow(bound: int)
    | IfEqual(c: int, to: int)
    | IfMultiple(last: int, stride: int, modulo: int, shift: int)
    | IfUpToOrOne(last: int)
    | IfUpTo(last: int, shift: int)

  // The remainder of the generated language keeps the sign of the dividend.
  function TruncatedMod(c: int, m: int): int
    requires m != 0
  {
    if c >= 0 then c % m else -((-c) % m)
  }

  function OrOne(c: int): int {
    if c % 2 == 0 then c + 1 else c
  }

  predicate Executable(s: Stmt) {
    s.IfMultiple? ==> s.stride != 0
  }

  function Step(s: Stmt, c: int): Option<int>
    requires Executable(s)
  {
    match s
    case IfBelow(bound) => if c < bound then Some(c) else None
    case IfEqual(x, to) => if c == x then Some(to) else None
    case IfMultiple(last, stride, modulo, shift) =>
      if c <= last && TruncatedMod(c, stride) == modulo then Some(c + shift) else None
    case IfUpToOrOne(last) => if c <= last then Some(OrOne(c)) else None
    case IfUpTo(last, shift) => if c <= last then Some(c + shift) else None
  }

  predicate AllExecutable(body: seq<Stmt>) {
    forall i | 0 <= i < |body| :: Executable(body[i])
  }

  function Run(body: seq<Stmt>, c: int): Option<int>
    requires AllExecutable(body)
  {
    if body == [] then None
    else
      var r := Step(body[0], c);
      if r.Some? then r else Run(body[1..], c)
  }

  // The whole function: the chain, then "return C;".
  function Folded(body: seq<Stmt>, c: int): int
    requires AllExecutable(body)
  {
    var r := Run(body, c);
    if r.Some? then r.value else c
  }

  lemma {:induction false} RunConcat(a: seq<Stmt>, b: seq<Stmt>, c: int)
    requires AllExecutable(a) && AllExecutable(b)
    ensures AllExecutable(a + b)
    ensures Run(a + b, c) == if Run(a, c).Some? then Run(a, c) else Run(b, c)
    decreases |a|
  {
    if a == [] {
      assert a + b == b;
    } else {
      assert (a + b)[1..] == a[1..] + b;
      RunConcat(a[1..], b, c);
    }
  }

  // ----- Blocks -----

  function Shift(m: Mapping): int {
    m.to - m.from
  }

  function Stride2(a: Mapping, b: Mapping): int {
    b.from - a.from
  }

  function Stride(b: seq<Mapping>): int
    requires |b| >= 2
  {
    Stride2(b[0], b[1])
  }

  // Mappings with one shift, at equal distances.
  predicate IsBlock(b: seq<Mapping>) {
    && b != [] && Increasing(b)
    && (forall i | 0 <= i < |b| :: Shift(b[i]) == Shift(b[0]))
    && (|b| >= 2 ==> forall i | 0 <= i < |b| :: b[i].from == b[0].from + i * Stride(b))
  }

  method DumpBlock(b: seq<Mapping>, body: seq<Stmt>) returns (r: seq<Stmt>)
    requires IsBlock(b)
    ensures r == body + Dumped(b)
  {
    if |b| == 1 {
      return body + [IfEqual(b[0].from, b[0].to)];
    }
    var first := b[0].from;
    var last := first + Stride(b) * (|b| - 1);
    var modulo := first % Stride(b);
    r := body + [IfBelow(first)];
    var pattern := IfMultiple(last, Stride(b), modulo, Shift(b[0]));
    if Stride(b) == 2 && Shift(b[0]) == 1 && modulo == 0 {
      pattern := IfUpToOrOne(last);
    } else if Stride(b) == 1 {
      pattern := IfUpTo(last, Shift(b[0]));
    }
    r := r + [pattern];
    assert body + [IfBelow(first)] + [pattern] == body + [IfBelow(first), pattern];
  }

  // The statements for one block.
  function Dumped(b: seq<Mapping>): seq<Stmt>
    requires IsBlock(b)
  {
    if |b| == 1 then [IfEqual(b[0].from, b[0].to)]
    else
      var first := b[0].from;
      var last := first + Stride(b) * (|b| - 1);
      [IfBelow(first),
       if Stride(b) == 2 && Shift(b[0]) == 1 && first % 2 == 0 then IfUpToOrOne(last)
       else if Stride(b) == 1 then IfUpTo(last, Shift(b[0]))
       else IfMultiple(last, Stride(b), first % Stride(b), Shift(b[0]))]
  }

  /** A chain serves a table: it maps the characters of the table, and may answer for another
      character only with that character, and only below the end of the table. */
  ghost predicate Serves(body: seq<Stmt>, t: seq<Mapping>) {
    && AllExecutable(body)
    && (forall i | 0 <= i < |t| :: Run(body, t[i].from) == Some(t[i].to))
    && (forall c: int | !Maps(t, c) :: Passes(body, t, c))
  }

  ghost predicate Passes(body: seq<Stmt>, t: seq<Mapping>, c: int)
    requires AllExecutable(body)
  {
    Run(body, c) == None || (Run(body, c) == Some(c) && t != [] && c < t[|t| - 1].from)
  }

  lemma {:induction false} TwoStatements(s: Stmt, t: Stmt, c: int)
    requires Executable(s) && Executable(t)
    ensures AllExecutable([s, t])
    ensures Run([s, t], c) == if Step(s, c).Some? then Step(s, c) else Step(t, c)
  {
    assert [s, t][1..] == [t] && [t][1..] == [];
    assert Run([t], c) == Step(t, c);
  }

  // Where a character between the ends of a block stands.
  lemma InBlock(b: seq<Mapping>, c: int)
    requires IsBlock(b) && |b| >= 2 && b[0].from <= c <= b[|b| - 1].from
    ensures c % Stride(b) == b[0].from % Stride(b) <==> Maps(b, c)
  {
    var f, d := b[0].from, Stride(b);
    if c % d == f % d {
      var q := c / d - f / d;
      Quotient(c, d);
      Quotient(f, d);
      assert (c / d - f / d) * d == (c / d) * d - (f / d) * d;
      assert c == f + q * d;
      LessProduct(-1, q, d);
      LessProduct(q, |b|, d);
      assert b[q].from == c;
    }
    if Maps(b, c) {
      var i :| 0 <= i < |b| && b[i].from == c;
      CongWitness(c, f, d, i);
      CongModEqual(c, f, d);
    }
  }

  lemma SingleIsServed(b: seq<Mapping>)
    requires IsBlock(b) && |b| == 1
    ensures Serves(Dumped(b), b)
  {
    var s := Dumped(b)[0];
    assert Dumped(b)[1..] == [];
    assert forall c: int :: Run(Dumped(b), c) == Step(s, c);
    forall c: int | !Maps(b, c) ensures Passes(Dumped(b), b, c) {
      assert b[0].from != c;
    }
  }

  // What the statements of a longer block answer.
  lemma {:induction false} LongBlockAnswers(b: seq<Mapping>, c: int)
    requires IsBlock(b) && |b| >= 2
    ensures AllExecutable(Dumped(b))
    ensures Maps(b, c) ==> Run(Dumped(b), c) == Some(c + Shift(b[0]))
    ensures !Maps(b, c) ==> Passes(Dumped(b), b, c)
  {
    var first, n := b[0].from, |b| - 1;
    var last := first + Stride(b) * n;
    assert b[n].from == last;
    assert Stride(b) > 0;
    TwoStatements(Dumped(b)[0], Dumped(b)[1], c);
    assert Dumped(b) == [Dumped(b)[0], Dumped(b)[1]];
    if Maps(b, c) {
      var i :| 0 <= i < |b| && b[i].from == c;
      assert first <= c <= last;
    }
    if first <= c <= last {
      InBlock(b, c);
      hide Maps;
    }
  }

  lemma BlockIsServed(b: seq<Mapping>)
    requires IsBlock(b)
    ensures Serves(Dumped(b), b)
  {
    if |b| == 1 {
      SingleIsServed(b);
    } else {
      LongBlockAnswers(b, 0);
      forall i | 0 <= i < |b| ensures Run(Dumped(b), b[i].from) == Some(b[i].to) {
        LongBlockAnswers(b, b[i].from);
      }
      forall c: int | !Maps(b, c) ensures Passes(Dumped(b), b, c) {
        LongBlockAnswers(b, c);
      }
    }
  }

  /** A block may be put behind a chain for everything before it. */
  lemma ServesMore(body: seq<Stmt>, t: seq<Mapping>, more: seq<Stmt>, b: seq<Mapping>)
    requires Serves(body, t) && Serves(more, b) && b != [] && Increasing(t + b)
    ensures Serves(body + more, t + b)
  {
    var all := t + b;
    RunConcat(body, more, 0);
    forall i | 0 <= i < |all| ensures Run(body + more, all[i].from) == Some(all[i].to) {
      RunConcat(body, more, all[i].from);
      if i < |t| {
        assert all[i] == t[i];
      } else {
        var c := all[i].from;
        assert all[i] == b[i - |t|];
        assert !Maps(t, c) by {
          forall k | 0 <= k < |t| ensures t[k].from != c {
            assert all[k].from < all[i].from;
          }
        }
        assert t != [] ==> all[|t| - 1].from < c;
        assert Passes(body, t, c);
      }
    }
    forall c: int | !Maps(all, c) ensures Passes(body + more, all, c) {
      RunConcat(body, more, c);
      assert !Maps(t, c) by {
        forall k | 0 <= k < |t| ensures t[k].from != c {
          assert all[k].from != c;
        }
      }
      assert !Maps(b, c) by {
        forall k | 0 <= k < |b| ensures b[k].from != c {
          assert all[|t| + k].from != c;
        }
      }
      assert Passes(body, t, c) && Passes(more, b, c);
      assert all[|all| - 1] == b[|b| - 1];
      assert t != [] ==> all[|t| - 1].from < all[|all| - 1].from;
    }
  }

  // ----- The generator -----

  lemma LongerBlock(b: seq<Mapping>, m: Mapping)
    requires IsBlock(b) && Increasing(b + [m]) && Shift(b[0]) == Shift(m)
    requires |b| == 1 || Stride(b) == Stride2(b[|b| - 1], m)
    ensures IsBlock(b + [m])
  {
    var r, n := b + [m], |b|;
    if n >= 2 {
      var d := Stride(b);
      assert b[n - 1].from == b[0].from + (n - 1) * d;
      assert (n - 1) * d + d == n * d;
      assert r[n].from == r[0].from + n * d;
    }
  }

  lemma SingleBlock(m: Mapping)
    ensures IsBlock([m])
  {
  }

  /** Turns a table into a chain that folds every integer as the table says: every common or simple
      line folds its character, and everything else folds to itself. */
  method Generate(lines: seq<Line>) returns (r: Result<seq<Stmt>>)
    ensures r.Ok? <==> Increasing(Mappings(lines)) && Mappings(lines) != []
    ensures r.Ok? ==> AllExecutable(r.value) && forall c: int :: Folded(r.value, c) == Fold(Mappings(lines), c)
    ensures r.Ok? <==> Sorted(lines) && exists i: nat :: i < |lines| && CommonOrSimple(lines, i)
    ensures r.Ok? ==>
              forall i: nat | i < |lines| && CommonOrSimple(lines, i) :: Folded(r.value, lines[i].from) == lines[i].to
    ensures r.Ok? ==>
              forall c: int | (forall i: nat | i < |lines| && CommonOrSimple(lines, i) :: lines[i].from != c) ::
                Folded(r.value, c) == c
  {
    LinesFold(lines);
    var read := ReadMappings(lines);
    if read.Error? {
      return Error(read.message);
    }
    var t := read.value;
    if t == [] {
      return Error("list index out of range");
    }
    var body := GroupMappings(t);
    ServesIsFolding(body, t);
    return Ok(body);
  }

  lemma {:induction false} ServesIsFolding(body: seq<Stmt>, t: seq<Mapping>)
    requires Serves(body, t) && Increasing(t)
    ensures forall c: int :: Folded(body, c) == Fold(t, c)
  {
    forall c: int ensures Folded(body, c) == Fold(t, c) {
      if Maps(t, c) {
        var i :| 0 <= i < |t| && t[i].from == c;
        FoldAt(t, i);
      } else {
        FoldElsewhere(t, c);
        assert Passes(body, t, c);
      }
    }
  }

  // The loop that collects blocks and dumps them.
  method GroupMappings(t: seq<Mapping>) returns (body: seq<Stmt>)
    requires Increasing(t) && t != []
    ensures Serves(body, t)
  {
    body := [];
    var block: seq<Mapping> := [];
    ghost var k := 0;
    assert t[..0] == [];
    NothingServed();
    hide Serves;
    hide IsBlock;
    hide Dumped;
    for i := 0 to |t|
      invariant 0 <= k <= i && (i > 0 ==> k < i) && block == t[k..i]
      invariant block != [] ==> IsBlock(block)
      invariant Serves(body, t[..k])
    {
      var m := t[i];
      SingleBlock(m);
      assert t[k..i + 1] == t[k..i] + [m] && t[i..i + 1] == [m];
      if |block| == 0 {
        block := block + [m];
        continue;
      }
      if Shift(block[0]) != Shift(m) {
        // Another shift.
        Dump(body, t, k, i);
        body := DumpBlock(block, body);
        block, k := [m], i;
        continue;
      }
      if |block| == 1 || Stride(block) == Stride2(block[|block| - 1], m) {
        LongerBlock(block, m);
        block := block + [m];
        continue;
      }
      // Another distance.
      Dump(body, t, k, i);
      body := DumpBlock(block, body);
      block, k := [m], i;
    }
    Dump(body, t, k, |t|);
    assert t[..|t|] == t;
    body := DumpBlock(block, body);
  }

  lemma NothingServed()
    ensures Serves([], [])
  {
  }

  lemma Dump(body: seq<Stmt>, t: seq<Mapping>, k: nat, i: nat)
    requires k < i <= |t| && Increasing(t) && Serves(body, t[..k]) && IsBlock(t[k..i])
    ensures Serves(body + Dumped(t[k..i]), t[..i])
  {
    BlockIsServed(t[k..i]);
    assert t[..i] == t[..k] + t[k..i];
    ServesMore(body, t[..k], Dumped(t[k..i]), t[k..i]);
  }
}
