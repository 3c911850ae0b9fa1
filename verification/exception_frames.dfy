/** The functions that ExceptionDemo generates around a call, and what becomes of an exception that
    unwinds through any number of them (llvm/examples/ExceptionDemo/ExceptionDemo.cpp). */
module ExceptionFrames {
  import opened ExceptionTables
  import opened Options

  // ----- Generated code -----

  datatype Label =
    | Entry | Normal | Landing | Route | External | UnwindResume | End | Finally | Catch(clause: nat)

  // States of the flag that says what has become of the call.
  const NOT_THROWN := 0
  const THROWN := 1
  const CAUGHT := 2

  datatype Instr =
    | StoreResult | StoreException | StoreFlag(state: int) | PrintFinally | PrintCatch(clause: nat) | DeleteException

  datatype Term =
    | Invoke(normal: Label, unwind: Label)
    | Br(target: Label)
    | IfOwn(own: Label, foreign: Label)
    | SwitchFlag(default: Label, cases: map<int, Label>)
    | SwitchSelector(default: Label, cases: map<int, Label>)
    | Resume
    | Return

  datatype Block = Block(code: seq<Instr>, term: Term)

  type Code = map<Label, Block>

  function SelectorCases(n: nat): (r: map<int, Label>)
    ensures forall i: int :: i in r <==> 1 <= i <= n
    ensures forall i: int | i in r :: r[i] == Catch(i - 1)
  {
    if n == 0 then map[] else SelectorCases(n - 1)[n := Catch(n - 1)]
  }

  // The blocks around a call that catches `n` types.
  ghost predicate Wraps(code: Code, n: nat) {
    && (forall i | 0 <= i < n ::
          Catch(i) in code && code[Catch(i)] == Block([PrintCatch(i), StoreFlag(CAUGHT)], Br(Finally)))
    && Entry in code && code[Entry] == Block([], Invoke(Normal, Landing))
    && Normal in code && code[Normal] == Block([], Br(Finally))
    && Landing in code && code[Landing] ==
         Block([StoreResult, StoreException, StoreFlag(THROWN)], IfOwn(Route, External))
    && External in code && code[External] == Block([], Br(Finally))
    && Route in code && code[Route] == Block([], SwitchSelector(Finally, SelectorCases(n)))
    && Finally in code
    && code[Finally] == Block([PrintFinally], SwitchFlag(End, map[CAUGHT := End, THROWN := UnwindResume]))
    && UnwindResume in code && code[UnwindResume] == Block([], Resume)
    && End in code && code[End] == Block([DeleteException], Return)
  }

  class Generator {
    var code: Code

    constructor ()
      ensures code == map[]
    {
      code := map[];
    }

    method CreateFinallyBlock(terminator: Label, unwindResume: Label) returns (ret: Label)
      modifies this
      ensures ret == Finally
      ensures code ==
              old(code)[Finally := Block([PrintFinally],
                                         SwitchFlag(terminator, map[CAUGHT := terminator, THROWN := unwindResume]))]
    {
      ret := Finally;
      var cases: map<int, Label> := map[];
      cases := cases[CAUGHT := terminator];
      cases := cases[THROWN := unwindResume];
      code := code[ret := Block([PrintFinally], SwitchFlag(terminator, cases))];
    }

    method CreateCatchBlock(clause: nat, terminator: Label) returns (ret: Label)
      modifies this
      ensures ret == Catch(clause)
      ensures code == old(code)[Catch(clause) := Block([PrintCatch(clause), StoreFlag(CAUGHT)], Br(terminator))]
    {
      ret := Catch(clause);
      code := code[ret := Block([PrintCatch(clause), StoreFlag(CAUGHT)], Br(terminator))];
    }

    method CreateCatchBlocks(n: nat, finally: Label) returns (catchBlocks: seq<Label>)
      modifies this
      ensures |catchBlocks| == n && forall k | 0 <= k < n :: catchBlocks[k] == Catch(k)
      ensures forall k | 0 <= k < n ::
                Catch(k) in code && code[Catch(k)] == Block([PrintCatch(k), StoreFlag(CAUGHT)], Br(finally))
      ensures forall l: Label | !l.Catch? && l in old(code) :: l in code && code[l] == old(code)[l]
    {
      catchBlocks := [];
      for i := 0 to n
        invariant |catchBlocks| == i && forall k | 0 <= k < i :: catchBlocks[k] == Catch(k)
        invariant forall k | 0 <= k < i ::
                    Catch(k) in code && code[Catch(k)] == Block([PrintCatch(k), StoreFlag(CAUGHT)], Br(finally))
        invariant forall l: Label | !l.Catch? && l in old(code) :: l in code && code[l] == old(code)[l]
      {
        var b := CreateCatchBlock(i, finally);
        catchBlocks := catchBlocks + [b];
      }
    }

    // Routes every selector to its catch block.
    method CreateRoute(n: nat, catchBlocks: seq<Label>, finally: Label)
      requires |catchBlocks| == n && forall k | 0 <= k < n :: catchBlocks[k] == Catch(k)
      modifies this
      ensures code == old(code)[Route := Block([], SwitchSelector(finally, SelectorCases(n)))]
    {
      var cases: map<int, Label> := map[];
      for i := 1 to n + 1
        invariant cases == SelectorCases(i - 1)
      {
        cases := cases[i := catchBlocks[i - 1]];
      }
      code := code[Route := Block([], SwitchSelector(finally, cases))];
    }

    method CreateCatchWrappedInvokeFunction(n: nat)
      modifies this
      ensures Wraps(code, n)
    {
      code := map[];
      var finally := CreateFinallyBlock(End, UnwindResume);
      var catchBlocks := CreateCatchBlocks(n, finally);
      Assembled(code, n);
      hide Wraps;
      hide SelectorCases;
      code := code + map[
        Entry := Block([], Invoke(Normal, Landing)),
        End := Block([DeleteException], Return),
        Normal := Block([], Br(finally)),
        UnwindResume := Block([], Resume),
        Landing := Block([StoreResult, StoreException, StoreFlag(THROWN)], IfOwn(Route, External)),
        External := Block([], Br(finally))
      ];
      CreateRoute(n, catchBlocks, finally);
    }
  }

  lemma {:induction false} Assembled(code: Code, n: nat)
    requires Finally in code
    requires code[Finally] == Block([PrintFinally], SwitchFlag(End, map[CAUGHT := End, THROWN := UnwindResume]))
    requires forall k | 0 <= k < n ::
               Catch(k) in code && code[Catch(k)] == Block([PrintCatch(k), StoreFlag(CAUGHT)], Br(Finally))
    ensures Wraps((code + map[
                    Entry := Block([], Invoke(Normal, Landing)),
                    End := Block([DeleteException], Return),
                    Normal := Block([], Br(Finally)),
                    UnwindResume := Block([], Resume),
                    Landing := Block([StoreResult, StoreException, StoreFlag(THROWN)], IfOwn(Route, External)),
                    External := Block([], Br(Finally))
                  ])[Route := Block([], SwitchSelector(Finally, SelectorCases(n)))], n)
  {
    hide SelectorCases;
  }

  // ----- Running generated code -----

  // The stack slots of a frame, and what it has done.
  datatype Store = Store(flag: int, exception: Option<Exception>, result: Option<Exception>,
                         finallyRuns: nat, caught: seq<nat>, deleted: seq<Exception>)

  const FRESH: Store := Store(NOT_THROWN, None, None, 0, [], [])

  // How the wrapped call ended: normally, or at the landing pad with an exception and a selector.
  datatype Call = Completed | Landed(e: Exception, selector: nat)

  datatype Result = Returned(store: Store) | Resumed(store: Store, e: Exception) | Stuck

  function Perform(i: Instr, s: Store, call: Call): Store {
    match i
    case StoreResult => s.(result := if call.Landed? then Some(call.e) else None)
    case StoreException => s.(exception := if call.Landed? then Some(call.e) else None)
    case StoreFlag(state) => s.(flag := state)
    case PrintFinally => s.(finallyRuns := s.finallyRuns + 1)
    case PrintCatch(c) => s.(caught := s.caught + [c])
    // Deletes an exception of our own; ignores null and foreign exceptions.
    case DeleteException =>
      if s.exception.Some? && s.exception.value.Own? then s.(deleted := s.deleted + [s.exception.value]) else s
  }

  function PerformAll(code: seq<Instr>, s: Store, call: Call): Store {
    if code == [] then s else PerformAll(code[1..], Perform(code[0], s, call), call)
  }

  function Execute(code: Code, l: Label, s: Store, call: Call, fuel: nat): Result
    decreases fuel
  {
    if fuel == 0 || l !in code then Stuck
    else
      var t := PerformAll(code[l].code, s, call);
      match code[l].term
      case Invoke(normal, unwind) => Execute(code, if call.Landed? then unwind else normal, t, call, fuel - 1)
      case Br(target) => Execute(code, target, t, call, fuel - 1)
      case IfOwn(own, foreign) =>
        if call.Completed? then Stuck else Execute(code, if call.e.Own? then own else foreign, t, call, fuel - 1)
      case SwitchFlag(default, cases) =>
        Execute(code, if t.flag in cases then cases[t.flag] else default, t, call, fuel - 1)
      case SwitchSelector(default, cases) =>
        if call.Completed? then Stuck
        else Execute(code, if call.selector in cases then cases[call.selector] else default, t, call, fuel - 1)
      case Resume => if t.result.Some? then Resumed(t, t.result.value) else Stuck
      case Return => Returned(t)
  }

  // Is the call of a frame that catches `n` types caught there?
  predicate IsCaught(call: Call, n: nat) {
    call.Landed? && call.e.Own? && 1 <= call.selector <= n
  }

  lemma {:induction false} RunsFinally(code: Code, n: nat, s: Store, call: Call, fuel: nat)
    requires Wraps(code, n) && fuel >= 2
    ensures var t := s.(finallyRuns := s.finallyRuns + 1);
            Execute(code, Finally, s, call, fuel) ==
            if s.flag == THROWN then (if s.result.Some? then Resumed(t, s.result.value) else Stuck)
            else Returned(Perform(DeleteException, t, call))
  {
    var t := s.(finallyRuns := s.finallyRuns + 1);
    assert PerformAll([], t, call) == t;
    assert PerformAll([PrintFinally], s, call) == t;
    var u := Perform(DeleteException, t, call);
    assert PerformAll([], u, call) == u;
    assert PerformAll([DeleteException], t, call) == u;
  }

  lemma {:induction false} RunsCatch(code: Code, n: nat, s: Store, call: Call, i: nat, fuel: nat)
    requires Wraps(code, n) && i < n && fuel >= 3
    ensures Execute(code, Catch(i), s, call, fuel)
            == Execute(code, Finally, s.(caught := s.caught + [i], flag := CAUGHT), call, fuel - 1)
  {
    var t := s.(caught := s.caught + [i]);
    var u := t.(flag := CAUGHT);
    assert [PrintCatch(i), StoreFlag(CAUGHT)][1..] == [StoreFlag(CAUGHT)];
    assert PerformAll([], u, call) == u;
    assert PerformAll([StoreFlag(CAUGHT)], t, call) == u;
    assert PerformAll([PrintCatch(i), StoreFlag(CAUGHT)], s, call) == u;
  }

  lemma {:induction false} LandingStores(e: Exception, selector: nat)
    ensures PerformAll([StoreResult, StoreException, StoreFlag(THROWN)], FRESH, Landed(e, selector))
            == Store(THROWN, Some(e), Some(e), 0, [], [])
  {
    var call := Landed(e, selector);
    var a := FRESH.(result := Some(e));
    var b := a.(exception := Some(e));
    var c := b.(flag := THROWN);
    assert [StoreResult, StoreException, StoreFlag(THROWN)][1..] == [StoreException, StoreFlag(THROWN)];
    assert [StoreException, StoreFlag(THROWN)][1..] == [StoreFlag(THROWN)];
    assert PerformAll([], c, call) == c;
    assert PerformAll([StoreFlag(THROWN)], b, call) == c;
    assert PerformAll([StoreException, StoreFlag(THROWN)], a, call) == c;
  }

  // What a frame makes of a call.
  function Handled(call: Call, n: nat): Result {
    if call.Completed? then Returned(Store(NOT_THROWN, None, None, 1, [], []))
    else if IsCaught(call, n) then
      Returned(Store(CAUGHT, Some(call.e), Some(call.e), 1, [call.selector - 1], [call.e]))
    else Resumed(Store(THROWN, Some(call.e), Some(call.e), 1, [], []), call.e)
  }

  /** A generated function runs its finally block exactly once however the call ends; it deletes the
      exception exactly when one of its catch blocks took it, and passes it on otherwise. */
  lemma {:induction false} FrameRuns(code: Code, n: nat, call: Call, fuel: nat)
    requires Wraps(code, n) && fuel >= 6
    ensures Execute(code, Entry, FRESH, call, fuel) == Handled(call, n)
  {
    assert PerformAll([], FRESH, call) == FRESH;
    if call.Completed? {
      assert Execute(code, Entry, FRESH, call, fuel) == Execute(code, Finally, FRESH, call, fuel - 2);
      RunsFinally(code, n, FRESH, call, fuel - 2);
      hide Execute;
      hide Wraps;
    } else {
      assert Execute(code, Entry, FRESH, call, fuel) == Execute(code, Landing, FRESH, call, fuel - 1);
      hide Execute;
      LandedRuns(code, n, call, fuel - 1);
    }
  }

  lemma {:induction false} LandedRuns(code: Code, n: nat, call: Call, fuel: nat)
    requires Wraps(code, n) && fuel >= 5 && call.Landed?
    ensures Execute(code, Landing, FRESH, call, fuel) == Handled(call, n)
  {
    hide Execute;
    hide Wraps;
    LandingStores(call.e, call.selector);
    var s := Store(THROWN, Some(call.e), Some(call.e), 0, [], []);
    assert PerformAll([], s, call) == s;
    hide PerformAll;
    LandingGoesOn(code, n, s, call, fuel);
    if IsCaught(call, n) {
      var i := call.selector - 1;
      RunsCatch(code, n, s, call, i, fuel - 2);
      assert s.caught + [i] == [i] && [] + [call.e] == [call.e];
      RunsFinally(code, n, s.(caught := [i], flag := CAUGHT), call, fuel - 3);
    } else {
      RunsFinally(code, n, s, call, fuel - 2);
    }
  }

  // From the landing pad to the block that deals with the exception.
  lemma {:induction false} LandingGoesOn(code: Code, n: nat, s: Store, call: Call, fuel: nat)
    requires Wraps(code, n) && fuel >= 5 && call.Landed?
    requires PerformAll([StoreResult, StoreException, StoreFlag(THROWN)], FRESH, call) == s
             && PerformAll([], s, call) == s
    ensures Execute(code, Landing, FRESH, call, fuel)
            == Execute(code, if IsCaught(call, n) then Catch(call.selector - 1) else Finally, s, call, fuel - 2)
  {
    if call.e.Own? {
      assert Execute(code, Landing, FRESH, call, fuel) == Execute(code, Route, s, call, fuel - 1);
    } else {
      assert Execute(code, Landing, FRESH, call, fuel) == Execute(code, External, s, call, fuel - 1);
    }
  }

  // ----- A stack of frames -----

  // A frame in the call: the types it catches, its code and where blocks of it begin, and its exception
  // table.
  datatype Frame =
    Frame(types: seq<int>, code: Code, blocks: map<nat, Label>, lsda: Lsda, pc: nat, chains: nat -> seq<nat>)

  // Do the records stand for a landing pad with these clauses? A record for every clause in order,
  // whatever number its type has, then the cleanup.
  predicate Lists(records: seq<nat>, typeAt: nat -> int, types: seq<int>) {
    && |records| == |types| + 1 && records[|types|] == 0
    && forall i | 0 <= i < |types| :: records[i] > 0 && typeAt(records[i]) == types[i]
  }

  /** The code is what the generator makes, and the table covers the call with a landing pad, where the
      landing block begins, for exactly the frame's types. */
  ghost predicate Complete(f: Frame) {
    && Wraps(f.code, |f.types|) && Readable(f.lsda, f.chains)
    && var k := FirstSite(f.lsda.sites, f.pc);
       k < |f.lsda.sites|
       && f.lsda.sites[k].landingPad in f.blocks && f.blocks[f.lsda.sites[k].landingPad] == Landing
       && var action := f.lsda.sites[k].action;
          if action == 0 then f.types == [] else Lists(f.chains(action), f.lsda.typeAt, f.types)
  }

  // 1 for the first type of the list, and so on; 0 if the type is not in the list.
  function Position(types: seq<int>, t: int): (r: nat)
    ensures r <= |types|
    ensures r == 0 <==> t !in types
    ensures r > 0 ==> types[r - 1] == t && t !in types[..r - 1]
  {
    if types == [] then 0
    else if types[0] == t then 1
    else
      var r := Position(types[1..], t);
      assert types == [types[0]] + types[1..];
      assert r > 0 ==> types[..r] == [types[0]] + types[1..][..r - 1];
      if r == 0 then 0 else r + 1
  }

  // ----- The tables that the code generator writes -----

  // The types of a landing pad as they get their numbers: the last clause first, every type once.
  function TypeInfos(types: seq<int>): (r: seq<int>)
    ensures |r| <= |types|
    ensures forall t :: t in types <==> t in r
  {
    if types == [] then []
    else
      assert types == [types[0]] + types[1..];
      var r := TypeInfos(types[1..]);
      if types[0] in r then r else r + [types[0]]
  }

  // The records of the clauses, by the numbers of their types, and of the cleanup.
  function ClauseRecords(types: seq<int>): (r: seq<nat>)
    ensures |r| == |types| + 1 && forall i | 0 <= i < |r| :: r[i] <= |types|
    ensures forall i | 0 <= i < |types| :: r[i] == Position(TypeInfos(types), types[i])
  {
    seq(|types| + 1, i requires 0 <= i <= |types| => if i < |types| then Position(TypeInfos(types), types[i]) else 0)
  }

  function TypeTable(types: seq<int>): nat -> int {
    (i: nat) => if 0 < i <= |TypeInfos(types)| then TypeInfos(types)[i - 1] else 0
  }

  lemma RecordsListClauses(types: seq<int>)
    ensures Lists(ClauseRecords(types), TypeTable(types), types)
  {
    var infos := TypeInfos(types);
    forall i | 0 <= i < |types|
      ensures ClauseRecords(types)[i] > 0 && TypeTable(types)(ClauseRecords(types)[i]) == types[i]
    {
      assert types[i] in infos;
    }
    hide TypeInfos;
    hide Position;
  }

  /** Every list of fewer than 2^27 types has a complete frame: one call site, the clauses numbered
      and written as the code generator does. */
  lemma FramesExist(types: seq<int>, code: Code, landingPad: nat)
    requires Wraps(code, |types|) && |types| < 0x800_0000 && landingPad != 0
    ensures var records := ClauseRecords(types);
            && FirstAction(records) >= 0
            && var lsda := Lsda([CallSite(0, 1, landingPad, FirstAction(records) + 1)],
                              EmitChain(records), TypeTable(types));
               Complete(Frame(types, code, map[landingPad := Landing], lsda, 0, (_: nat) => records))
  {
    var records := ClauseRecords(types);
    RecordsListClauses(types);
    ChainRoundTrip(EmitChain(records), 0, records);
    hide *;
    OneSiteIsComplete(types, code, landingPad, records, TypeTable(types), EmitChain(records), FirstAction(records));
  }

  lemma {:induction false} OneSiteIsComplete(types: seq<int>, code: Code, landingPad: nat, records: seq<nat>,
                                             typeAt: nat -> int, actions: Bytes, start: nat)
    requires Wraps(code, |types|) && landingPad != 0 && Lists(records, typeAt, types)
             && ChainAt(actions, start, records)
    ensures Complete(Frame(types, code, map[landingPad := Landing],
                           Lsda([CallSite(0, 1, landingPad, start + 1)], actions, typeAt), 0, (_: nat) => records))
  {
    hide Wraps;
    hide Lists;
    hide ChainAt;
  }

  /** Distinct types are numbered from the last clause to the first. */
  lemma {:induction false} DistinctTypesReverse(types: seq<int>)
    requires forall i, j | 0 <= i < j < |types| :: types[i] != types[j]
    ensures |TypeInfos(types)| == |types|
    ensures forall k | 0 <= k < |types| :: TypeInfos(types)[k] == types[|types| - 1 - k]
  {
    var n := |types|;
    if n > 0 {
      var rest := types[1..];
      DistinctTypesReverse(rest);
      assert types[0] !in rest;
      assert TypeInfos(types) == TypeInfos(rest) + [types[0]];
      hide TypeInfos;
      forall k | 0 <= k < n - 1 ensures TypeInfos(rest)[k] == types[n - 1 - k] {
        assert rest[n - 2 - k] == types[n - 1 - k];
      }
    }
  }

  /** The chain of distinct types reads n, .., 2, 1, 0. */
  lemma DistinctTypesCountDown(types: seq<int>)
    requires forall i, j | 0 <= i < j < |types| :: types[i] != types[j]
    ensures forall i | 0 <= i <= |types| :: ClauseRecords(types)[i] == |types| - i
  {
    var infos, n := TypeInfos(types), |types|;
    assert ClauseRecords(types)[n] == 0;
    hide *;
    DistinctTypesReverse(types);
    forall i | 0 <= i < n ensures ClauseRecords(types)[i] == n - i {
      PositionAt(infos, n - 1 - i);
    }
  }

  // A type that occurs once is found where it is.
  lemma {:induction false} PositionAt(types: seq<int>, i: nat)
    requires i < |types| && forall k | 0 <= k < i :: types[k] != types[i]
    ensures Position(types, types[i]) == i + 1
  {
    var r := Position(types, types[i]);
    assert r > 0;
    assert forall k | 0 <= k < r - 1 :: types[k] in types[..r - 1];
  }

  // The clause of the frame that takes the exception, 0 for none.
  function Clause(f: Frame, e: Exception): nat {
    if e.Own? then Position(f.types, e.t) else 0
  }

  /** The personality selects the first clause that names the type, in both phases, and the landing pad
      is where the landing block begins. */
  lemma PersonalitySelects(f: Frame, e: Exception)
    requires Complete(f)
    ensures Personality(f.lsda, true, e, f.pc, f.chains) == if Clause(f, e) > 0 then HandlerFound else ContinueUnwind
    ensures var r := Personality(f.lsda, false, e, f.pc, f.chains); r.InstallContext? && r.selector == Clause(f, e)
    ensures var pad := Personality(f.lsda, false, e, f.pc, f.chains).landingPad;
            pad in f.blocks && f.blocks[pad] == Landing
  {
    var action := f.lsda.sites[FirstSite(f.lsda.sites, f.pc)].action;
    if e.Own? && action > 0 {
      var records, t, n := f.chains(action), e.t, |f.types|;
      var m, p := FirstMatch(records, f.lsda.typeAt, t), Position(f.types, t);
      assert p > 0 ==> Matches(records[p - 1], f.lsda.typeAt, t);
      assert p > 0 ==> 0 < m <= p;
      assert m > 0 ==> m - 1 < n && f.types[m - 1] == t;
    }
  }

  // The search phase: the innermost frame that says it has a handler.
  ghost function Search(frames: seq<Frame>, e: Exception): (r: nat)
    ensures r <= |frames|
  {
    if frames == [] || Personality(frames[0].lsda, true, e, frames[0].pc, frames[0].chains) == HandlerFound then 0
    else 1 + Search(frames[1..], e)
  }

  // Enough steps for one frame.
  const STEPS: nat := 6

  // Frames whose call returns normally.
  function ReturnThrough(frames: seq<Frame>): seq<Result> {
    if frames == [] then [] else [Execute(frames[0].code, Entry, FRESH, Completed, STEPS)] + ReturnThrough(frames[1..])
  }

  // The cleanup phase, innermost frame first: the personality lands in every frame, at the block that
  // its landing pad stands for, and the frame either resumes unwinding or returns to the next one.
  ghost function Unwind(frames: seq<Frame>, e: Exception): seq<Result> {
    if frames == [] then []
    else
      var f := frames[0];
      var r := Personality(f.lsda, false, e, f.pc, f.chains);
      if !r.InstallContext? || r.landingPad !in f.blocks then [Stuck] + Unwind(frames[1..], e)
      else
        var result := Execute(f.code, f.blocks[r.landingPad], FRESH, Landed(e, r.selector), STEPS);
        [result] + if result.Resumed? then Unwind(frames[1..], result.e) else ReturnThrough(frames[1..])
  }

  // The innermost frame that catches the type of the exception.
  function Catcher(frames: seq<Frame>, e: Exception): (r: nat)
    ensures r <= |frames|
    ensures forall i | 0 <= i < r :: Clause(frames[i], e) == 0
    ensures r < |frames| ==> Clause(frames[r], e) > 0
  {
    if frames == [] || Clause(frames[0], e) > 0 then 0
    else
      assert forall i | 0 < i < |frames| :: frames[i] == frames[1..][i - 1];
      1 + Catcher(frames[1..], e)
  }

  // What should become of an exception in frame i, when frame k catches it.
  function Expected(frames: seq<Frame>, e: Exception, k: nat, i: nat): Result
    requires i < |frames|
  {
    if i < k then Resumed(Store(THROWN, Some(e), Some(e), 1, [], []), e)
    else if i > k then Returned(Store(NOT_THROWN, None, None, 1, [], []))
    else
      var clause := Clause(frames[i], e);
      Returned(Store(CAUGHT, Some(e), Some(e), 1, [if clause > 0 then clause - 1 else 0], [e]))
  }

  ghost predicate AllComplete(frames: seq<Frame>) {
    forall i | 0 <= i < |frames| :: Complete(frames[i])
  }

  lemma {:induction false} ReturnsThrough(frames: seq<Frame>)
    requires AllComplete(frames)
    ensures |ReturnThrough(frames)| == |frames|
    ensures forall i | 0 <= i < |frames| ::
          ReturnThrough(frames)[i] == Returned(Store(NOT_THROWN, None, None, 1, [], []))
  {
    if frames != [] {
      assert Complete(frames[0]);
      FrameRuns(frames[0].code, |frames[0].types|, Completed, STEPS);
      hide Complete;
      hide Execute;
      ReturnsThrough(frames[1..]);
    }
  }

  // What the innermost frame makes of an exception.
  lemma {:induction false} InnermostFrame(frames: seq<Frame>, e: Exception)
    requires frames != [] && Complete(frames[0])
    ensures Search(frames, e) == if Clause(frames[0], e) > 0 then 0 else 1 + Search(frames[1..], e)
    ensures Unwind(frames, e) ==
            if Clause(frames[0], e) > 0 then [Expected(frames, e, 0, 0)] + ReturnThrough(frames[1..])
            else [Expected(frames, e, 1, 0)] + Unwind(frames[1..], e)
  {
    var f := frames[0];
    PersonalitySelects(f, e);
    LandedRuns(f.code, |f.types|, Landed(e, Clause(f, e)), STEPS);
    hide Execute;
    hide Personality;
    hide Complete;
    hide Wraps;
    hide Position;
  }

  /** For any number of nested frames: the innermost frame that lists the type catches an exception of
      our own, in its first such clause, and alone deletes it; the frames inside it resume, the frames
      around it return normally; nobody catches or deletes a foreign exception; and every frame runs
      its finally block exactly once. The search phase finds that same frame. */
  lemma {:induction false} ExceptionIsHandledOnce(frames: seq<Frame>, e: Exception)
    requires AllComplete(frames)
    ensures Search(frames, e) == Catcher(frames, e)
    ensures |Unwind(frames, e)| == |frames|
    ensures forall i | 0 <= i < |frames| :: Unwind(frames, e)[i] == Expected(frames, e, Catcher(frames, e), i)
  {
    if frames != [] {
      var rest := frames[1..];
      InnermostFrame(frames, e);
      hide Complete;
      if Clause(frames[0], e) > 0 {
        ReturnsThrough(rest);
        hide Search;
        hide Unwind;
        CaughtInnermost(frames, e, ReturnThrough(rest));
      } else {
        ExceptionIsHandledOnce(rest, e);
        hide Search;
        hide Unwind;
        PassedOn(frames, e, Unwind(rest, e));
      }
    }
  }

  lemma {:induction false} CaughtInnermost(frames: seq<Frame>, e: Exception, others: seq<Result>)
    requires frames != [] && Clause(frames[0], e) > 0 && |others| == |frames| - 1
    requires forall i | 0 <= i < |others| :: others[i] == Returned(Store(NOT_THROWN, None, None, 1, [], []))
    ensures Catcher(frames, e) == 0
    ensures forall i | 0 <= i < |frames| :: ([Expected(frames, e, 0, 0)] + others)[i] == Expected(frames, e, 0, i)
  {
    hide Clause;
  }

  lemma {:induction false} PassedOn(frames: seq<Frame>, e: Exception, others: seq<Result>)
    requires frames != [] && Clause(frames[0], e) == 0 && |others| == |frames| - 1
    requires forall i | 0 <= i < |others| :: others[i] == Expected(frames[1..], e, Catcher(frames[1..], e), i)
    ensures Catcher(frames, e) == 1 + Catcher(frames[1..], e)
    ensures forall i | 0 <= i < |frames| ::
              ([Expected(frames, e, 1, 0)] + others)[i] == Expected(frames, e, Catcher(frames, e), i)
  {
    hide Clause;
    forall i | 0 < i < |frames|
      ensures others[i - 1] == Expected(frames, e, Catcher(frames, e), i)
    {
      assert frames[1..][i - 1] == frames[i];
    }
  }
}
