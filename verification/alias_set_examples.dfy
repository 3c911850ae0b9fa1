/** Runs of adds that miss an alias. */
module AliasSetExamples {
  import opened AliasSetRanges
  import opened AliasSetRuns
  import opened AliasSetTables
  import opened AliasSets
  import opened AliasSetsProofs
  import opened Options
  import opened AliasSetsApart

  // ----- A run in which a pointer grows -----

  function Base(p: Pointer): Option<int> {
    Some(if p == 2 then 4 else 0)
  }

  // What one add does in the four cases of the run below.
  lemma FirstAdd(aa: Oracle, threshold: nat, t: Table, p: Pointer, size: nat)
    requires Valid(threshold, t) && t.anySet.None? && p !in t.entries
    requires forall x | Live(t.sets, x) :: !Aliases(aa, t, x, Loc(p, size))
    ensures Add(aa, threshold, t, p, size).0 ==
            Table(t.sets + [AliasSet([p], None, true, false)],
                  t.entries[p := PointerRec(|t.sets|, size)], t.totalMay, None)
  {
    MergeForFindsNothing(aa, t, Loc(p, size), 0);
    assert [] + [p] == [p];
    assert PushSet(t, NEW_SET).sets[|t.sets| := AliasSet([p], None, true, false)]
           == t.sets + [AliasSet([p], None, true, false)];
  }

  lemma {:induction false} NextAdd(aa: Oracle, threshold: nat, t: Table, i: nat, p: Pointer, size: nat)
    requires Valid(threshold, t) && t.anySet.None? && p !in t.entries
    requires MergeFor(aa, t, Loc(p, size), 0, None) == (t, Some(i))
    requires i < |t.sets| && (t.sets[i].ptrs != [] ==> t.sets[i].ptrs[0] in t.entries)
    requires AddPointer(aa, t, i, p, size).totalMay <= threshold
    ensures Add(aa, threshold, t, p, size).0 == AddPointer(aa, t, i, p, size)
  {
  }

  lemma AddAgain(aa: Oracle, threshold: nat, t: Table, p: Pointer, size: nat, u: Table)
    requires Valid(threshold, t) && t.anySet.None? && p in t.entries && size > t.entries[p].size
    requires MergeFor(aa, Grow(t, p, size), Loc(p, size), 0, None).0 == u && u.anySet.None? && u.totalMay <= threshold
    ensures Ordered(u.sets) && p in u.entries && u.entries[p].home < |u.sets|
    ensures Add(aa, threshold, t, p, size).0 == Settle(u, p)
  {
    WidenKeeps(aa, threshold, t, p, size);
    CoreIsOrdered(u);
    hide Core;
    hide MergeAll;
    hide Collapse;
    hide MergeFor;
    hide Grow;
  }

  lemma {:induction false} MergeForFindsNothing(aa: Oracle, t: Table, loc: Loc, k: nat)
    requires k <= |t.sets| && forall x | Live(t.sets, x) :: !Aliases(aa, t, x, loc)
    ensures MergeFor(aa, t, loc, k, None) == (t, None)
    decreases |t.sets| - k
  {
    if k < |t.sets| {
      MergeForFindsNothing(aa, t, loc, k + 1);
    }
  }

  /** A pointer that outgrows the first pointer of its set goes unnoticed: two pointers at address 0
      are added with size 1, the second one again with size 8, and then a pointer at address 4. It
      overlaps the second one, and yet it gets a set of its own. So the run is not calm. */
  lemma {:induction false} OutgrownSetMissesAlias(threshold: nat)
    ensures Reasonable(Ranges(Base)) && Valid(threshold, EMPTY)
    ensures var u := AddAll(Ranges(Base), threshold, EMPTY, [Loc(0, 1), Loc(1, 1), Loc(1, 8), Loc(2, 1)]);
            && Ordered(u.sets) && InRange(u) && 1 in u.entries && 2 in u.entries
            && At(u, 1) == Loc(1, 8) && At(u, 2) == Loc(2, 1)
            && SetOf(u, 1) != SetOf(u, 2) && Ranges(Base)(Loc(1, 8), Loc(2, 1)) == PartialAlias
    ensures !Calm(Ranges(Base), threshold, EMPTY, [Loc(0, 1), Loc(1, 1), Loc(1, 8), Loc(2, 1)])
  {
    var aa := Ranges(Base);
    hide Add;
    hide Valid;
    hide Reasonable;
    RangesAreReasonable(Base);
    EmptyIsValid(aa, threshold);
    AddZero(threshold);
    AddOne(threshold);
    AddOneAgain(threshold);
    AddTwo(threshold);
    RangesAtWork();
    hide Ranges;
    AddAllCons(aa, threshold, ONE_GROWN, Loc(2, 1), []);
    AddAllCons(aa, threshold, ONE, Loc(1, 8), [Loc(2, 1)]);
    AddAllCons(aa, threshold, ZERO, Loc(1, 1), [Loc(1, 8), Loc(2, 1)]);
    AddAllCons(aa, threshold, EMPTY, Loc(0, 1), [Loc(1, 1), Loc(1, 8), Loc(2, 1)]);
    hide AddAll;
    assert [Loc(2, 1)] == [Loc(2, 1)] + [];
    assert [Loc(1, 8), Loc(2, 1)] == [Loc(1, 8)] + [Loc(2, 1)];
    assert [Loc(1, 1), Loc(1, 8), Loc(2, 1)] == [Loc(1, 1)] + [Loc(1, 8), Loc(2, 1)];
    assert [Loc(0, 1), Loc(1, 1), Loc(1, 8), Loc(2, 1)] == [Loc(0, 1)] + [Loc(1, 1), Loc(1, 8), Loc(2, 1)];
    hide *;
    ReasonableEverywhere(aa);
    CalmRunsKeepApart(aa, Everywhere(), threshold, [Loc(0, 1), Loc(1, 1), Loc(1, 8), Loc(2, 1)], 2, 3);
  }

  // The tables along the run.
  const ZERO := Table([AliasSet([0], None, true, false)], map[0 := PointerRec(0, 1)], 0, None)
  const ONE := Table([AliasSet([0, 1], None, true, false)], map[0 := PointerRec(0, 1), 1 := PointerRec(0, 1)], 0, None)
  const ONE_GROWN := ONE.(entries := map[0 := PointerRec(0, 1), 1 := PointerRec(0, 8)])

  const TWO := ONE_GROWN.(
      sets := ONE_GROWN.sets + [AliasSet([2], None, true, false)], entries := ONE_GROWN.entries[2 := PointerRec(1, 1)])

  lemma AddZero(threshold: nat)
    requires Valid(threshold, EMPTY)
    ensures Add(Ranges(Base), threshold, EMPTY, 0, 1).0 == ZERO && Valid(threshold, ZERO)
  {
    hide Add;
    hide Valid;
    hide Ranges;
    hide Reasonable;
    hide Aliases;
    AddKeepsValid(Ranges(Base), threshold, EMPTY, 0, 1);
    FirstAdd(Ranges(Base), threshold, EMPTY, 0, 1);
    assert EMPTY.sets + [AliasSet([0], None, true, false)] == ZERO.sets;
    assert EMPTY.entries[0 := PointerRec(0, 1)] == ZERO.entries;
  }

  lemma AddOne(threshold: nat)
    requires Valid(threshold, ZERO)
    ensures Add(Ranges(Base), threshold, ZERO, 1, 1).0 == ONE && Valid(threshold, ONE)
  {
    var aa := Ranges(Base);
    AddedOne();
    hide Add;
    hide Valid;
    hide Ranges;
    hide Reasonable;
    hide AddPointer;
    AddKeepsValid(aa, threshold, ZERO, 1, 1);
    FindsSetZero(aa, ZERO, Loc(1, 1));
    hide MergeFor;
    NextAdd(aa, threshold, ZERO, 0, 1, 1);
    hide Aliases;
  }

  lemma AddedOne()
    ensures AddPointer(Ranges(Base), ZERO, 0, 1, 1) == ONE && Aliases(Ranges(Base), ZERO, 0, Loc(1, 1))
  {
    RangesAtWork();
    hide Ranges;
    assert [0] + [1] == [0, 1];
    assert ZERO.entries[1 := PointerRec(0, 1)] == ONE.entries;
  }

  lemma AddOneAgain(threshold: nat)
    requires Valid(threshold, ONE)
    ensures Add(Ranges(Base), threshold, ONE, 1, 8).0 == ONE_GROWN && Valid(threshold, ONE_GROWN)
  {
    var aa := Ranges(Base);
    AddKeepsValid(aa, threshold, ONE, 1, 8);
    GrownTables();
    hide Add;
    hide Valid;
    hide Ranges;
    hide Reasonable;
    hide Aliases;
    hide Settle;
    hide Grow;
    FindsSetZero(aa, ONE_GROWN, Loc(1, 8));
    hide MergeFor;
    AddAgain(aa, threshold, ONE, 1, 8, ONE_GROWN);
  }

  lemma AddTwo(threshold: nat)
    requires Valid(threshold, ONE_GROWN)
    ensures Add(Ranges(Base), threshold, ONE_GROWN, 2, 1).0 == TWO && Valid(threshold, TWO)
    ensures Ordered(TWO.sets) && InRange(TWO) && SetOf(TWO, 1) == 0 && SetOf(TWO, 2) == 1
  {
    TwoIsFine();
    hide SetOf;
    hide Ordered;
    hide InRange;
    AddKeepsValid(Ranges(Base), threshold, ONE_GROWN, 2, 1);
    GrownTables();
    hide Add;
    hide Valid;
    hide Ranges;
    hide Reasonable;
    hide Aliases;
    hide Live;
    FirstAdd(Ranges(Base), threshold, ONE_GROWN, 2, 1);
    hide *;
  }

  lemma TwoIsFine()
    ensures Ordered(TWO.sets) && InRange(TWO) && SetOf(TWO, 1) == 0 && SetOf(TWO, 2) == 1
  {
  }

  lemma GrownTables()
    ensures Grow(ONE, 1, 8) == ONE_GROWN
    ensures Ordered(ONE_GROWN.sets) && Settle(ONE_GROWN, 1) == ONE_GROWN
    ensures Aliases(Ranges(Base), ONE_GROWN, 0, Loc(1, 8))
    ensures forall x | Live(ONE_GROWN.sets, x) :: !Aliases(Ranges(Base), ONE_GROWN, x, Loc(2, 1))
  {
    RangesAtWork();
    hide Ranges;
    assert ONE.entries[1 := PointerRec(0, 8)] == ONE_GROWN.entries;
  }

  // The one set of the table takes a location that aliases its first pointer.
  lemma {:induction false} FindsSetZero(aa: Oracle, t: Table, loc: Loc)
    requires |t.sets| == 1 && t.sets[0].forward.None? && Aliases(aa, t, 0, loc)
    ensures MergeFor(aa, t, loc, 0, None) == (t, Some(0))
  {
    assert MergeFor(aa, t, loc, 1, Some(0)) == (t, Some(0));
  }

  /** So does a pointer that is first accessed for no bytes: it gets a set of its own, before a
      pointer at the same address with 8 bytes. When it grows to 4 bytes the two sets become one
      must-alias set that is asked for 4 bytes only, and a pointer at address 4 gets a set of its own. */
  lemma {:induction false} EmptyAccessMissesAlias(threshold: nat)
    ensures Reasonable(Ranges(Base)) && Valid(threshold, EMPTY)
    ensures var u := AddAll(Ranges(Base), threshold, EMPTY, [Loc(0, 0), Loc(1, 8), Loc(0, 4), Loc(2, 1)]);
            && Ordered(u.sets) && InRange(u) && 1 in u.entries && 2 in u.entries
            && At(u, 1) == Loc(1, 8) && At(u, 2) == Loc(2, 1)
            && SetOf(u, 1) != SetOf(u, 2) && Ranges(Base)(Loc(1, 8), Loc(2, 1)) == PartialAlias
    ensures !Calm(Ranges(Base), threshold, EMPTY, [Loc(0, 0), Loc(1, 8), Loc(0, 4), Loc(2, 1)])
  {
    var aa := Ranges(Base);
    hide Add;
    hide Valid;
    hide Reasonable;
    RangesAreReasonable(Base);
    EmptyIsValid(aa, threshold);
    AddEmpty(threshold);
    AddEight(threshold);
    AddFour(threshold);
    AddLast(threshold);
    RangesAtWork();
    hide Ranges;
    AddAllCons(aa, threshold, JOINED, Loc(2, 1), []);
    AddAllCons(aa, threshold, BOTH, Loc(0, 4), [Loc(2, 1)]);
    AddAllCons(aa, threshold, UNSEEN, Loc(1, 8), [Loc(0, 4), Loc(2, 1)]);
    AddAllCons(aa, threshold, EMPTY, Loc(0, 0), [Loc(1, 8), Loc(0, 4), Loc(2, 1)]);
    hide AddAll;
    assert [Loc(2, 1)] == [Loc(2, 1)] + [];
    assert [Loc(0, 4), Loc(2, 1)] == [Loc(0, 4)] + [Loc(2, 1)];
    assert [Loc(1, 8), Loc(0, 4), Loc(2, 1)] == [Loc(1, 8)] + [Loc(0, 4), Loc(2, 1)];
    assert [Loc(0, 0), Loc(1, 8), Loc(0, 4), Loc(2, 1)] == [Loc(0, 0)] + [Loc(1, 8), Loc(0, 4), Loc(2, 1)];
    hide *;
    ReasonableEverywhere(aa);
    CalmRunsKeepApart(aa, Everywhere(), threshold, [Loc(0, 0), Loc(1, 8), Loc(0, 4), Loc(2, 1)], 1, 3);
  }

  // The tables along that run.
  const UNSEEN := Table([AliasSet([0], None, true, false)], map[0 := PointerRec(0, 0)], 0, None)

  const BOTH := UNSEEN.(
      sets := UNSEEN.sets + [AliasSet([1], None, true, false)], entries := UNSEEN.entries[1 := PointerRec(1, 8)])

  const JOINED := Table([AliasSet([0, 1], None, true, false), AliasSet([], Some(0), true, false)],
                        map[0 := PointerRec(0, 4), 1 := PointerRec(1, 8)], 0, None)

  const LAST := JOINED.(
      sets := JOINED.sets + [AliasSet([2], None, true, false)], entries := JOINED.entries[2 := PointerRec(2, 1)])

  lemma AddEmpty(threshold: nat)
    requires Valid(threshold, EMPTY)
    ensures Add(Ranges(Base), threshold, EMPTY, 0, 0).0 == UNSEEN && Valid(threshold, UNSEEN)
  {
    hide Add;
    hide Valid;
    hide Ranges;
    hide Reasonable;
    hide Aliases;
    AddKeepsValid(Ranges(Base), threshold, EMPTY, 0, 0);
    FirstAdd(Ranges(Base), threshold, EMPTY, 0, 0);
    assert EMPTY.sets + [AliasSet([0], None, true, false)] == UNSEEN.sets;
    assert EMPTY.entries[0 := PointerRec(0, 0)] == UNSEEN.entries;
  }

  lemma AddEight(threshold: nat)
    requires Valid(threshold, UNSEEN)
    ensures Add(Ranges(Base), threshold, UNSEEN, 1, 8).0 == BOTH && Valid(threshold, BOTH)
  {
    hide Add;
    hide Valid;
    hide Reasonable;
    assert forall x | Live(UNSEEN.sets, x) :: x == 0 && !Aliases(Ranges(Base), UNSEEN, x, Loc(1, 8));
    hide Ranges;
    hide Aliases;
    AddKeepsValid(Ranges(Base), threshold, UNSEEN, 1, 8);
    FirstAdd(Ranges(Base), threshold, UNSEEN, 1, 8);
  }

  lemma AddFour(threshold: nat)
    requires Valid(threshold, BOTH)
    ensures Add(Ranges(Base), threshold, BOTH, 0, 4).0 == JOINED && Valid(threshold, JOINED)
  {
    var aa := Ranges(Base);
    AddKeepsValid(aa, threshold, BOTH, 0, 4);
    JoinedTables();
    hide Add;
    hide Valid;
    hide Ranges;
    hide Reasonable;
    hide Settle;
    hide Grow;
    hide MergeFor;
    AddAgain(aa, threshold, BOTH, 0, 4, JOINED);
  }

  lemma JoinedTables()
    ensures MergeFor(Ranges(Base), Grow(BOTH, 0, 4), Loc(0, 4), 0, None).0 == JOINED
    ensures Ordered(JOINED.sets) && Settle(JOINED, 0) == JOINED
  {
    var aa, v := Ranges(Base), Grow(BOTH, 0, 4);
    RangesAtWork();
    hide Ranges;
    assert forall x | Live(v.sets, x) :: x == 0 || x == 1;
    assert Aliases(aa, v, 0, Loc(0, 4)) && Aliases(aa, v, 1, Loc(0, 4));
    MergeForTwo(aa, v, Loc(0, 4), 0, 1);
    hide MergeFor;
    assert [0] + [1] == [0, 1];
    assert MergeSetIn(aa, v, 0, 1).sets == JOINED.sets;
    assert v.entries == JOINED.entries;
    assert JOINED.entries[0 := PointerRec(0, 4)] == JOINED.entries;
  }

  lemma AddLast(threshold: nat)
    requires Valid(threshold, JOINED)
    ensures Add(Ranges(Base), threshold, JOINED, 2, 1).0 == LAST && Valid(threshold, LAST)
    ensures Ordered(LAST.sets) && InRange(LAST) && SetOf(LAST, 1) == 0 && SetOf(LAST, 2) == 2
  {
    LastIsFine();
    hide SetOf;
    hide Ordered;
    hide InRange;
    AddKeepsValid(Ranges(Base), threshold, JOINED, 2, 1);
    hide Add;
    hide Valid;
    hide Reasonable;
    hide Ranges;
    hide Aliases;
    hide Live;
    FirstAdd(Ranges(Base), threshold, JOINED, 2, 1);
    hide *;
  }

  lemma LastIsFine()
    ensures Ordered(LAST.sets) && InRange(LAST) && SetOf(LAST, 1) == 0 && SetOf(LAST, 2) == 2
    ensures forall x | Live(JOINED.sets, x) :: !Aliases(Ranges(Base), JOINED, x, Loc(2, 1))
  {
    RangesAtWork();
    hide Ranges;
    assert Root(LAST.sets, 0) == 0 && Root(LAST.sets, 2) == 2;
    assert forall x | Live(JOINED.sets, x) :: x == 0;
  }

  lemma RangesAtWork()
    ensures var aa := Ranges(Base);
            && (forall p, q, s: nat, u: nat | p <= 1 && q <= 1 && s > 0 && u > 0 ::
                  aa(Loc(p, s), Loc(q, u)) == MustAlias)
            && aa(Loc(0, 1), Loc(2, 1)) == NoAlias && aa(Loc(0, 4), Loc(2, 1)) == NoAlias
            && aa(Loc(1, 8), Loc(2, 1)) == PartialAlias
  {
    assert Base(0) == Some(0) && Base(1) == Some(0) && Base(2) == Some(4);
  }

  // ----- A run whose oracle gives up an alias as an access grows -----

  // Pointers 0 and 1 are at one address, which may be that of any other pointer's object of 4 bytes.
  function Objects(): Oracle {
    (a: Loc, b: Loc) =>
      if a.ptr == b.ptr || (a.ptr <= 1 && b.ptr <= 1) then MustAlias
      else if a.ptr > 1 && b.ptr > 1 then NoAlias
      else if (if a.ptr <= 1 then a.size else b.size) > 4 then NoAlias
      else MayAlias
  }

  /** The law that an alias does not go away as an access grows is needed, even where every pointer is
      added once: an access of 8 bytes speaks for its must-alias set, and as it is too large for an
      object of 4 bytes it hides that another access of the set, of 4 bytes, may be to that object. */
  lemma {:induction false} LargeFirstHidesAlias(threshold: nat)
    ensures Symmetric(Objects()) && SeesItself(Objects()) && MustMeansSame(Objects())
    ensures Valid(threshold, EMPTY) && Calm(Objects(), threshold, EMPTY, [Loc(0, 8), Loc(1, 4), Loc(2, 4)])
    ensures var u := AddAll(Objects(), threshold, EMPTY, [Loc(0, 8), Loc(1, 4), Loc(2, 4)]);
            && Ordered(u.sets) && InRange(u) && 1 in u.entries && 2 in u.entries
            && At(u, 1) == Loc(1, 4) && At(u, 2) == Loc(2, 4)
            && SetOf(u, 1) != SetOf(u, 2) && Objects()(Loc(1, 4), Loc(2, 4)) == MayAlias
  {
    var aa := Objects();
    hide Add;
    hide Valid;
    ObjectsMeetTheOtherLaws();
    hide Symmetric;
    hide SeesItself;
    hide MustMeansSame;
    EmptyIsValid(aa, threshold);
    AddLarge(threshold);
    AddSmall(threshold);
    AddObject(threshold);
    assert aa(Loc(1, 4), Loc(2, 4)) == MayAlias;
    hide Objects;
    AddAllCons(aa, threshold, SMALL, Loc(2, 4), []);
    AddAllCons(aa, threshold, LARGE, Loc(1, 4), [Loc(2, 4)]);
    AddAllCons(aa, threshold, EMPTY, Loc(0, 8), [Loc(1, 4), Loc(2, 4)]);
    hide AddAll;
    CalmCons(aa, threshold, SMALL, Loc(2, 4), []);
    CalmCons(aa, threshold, LARGE, Loc(1, 4), [Loc(2, 4)]);
    CalmCons(aa, threshold, EMPTY, Loc(0, 8), [Loc(1, 4), Loc(2, 4)]);
    assert [Loc(2, 4)] == [Loc(2, 4)] + [];
    assert [Loc(1, 4), Loc(2, 4)] == [Loc(1, 4)] + [Loc(2, 4)];
    assert [Loc(0, 8), Loc(1, 4), Loc(2, 4)] == [Loc(0, 8)] + [Loc(1, 4), Loc(2, 4)];
    hide Calm;
  }

  lemma ObjectsMeetTheOtherLaws()
    ensures Symmetric(Objects()) && SeesItself(Objects()) && MustMeansSame(Objects())
  {
    forall a: Loc, b: Loc | Objects()(a, b) == MustAlias
      ensures Same(Objects(), a.ptr, b.ptr)
    {
    }
  }

  // A new pointer does not outgrow anything.
  lemma {:induction false} CalmCons(aa: Oracle, threshold: nat, t: Table, a: Loc, adds: seq<Loc>)
    requires Valid(threshold, t) && a.ptr !in t.entries
    ensures Valid(threshold, Add(aa, threshold, t, a.ptr, a.size).0)
    ensures Calm(aa, threshold, t, [a] + adds) == Calm(aa, threshold, Add(aa, threshold, t, a.ptr, a.size).0, adds)
  {
    AddKeepsValid(aa, threshold, t, a.ptr, a.size);
    assert ([a] + adds)[1..] == adds;
    hide Add;
    hide Core;
  }

  // The tables along that run.
  const LARGE := Table([AliasSet([0], None, true, false)], map[0 := PointerRec(0, 8)], 0, None)
  const SMALL := Table(
    [AliasSet([0, 1], None, true, false)], map[0 := PointerRec(0, 8), 1 := PointerRec(0, 4)], 0, None)

  const OBJECT := SMALL.(
      sets := SMALL.sets + [AliasSet([2], None, true, false)], entries := SMALL.entries[2 := PointerRec(1, 4)])

  lemma AddLarge(threshold: nat)
    requires Valid(threshold, EMPTY)
    ensures Add(Objects(), threshold, EMPTY, 0, 8).0 == LARGE && Valid(threshold, LARGE)
  {
    hide Add;
    hide Valid;
    hide Objects;
    hide Aliases;
    AddKeepsValid(Objects(), threshold, EMPTY, 0, 8);
    FirstAdd(Objects(), threshold, EMPTY, 0, 8);
    assert EMPTY.sets + [AliasSet([0], None, true, false)] == LARGE.sets;
    assert EMPTY.entries[0 := PointerRec(0, 8)] == LARGE.entries;
  }

  lemma AddSmall(threshold: nat)
    requires Valid(threshold, LARGE)
    ensures Add(Objects(), threshold, LARGE, 1, 4).0 == SMALL && Valid(threshold, SMALL)
  {
    var aa := Objects();
    AddedSmall();
    hide Add;
    hide Valid;
    hide Objects;
    hide AddPointer;
    AddKeepsValid(aa, threshold, LARGE, 1, 4);
    FindsSetZero(aa, LARGE, Loc(1, 4));
    hide MergeFor;
    NextAdd(aa, threshold, LARGE, 0, 1, 4);
    hide Aliases;
  }

  lemma AddedSmall()
    ensures AddPointer(Objects(), LARGE, 0, 1, 4) == SMALL && Aliases(Objects(), LARGE, 0, Loc(1, 4))
  {
    assert [0] + [1] == [0, 1];
    assert LARGE.entries[1 := PointerRec(0, 4)] == SMALL.entries;
  }

  lemma AddObject(threshold: nat)
    requires Valid(threshold, SMALL)
    ensures Add(Objects(), threshold, SMALL, 2, 4).0 == OBJECT && Valid(threshold, OBJECT)
    ensures Ordered(OBJECT.sets) && InRange(OBJECT) && SetOf(OBJECT, 1) == 0 && SetOf(OBJECT, 2) == 1
  {
    ObjectIsFine();
    hide SetOf;
    hide Ordered;
    hide InRange;
    AddKeepsValid(Objects(), threshold, SMALL, 2, 4);
    hide Add;
    hide Valid;
    hide Objects;
    hide Aliases;
    hide Live;
    FirstAdd(Objects(), threshold, SMALL, 2, 4);
    hide *;
  }

  lemma ObjectIsFine()
    ensures Ordered(OBJECT.sets) && InRange(OBJECT) && SetOf(OBJECT, 1) == 0 && SetOf(OBJECT, 2) == 1
    ensures forall x | Live(SMALL.sets, x) :: !Aliases(Objects(), SMALL, x, Loc(2, 4))
  {
  }
}
