/** What an add does to the table of alias sets, and what holds of the table after every run of
    adds, whatever the oracle answers (llvm/lib/Analysis/AliasSetTracker.cpp). */
module AliasSetTables {
  import opened AliasSets
  import opened AliasSetsProofs
  import opened Options

  /** What every add keeps, whatever pointers and sizes are added. */
  ghost predicate Valid(threshold: nat, t: Table) {
    && Core(t)
    && (forall i | Live(t.sets, i) && t.sets[i].must :: t.sets[i].ptrs != [])
    && AnySetRules(t)
    && (t.anySet.None? ==> Backward(t.sets) && t.totalMay <= threshold)
  }

  lemma EmptyIsValid(aa: Oracle, threshold: nat)
    ensures Valid(threshold, EMPTY) && MustSetsAgree(aa, EMPTY) && Apart(aa, EMPTY) && FirstIsLargest(EMPTY)
  {
  }

  // The same sets of pointers, reached through other forwards and homes, with sizes that may have grown.
  ghost predicate SameShape(t: Table, u: Table) {
    && SameRoots(t.sets, u.sets) && InRange(t) && InRange(u)
    && u.totalMay == t.totalMay && u.anySet == t.anySet && u.entries.Keys == t.entries.Keys
    && (forall q | q in t.entries :: Root(u.sets, u.entries[q].home) == Root(t.sets, t.entries[q].home))
    && (forall q | q in t.entries :: u.entries[q].size >= t.entries[q].size)
  }

  lemma SameShapePlaced(t: Table, u: Table)
    requires Ordered(t.sets) && InRange(t) && Placed(t) && SameShape(t, u)
    ensures Placed(u)
  {
    hide Root;
    hide Ordered;
    assert forall x | 0 <= x < |t.sets| :: u.sets[x].ptrs == t.sets[x].ptrs;
    assert forall x | 0 <= x < |t.sets| :: Root(u.sets, x) == Root(t.sets, x);
    hide SameRoots;
  }

  lemma SameShapeCore(t: Table, u: Table)
    requires Core(t) && SameShape(t, u)
    ensures Core(u)
  {
    hide Root;
    hide MayCount;
    hide Placed;
    SameRootsKeepsCore(t, u.sets);
    assert Ordered(u.sets);
    SameShapePlaced(t, u);
    hide SameRoots;
    hide Ordered;
    hide InRange;
  }

  // ----- What an add does -----

  lemma GrowKeeps(t: Table, p: Pointer, size: nat)
    requires Core(t) && p in t.entries
    ensures var u := Grow(t, p, size);
            && Core(u)
            && u.sets == t.sets && u.anySet == t.anySet && u.totalMay == t.totalMay && u.entries.Keys == t.entries.Keys
            && (forall q | q in t.entries && q != p :: u.entries[q] == t.entries[q])
            && u.entries[p] == PointerRec(t.entries[p].home,
                                          if size > t.entries[p].size then size else t.entries[p].size)
  {
    hide Core;
    hide SameShape;
    GrownShape(t, p, size);
    SameShapeCore(t, Grow(t, p, size));
  }

  lemma GrownShape(t: Table, p: Pointer, size: nat)
    requires Core(t) && p in t.entries
    ensures var u := Grow(t, p, size);
            && SameShape(t, u)
            && u.sets == t.sets && u.anySet == t.anySet && u.totalMay == t.totalMay && u.entries.Keys == t.entries.Keys
            && (forall q | q in t.entries && q != p :: u.entries[q] == t.entries[q])
            && u.entries[p] == PointerRec(t.entries[p].home,
                                          if size > t.entries[p].size then size else t.entries[p].size)
  {
    hide Root;
    hide Placed;
    hide MayCount;
    assert Grow(t, p, size).entries.Keys == t.entries.Keys;
  }

  // A tracked pointer whose size grew: sets that now alias it are merged.
  function Widen(aa: Oracle, t: Table, p: Pointer, size: nat): Table
    requires p in t.entries
  {
    if size > t.entries[p].size then MergeFor(aa, Grow(t, p, size), Loc(p, size), 0, None).0 else t
  }

  lemma WidenKeeps(aa: Oracle, threshold: nat, t: Table, p: Pointer, size: nat)
    requires Valid(threshold, t) && t.anySet.None? && p in t.entries
    ensures Core(Widen(aa, t, p, size)) && Backward(Widen(aa, t, p, size).sets)
    ensures p in Widen(aa, t, p, size).entries
  {
    GrownMerges(aa, t, p, size);
    hide Core;
    hide Grow;
  }

  // Merging for a tracked pointer whose size was raised.
  lemma GrownMerges(aa: Oracle, t: Table, p: Pointer, size: nat)
    requires Core(t) && Backward(t.sets) && p in t.entries
    ensures var v := Grow(t, p, size);
            && Core(v)
            && MergedFor(aa, v, Loc(p, size), 0, None,
                         MergeFor(aa, v, Loc(p, size), 0, None).0, MergeFor(aa, v, Loc(p, size), 0, None).1)
  {
    GrowKeeps(t, p, size);
    hide Grow;
    MergeForMerges(aa, Grow(t, p, size), Loc(p, size), 0, None);
    hide MergedFor;
    hide Core;
    hide Unmatched;
  }

  lemma NewSetKeeps(t: Table)
    requires Core(t)
    ensures var u := PushSet(t, NEW_SET);
            && Core(u) && Live(u.sets, |t.sets|)
            && (forall x | 0 <= x < |t.sets| :: Root(u.sets, x) == Root(t.sets, x))
            && (forall x :: Live(u.sets, x) <==> Live(t.sets, x) || x == |t.sets|)
  {
    assert t.anySet.Some? ==> t.anySet.value <= |t.sets|;
    hide Core;
    hide Root;
    var u := PushSet(t, NEW_SET);
    PushKeepsCore(t, NEW_SET, t.anySet);
  }

  // The table with an empty set at the end.
  ghost predicate Pushed(t: Table, u: Table, s: AliasSet) {
    && Ordered(t.sets) && InRange(t) && Ordered(u.sets) && InRange(u)
    && u.sets == t.sets + [s] && s.ptrs == [] && s.forward.None? && u.entries == t.entries && u.totalMay == t.totalMay
    && (forall x | 0 <= x < |t.sets| :: Root(u.sets, x) == Root(t.sets, x))
    && (forall x | 0 <= x < |t.sets| :: u.sets[x] == t.sets[x])
  }

  lemma PushIsPushed(t: Table, s: AliasSet, any: Option<nat>)
    requires Ordered(t.sets) && InRange(t) && s.ptrs == [] && s.forward.None?
    requires any.Some? ==> any.value <= |t.sets|
    ensures Pushed(t, PushSet(t, s).(anySet := any), s)
  {
    var u := PushSet(t, s).(anySet := any);
    assert forall x | 0 <= x < |t.sets| :: u.sets[x] == t.sets[x];
    forall x | 0 <= x < |t.sets|
      ensures Root(u.sets, x) == Root(t.sets, x)
    {
      RootSame(t.sets, u.sets, x);
    }
    hide Root;
  }

  lemma PushedPlaced(t: Table, u: Table, s: AliasSet)
    requires Pushed(t, u, s) && Placed(t)
    ensures Placed(u)
  {
    hide Root;
    hide Ordered;
    assert u.sets[|t.sets|] == s;
  }

  lemma PushKeepsCore(t: Table, s: AliasSet, any: Option<nat>)
    requires Core(t) && s.ptrs == [] && s.forward.None? && (any.Some? ==> any.value <= |t.sets|)
    ensures var u := PushSet(t, s).(anySet := any);
            && Core(u) && Pushed(t, u, s) && Live(u.sets, |t.sets|)
            && (forall x | 0 <= x < |t.sets| :: Root(u.sets, x) == Root(t.sets, x))
            && (forall x :: Live(u.sets, x) <==> Live(t.sets, x) || x == |t.sets|)
  {
    var u := PushSet(t, s).(anySet := any);
    hide Root;
    hide Placed;
    hide MayCount;
    PushIsPushed(t, s, any);
    PushedPlaced(t, u, s);
    MayCountPush(t.sets, s);
  }

  /** getAliasSetForPointer */
  function GetSet(aa: Oracle, threshold: nat, t: Table, p: Pointer, size: nat): (r: (Table, nat))
    requires Valid(threshold, t)
  {
    if t.anySet.Some? then
      var any := t.anySet.value;
      AddPointerFits(t, any);
      (if p in t.entries then Grow(t, p, size) else AddPointer(aa, t, any, p, size), any)
    else if p in t.entries then
      WidenKeeps(aa, threshold, t, p, size);
      var u := Widen(aa, t, p, size);
      (Settle(u, p), SetOf(u, p))
    else
      MergeForMerges(aa, t, Loc(p, size), 0, None);
      var (u, found) := MergeFor(aa, t, Loc(p, size), 0, None);
      if found.Some? then
        AddPointerFits(u, found.value);
        (AddPointer(aa, u, found.value, p, size), found.value)
      else
        (AddPointer(aa, PushSet(u, NEW_SET), |u.sets|, p, size), |u.sets|)
  }

  lemma AddPointerFits(t: Table, i: nat)
    requires Core(t) && i < |t.sets|
    ensures t.sets[i].ptrs != [] ==> t.sets[i].ptrs[0] in t.entries
  {
    assert t.sets[i].ptrs != [] ==> t.sets[i].ptrs[0] in t.sets[i].ptrs;
  }

  /** AliasSetTracker::addPointer */
  function Add(aa: Oracle, threshold: nat, t: Table, p: Pointer, size: nat): (r: (Table, nat))
    requires Valid(threshold, t)
  {
    var (u, i) := GetSet(aa, threshold, t, p, size);
    if u.anySet.None? && u.totalMay > threshold then (MergeAll(aa, u), |u.sets|) else (u, i)
  }

  // ----- Settling -----

  lemma SettleKeeps(t: Table, p: Pointer)
    requires Core(t) && p in t.entries
    ensures var u := Settle(t, p);
            && Core(u) && SameRoots(t.sets, u.sets)
            && (Backward(t.sets) ==> Backward(u.sets))
            && u.anySet == t.anySet && u.entries.Keys == t.entries.Keys
            && (forall q | q in t.entries :: At(u, q) == At(t, q) && SetOf(u, q) == SetOf(t, q))
  {
    var u := Settle(t, p);
    SettleIsSameShape(t, p);
    hide Settle;
    SameShapeCore(t, u);
    hide Core;
    hide SameRoots;
  }

  lemma SettleIsSameShape(t: Table, p: Pointer)
    requires Core(t) && p in t.entries
    ensures var u := Settle(t, p);
            && SameShape(t, u) && (Backward(t.sets) ==> Backward(u.sets))
            && (forall q | q in t.entries :: At(u, q) == At(t, q) && SetOf(u, q) == SetOf(t, q))
  {
    var u := Settle(t, p);
    var r := Root(t.sets, t.entries[p].home);
    CollapseKeepsRoots(t.sets, t.entries[p].home);
    RootOfRoot(t.sets, t.entries[p].home);
    hide Root;
    hide Collapse;
    SettleShape(t, u, p, r);
    hide Settle;
    hide Placed;
    hide MayCount;
    hide SameRoots;
  }

  lemma {:induction false} SettleShape(t: Table, u: Table, p: Pointer, r: nat)
    requires SameRoots(t.sets, u.sets) && InRange(t) && p in t.entries && r < |t.sets|
    requires u == t.(sets := u.sets, entries := t.entries[p := t.entries[p].(home := r)])
    requires Root(t.sets, r) == Root(t.sets, t.entries[p].home)
    ensures SameShape(t, u)
    ensures forall q | q in t.entries :: At(u, q) == At(t, q) && SetOf(u, q) == SetOf(t, q)
  {
    hide Root;
    assert u.entries.Keys == t.entries.Keys;
  }

  lemma {:induction false} RootOfRoot(sets: seq<AliasSet>, i: nat)
    requires Ordered(sets) && i < |sets|
    ensures Root(sets, Root(sets, i)) == Root(sets, i)
  {
  }

  // ----- Saturation -----

  // Halfway through merging everything into set `any`.
  ghost predicate Half(aa: Oracle, t: Table, any: nat, k: nat) {
    && Core(t) && k <= any && |t.sets| == any + 1
    && Live(t.sets, any) && t.sets[any].any && !t.sets[any].must && t.anySet == Some(any)
    && (forall x | 0 <= x < k :: t.sets[x].forward == Some(any))
    && (forall x | k <= x < any && t.sets[x].forward.Some? :: t.sets[x].forward.value < x)
  }

  lemma HalfForward(aa: Oracle, t: Table, any: nat, k: nat)
    requires Half(aa, t, any, k) && k < any && t.sets[k].forward.Some?
    ensures Half(aa, t.(sets := t.sets[k := t.sets[k].(forward := Some(any))]), any, k + 1)
  {
    var u := t.sets[k := t.sets[k].(forward := Some(any))];
    var f := t.sets[k].forward.value;
    assert Root(t.sets, k) == Root(t.sets, f) == Root(t.sets, any) == any;
    forall x | 0 <= x < |t.sets|
      ensures Root(u, x) == Root(t.sets, x)
    {
      RootShortcut(t.sets, u, k, x);
    }
    SameRootsKeepsCore(t, u);
  }

  lemma HalfMerge(aa: Oracle, t: Table, any: nat, k: nat)
    requires Half(aa, t, any, k) && k < any && t.sets[k].forward.None?
    ensures Half(aa, MergeSetIn(aa, t, any, k), any, k + 1)
  {
    MergeSetInShape(aa, t, any, k);
    MergeSetInCore(aa, t, any, k);
    MergeSetInRoots(aa, t, any, k);
    hide Core;
  }

  lemma {:induction false} MergeAllIntoMerges(aa: Oracle, t: Table, any: nat, k: nat)
    requires Half(aa, t, any, k)
    ensures Half(aa, MergeAllInto(aa, t, any, k), any, any)
    ensures MergeAllInto(aa, t, any, k).entries == t.entries
    decreases any - k
  {
    if k < any {
      if t.sets[k].forward.Some? {
        HalfForward(aa, t, any, k);
        MergeAllIntoMerges(aa, t.(sets := t.sets[k := t.sets[k].(forward := Some(any))]), any, k + 1);
      } else {
        HalfMerge(aa, t, any, k);
        MergeAllIntoMerges(aa, MergeSetIn(aa, t, any, k), any, k + 1);
      }
    }
  }

  lemma StartsHalf(aa: Oracle, t: Table)
    requires Core(t) && Backward(t.sets)
    ensures var any := |t.sets|;
            Half(aa, PushSet(t, AliasSet([], None, false, true)).(anySet := Some(any)), any, 0)
  {
    var s := AliasSet([], None, false, true);
    PushKeepsCore(t, s, Some(|t.sets|));
    assert PushSet(t, s).sets[|t.sets|] == s;
    hide Core;
    hide Root;
    hide Ordered;
    hide InRange;
  }

  /** A full merge leaves one live set, which holds every pointer. */
  lemma MergeAllSaturates(aa: Oracle, threshold: nat, t: Table)
    requires Core(t) && Backward(t.sets)
    ensures var u := MergeAll(aa, t);
            && Valid(threshold, u) && u.anySet == Some(|t.sets|) && u.entries == t.entries
            && (forall p | p in u.entries :: SetOf(u, p) == |t.sets|)
  {
    var any := |t.sets|;
    StartsHalf(aa, t);
    MergeAllIntoMerges(aa, PushSet(t, AliasSet([], None, false, true)).(anySet := Some(any)), any, 0);
    var u := MergeAll(aa, t);
    hide MergeAll;
    hide Placed;
    hide MayCount;
    hide Root;
    forall p | p in u.entries
      ensures SetOf(u, p) == any
    {
      assert Live(u.sets, SetOf(u, p));
    }
  }

  // ----- Every add keeps the table valid -----

  // What getAliasSetForPointer promises before the threshold is looked at.
  ghost predicate Found(t: Table, p: Pointer, i: nat) {
    && Core(t)
    && (forall x | Live(t.sets, x) && t.sets[x].must :: t.sets[x].ptrs != [])
    && AnySetRules(t) && (t.anySet.None? ==> Backward(t.sets))
    && p in t.entries && SetOf(t, p) == i
  }

  lemma GetSetSaturated(aa: Oracle, threshold: nat, t: Table, p: Pointer, size: nat)
    requires Valid(threshold, t) && t.anySet.Some?
    ensures var (u, i) := GetSet(aa, threshold, t, p, size); Found(u, p, i) && u.anySet == t.anySet
  {
    var any := t.anySet.value;
    if p in t.entries {
      GrowKeeps(t, p, size);
      assert Live(t.sets, SetOf(t, p));
      hide Grow;
      hide Core;
    } else {
      AddPointerCore(aa, t, any, p, size);
      AddedIsFound(aa, t, any, p, size);
      hide AddPointer;
      hide Core;
    }
  }

  // A pointer added to a live set is found there.
  lemma AddedIsFound(aa: Oracle, t: Table, i: nat, p: Pointer, size: nat)
    requires Core(t) && Live(t.sets, i) && p !in t.entries
    requires forall x | Live(t.sets, x) && t.sets[x].must && x != i :: t.sets[x].ptrs != []
    requires AnySetRules(t) && (t.anySet.None? ==> Backward(t.sets))
    ensures t.sets[i].ptrs != [] ==> t.sets[i].ptrs[0] in t.entries
    ensures Core(AddPointer(aa, t, i, p, size))
    ensures Found(AddPointer(aa, t, i, p, size), p, i)
    ensures AddPointer(aa, t, i, p, size).anySet == t.anySet
  {
    hide AddPointer;
    hide Placed;
    hide MayCount;
    hide AnySetRules;
    hide Backward;
    AddPointerCore(aa, t, i, p, size);
    assert Root(t.sets, i) == i;
    hide Root;
    AddPointerFlags(aa, t, i, p, size);
    var u := AddPointer(aa, t, i, p, size);
    assert SetOf(u, p) == i by {
      hide Core;
    }
    FlagsKeepRules(t, u, i);
    hide Core;
    hide SameFlags;
    hide Live;
  }

  // What adding to set `i` leaves of forwards and flags.
  ghost predicate SameFlags(t: Table, u: Table, i: nat) {
    && u.anySet == t.anySet && |u.sets| == |t.sets| && i < |t.sets|
    && (forall x :: Live(u.sets, x) <==> Live(t.sets, x))
    && (forall x | 0 <= x < |t.sets| :: u.sets[x].any == t.sets[x].any && u.sets[x].forward == t.sets[x].forward)
    && (forall x | Live(t.sets, x) :: u.sets[x].must ==> t.sets[x].must)
    && (forall x | Live(t.sets, x) :: |t.sets[x].ptrs| <= |u.sets[x].ptrs|)
    && u.sets[i].ptrs != []
  }

  lemma FlagsKeepRules(t: Table, u: Table, i: nat)
    requires SameFlags(t, u, i) && AnySetRules(t) && (t.anySet.None? ==> Backward(t.sets))
    requires forall x | Live(t.sets, x) && t.sets[x].must && x != i :: t.sets[x].ptrs != []
    ensures AnySetRules(u) && (u.anySet.None? ==> Backward(u.sets))
    ensures forall x | Live(u.sets, x) && u.sets[x].must :: u.sets[x].ptrs != []
  {
  }

  lemma AddPointerFlags(aa: Oracle, t: Table, i: nat, p: Pointer, size: nat)
    requires Live(t.sets, i) && p !in t.entries
    requires t.sets[i].ptrs != [] ==> t.sets[i].ptrs[0] in t.entries
    ensures var u := AddPointer(aa, t, i, p, size);
            && SameFlags(t, u, i) && u.anySet == t.anySet && p in u.entries && u.entries[p].home == i
  {
    AddPointerShape(aa, t, i, p, size);
    hide AddPointer;
  }

  // Merging for a pointer leaves no must-alias set empty.
  lemma MergedForCalm(aa: Oracle, t: Table, loc: Loc, u: Table, f: Option<nat>)
    requires MergedFor(aa, t, loc, 0, None, u, f)
    requires AnySetRules(t) && t.anySet.None?
    requires forall x | Live(t.sets, x) && t.sets[x].must :: t.sets[x].ptrs != []
    ensures AnySetRules(u) && u.anySet.None?
    ensures forall x | Live(u.sets, x) && u.sets[x].must :: u.sets[x].ptrs != []
  {
    hide Core;
    hide Unmatched;
    hide Aliases;
  }

  lemma GetSetKnown(aa: Oracle, threshold: nat, t: Table, p: Pointer, size: nat)
    requires Valid(threshold, t) && t.anySet.None? && p in t.entries
    ensures var (u, i) := GetSet(aa, threshold, t, p, size); Found(u, p, i) && u.anySet.None?
  {
    WidenKeeps(aa, threshold, t, p, size);
    WidenIsCalm(aa, threshold, t, p, size);
    hide Widen;
    SettledIsFound(Widen(aa, t, p, size), p);
    hide Core;
    hide Settle;
    hide Grow;
  }

  lemma WidenIsCalm(aa: Oracle, threshold: nat, t: Table, p: Pointer, size: nat)
    requires Valid(threshold, t) && t.anySet.None? && p in t.entries
    ensures var u := Widen(aa, t, p, size);
            && AnySetRules(u) && u.anySet.None?
            && forall x | Live(u.sets, x) && u.sets[x].must :: u.sets[x].ptrs != []
  {
    hide Core;
    hide Unmatched;
    hide MergedFor;
    hide Backward;
    hide Grow;
    if size > t.entries[p].size {
      var v := Grow(t, p, size);
      GrownMerges(aa, t, p, size);
      GrowKeeps(t, p, size);
      assert AnySetRules(v) && v.anySet.None?;
      hide AnySetRules;
      MergedForCalm(aa, v, Loc(p, size), Widen(aa, t, p, size), MergeFor(aa, v, Loc(p, size), 0, None).1);
    }
  }

  lemma SettledIsFound(t: Table, p: Pointer)
    requires Core(t) && p in t.entries
    requires AnySetRules(t) && t.anySet.None? && Backward(t.sets)
    requires forall x | Live(t.sets, x) && t.sets[x].must :: t.sets[x].ptrs != []
    ensures Found(Settle(t, p), p, SetOf(t, p)) && Settle(t, p).anySet.None?
  {
    var u := Settle(t, p);
    hide Settle;
    hide Placed;
    hide MayCount;
    hide Root;
    SettleKeeps(t, p);
    SettledCalm(t.sets, u.sets);
    hide SameRoots;
    assert SetOf(u, p) == SetOf(t, p);
    hide SetOf;
    hide Core;
    hide Backward;
    SettledRules(t, u);
    hide AnySetRules;
  }

  lemma SettledRules(t: Table, u: Table)
    requires |u.sets| == |t.sets| && u.anySet == t.anySet && AnySetRules(t)
    requires forall x :: Live(t.sets, x) <==> Live(u.sets, x)
    requires forall x | 0 <= x < |t.sets| :: u.sets[x].must == t.sets[x].must && u.sets[x].any == t.sets[x].any
    ensures AnySetRules(u)
  {
  }

  lemma SettledCalm(a: seq<AliasSet>, b: seq<AliasSet>)
    requires SameRoots(a, b)
    ensures forall x :: Live(a, x) <==> Live(b, x)
    ensures forall x | 0 <= x < |a| :: b[x].must == a[x].must && b[x].any == a[x].any && b[x].ptrs == a[x].ptrs
  {
  }

  lemma GetSetNew(aa: Oracle, threshold: nat, t: Table, p: Pointer, size: nat)
    requires Valid(threshold, t) && t.anySet.None? && p !in t.entries
    ensures var (u, i) := GetSet(aa, threshold, t, p, size); Found(u, p, i) && u.anySet.None?
  {
    var loc := Loc(p, size);
    MergeForMerges(aa, t, loc, 0, None);
    var (v, found) := MergeFor(aa, t, loc, 0, None);
    MergedForCalm(aa, t, loc, v, found);
    if found.Some? {
      AddedIsFound(aa, v, found.value, p, size);
      hide AddPointer;
      hide Core;
      hide Unmatched;
    } else {
      NewSetTakes(aa, v, p, size);
      hide AddPointer;
      hide Core;
      hide Unmatched;
    }
  }

  // A new pointer gets a set of its own.
  lemma NewSetTakes(aa: Oracle, t: Table, p: Pointer, size: nat)
    requires Core(t) && p !in t.entries
    requires forall x | Live(t.sets, x) && t.sets[x].must :: t.sets[x].ptrs != []
    requires AnySetRules(t) && t.anySet.None? && Backward(t.sets)
    ensures Found(AddPointer(aa, PushSet(t, NEW_SET), |t.sets|, p, size), p, |t.sets|)
    ensures AddPointer(aa, PushSet(t, NEW_SET), |t.sets|, p, size).anySet.None?
  {
    NewSetKeeps(t);
    var u := PushSet(t, NEW_SET);
    assert u.sets[|t.sets|].ptrs == [];
    assert AnySetRules(u) && Backward(u.sets);
    AddedIsFound(aa, u, |t.sets|, p, size);
    hide AddPointer;
    hide Core;
  }

  /** Every add keeps the table valid, and the pointer is in the set that is returned. */
  lemma AddKeepsValid(aa: Oracle, threshold: nat, t: Table, p: Pointer, size: nat)
    requires Valid(threshold, t)
    ensures var (u, i) := Add(aa, threshold, t, p, size);
            && Valid(threshold, u) && p in u.entries && SetOf(u, p) == i
            && (t.anySet.Some? ==> u.anySet == t.anySet && i == t.anySet.value)
  {
    if t.anySet.Some? {
      GetSetSaturated(aa, threshold, t, p, size);
    } else if p in t.entries {
      GetSetKnown(aa, threshold, t, p, size);
    } else {
      GetSetNew(aa, threshold, t, p, size);
    }
    var (u, i) := GetSet(aa, threshold, t, p, size);
    if u.anySet.None? {
      MergeAllSaturates(aa, threshold, u);
    }
    hide GetSet;
    hide MergeAll;
    hide Core;
  }

  // ----- What is in a set -----

  lemma MergedIsCore(aa: Oracle, t: Table, loc: Loc, u: Table, f: Option<nat>)
    requires MergedFor(aa, t, loc, 0, None, u, f)
    ensures Core(u) && u.entries == t.entries && (f.Some? ==> Live(u.sets, f.value))
  {
    hide Core;
    hide Aliases;
    hide Unmatched;
  }

  lemma MembersBelong(t: Table)
    requires Core(t)
    ensures forall x, q | 0 <= x < |t.sets| && q in t.sets[x].ptrs :: q in t.entries && SetOf(t, q) == x
  {
    hide Root;
    hide MayCount;
    hide MustSetsAgree;
  }

  lemma MembersAreTracked(t: Table)
    requires Core(t)
    ensures forall x, q | 0 <= x < |t.sets| && q in t.sets[x].ptrs :: q in t.entries
  {
    hide Root;
    hide MayCount;
    hide MustSetsAgree;
  }

  lemma OwnSet(t: Table, p: Pointer)
    requires Core(t) && p in t.entries
    ensures Live(t.sets, SetOf(t, p)) && p in t.sets[SetOf(t, p)].ptrs
    ensures forall x | 0 <= x < |t.sets| && p in t.sets[x].ptrs :: x == SetOf(t, p)
  {
    hide MayCount;
    hide MustSetsAgree;
  }

  lemma CoreIsOrdered(t: Table)
    requires Core(t)
    ensures Ordered(t.sets) && InRange(t)
  {
    hide Ordered;
    hide InRange;
    hide Placed;
    hide MustSetsAgree;
    hide MayCount;
  }

  // ----- Runs -----

  /** An add is the search for a set, and a full merge exactly when that leaves more pointers in may-alias
      sets than the threshold. */
  lemma AddSplits(aa: Oracle, threshold: nat, t: Table, p: Pointer, size: nat)
    requires Valid(threshold, t)
    ensures var u, g := Add(aa, threshold, t, p, size).0, GetSet(aa, threshold, t, p, size).0;
            && g.anySet == t.anySet && u.entries == g.entries
            && (u == g || u.anySet.Some?)
            && (g.totalMay <= threshold ==> u == g)
            && (t.anySet.None? ==> g.totalMay == MayCount(g.sets) && (u.anySet.Some? <==> MayCount(g.sets) > threshold))
  {
    if t.anySet.Some? {
      GetSetSaturated(aa, threshold, t, p, size);
    } else if p in t.entries {
      GetSetKnown(aa, threshold, t, p, size);
    } else {
      GetSetNew(aa, threshold, t, p, size);
    }
    hide GetSet;
    var g := GetSet(aa, threshold, t, p, size).0;
    if g.anySet.None? {
      MergeAllSaturates(aa, threshold, g);
    }
    hide MergeAll;
    hide Core;
  }

  function AddAll(aa: Oracle, threshold: nat, t: Table, adds: seq<Loc>): Table
    requires Valid(threshold, t)
    decreases |adds|
  {
    if adds == [] then t
    else
      AddKeepsValid(aa, threshold, t, adds[0].ptr, adds[0].size);
      AddAll(aa, threshold, Add(aa, threshold, t, adds[0].ptr, adds[0].size).0, adds[1..])
  }

  lemma AddSizes(aa: Oracle, threshold: nat, t: Table, p: Pointer, size: nat)
    requires Valid(threshold, t)
    ensures var u := Add(aa, threshold, t, p, size).0;
            && p in u.entries && At(u, p).size >= size
            && (forall q | q in t.entries :: q in u.entries && At(u, q).size >= At(t, q).size)
            && (p !in t.entries ==> At(u, p).size == size)
            && u.entries.Keys == t.entries.Keys + {p}
  {
    hide Add;
    hide GetSet;
    hide Valid;
    AddSplits(aa, threshold, t, p, size);
    if t.anySet.None? && p in t.entries {
      KnownSizes(aa, threshold, t, p, size);
    } else {
      NewSizes(aa, threshold, t, p, size);
    }
  }

  lemma KnownSizes(aa: Oracle, threshold: nat, t: Table, p: Pointer, size: nat)
    requires Valid(threshold, t) && t.anySet.None? && p in t.entries
    ensures var u := GetSet(aa, threshold, t, p, size).0;
            && u.entries.Keys == t.entries.Keys && At(u, p).size >= size
            && (forall q | q in t.entries :: At(u, q).size >= At(t, q).size)
  {
    WidenKeeps(aa, threshold, t, p, size);
    WidenSizes(aa, t, p, size);
    hide Widen;
    hide MergedFor;
    SettleKeeps(Widen(aa, t, p, size), p);
    hide Settle;
    hide Core;
    hide Unmatched;
    hide Reasonable;
  }

  lemma NewSizes(aa: Oracle, threshold: nat, t: Table, p: Pointer, size: nat)
    requires Valid(threshold, t) && (t.anySet.Some? || p !in t.entries)
    ensures var u := GetSet(aa, threshold, t, p, size).0;
            && u.entries.Keys == t.entries.Keys + {p} && At(u, p).size >= size
            && (forall q | q in t.entries :: At(u, q).size >= At(t, q).size)
            && (p !in t.entries ==> At(u, p).size == size)
  {
    hide Core;
    hide AddPointer;
    hide Backward;
    if t.anySet.Some? {
      hide MergeFor;
      AddPointerFits(t, t.anySet.value);
      if p !in t.entries {
        AddPointerSizes(aa, t, t.anySet.value, p, size);
      }
    } else {
      FreshSizes(aa, threshold, t, p, size);
    }
  }

  lemma FreshSizes(aa: Oracle, threshold: nat, t: Table, p: Pointer, size: nat)
    requires Valid(threshold, t) && t.anySet.None? && p !in t.entries
    ensures var u := GetSet(aa, threshold, t, p, size).0;
            && u.entries.Keys == t.entries.Keys + {p} && At(u, p).size == size
            && (forall q | q in t.entries :: At(u, q).size >= At(t, q).size)
  {
    hide Core;
    hide AddPointer;
    hide Live;
    hide MergeFor;
    hide Aliases;
    var (v, found) := MergeFor(aa, t, Loc(p, size), 0, None);
    if found.Some? {
      MergeForMerges(aa, t, Loc(p, size), 0, None);
      AddPointerFits(v, found.value);
      AddPointerSizes(aa, v, found.value, p, size);
    } else {
      AddPointerSizes(aa, PushSet(v, NEW_SET), |v.sets|, p, size);
    }
  }

  lemma WidenSizes(aa: Oracle, t: Table, p: Pointer, size: nat)
    requires p in t.entries
    ensures var u := Widen(aa, t, p, size);
            && u.entries.Keys == t.entries.Keys && At(u, p).size >= size
            && (forall q | q in t.entries :: At(u, q).size >= At(t, q).size)
  {
    hide MergeFor;
    assert Grow(t, p, size).entries.Keys == t.entries.Keys;
  }

  lemma AddPointerSizes(aa: Oracle, t: Table, i: nat, p: Pointer, size: nat)
    requires i < |t.sets| && p !in t.entries
    requires t.sets[i].ptrs != [] ==> t.sets[i].ptrs[0] in t.entries
    ensures var u := AddPointer(aa, t, i, p, size);
            && u.entries.Keys == t.entries.Keys + {p} && At(u, p).size == size
            && (forall q | q in t.entries :: At(u, q).size >= At(t, q).size)
  {
  }

  lemma {:induction false} RunIsValid(aa: Oracle, threshold: nat, t: Table, adds: seq<Loc>)
    requires Valid(threshold, t)
    ensures Valid(threshold, AddAll(aa, threshold, t, adds))
    decreases |adds|
  {
    hide Valid;
    if adds != [] {
      AddKeepsValid(aa, threshold, t, adds[0].ptr, adds[0].size);
      RunIsValid(aa, threshold, Add(aa, threshold, t, adds[0].ptr, adds[0].size).0, adds[1..]);
    }
  }

  /** In every run of adds the counter is the number of pointers in may-alias sets. Past the
      threshold one live set remains, which holds every pointer and is returned by every later add. */
  lemma {:induction false} RunsSaturate(aa: Oracle, threshold: nat, adds: seq<Loc>, p: Pointer, size: nat)
    ensures Valid(threshold, EMPTY)
    ensures var u := AddAll(aa, threshold, EMPTY, adds);
            && Valid(threshold, u) && u.totalMay == MayCount(u.sets)
            && (u.totalMay > threshold ==> u.anySet.Some?)
            && (u.anySet.Some? ==>
                  && (forall x :: Live(u.sets, x) <==> x == u.anySet.value)
                  && (forall q | q in u.entries :: SetOf(u, q) == u.anySet.value && q in u.sets[u.anySet.value].ptrs)
                  && Add(aa, threshold, u, p, size).1 == u.anySet.value)
  {
    EmptyIsValid(aa, threshold);
    RunIsValid(aa, threshold, EMPTY, adds);
    var u := AddAll(aa, threshold, EMPTY, adds);
    AddKeepsValid(aa, threshold, u, p, size);
    hide Add;
    hide AddAll;
    forall q | q in u.entries && u.anySet.Some?
      ensures SetOf(u, q) == u.anySet.value && q in u.sets[u.anySet.value].ptrs
    {
      assert Live(u.sets, SetOf(u, q));
    }
    hide MayCount;
    hide Root;
  }

  lemma {:induction false} AddAllCons(aa: Oracle, threshold: nat, t: Table, a: Loc, adds: seq<Loc>)
    requires Valid(threshold, t)
    ensures Valid(threshold, Add(aa, threshold, t, a.ptr, a.size).0)
    ensures AddAll(aa, threshold, t, [a] + adds) == AddAll(aa, threshold, Add(aa, threshold, t, a.ptr, a.size).0, adds)
  {
    AddKeepsValid(aa, threshold, t, a.ptr, a.size);
    assert ([a] + adds)[1..] == adds;
  }
}
