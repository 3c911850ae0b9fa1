/** Sets that are kept apart do not alias, as long as no pointer outgrows its set. */
module AliasSetsApart {
  import opened AliasSetTables
  import opened AliasSets
  import opened AliasSetsProofs
  import opened Options

  // ----- Must-alias sets agree -----

  lemma SameShapeAgrees(aa: Oracle, t: Table, u: Table)
    requires Reasonable(aa) && MustSetsAgree(aa, t) && SameShape(t, u)
    ensures MustSetsAgree(aa, u)
  {
    assert forall q :: At(t, q).size <= At(u, q).size;
    hide At;
    hide Root;
    hide Ordered;
    hide InRange;
    forall i, q | Live(u.sets, i) && u.sets[i].must && q in u.sets[i].ptrs
      ensures Agrees(aa, u, u.sets[i].ptrs[0], q)
    {
      assert Live(t.sets, i);
      AgreesGrown(aa, t, u, t.sets[i].ptrs[0], q);
    }
  }

  lemma PushedAgrees(aa: Oracle, t: Table, u: Table, s: AliasSet)
    requires Pushed(t, u, s) && MustSetsAgree(aa, t)
    ensures MustSetsAgree(aa, u)
  {
    hide Root;
    hide Ordered;
    hide InRange;
    assert u.sets[|t.sets|] == s;
    forall i, p | Live(u.sets, i) && u.sets[i].must && p in u.sets[i].ptrs
      ensures Agrees(aa, u, u.sets[i].ptrs[0], p)
    {
      assert Live(t.sets, i);
    }
  }

  lemma {:induction false} MergeForAgrees(aa: Oracle, t: Table, loc: Loc, k: nat, found: Option<nat>)
    requires Reasonable(aa) && MustSetsAgree(aa, t)
    requires k <= |t.sets| && (found.Some? ==> found.value < k && Live(t.sets, found.value))
    ensures MustSetsAgree(aa, MergeFor(aa, t, loc, k, found).0)
    decreases |t.sets| - k
  {
    hide Reasonable;
    hide MustSetsAgree;
    hide Aliases;
    if k == |t.sets| {
    } else if t.sets[k].forward.Some? || !Aliases(aa, t, k, loc) {
      MergeForAgrees(aa, t, loc, k + 1, found);
    } else if found.None? {
      MergeForAgrees(aa, t, loc, k + 1, Some(k));
    } else {
      MergeSetInAgree(aa, t, found.value, k);
      MergeForAgrees(aa, MergeSetIn(aa, t, found.value, k), loc, k + 1, found);
    }
  }

  lemma GrowAgrees(aa: Oracle, t: Table, p: Pointer, size: nat)
    requires Reasonable(aa) && Core(t) && MustSetsAgree(aa, t) && p in t.entries
    ensures MustSetsAgree(aa, Grow(t, p, size))
  {
    GrownShape(t, p, size);
    hide *;
    SameShapeAgrees(aa, t, Grow(t, p, size));
  }

  lemma WidenAgrees(aa: Oracle, t: Table, p: Pointer, size: nat)
    requires Reasonable(aa) && Core(t) && MustSetsAgree(aa, t) && p in t.entries
    ensures MustSetsAgree(aa, Widen(aa, t, p, size))
  {
    hide Reasonable;
    hide MustSetsAgree;
    hide MergeFor;
    GrowAgrees(aa, t, p, size);
    MergeForAgrees(aa, Grow(t, p, size), Loc(p, size), 0, None);
  }

  lemma NewSetAgrees(aa: Oracle, t: Table)
    requires Core(t) && MustSetsAgree(aa, t)
    ensures MustSetsAgree(aa, PushSet(t, NEW_SET))
  {
    PushKeepsCore(t, NEW_SET, t.anySet);
    hide Core;
    hide Pushed;
    PushedAgrees(aa, t, PushSet(t, NEW_SET), NEW_SET);
  }

  lemma SaturatedAgrees(aa: Oracle, t: Table)
    requires AnySetRules(t) && t.anySet.Some?
    ensures MustSetsAgree(aa, t)
  {
  }

  /** Every add leaves every must-alias set at one address. */
  lemma AddKeepsAgreement(aa: Oracle, threshold: nat, t: Table, p: Pointer, size: nat)
    requires Reasonable(aa) && Valid(threshold, t) && MustSetsAgree(aa, t)
    ensures MustSetsAgree(aa, Add(aa, threshold, t, p, size).0)
  {
    AddKeepsValid(aa, threshold, t, p, size);
    AddSplits(aa, threshold, t, p, size);
    var u := Add(aa, threshold, t, p, size).0;
    hide Add;
    if u.anySet.Some? {
      SaturatedAgrees(aa, u);
    } else if p in t.entries {
      GetSetKnownAgrees(aa, threshold, t, p, size);
    } else {
      GetSetNewAgrees(aa, threshold, t, p, size);
    }
    hide *;
  }

  lemma GetSetKnownAgrees(aa: Oracle, threshold: nat, t: Table, p: Pointer, size: nat)
    requires Reasonable(aa) && Valid(threshold, t) && MustSetsAgree(aa, t) && t.anySet.None? && p in t.entries
    ensures MustSetsAgree(aa, GetSet(aa, threshold, t, p, size).0)
  {
    hide Reasonable;
    hide MustSetsAgree;
    WidenKeeps(aa, threshold, t, p, size);
    WidenAgrees(aa, t, p, size);
    hide Widen;
    hide Core;
    SettledAgrees(aa, Widen(aa, t, p, size), p);
    hide Settle;
  }

  lemma SettledAgrees(aa: Oracle, t: Table, p: Pointer)
    requires Reasonable(aa) && Core(t) && MustSetsAgree(aa, t) && p in t.entries
    ensures MustSetsAgree(aa, Settle(t, p))
  {
    SettleIsSameShape(t, p);
    hide *;
    SameShapeAgrees(aa, t, Settle(t, p));
  }

  lemma GetSetNewAgrees(aa: Oracle, threshold: nat, t: Table, p: Pointer, size: nat)
    requires Reasonable(aa) && Valid(threshold, t) && MustSetsAgree(aa, t) && t.anySet.None? && p !in t.entries
    ensures MustSetsAgree(aa, GetSet(aa, threshold, t, p, size).0)
  {
    var loc := Loc(p, size);
    hide Reasonable;
    hide MustSetsAgree;
    MergeForMerges(aa, t, loc, 0, None);
    MergeForAgrees(aa, t, loc, 0, None);
    var (v, found) := MergeFor(aa, t, loc, 0, None);
    hide MergeFor;
    MergedIsCore(aa, t, loc, v, found);
    hide MergedFor;
    if found.Some? {
      MembersAreTracked(v);
      hide Core;
      AddPointerAgrees(aa, v, found.value, p, size);
      hide AddPointer;
    } else {
      NewSetKeeps(v);
      NewSetAgrees(aa, v);
      MembersAreTracked(PushSet(v, NEW_SET));
      hide Core;
      AddPointerAgrees(aa, PushSet(v, NEW_SET), |v.sets|, p, size);
      hide AddPointer;
    }
  }

  // ----- Sets that are kept apart do not alias -----

  // Merging sets cannot bring aliasing pointers into different sets.
  lemma CoarserApart(aa: Oracle, t: Table, u: Table)
    requires Ordered(t.sets) && InRange(t) && Ordered(u.sets) && InRange(u)
    requires Coarser(t, u) && u.entries == t.entries
    ensures Apart(aa, t) ==> Apart(aa, u)
  {
    hide Root;
    hide Ordered;
    forall p, q | p in u.entries && q in u.entries && SetOf(u, p) != SetOf(u, q)
      ensures SetOf(t, p) != SetOf(t, q) && At(u, p) == At(t, p) && At(u, q) == At(t, q)
    {
    }
  }

  lemma ApartIsUnmatched(aa: Oracle, t: Table)
    requires Core(t) && Apart(aa, t)
    ensures Unmatched(aa, t)
  {
    MembersBelong(t);
    hide Core;
    hide SetOf;
    forall i, j | Live(t.sets, i) && Live(t.sets, j) && i != j && t.sets[i].ptrs != [] && t.sets[j].ptrs != []
      ensures aa(At(t, t.sets[i].ptrs[0]), At(t, t.sets[j].ptrs[0])) != MustAlias
    {
      assert t.sets[i].ptrs[0] in t.sets[i].ptrs && t.sets[j].ptrs[0] in t.sets[j].ptrs;
    }
  }

  lemma MergedForApart(aa: Oracle, t: Table, loc: Loc, u: Table, f: Option<nat>)
    requires Core(t) && Apart(aa, t) && MergedFor(aa, t, loc, 0, None, u, f)
    ensures Apart(aa, u)
    ensures FirstIsLargest(t) ==> FirstIsLargest(u)
  {
    ApartIsUnmatched(aa, t);
    hide Aliases;
    hide Placed;
    hide MustSetsAgree;
    hide MayCount;
    hide Root;
    hide Coarser;
    CoarserApart(aa, t, u);
    hide Apart;
    hide Unmatched;
    hide Ordered;
    hide InRange;
  }

  lemma NewSetApart(aa: Oracle, t: Table)
    requires Core(t) && Apart(aa, t) && FirstIsLargest(t)
    ensures Core(PushSet(t, NEW_SET)) && Apart(aa, PushSet(t, NEW_SET)) && FirstIsLargest(PushSet(t, NEW_SET))
  {
    var u := PushSet(t, NEW_SET);
    assert t.anySet.Some? ==> t.anySet.value <= |t.sets|;
    hide Core;
    PushKeepsCore(t, NEW_SET, t.anySet);
    PushedApart(aa, t, u);
    PushedFirst(t, u);
  }

  lemma PushedApart(aa: Oracle, t: Table, u: Table)
    requires Pushed(t, u, NEW_SET) && Apart(aa, t)
    ensures Apart(aa, u)
  {
    hide Root;
    hide Ordered;
    assert forall q :: At(u, q) == At(t, q);
    hide At;
  }

  lemma PushedFirst(t: Table, u: Table)
    requires Pushed(t, u, NEW_SET) && FirstIsLargest(t)
    ensures FirstIsLargest(u)
  {
    hide Root;
    hide Ordered;
    hide InRange;
    assert forall q :: At(u, q) == At(t, q);
    hide At;
    assert u.sets[|t.sets|].ptrs == [];
    forall x, q | Live(u.sets, x) && u.sets[x].must && q in u.sets[x].ptrs
      ensures q in u.entries && At(u, q).size <= At(u, u.sets[x].ptrs[0]).size
    {
      assert Live(t.sets, x) && u.sets[x] == t.sets[x];
    }
  }

  lemma SettleApart(aa: Oracle, t: Table, p: Pointer)
    requires Core(t) && p in t.entries
    ensures Ordered(Settle(t, p).sets) && InRange(Settle(t, p))
    ensures Apart(aa, t) ==> Apart(aa, Settle(t, p))
    ensures FirstIsLargest(t) <==> FirstIsLargest(Settle(t, p))
  {
    SettleKeeps(t, p);
    SettledCalm(t.sets, Settle(t, p).sets);
    SettledFirst(t, Settle(t, p));
    hide Settle;
    hide FirstIsLargest;
    hide Placed;
    hide MustSetsAgree;
    hide MayCount;
    hide Root;
  }

  lemma SettledFirst(t: Table, u: Table)
    requires |u.sets| == |t.sets| && u.entries.Keys == t.entries.Keys
    requires forall x :: Live(t.sets, x) <==> Live(u.sets, x)
    requires forall x | 0 <= x < |t.sets| :: u.sets[x].must == t.sets[x].must && u.sets[x].ptrs == t.sets[x].ptrs
    requires forall q | q in t.entries :: At(u, q) == At(t, q)
    ensures FirstIsLargest(t) <==> FirstIsLargest(u)
  {
    assert forall q :: At(u, q) == At(t, q);
    if FirstIsLargest(t) {
      forall x, q | Live(u.sets, x) && u.sets[x].must && q in u.sets[x].ptrs
        ensures q in u.entries && At(u, q).size <= At(u, u.sets[x].ptrs[0]).size
      {
        assert Live(t.sets, x);
      }
    }
    if FirstIsLargest(u) {
      forall x, q | Live(t.sets, x) && t.sets[x].must && q in t.sets[x].ptrs
        ensures q in t.entries && At(t, q).size <= At(t, t.sets[x].ptrs[0]).size
      {
        assert Live(u.sets, x);
      }
    }
  }

  lemma GetSetNewApart(aa: Oracle, threshold: nat, t: Table, p: Pointer, size: nat)
    requires Reasonable(aa) && Valid(threshold, t) && t.anySet.None? && p !in t.entries
    requires MustSetsAgree(aa, t) && Apart(aa, t) && FirstIsLargest(t)
    ensures var u := GetSet(aa, threshold, t, p, size).0;
            Ordered(u.sets) && InRange(u) && Apart(aa, u) && FirstIsLargest(u)
  {
    var loc := Loc(p, size);
    hide Reasonable;
    hide MustSetsAgree;
    MergeForMerges(aa, t, loc, 0, None);
    MergeForAgrees(aa, t, loc, 0, None);
    var (v, found) := MergeFor(aa, t, loc, 0, None);
    MergedForApart(aa, t, loc, v, found);
    hide MergeFor;
    if found.Some? {
      AddPointerApart(aa, v, found.value, p, size);
      hide AddPointer;
      hide Core;
      hide Unmatched;
      hide Apart;
      hide FirstIsLargest;
    } else {
      NewSetTakesApart(aa, v, p, size);
      hide AddPointer;
      hide Core;
      hide Unmatched;
      hide Apart;
      hide FirstIsLargest;
    }
  }

  lemma NewSetTakesApart(aa: Oracle, t: Table, p: Pointer, size: nat)
    requires Reasonable(aa) && Core(t) && p !in t.entries
    requires MustSetsAgree(aa, t) && Apart(aa, t) && FirstIsLargest(t)
    requires forall x | Live(t.sets, x) :: !Aliases(aa, t, x, Loc(p, size))
    ensures var u := AddPointer(aa, PushSet(t, NEW_SET), |t.sets|, p, size);
            Ordered(u.sets) && InRange(u) && Apart(aa, u) && FirstIsLargest(u)
  {
    var u := PushSet(t, NEW_SET);
    NewSetKeeps(t);
    NewSetApart(aa, t);
    NewSetAgrees(aa, t);
    hide MustSetsAgree;
    assert forall x | Live(t.sets, x) :: Aliases(aa, u, x, Loc(p, size)) == Aliases(aa, t, x, Loc(p, size)) by {
      hide Core;
      hide Reasonable;
    }
    AddPointerApart(aa, u, |t.sets|, p, size);
    hide AddPointer;
    hide Core;
    hide Apart;
    hide FirstIsLargest;
  }

  // A tracked location that aliases itself is found in its own set.
  lemma OwnSetAliases(aa: Oracle, t: Table, p: Pointer)
    requires Core(t) && MustSetsAgree(aa, t) && p in t.entries && aa(At(t, p), At(t, p)) != NoAlias
    ensures Aliases(aa, t, SetOf(t, p), At(t, p))
  {
    var i := SetOf(t, p);
    OwnSet(t, p);
    hide SetOf;
    hide At;
    var s := t.sets[i];
    if s.must {
      assert Agrees(aa, t, s.ptrs[0], p);
    } else {
      var k :| 0 <= k < |s.ptrs| && s.ptrs[k] == p;
      assert aa(At(t, p), At(t, s.ptrs[k])) != NoAlias;
    }
  }

  // A location that does not alias itself is taken by no set.
  lemma UnseenAliasesNothing(aa: Oracle, t: Table, loc: Loc)
    requires Reasonable(aa) && aa(loc, loc) == NoAlias && forall x | 0 <= x < |t.sets| :: !t.sets[x].any
    ensures forall x | 0 <= x < |t.sets| :: !Aliases(aa, t, x, loc)
    ensures forall b :: aa(loc, b) == NoAlias && aa(b, loc) == NoAlias
  {
    hide Same;
    hide At;
    assert forall b :: aa(loc, b) == NoAlias && aa(b, loc) == NoAlias;
  }

  // Only the set of the grown pointer may have a member larger than its first one.
  lemma GrownFirst(t: Table, p: Pointer, size: nat)
    requires Core(t) && p in t.entries && FirstIsLargest(t) && size > t.entries[p].size
    ensures Core(Grow(t, p, size))
    ensures forall x, q | Live(t.sets, x) && t.sets[x].must && x != SetOf(t, p) && q in t.sets[x].ptrs ::
              At(Grow(t, p, size), q).size <= At(Grow(t, p, size), t.sets[x].ptrs[0]).size
  {
    var u := Grow(t, p, size);
    GrownShape(t, p, size);
    hide Grow;
    SameShapeCore(t, u);
    hide SameShape;
    MembersBelong(t);
    hide Core;
    hide SetOf;
    forall x, q | Live(t.sets, x) && t.sets[x].must && x != SetOf(t, p) && q in t.sets[x].ptrs
      ensures At(u, q).size <= At(u, t.sets[x].ptrs[0]).size
    {
      assert t.sets[x].ptrs[0] in t.sets[x].ptrs;
    }
  }

  lemma AliasesElsewhere(aa: Oracle, t: Table, p: Pointer, size: nat, x: nat, loc: Loc)
    requires Core(t) && p in t.entries && Live(t.sets, x) && x != SetOf(t, p)
    ensures Aliases(aa, Grow(t, p, size), x, loc) == Aliases(aa, t, x, loc)
  {
    var s, u := t.sets[x], Grow(t, p, size);
    assert forall k | 0 <= k < |s.ptrs| ::
           s.ptrs[k] in s.ptrs && s.ptrs[k] != p && At(u, s.ptrs[k]) == At(t, s.ptrs[k]);
    hide Core;
    hide Root;
  }

  // The table after the size of a pointer was raised and before anything is merged.
  ghost predicate Grown(aa: Oracle, t: Table, v: Table, loc: Loc) {
    && Core(t) && Core(v) && MustSetsAgree(aa, v)
    && loc.ptr in t.entries && loc == At(v, loc.ptr) && loc.size > At(t, loc.ptr).size
    && v.sets == t.sets && v.anySet == t.anySet && v.entries.Keys == t.entries.Keys
    && v.entries[loc.ptr].home == t.entries[loc.ptr].home
    && (forall q | q in t.entries && q != loc.ptr :: v.entries[q] == t.entries[q])
    && (forall x | Live(t.sets, x) && x != SetOf(t, loc.ptr) :: Aliases(aa, v, x, loc) == Aliases(aa, t, x, loc))
    && (forall x, q | Live(t.sets, x) && t.sets[x].must && x != SetOf(t, loc.ptr) && q in t.sets[x].ptrs ::
          At(v, q).size <= At(v, t.sets[x].ptrs[0]).size)
    && FirstIsLargest(t) && t.anySet.None? && (forall x | 0 <= x < |t.sets| :: !t.sets[x].any)
  }

  lemma GrowIsGrown(aa: Oracle, t: Table, p: Pointer, size: nat)
    requires Reasonable(aa) && Core(t) && MustSetsAgree(aa, t) && FirstIsLargest(t)
    requires p in t.entries && size > t.entries[p].size
    requires AnySetRules(t) && t.anySet.None?
    ensures Grown(aa, t, Grow(t, p, size), Loc(p, size))
  {
    var v, loc := Grow(t, p, size), Loc(p, size);
    hide Grow;
    hide Aliases;
    hide Placed;
    hide MustSetsAgree;
    hide MayCount;
    hide Root;
    hide Reasonable;
    GrowKeeps(t, p, size);
    GrowAgrees(aa, t, p, size);
    GrownFirst(t, p, size);
    forall x | Live(t.sets, x) && x != SetOf(t, p)
      ensures Aliases(aa, v, x, loc) == Aliases(aa, t, x, loc)
    {
      AliasesElsewhere(aa, t, p, size, x, loc);
    }
    hide Core;
    hide SetOf;
    hide Live;
  }

  /** After its size grew, a pointer is apart from every set but its own: the merge went through
      all sets it aliases now, and its own set is among them. */
  lemma WidenApart(aa: Oracle, threshold: nat, t: Table, p: Pointer, size: nat)
    requires Reasonable(aa) && Valid(threshold, t) && t.anySet.None? && p in t.entries
    requires MustSetsAgree(aa, t) && Apart(aa, t) && FirstIsLargest(t)
    ensures var u := Widen(aa, t, p, size); Ordered(u.sets) && InRange(u) && Apart(aa, u)
  {
    hide Grow;
    hide Grown;
    hide MergedFor;
    hide MergeFor;
    hide Unmatched;
    hide Apart;
    hide Reasonable;
    hide Placed;
    hide MustSetsAgree;
    hide MayCount;
    hide FirstIsLargest;
    hide AnySetRules;
    hide Backward;
    if size > t.entries[p].size {
      var v := Grow(t, p, size);
      GrowIsGrown(aa, t, p, size);
      GrownMerges(aa, t, p, size);
      WidenAgrees(aa, t, p, size);
      MergedForGrownApart(aa, t, v, Loc(p, size),
                          MergeFor(aa, v, Loc(p, size), 0, None).0, MergeFor(aa, v, Loc(p, size), 0, None).1);
    }
  }

  lemma MergedForGrownApart(aa: Oracle, t: Table, v: Table, loc: Loc, u: Table, f: Option<nat>)
    requires Reasonable(aa) && Grown(aa, t, v, loc) && Apart(aa, t) && MustSetsAgree(aa, u)
    requires MergedFor(aa, v, loc, 0, None, u, f)
    ensures Ordered(u.sets) && InRange(u) && Apart(aa, u)
  {
    assert Core(u);
    if aa(loc, loc) == NoAlias {
      UnseenStays(aa, t, v, loc, u, f);
      UnseenApart(aa, t, v, loc);
    } else {
      WidenFindsOwn(aa, v, loc, u, f);
      hide FirstIsLargest;
      hide Aliases;
      hide Placed;
      hide MustSetsAgree;
      hide MayCount;
      forall q, r | q in u.entries && r in u.entries && SetOf(u, q) != SetOf(u, r)
        ensures aa(At(u, q), At(u, r)) == NoAlias
      {
        WidenApartPair(aa, t, v, loc, u, f, q, r);
      }
    }
  }

  // For a location that does not alias itself nothing is merged.
  lemma UnseenStays(aa: Oracle, t: Table, v: Table, loc: Loc, u: Table, f: Option<nat>)
    requires Reasonable(aa) && Grown(aa, t, v, loc) && aa(loc, loc) == NoAlias
    requires MergedFor(aa, v, loc, 0, None, u, f)
    ensures u == v && forall x | Live(t.sets, x) && x != SetOf(t, loc.ptr) :: !Aliases(aa, t, x, loc)
  {
    UnseenAliasesNothing(aa, v, loc);
    hide Aliases;
    hide Core;
    hide Reasonable;
    hide FirstIsLargest;
    hide Unmatched;
  }

  lemma UnseenApart(aa: Oracle, t: Table, v: Table, loc: Loc)
    requires Reasonable(aa) && Grown(aa, t, v, loc) && Apart(aa, t) && aa(loc, loc) == NoAlias
    ensures Apart(aa, v)
  {
    UnseenAliasesNothing(aa, v, loc);
    hide Aliases;
    hide Reasonable;
    hide FirstIsLargest;
    forall q, r | q in v.entries && r in v.entries && SetOf(v, q) != SetOf(v, r)
      ensures aa(At(v, q), At(v, r)) == NoAlias
    {
      if q != loc.ptr && r != loc.ptr {
        assert At(v, q) == At(t, q) && At(v, r) == At(t, r);
      }
    }
    hide Core;
  }

  lemma WidenApartPair(aa: Oracle, t: Table, v: Table, loc: Loc, u: Table, f: Option<nat>, q: Pointer, r: Pointer)
    requires Reasonable(aa) && Grown(aa, t, v, loc) && Apart(aa, t) && MustSetsAgree(aa, u)
    requires MergedFor(aa, v, loc, 0, None, u, f) && f == Some(SetOf(u, loc.ptr))
    requires q in u.entries && r in u.entries && SetOf(u, q) != SetOf(u, r)
    ensures aa(At(u, q), At(u, r)) == NoAlias
  {
    if q == loc.ptr || r == loc.ptr {
      WidenApartFrom(aa, v, loc, u, f, if q == loc.ptr then r else q);
    } else {
      hide Unmatched;
      hide Aliases;
      hide Reasonable;
      hide Placed;
      hide MustSetsAgree;
      hide MayCount;
      hide Root;
      assert SetOf(t, q) != SetOf(t, r);
      assert At(u, q) == At(t, q) && At(u, r) == At(t, r);
    }
  }

  lemma WidenFindsOwn(aa: Oracle, t: Table, loc: Loc, u: Table, f: Option<nat>)
    requires Reasonable(aa) && Core(t) && MustSetsAgree(aa, t) && loc.ptr in t.entries && loc == At(t, loc.ptr)
    requires aa(loc, loc) != NoAlias
    requires MergedFor(aa, t, loc, 0, None, u, f)
    ensures f == Some(SetOf(u, loc.ptr))
  {
    OwnSetAliases(aa, t, loc.ptr);
    var own, r := SetOf(t, loc.ptr), SetOf(u, loc.ptr);
    hide Reasonable;
    hide Unmatched;
    hide MayCount;
    hide MustSetsAgree;
    assert Live(u.sets, r);
    if r == own && u.sets[r] == t.sets[r] {
      assert Aliases(aa, u, r, loc);
    }
    hide Aliases;
  }

  lemma WidenApartFrom(aa: Oracle, t: Table, loc: Loc, u: Table, f: Option<nat>, q: Pointer)
    requires Reasonable(aa) && MustSetsAgree(aa, u) && Core(t) && loc.ptr in t.entries && loc == At(t, loc.ptr)
    requires MergedFor(aa, t, loc, 0, None, u, f) && f == Some(SetOf(u, loc.ptr))
    requires forall x, q | Live(t.sets, x) && t.sets[x].must && x != SetOf(t, loc.ptr) && q in t.sets[x].ptrs ::
               At(t, q).size <= At(t, t.sets[x].ptrs[0]).size
    requires q in u.entries && SetOf(u, q) != SetOf(u, loc.ptr)
    ensures aa(loc, At(u, q)) == NoAlias && aa(At(u, q), loc) == NoAlias
  {
    var x := SetOf(u, q);
    assert Live(u.sets, x) && f != Some(x);
    assert u.sets[x] == t.sets[x];
    assert q in u.sets[x].ptrs;
    assert x != SetOf(t, loc.ptr) by {
      assert SetOf(t, q) == x;
    }
    AskedThroughFirst(aa, u, x, loc);
  }

  // ----- Where growing a pointer goes wrong -----

  /** A pointer of a must-alias set outgrows the first pointer of its set, and no other set
      aliases it at its new size. The set goes on being asked through its first pointer, whose
      size is not raised. */
  ghost predicate OutgrowsFirst(aa: Oracle, t: Table, p: Pointer, size: nat)
    requires Ordered(t.sets) && InRange(t)
  {
    && t.anySet.None? && p in t.entries
    && var own := SetOf(t, p);
       && t.sets[own].must && t.sets[own].ptrs != []
       && t.sets[own].ptrs[0] != p && size > At(t, t.sets[own].ptrs[0]).size
       && forall x | Live(t.sets, x) && x != own :: !Aliases(aa, t, x, Loc(p, size))
  }

  // At its new size the pointer must alias the first pointer of another must-alias set, and no third set.
  ghost predicate Twin(aa: Oracle, t: Table, p: Pointer, size: nat, x: nat)
    requires Ordered(t.sets) && InRange(t) && p in t.entries
  {
    var own := SetOf(t, p);
    && Live(t.sets, x) && x != own && t.sets[x].must && t.sets[x].ptrs != []
    && (if own < x then aa(Loc(p, size), At(t, t.sets[x].ptrs[0]))
        else aa(At(t, t.sets[x].ptrs[0]), Loc(p, size))) == MustAlias
    && forall y | Live(t.sets, y) && y != own && y != x :: !Aliases(aa, t, y, Loc(p, size))
  }

  /** A pointer was first accessed at a size at which it aliased nothing, say for no bytes at all, and
      got a set of its own. Now it grows, and its set merges with a must-alias set at the same
      address into one must-alias set. The earlier of the two gives the first pointer, whatever the sizes. */
  ghost predicate OutgrowsTwin(aa: Oracle, t: Table, p: Pointer, size: nat)
    requires Ordered(t.sets) && InRange(t)
  {
    && t.anySet.None? && p in t.entries && size > At(t, p).size
    && var own := SetOf(t, p);
       && t.sets[own].must && t.sets[own].ptrs != [] && t.sets[own].ptrs[0] == p
       && exists x :: Twin(aa, t, p, size, x) && TwinIsSmaller(t, p, size, x)
  }

  // The earlier set has the smaller first pointer.
  predicate TwinIsSmaller(t: Table, p: Pointer, size: nat, x: nat)
    requires Ordered(t.sets) && InRange(t) && p in t.entries && x < |t.sets| && t.sets[x].ptrs != []
  {
    var other := At(t, t.sets[x].ptrs[0]).size;
    if SetOf(t, p) < x then size < other else other < size
  }

  ghost predicate Outgrows(aa: Oracle, t: Table, p: Pointer, size: nat)
    requires Ordered(t.sets) && InRange(t)
  {
    OutgrowsFirst(aa, t, p, size) || OutgrowsTwin(aa, t, p, size)
  }

  lemma WidenFirst(aa: Oracle, threshold: nat, t: Table, p: Pointer, size: nat)
    requires Reasonable(aa) && Valid(threshold, t) && t.anySet.None? && p in t.entries
    requires MustSetsAgree(aa, t) && Apart(aa, t) && FirstIsLargest(t)
    ensures FirstIsLargest(Widen(aa, t, p, size)) <==> !Outgrows(aa, t, p, size)
    ensures Outgrows(aa, t, p, size) ==> Widen(aa, t, p, size).totalMay == t.totalMay
  {
    hide Grow;
    hide MergeFor;
    hide MergedFor;
    hide FirstIsLargest;
    hide Placed;
    hide MustSetsAgree;
    hide MayCount;
    hide Backward;
    hide Apart;
    hide Unmatched;
    if size > t.entries[p].size {
      var v, loc := Grow(t, p, size), Loc(p, size);
      var (u, f) := MergeFor(aa, v, loc, 0, None);
      GrownMerges(aa, t, p, size);
      GrowKeeps(t, p, size);
      GrowIsGrown(aa, t, p, size);
      hide AnySetRules;
      hide Grown;
      hide OutgrowsFirst;
      hide OutgrowsTwin;
      hide Reasonable;
      hide Core;
      if aa(loc, loc) == NoAlias {
        UnseenFirst(aa, t, v, loc, u, f);
      } else if Unmatched(aa, v) {
        UnmatchedFirst(aa, t, v, loc, u, f);
      } else {
        MatchedFirst(aa, t, v, loc);
      }
    } else {
      OwnSet(t, p);
      SmallDoesNotOutgrow(aa, t, p, size);
    }
  }

  // What a raised size leaves as it was.
  ghost predicate Raised(t: Table, v: Table, loc: Loc) {
    && Ordered(t.sets) && InRange(t) && v.sets == t.sets && t.anySet.None? && v.entries.Keys == t.entries.Keys
    && loc.ptr in t.entries && loc == At(v, loc.ptr) && loc.size > At(t, loc.ptr).size
    && (forall q :: q != loc.ptr ==> At(v, q) == At(t, q))
    && (forall x, q | 0 <= x < |t.sets| && q in t.sets[x].ptrs :: q in t.entries && SetOf(t, q) == x)
    && Live(t.sets, SetOf(t, loc.ptr))
  }

  lemma GrownIsRaised(aa: Oracle, t: Table, v: Table, loc: Loc)
    requires Grown(aa, t, v, loc)
    ensures Raised(t, v, loc)
  {
    MembersBelong(t);
    hide Core;
    hide Aliases;
    hide FirstIsLargest;
  }

  lemma UnseenFirst(aa: Oracle, t: Table, v: Table, loc: Loc, u: Table, f: Option<nat>)
    requires Reasonable(aa) && Grown(aa, t, v, loc) && aa(loc, loc) == NoAlias
    requires MergedFor(aa, v, loc, 0, None, u, f)
    ensures Ordered(t.sets) && InRange(t) && u == v
    ensures FirstIsLargest(u) <==> !Outgrows(aa, t, loc.ptr, loc.size)
  {
    hide Grown;
    hide MergedFor;
    hide Reasonable;
    hide FirstIsLargest;
    hide Aliases;
    GrownIsRaised(aa, t, v, loc);
    UnseenStays(aa, t, v, loc, u, f);
    GrownFirstIsLargest(aa, t, v, loc);
    RaisedIsOwn(t, v, loc);
    hide Raised;
    UnseenHasNoTwin(aa, t, loc.ptr, loc.size);
    hide OutgrowsTwin;
    hide SetOf;
  }

  lemma RaisedIsOwn(t: Table, v: Table, loc: Loc)
    requires Raised(t, v, loc)
    ensures Ordered(t.sets) && InRange(t) && t.anySet.None? && loc.ptr in t.entries
    ensures Live(t.sets, SetOf(t, loc.ptr)) && At(v, loc.ptr) == loc
  {
    hide Root;
  }

  lemma UnseenHasNoTwin(aa: Oracle, t: Table, p: Pointer, size: nat)
    requires Reasonable(aa) && Ordered(t.sets) && InRange(t) && aa(Loc(p, size), Loc(p, size)) == NoAlias
    ensures !OutgrowsTwin(aa, t, p, size)
  {
    hide Aliases;
    hide SetOf;
    hide Reasonable;
    if OutgrowsTwin(aa, t, p, size) {
      var x :| Twin(aa, t, p, size, x) && TwinIsSmaller(t, p, size, x);
      TwinAliases(aa, t, p, size, x);
      assert false;
    }
  }

  lemma UnmatchedFirst(aa: Oracle, t: Table, v: Table, loc: Loc, u: Table, f: Option<nat>)
    requires Reasonable(aa) && Grown(aa, t, v, loc) && aa(loc, loc) != NoAlias && Unmatched(aa, v)
    requires MergedFor(aa, v, loc, 0, None, u, f)
    ensures Ordered(t.sets) && InRange(t)
    ensures FirstIsLargest(u) <==> !Outgrows(aa, t, loc.ptr, loc.size)
    ensures Outgrows(aa, t, loc.ptr, loc.size) ==> u == v
  {
    GrownIsRaised(aa, t, v, loc);
    GrownIsOwn(aa, t, v, loc);
    UnmatchedHasNoTwin(aa, t, v, loc);
    hide Grown;
    hide OutgrowsFirst;
    hide OutgrowsTwin;
    hide Core;
    WidenFindsOwn(aa, v, loc, u, f);
    hide MergedFor;
    hide Reasonable;
    hide Unmatched;
    hide FirstIsLargest;
    if OutgrowsFirst(aa, t, loc.ptr, loc.size) {
      OutgrownFirst(aa, t, v, loc, u, f);
    } else {
      NotOutgrownFirst(aa, t, v, loc, u, f);
    }
  }

  lemma UnmatchedHasNoTwin(aa: Oracle, t: Table, v: Table, loc: Loc)
    requires Raised(t, v, loc) && Unmatched(aa, v)
    ensures !OutgrowsTwin(aa, t, loc.ptr, loc.size)
  {
    hide Root;
    hide InRange;
    hide Ordered;
    hide At;
    hide Aliases;
    var own := SetOf(t, loc.ptr);
    hide SetOf;
    forall x: nat | Twin(aa, t, loc.ptr, loc.size, x) && t.sets[own].ptrs != []
      ensures t.sets[own].ptrs[0] != loc.ptr
    {
      assert t.sets[x].ptrs[0] in t.sets[x].ptrs;
      assert Live(v.sets, own) && Live(v.sets, x);
    }
  }

  lemma GrownIsOwn(aa: Oracle, t: Table, v: Table, loc: Loc)
    requires Grown(aa, t, v, loc)
    ensures Core(v) && MustSetsAgree(aa, v) && loc.ptr in v.entries && loc == At(v, loc.ptr)
  {
    hide Core;
    hide Aliases;
    hide FirstIsLargest;
  }

  lemma SmallDoesNotOutgrow(aa: Oracle, t: Table, p: Pointer, size: nat)
    requires Ordered(t.sets) && InRange(t) && FirstIsLargest(t) && p in t.entries && size <= t.entries[p].size
    requires p in t.sets[SetOf(t, p)].ptrs
    ensures !Outgrows(aa, t, p, size)
  {
    hide Aliases;
    hide Root;
  }

  // When no other set aliases the location, nothing is merged; and when no sets match and the set
  // found is still a must-alias set, nothing was merged.
  lemma MergedNothing(aa: Oracle, v: Table, loc: Loc, u: Table, f: Option<nat>, own: nat)
    requires MergedFor(aa, v, loc, 0, None, u, f) && f.Some?
    ensures (forall x | Live(v.sets, x) && x != own :: !Aliases(aa, v, x, loc)) ==> u == v && f == Some(own)
    ensures Unmatched(aa, v) && u.sets[f.value].must ==>
              u == v && forall x | Live(v.sets, x) && f != Some(x) :: !Aliases(aa, v, x, loc)
  {
    hide Core;
    hide Unmatched;
    hide Aliases;
    hide Root;
    assert Live(v.sets, f.value);
  }

  // In the grown table, the first pointer is the largest unless its set was outgrown.
  lemma GrownFirstIsLargest(aa: Oracle, t: Table, v: Table, loc: Loc)
    requires Grown(aa, t, v, loc)
    ensures var s := t.sets[SetOf(t, loc.ptr)];
            && s.ptrs != []
            && (FirstIsLargest(v) <==> !(s.must && s.ptrs[0] != loc.ptr && loc.size > At(t, s.ptrs[0]).size))
  {
    var own := SetOf(t, loc.ptr);
    OwnSet(t, loc.ptr);
    MembersAreTracked(t);
    hide Core;
    hide Root;
    hide Aliases;
    GrownFirstByOwn(t, v, loc, own);
  }

  lemma GrownFirstByOwn(t: Table, v: Table, loc: Loc, own: nat)
    requires FirstIsLargest(t) && v.sets == t.sets && v.entries.Keys == t.entries.Keys
    requires Live(t.sets, own) && loc.ptr in t.sets[own].ptrs && loc.ptr in t.entries && loc == At(v, loc.ptr)
    requires loc.size > At(t, loc.ptr).size
    requires forall q | q in t.entries && q != loc.ptr :: v.entries[q] == t.entries[q]
    requires forall x, q | 0 <= x < |t.sets| && q in t.sets[x].ptrs :: q in t.entries
    requires forall x, q | Live(t.sets, x) && t.sets[x].must && x != own && q in t.sets[x].ptrs ::
               At(v, q).size <= At(v, t.sets[x].ptrs[0]).size
    ensures var s := t.sets[own];
            FirstIsLargest(v) <==> !(s.must && s.ptrs[0] != loc.ptr && loc.size > At(t, s.ptrs[0]).size)
  {
    var s := t.sets[own];
    assert s.ptrs[0] in s.ptrs;
    assert s.ptrs[0] != loc.ptr ==> At(v, s.ptrs[0]) == At(t, s.ptrs[0]);
    if !(s.must && s.ptrs[0] != loc.ptr && loc.size > At(t, s.ptrs[0]).size) {
      forall x, q | Live(v.sets, x) && v.sets[x].must && q in v.sets[x].ptrs
        ensures q in v.entries && At(v, q).size <= At(v, v.sets[x].ptrs[0]).size
      {
        if x == own {
          assert At(t, q).size <= At(t, s.ptrs[0]).size && At(t, loc.ptr).size <= At(t, s.ptrs[0]).size;
        }
      }
    }
  }

  lemma OutgrownFirst(aa: Oracle, t: Table, v: Table, loc: Loc, u: Table, f: Option<nat>)
    requires Grown(aa, t, v, loc) && OutgrowsFirst(aa, t, loc.ptr, loc.size)
    requires MergedFor(aa, v, loc, 0, None, u, f) && f == Some(SetOf(u, loc.ptr))
    ensures !FirstIsLargest(u) && u == v
  {
    MergedNothing(aa, v, loc, u, f, SetOf(t, loc.ptr));
    GrownFirstIsLargest(aa, t, v, loc);
    hide Core;
    hide Aliases;
    hide MergedFor;
    hide FirstIsLargest;
    hide Root;
  }

  lemma NotOutgrownFirst(aa: Oracle, t: Table, v: Table, loc: Loc, u: Table, f: Option<nat>)
    requires Grown(aa, t, v, loc) && Unmatched(aa, v) && !OutgrowsFirst(aa, t, loc.ptr, loc.size)
    requires MergedFor(aa, v, loc, 0, None, u, f) && f == Some(SetOf(u, loc.ptr))
    ensures FirstIsLargest(u)
  {
    var own := SetOf(t, loc.ptr);
    MergedNothing(aa, v, loc, u, f, own);
    GrownFirstIsLargest(aa, t, v, loc);
    if u.sets[f.value].must {
      assert f == Some(own);
      assert loc.ptr in t.sets[own].ptrs;
      hide Core;
      hide Aliases;
      hide MergedFor;
      hide FirstIsLargest;
    } else {
      OthersAreFine(aa, t, v, loc, u, f);
    }
  }

  lemma OthersAreFine(aa: Oracle, t: Table, v: Table, loc: Loc, u: Table, f: Option<nat>)
    requires Grown(aa, t, v, loc)
    requires MergedFor(aa, v, loc, 0, None, u, f) && f == Some(SetOf(u, loc.ptr)) && !u.sets[f.value].must
    ensures FirstIsLargest(u)
  {
    var own := SetOf(t, loc.ptr);
    OwnSet(v, loc.ptr);
    OwnSet(u, loc.ptr);
    MembersAreTracked(u);
    assert SetOf(v, loc.ptr) == own;
    hide Core;
    hide Root;
    hide Aliases;
    hide Unmatched;
    hide FirstIsLargest;
    OthersAreLargest(t, v, u, f.value, own, loc.ptr) by {
      assert forall x | Live(u.sets, x) && f != Some(x) :: u.sets[x] == v.sets[x];
      assert forall x | Live(u.sets, x) :: Live(t.sets, x);
    }
  }

  lemma OthersAreLargest(t: Table, v: Table, u: Table, f: nat, own: nat, p: Pointer)
    requires v.sets == t.sets && |u.sets| == |v.sets| && u.entries == v.entries && Live(u.sets, f) && !u.sets[f].must
    requires own < |v.sets| && p in v.sets[own].ptrs
    requires forall x | 0 <= x < |u.sets| && p in u.sets[x].ptrs :: x == f
    requires forall x | Live(u.sets, x) && x != f :: u.sets[x] == v.sets[x] && Live(t.sets, x)
    requires forall x, q | 0 <= x < |u.sets| && q in u.sets[x].ptrs :: q in u.entries
    requires forall x, q | Live(t.sets, x) && t.sets[x].must && x != own && q in t.sets[x].ptrs ::
               At(v, q).size <= At(v, t.sets[x].ptrs[0]).size
    ensures FirstIsLargest(u)
  {
    forall x, q | Live(u.sets, x) && u.sets[x].must && q in u.sets[x].ptrs
      ensures q in u.entries && At(u, q).size <= At(u, u.sets[x].ptrs[0]).size
    {
      assert x != f && u.sets[x] == v.sets[x];
      assert x != own;
    }
  }

  // ----- A grown pointer at the address of another set -----

  // The pointer that grew is the one that matches: it is the first of its set.
  lemma MatchedIsOwn(aa: Oracle, t: Table, v: Table, loc: Loc)
    requires Raised(t, v, loc) && Apart(aa, t) && !Unmatched(aa, v)
    ensures var s := t.sets[SetOf(t, loc.ptr)]; s.ptrs != [] && s.ptrs[0] == loc.ptr
  {
    var i, j :| && Live(v.sets, i) && Live(v.sets, j) && i != j && v.sets[i].ptrs != [] && v.sets[j].ptrs != []
                && aa(At(v, v.sets[i].ptrs[0]), At(v, v.sets[j].ptrs[0])) == MustAlias;
    var p, q := v.sets[i].ptrs[0], v.sets[j].ptrs[0];
    hide Unmatched;
    hide Root;
    hide InRange;
    hide Ordered;
    hide At;
    assert p in t.sets[i].ptrs && q in t.sets[j].ptrs;
    assert SetOf(t, p) == i && SetOf(t, q) == j;
    hide SetOf;
    assert p == loc.ptr || q == loc.ptr;
  }

  // Only sets whose first pointers must alias end up in a must-alias set.
  lemma {:induction false} MergeForMust(aa: Oracle, t: Table, loc: Loc, k: nat, found: Option<nat>)
    requires k <= |t.sets| && (found.Some? ==> found.value < k)
    ensures var (u, f) := MergeFor(aa, t, loc, k, found);
            && (found.Some? ==> f == found)
            && (found.None? && f.Some? ==>
                  Live(t.sets, f.value) && forall x | k <= x < f.value && Live(t.sets, x) :: !Aliases(aa, t, x, loc))
            && (f.Some? && u.sets[f.value].must ==>
                  && t.sets[f.value].must
                  && forall x | k <= x && Live(t.sets, x) && f != Some(x) && Aliases(aa, t, x, loc) ::
                       MatchedSets(aa, t, f.value, x))
    decreases |t.sets| - k
  {
    if k == |t.sets| {
    } else if t.sets[k].forward.Some? || !Aliases(aa, t, k, loc) {
      MergeForMust(aa, t, loc, k + 1, found);
    } else if found.None? {
      MergeForMust(aa, t, loc, k + 1, Some(k));
    } else {
      hide Aliases;
      hide MatchedSets;
      var i := found.value;
      var u := MergeSetIn(aa, t, i, k);
      MergeForMust(aa, u, loc, k + 1, found);
      if MergeFor(aa, u, loc, k + 1, found).0.sets[i].must {
        MergeSetInMatched(aa, t, loc, i, k);
      }
    }
  }

  lemma MergeSetInMatched(aa: Oracle, t: Table, loc: Loc, i: nat, k: nat)
    requires i < k < |t.sets| && MergeSetIn(aa, t, i, k).sets[i].must
    requires var u := MergeSetIn(aa, t, i, k);
             forall x | k < x && Live(u.sets, x) && Aliases(aa, u, x, loc) :: MatchedSets(aa, u, i, x)
    ensures t.sets[i].must
    ensures forall x | k <= x && Live(t.sets, x) && Aliases(aa, t, x, loc) :: MatchedSets(aa, t, i, x)
  {
    var u := MergeSetIn(aa, t, i, k);
    MergeSetInShape(aa, t, i, k);
    hide MergeSetIn;
    assert forall q :: At(u, q) == At(t, q);
    hide At;
    forall x | k <= x && Live(t.sets, x) && Aliases(aa, t, x, loc)
      ensures MatchedSets(aa, t, i, x)
    {
      if x != k {
        assert u.sets[x] == t.sets[x];
        assert Live(u.sets, x) && Aliases(aa, u, x, loc);
        assert MatchedSets(aa, u, i, x);
      }
    }
  }

  // Two must-alias sets whose first pointers must alias.
  ghost predicate MatchedSets(aa: Oracle, t: Table, i: nat, j: nat) {
    && i < |t.sets| && j < |t.sets| && t.sets[i].must && t.sets[j].must && t.sets[i].ptrs != [] && t.sets[j].ptrs != []
    && aa(At(t, t.sets[i].ptrs[0]), At(t, t.sets[j].ptrs[0])) == MustAlias
  }

  lemma {:induction false} MergeForSkips(aa: Oracle, t: Table, loc: Loc, k: nat, m: nat, found: Option<nat>)
    requires k <= m <= |t.sets| && (found.Some? ==> found.value < |t.sets|)
    requires forall x | k <= x < m && Live(t.sets, x) :: !Aliases(aa, t, x, loc)
    ensures MergeFor(aa, t, loc, k, found) == MergeFor(aa, t, loc, m, found)
    decreases m - k
  {
    if k < m {
      MergeForSkips(aa, t, loc, k + 1, m, found);
    }
  }

  // When exactly two live sets alias a location, they are merged.
  lemma {:induction false} MergeForTwo(aa: Oracle, t: Table, loc: Loc, i: nat, j: nat)
    requires i < j && Live(t.sets, i) && Live(t.sets, j)
    requires forall x | Live(t.sets, x) :: Aliases(aa, t, x, loc) <==> x == i || x == j
    ensures MergeFor(aa, t, loc, 0, None) == (MergeSetIn(aa, t, i, j), Some(i))
  {
    var u := MergeSetIn(aa, t, i, j);
    MergeForSkips(aa, t, loc, 0, i, None);
    MergeForSkips(aa, t, loc, i + 1, j, Some(i));
    MergeSetInShape(aa, t, i, j);
    hide MergeSetIn;
    assert forall q :: At(u, q) == At(t, q);
    forall x | j + 1 <= x < |u.sets| && Live(u.sets, x)
      ensures !Aliases(aa, u, x, loc)
    {
      assert u.sets[x] == t.sets[x];
      assert Live(t.sets, x);
    }
    hide Aliases;
    MergeForSkips(aa, u, loc, j + 1, |u.sets|, Some(i));
  }

  lemma TwinAliases(aa: Oracle, t: Table, p: Pointer, size: nat, x: nat)
    requires Reasonable(aa) && Ordered(t.sets) && InRange(t) && p in t.entries && Twin(aa, t, p, size, x)
    ensures Aliases(aa, t, x, Loc(p, size)) && aa(Loc(p, size), Loc(p, size)) != NoAlias
    ensures forall y | Twin(aa, t, p, size, y) :: y == x
  {
    hide SetOf;
    hide At;
    hide Same;
  }

  // With a twin the two sets are merged, into a must-alias set.
  lemma {:induction false} TwinMerges(aa: Oracle, t: Table, v: Table, loc: Loc, x: nat)
    requires Reasonable(aa) && Grown(aa, t, v, loc) && Twin(aa, t, loc.ptr, loc.size, x)
    requires var s := t.sets[SetOf(t, loc.ptr)]; s.must && s.ptrs != [] && s.ptrs[0] == loc.ptr
    ensures var own := SetOf(t, loc.ptr);
            var i, j := if own < x then own else x, if own < x then x else own;
            && MatchedSets(aa, v, i, j)
            && MergeFor(aa, v, loc, 0, None) == (MergeSetIn(aa, v, i, j), Some(i))
  {
    var own := SetOf(t, loc.ptr);
    var i, j := if own < x then own else x, if own < x then x else own;
    GrownIsRaised(aa, t, v, loc);
    TwinCompares(aa, t, v, loc, x, i, j);
    TwinAliases(aa, t, loc.ptr, loc.size, x);
    GrownAliases(aa, t, v, loc);
    hide Grown;
    hide Reasonable;
    hide SetOf;
    hide Aliases;
    hide MatchedSets;
    hide MergeFor;
    assert v.sets == t.sets;
    hide Raised;
    assert forall y | Live(v.sets, y) :: Aliases(aa, v, y, loc) <==> y == i || y == j;
    hide Twin;
    MergeForTwo(aa, v, loc, i, j);
  }

  // In the merged set the first pointer is the largest unless it comes from the smaller set.
  lemma {:induction false} TwinFirst(aa: Oracle, t: Table, v: Table, loc: Loc, x: nat)
    requires Reasonable(aa) && Grown(aa, t, v, loc) && Twin(aa, t, loc.ptr, loc.size, x)
    requires var s := t.sets[SetOf(t, loc.ptr)]; s.must && s.ptrs != [] && s.ptrs[0] == loc.ptr
    ensures var u := MergeFor(aa, v, loc, 0, None).0;
            && u.totalMay == v.totalMay
            && (FirstIsLargest(u) <==> !TwinIsSmaller(t, loc.ptr, loc.size, x))
  {
    var own := SetOf(t, loc.ptr);
    var i, j := if own < x then own else x, if own < x then x else own;
    GrownIsRaised(aa, t, v, loc);
    TwinMerges(aa, t, v, loc, x);
    GrownFirstIsLargest(aa, t, v, loc);
    hide Grown;
    hide MergeFor;
    hide Reasonable;
    hide Aliases;
    hide FirstIsLargest;
    TwinCompares(aa, t, v, loc, x, i, j);
    hide Twin;
    hide Raised;
    hide SetOf;
    hide TwinIsSmaller;
    MergedFirst(aa, v, i, j);
  }

  lemma TwinCompares(aa: Oracle, t: Table, v: Table, loc: Loc, x: nat, i: nat, j: nat)
    requires Raised(t, v, loc) && Twin(aa, t, loc.ptr, loc.size, x)
    requires var s := t.sets[SetOf(t, loc.ptr)]; s.must && s.ptrs != [] && s.ptrs[0] == loc.ptr
    requires var own := SetOf(t, loc.ptr); (i, j) == if own < x then (own, x) else (x, own)
    ensures i < j && Live(v.sets, i) && Live(v.sets, j) && MatchedSets(aa, v, i, j)
    ensures forall x, q | 0 <= x < |v.sets| && q in v.sets[x].ptrs :: q in v.entries
    ensures TwinIsSmaller(t, loc.ptr, loc.size, x)
            <==> At(v, v.sets[i].ptrs[0]).size < At(v, v.sets[j].ptrs[0]).size
  {
    hide Root;
    hide InRange;
    hide Ordered;
    hide Aliases;
    assert t.sets[x].ptrs[0] in t.sets[x].ptrs;
    hide SetOf;
    hide At;
  }

  lemma MergedFirst(aa: Oracle, t: Table, i: nat, j: nat)
    requires FirstIsLargest(t) && MatchedSets(aa, t, i, j) && i != j && Live(t.sets, i) && Live(t.sets, j)
    requires forall x, q | 0 <= x < |t.sets| && q in t.sets[x].ptrs :: q in t.entries
    ensures MergeSetIn(aa, t, i, j).totalMay == t.totalMay
    ensures FirstIsLargest(MergeSetIn(aa, t, i, j)) <==> At(t, t.sets[j].ptrs[0]).size <= At(t, t.sets[i].ptrs[0]).size
  {
    var u := MergeSetIn(aa, t, i, j);
    var a, b := t.sets[i].ptrs, t.sets[j].ptrs;
    assert u.sets[i].must && u.sets[i].ptrs == a + b && u.sets[i].ptrs[0] == a[0];
    assert forall q :: At(u, q) == At(t, q);
    assert forall x :: Live(u.sets, x) <==> Live(t.sets, x) && x != j;
    assert forall x | Live(u.sets, x) && x != i :: u.sets[x] == t.sets[x];
    hide MergeSetIn;
    hide At;
    assert b[0] in u.sets[i].ptrs;
    if At(t, b[0]).size <= At(t, a[0]).size {
      forall x, q | Live(u.sets, x) && u.sets[x].must && q in u.sets[x].ptrs
        ensures q in u.entries && At(u, q).size <= At(u, u.sets[x].ptrs[0]).size
      {
        assert x == i ==> q in a || q in b;
      }
    }
  }

  // When a set stays a must-alias set although it merges with another, that one is a twin.
  lemma MergedMustIsTwin(aa: Oracle, t: Table, v: Table, loc: Loc, f: nat, y: nat)
    requires Reasonable(aa) && Raised(t, v, loc) && Apart(aa, t)
    requires forall x, l | Live(t.sets, x) && x != SetOf(t, loc.ptr) :: Aliases(aa, v, x, l) == Aliases(aa, t, x, l)
    requires var s := t.sets[SetOf(t, loc.ptr)]; s.ptrs != [] && s.ptrs[0] == loc.ptr
    requires Live(t.sets, f) && Aliases(aa, v, SetOf(t, loc.ptr), loc)
    requires forall x | Live(t.sets, x) && f != x && Aliases(aa, v, x, loc) :: f < x && MatchedSets(aa, v, f, x)
    requires Live(t.sets, y) && y != SetOf(t, loc.ptr) && Aliases(aa, v, y, loc)
    ensures t.sets[SetOf(t, loc.ptr)].must && Twin(aa, t, loc.ptr, loc.size, y)
  {
    var own := SetOf(t, loc.ptr);
    forall a, b | Live(t.sets, a) && Live(t.sets, b) && a != own && b != own && a != b && t.sets[a].ptrs != []
                  && t.sets[b].ptrs != []
      ensures aa(At(v, t.sets[a].ptrs[0]), At(v, t.sets[b].ptrs[0])) == NoAlias
    {
      OthersApart(aa, t, v, loc, a, b);
    }
    hide Apart;
    hide Root;
    hide InRange;
    hide Ordered;
    hide At;
    hide Aliases;
    hide Reasonable;
    hide SetOf;
    if f == own {
      forall z | Live(t.sets, z) && z != own && z != y
        ensures !Aliases(aa, t, z, loc)
      {
        if Aliases(aa, v, z, loc) {
          ThreeMatch(aa, loc, At(v, t.sets[y].ptrs[0]), At(v, t.sets[z].ptrs[0]));
          assert false;
        }
      }
    } else {
      assert MatchedSets(aa, v, f, own);
      assert y == f;
    }
    assert t.sets[y].ptrs[0] in t.sets[y].ptrs;
  }

  lemma OthersApart(aa: Oracle, t: Table, v: Table, loc: Loc, a: nat, b: nat)
    requires Raised(t, v, loc) && Apart(aa, t)
    requires Live(t.sets, a) && Live(t.sets, b) && a != b && t.sets[a].ptrs != [] && t.sets[b].ptrs != []
    requires a != SetOf(t, loc.ptr) && b != SetOf(t, loc.ptr)
    ensures aa(At(v, t.sets[a].ptrs[0]), At(v, t.sets[b].ptrs[0])) == NoAlias
  {
    hide Root;
    hide InRange;
    hide Ordered;
    hide At;
    hide SetOf;
    assert t.sets[a].ptrs[0] in t.sets[a].ptrs && t.sets[b].ptrs[0] in t.sets[b].ptrs;
  }

  // Two locations that a third one must alias are at one address.
  lemma ThreeMatch(aa: Oracle, loc: Loc, a: Loc, b: Loc)
    requires Reasonable(aa) && aa(loc, a) == MustAlias && aa(loc, b) == MustAlias
    ensures aa(a, b) != NoAlias
  {
    assert Same(aa, loc.ptr, a.ptr) && Same(aa, loc.ptr, b.ptr);
    assert aa(a, loc) != NoAlias && aa(b, loc) != NoAlias;
    assert aa(a, a) != NoAlias && aa(b, b) != NoAlias;
    SameSymmetric(aa, loc.ptr, a.ptr);
    SameTransitive(aa, a.ptr, loc.ptr, b.ptr);
    hide Same;
    SeenAlias(aa, a, b);
  }

  lemma SameSymmetric(aa: Oracle, p: Pointer, q: Pointer)
    requires Same(aa, p, q)
    ensures Same(aa, q, p)
  {
  }

  lemma {:induction false} MatchedFirst(aa: Oracle, t: Table, v: Table, loc: Loc)
    requires Reasonable(aa) && Grown(aa, t, v, loc) && Apart(aa, t) && !Unmatched(aa, v) && aa(loc, loc) != NoAlias
    requires MergedFor(aa, v, loc, 0, None, MergeFor(aa, v, loc, 0, None).0, MergeFor(aa, v, loc, 0, None).1)
    ensures Ordered(t.sets) && InRange(t)
    ensures var u := MergeFor(aa, v, loc, 0, None).0;
            && (FirstIsLargest(u) <==> !Outgrows(aa, t, loc.ptr, loc.size))
            && (Outgrows(aa, t, loc.ptr, loc.size) ==> u.totalMay == v.totalMay)
  {
    var (u, f) := MergeFor(aa, v, loc, 0, None);
    GrownIsRaised(aa, t, v, loc);
    GrownIsOwn(aa, t, v, loc);
    MatchedIsOwn(aa, t, v, loc);
    WidenFindsOwn(aa, v, loc, u, f);
    hide MergeFor;
    hide Grown;
    hide MergedFor;
    hide Core;
    hide Unmatched;
    hide Apart;
    hide Reasonable;
    hide FirstIsLargest;
    hide SetOf;
    hide Aliases;
    if OutgrowsTwin(aa, t, loc.ptr, loc.size) {
      var x :| Twin(aa, t, loc.ptr, loc.size, x) && TwinIsSmaller(t, loc.ptr, loc.size, x);
      TwinFirst(aa, t, v, loc, x);
    } else if !u.sets[f.value].must {
      OthersAreFine(aa, t, v, loc, u, f);
    } else {
      MatchedMustFirst(aa, t, v, loc, u, f);
    }
  }

  lemma {:induction false} MatchedMustFirst(aa: Oracle, t: Table, v: Table, loc: Loc, u: Table, f: Option<nat>)
    requires Reasonable(aa) && Grown(aa, t, v, loc) && Apart(aa, t) && aa(loc, loc) != NoAlias
    requires (u, f) == MergeFor(aa, v, loc, 0, None)
    requires MergedFor(aa, v, loc, 0, None, u, f) && f.Some? && u.sets[f.value].must
    requires Raised(t, v, loc) && !OutgrowsTwin(aa, t, loc.ptr, loc.size)
    requires var s := t.sets[SetOf(t, loc.ptr)]; s.ptrs != [] && s.ptrs[0] == loc.ptr
    ensures FirstIsLargest(u)
  {
    var own := SetOf(t, loc.ptr);
    MergeForMust(aa, v, loc, 0, None);
    GrownAliases(aa, t, v, loc);
    hide MergeFor;
    if y: nat :| Live(t.sets, y) && y != own && Aliases(aa, v, y, loc) {
      hide Grown;
      hide MergedFor;
      hide Apart;
      hide Reasonable;
      hide FirstIsLargest;
      hide SetOf;
      hide Aliases;
      MergedMustIsTwin(aa, t, v, loc, f.value, y);
      TwinFirst(aa, t, v, loc, y);
    } else {
      MergedNothing(aa, v, loc, u, f, own);
      GrownFirstIsLargest(aa, t, v, loc);
      hide *;
    }
  }

  lemma GrownAliases(aa: Oracle, t: Table, v: Table, loc: Loc)
    requires Grown(aa, t, v, loc) && aa(loc, loc) != NoAlias
    ensures Ordered(t.sets) && InRange(t) && Aliases(aa, v, SetOf(t, loc.ptr), loc)
    ensures forall x, l | Live(t.sets, x) && x != SetOf(t, loc.ptr) :: Aliases(aa, v, x, l) == Aliases(aa, t, x, l)
  {
    GrownIsRaised(aa, t, v, loc);
    GrownIsOwn(aa, t, v, loc);
    SameSetOf(aa, t, v, loc);
    hide Grown;
    OwnSetAliases(aa, v, loc.ptr);
    hide Core;
    hide Aliases;
    RaisedAliases(aa, t, v, loc);
    hide Root;
  }

  lemma SameSetOf(aa: Oracle, t: Table, v: Table, loc: Loc)
    requires Grown(aa, t, v, loc)
    ensures Ordered(t.sets) && InRange(t) && SetOf(v, loc.ptr) == SetOf(t, loc.ptr)
  {
    hide Placed;
    hide MustSetsAgree;
    hide MayCount;
    hide Root;
    hide Aliases;
    hide FirstIsLargest;
  }

  lemma RaisedAliases(aa: Oracle, t: Table, v: Table, loc: Loc)
    requires Raised(t, v, loc)
    ensures forall x, l | Live(t.sets, x) && x != SetOf(t, loc.ptr) :: Aliases(aa, v, x, l) == Aliases(aa, t, x, l)
  {
    hide Root;
    hide InRange;
    hide Ordered;
    hide SetOf;
    hide At;
    forall x, l | Live(t.sets, x) && x != SetOf(t, loc.ptr)
      ensures Aliases(aa, v, x, l) == Aliases(aa, t, x, l)
    {
      var s := t.sets[x];
      assert forall k | 0 <= k < |s.ptrs| :: s.ptrs[k] in s.ptrs && At(v, s.ptrs[k]) == At(t, s.ptrs[k]);
    }
  }

  /** Sets that are kept apart do not alias, although must-alias sets are asked through one
      member only: every add keeps this, as long as first pointers are the largest. And first
      pointers stay the largest exactly when no pointer outgrows its set. */
  lemma AddKeepsApart(aa: Oracle, threshold: nat, t: Table, p: Pointer, size: nat)
    requires Reasonable(aa) && Valid(threshold, t) && MustSetsAgree(aa, t) && Apart(aa, t) && FirstIsLargest(t)
    ensures var u := Add(aa, threshold, t, p, size).0;
            && Ordered(u.sets) && InRange(u) && MustSetsAgree(aa, u) && Apart(aa, u)
            && (FirstIsLargest(u) <==> !Outgrows(aa, t, p, size))
  {
    hide Reasonable;
    hide MustSetsAgree;
    AddKeepsValid(aa, threshold, t, p, size);
    AddKeepsAgreement(aa, threshold, t, p, size);
    AddSplits(aa, threshold, t, p, size);
    var u, g := Add(aa, threshold, t, p, size).0, GetSet(aa, threshold, t, p, size).0;
    hide Add;
    if u.anySet.Some? {
      SaturatedApart(aa, u);
      OutgrowsStays(aa, threshold, t, p, size);
    } else if p in t.entries {
      GetSetKnownApart(aa, threshold, t, p, size);
    } else {
      GetSetNewApart(aa, threshold, t, p, size);
    }
    hide GetSet;
    hide Core;
    hide Apart;
    hide FirstIsLargest;
  }

  lemma GetSetKnownApart(aa: Oracle, threshold: nat, t: Table, p: Pointer, size: nat)
    requires Reasonable(aa) && Valid(threshold, t) && MustSetsAgree(aa, t) && Apart(aa, t) && FirstIsLargest(t)
    requires t.anySet.None? && p in t.entries
    ensures var u := GetSet(aa, threshold, t, p, size).0;
            && Ordered(u.sets) && InRange(u) && Apart(aa, u)
            && (FirstIsLargest(u) <==> !Outgrows(aa, t, p, size))
  {
    WidenKeeps(aa, threshold, t, p, size);
    WidenApart(aa, threshold, t, p, size);
    WidenFirst(aa, threshold, t, p, size);
    hide Widen;
    SettleApart(aa, Widen(aa, t, p, size), p);
    hide Reasonable;
    hide Settle;
    hide Core;
    hide Apart;
    hide FirstIsLargest;
    hide Outgrows;
  }

  // The add that outgrows a set makes no may-alias set.
  lemma OutgrowsStays(aa: Oracle, threshold: nat, t: Table, p: Pointer, size: nat)
    requires Reasonable(aa) && Valid(threshold, t) && MustSetsAgree(aa, t) && Apart(aa, t) && FirstIsLargest(t)
    ensures Outgrows(aa, t, p, size) ==> Add(aa, threshold, t, p, size).0.anySet.None?
  {
    AddSplits(aa, threshold, t, p, size);
    if Outgrows(aa, t, p, size) {
      WidenFirst(aa, threshold, t, p, size);
      hide Add;
      hide Core;
      hide Widen;
      hide Outgrows;
      assert GetSet(aa, threshold, t, p, size).0.totalMay == t.totalMay;
    }
  }

  lemma SaturatedApart(aa: Oracle, t: Table)
    requires Core(t) && AnySetRules(t) && t.anySet.Some?
    ensures Apart(aa, t) && FirstIsLargest(t)
  {
    hide Placed;
    hide MayCount;
    assert forall p | p in t.entries :: Live(t.sets, SetOf(t, p));
    hide Root;
  }
}
