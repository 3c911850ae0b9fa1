/** Runs of adds that keep aliasing pointers together. */
module AliasSetRuns {
  import opened AliasSetTables
  import opened AliasSets
  import opened AliasSetsProofs
  import opened Options
  import opened AliasSetsApart

  // ----- Runs, for oracles that are reasonable everywhere -----

  /** In no add of the run does a pointer outgrow its set. */
  ghost predicate Calm(aa: Oracle, threshold: nat, t: Table, adds: seq<Loc>)
    requires Valid(threshold, t)
    decreases |adds|
  {
    if adds == [] then true
    else
      AddKeepsValid(aa, threshold, t, adds[0].ptr, adds[0].size);
      && !Outgrows(aa, t, adds[0].ptr, adds[0].size)
      && Calm(aa, threshold, Add(aa, threshold, t, adds[0].ptr, adds[0].size).0, adds[1..])
  }

  lemma StepKeepsApart(aa: Oracle, threshold: nat, t: Table, p: Pointer, size: nat)
    requires Reasonable(aa) && Valid(threshold, t) && MustSetsAgree(aa, t) && Apart(aa, t) && FirstIsLargest(t)
    requires !Outgrows(aa, t, p, size)
    ensures var u := Add(aa, threshold, t, p, size).0;
            && Valid(threshold, u) && MustSetsAgree(aa, u) && Apart(aa, u) && FirstIsLargest(u)
            && (t.anySet.Some? ==> u.anySet == t.anySet)
            && p in u.entries && At(u, p).size >= size
            && (forall q | q in t.entries :: q in u.entries && At(u, q).size >= At(t, q).size)
            && u.entries.Keys == t.entries.Keys + {p}
  {
    hide MustSetsAgree;
    AddKeepsValid(aa, threshold, t, p, size);
    AddSizes(aa, threshold, t, p, size);
    AddKeepsApart(aa, threshold, t, p, size);
    hide Add;
    hide Core;
    hide Apart;
    hide FirstIsLargest;
    hide Outgrows;
    hide Reasonable;
  }

  // `u` has every pointer of `t` and of the run, with sizes that are no smaller.
  ghost predicate Takes(t: Table, adds: seq<Loc>, u: Table) {
    && (forall q | q in t.entries :: q in u.entries && At(u, q).size >= At(t, q).size)
    && (forall i | 0 <= i < |adds| :: adds[i].ptr in u.entries && At(u, adds[i].ptr).size >= adds[i].size)
  }

  lemma TakesOne(t: Table, adds: seq<Loc>, u: Table)
    requires adds != [] && adds[0].ptr in u.entries && At(u, adds[0].ptr).size >= adds[0].size
    requires forall q | q in t.entries :: q in u.entries && At(u, q).size >= At(t, q).size
    ensures Takes(t, adds[..1], u)
  {
  }

  lemma TakesCons(t: Table, adds: seq<Loc>, u: Table, v: Table)
    requires adds != [] && Takes(t, adds[..1], u) && Takes(u, adds[1..], v)
    ensures Takes(t, adds, v)
  {
    assert adds[..1][0] == adds[0];
    assert forall i | 0 < i < |adds| :: adds[i] == adds[1..][i - 1];
  }

  lemma {:induction false} RunKeepsApart(aa: Oracle, threshold: nat, t: Table, adds: seq<Loc>)
    requires Reasonable(aa) && Valid(threshold, t) && MustSetsAgree(aa, t) && Apart(aa, t) && FirstIsLargest(t)
    requires Calm(aa, threshold, t, adds)
    ensures var u := AddAll(aa, threshold, t, adds);
            && Valid(threshold, u) && Apart(aa, u) && FirstIsLargest(u) && Takes(t, adds, u)
            && (t.anySet.Some? ==> u.anySet == t.anySet)
    decreases |adds|
  {
    if adds != [] {
      hide MustSetsAgree;
      var p, size := adds[0].ptr, adds[0].size;
      var u := Add(aa, threshold, t, p, size).0;
      StepKeepsApart(aa, threshold, t, p, size);
      TakesOne(t, adds, u);
      hide Add;
      hide Core;
      hide AnySetRules;
      hide Backward;
      hide Live;
      hide Apart;
      hide FirstIsLargest;
      hide Reasonable;
      hide Outgrows;
      RunKeepsApart(aa, threshold, u, adds[1..]);
      TakesCons(t, adds, u, AddAll(aa, threshold, u, adds[1..]));
      hide Takes;
    }
  }

  // Every pointer is always added with the same size.
  ghost predicate FixedSizes(adds: seq<Loc>) {
    forall i, j | 0 <= i < |adds| && 0 <= j < |adds| && adds[i].ptr == adds[j].ptr :: adds[i].size == adds[j].size
  }

  // No pointer of a run grows beyond the size the table already has for it.
  ghost predicate Fits(t: Table, adds: seq<Loc>) {
    && FixedSizes(adds)
    && forall i | 0 <= i < |adds| && adds[i].ptr in t.entries :: adds[i].size <= At(t, adds[i].ptr).size
  }

  lemma FitsTail(t: Table, adds: seq<Loc>, u: Table)
    requires adds != [] && Fits(t, adds) && Takes(t, adds[..1], u)
    requires u.entries.Keys == t.entries.Keys + {adds[0].ptr}
    ensures Fits(u, adds[1..])
  {
    assert adds[..1][0] == adds[0];
    forall i | 0 <= i < |adds[1..]| && adds[1..][i].ptr in u.entries
      ensures adds[1..][i].size <= At(u, adds[1..][i].ptr).size
    {
      assert adds[1..][i] == adds[i + 1];
      assert adds[i + 1].ptr == adds[0].ptr ==> adds[i + 1].size == adds[0].size;
    }
  }

  lemma {:induction false} FittingRunsAreCalm(aa: Oracle, threshold: nat, t: Table, adds: seq<Loc>)
    requires Reasonable(aa) && Valid(threshold, t) && MustSetsAgree(aa, t) && Apart(aa, t) && FirstIsLargest(t)
    requires Fits(t, adds)
    ensures Calm(aa, threshold, t, adds)
    decreases |adds|
  {
    if adds != [] {
      hide MustSetsAgree;
      var p, size := adds[0].ptr, adds[0].size;
      var u := Add(aa, threshold, t, p, size).0;
      SmallAddsDoNotOutgrow(aa, t, p, size);
      StepKeepsApart(aa, threshold, t, p, size);
      TakesOne(t, adds, u);
      FitsTail(t, adds, u);
      hide Add;
      hide Core;
      hide AnySetRules;
      hide Backward;
      hide Live;
      hide Apart;
      hide FirstIsLargest;
      hide Reasonable;
      hide Outgrows;
      hide Fits;
      FittingRunsAreCalm(aa, threshold, u, adds[1..]);
    }
  }

  lemma SmallAddsDoNotOutgrow(aa: Oracle, t: Table, p: Pointer, size: nat)
    requires Core(t) && FirstIsLargest(t)
    requires p in t.entries ==> size <= At(t, p).size
    ensures !Outgrows(aa, t, p, size)
  {
    if p in t.entries {
      OwnSet(t, p);
    }
    hide Core;
  }

  // ----- Oracles that are reasonable where they are asked -----

  // As far as locations in use go, `p` and `q` are at the same address.
  ghost predicate SameInUse(aa: Oracle, used: Loc -> bool, p: Pointer, q: Pointer) {
    && (forall u: nat :: used(Loc(p, u)) <==> used(Loc(q, u)))
    && (forall u: nat, r: Loc | used(Loc(p, u)) && used(r) ::
          aa(Loc(p, u), r) == NoAlias <==> aa(Loc(q, u), r) == NoAlias)
  }

  /** The laws of a reasonable oracle, for the locations in use alone. These must include the first
      pointer of a must-alias set at the sizes of the others. */
  ghost predicate ReasonableInUse(aa: Oracle, used: Loc -> bool) {
    && (forall a: Loc, b: Loc | used(a) && used(b) :: aa(a, b) == NoAlias <==> aa(b, a) == NoAlias)
    && (forall a: Loc, b: Loc | used(a) && used(b) && aa(a, b) != NoAlias :: aa(a, a) != NoAlias)
    && (forall p: Pointer, s: nat, u: nat, b: Loc | s <= u && used(Loc(p, s)) && used(Loc(p, u)) && used(b) ::
          aa(Loc(p, s), b) != NoAlias ==> aa(Loc(p, u), b) != NoAlias)
    && (forall a: Loc, b: Loc | used(a) && used(b) && aa(a, b) == MustAlias :: SameInUse(aa, used, a.ptr, b.ptr))
  }

  // The location of the same pointer with the largest size in use that is no larger.
  function RoundDown(used: Loc -> bool, a: Loc): (r: Option<Loc>)
    ensures r.Some? ==> used(r.value) && r.value.ptr == a.ptr && r.value.size <= a.size
    ensures used(a) ==> r == Some(a)
    decreases a.size
  {
    if used(a) then Some(a) else if a.size == 0 then None else RoundDown(used, Loc(a.ptr, a.size - 1))
  }

  function Answer(aa: Oracle, a: Option<Loc>, b: Option<Loc>): AliasResult {
    if a.Some? && b.Some? then aa(a.value, b.value) else NoAlias
  }

  /** The oracle that answers for the locations in use only: any other size is rounded down. */
  function Rounded(aa: Oracle, used: Loc -> bool): Oracle {
    (a: Loc, b: Loc) => Answer(aa, RoundDown(used, a), RoundDown(used, b))
  }

  lemma {:induction false} RoundDownGrows(used: Loc -> bool, p: Pointer, s: nat, u: nat)
    requires s <= u && RoundDown(used, Loc(p, s)).Some?
    ensures RoundDown(used, Loc(p, u)).Some?
    ensures RoundDown(used, Loc(p, s)).value.size <= RoundDown(used, Loc(p, u)).value.size
    decreases u
  {
    if s < u && !used(Loc(p, u)) {
      RoundDownGrows(used, p, s, u - 1);
    }
  }

  lemma {:induction false} RoundDownSame(used: Loc -> bool, p: Pointer, q: Pointer, size: nat)
    requires forall u: nat :: used(Loc(p, u)) <==> used(Loc(q, u))
    ensures var a, b := RoundDown(used, Loc(p, size)), RoundDown(used, Loc(q, size));
            a.Some? == b.Some? && (a.Some? ==> a.value.size == b.value.size)
  {
    if size > 0 {
      RoundDownSame(used, p, q, size - 1);
    }
  }

  lemma RoundedIsReasonable(aa: Oracle, used: Loc -> bool)
    requires ReasonableInUse(aa, used)
    ensures Reasonable(Rounded(aa, used))
  {
    var bb := Rounded(aa, used);
    forall p: Pointer, s: nat, u: nat, b: Loc | s <= u && bb(Loc(p, s), b) != NoAlias
      ensures bb(Loc(p, u), b) != NoAlias
    {
      RoundedGrows(aa, used, p, s, u, b);
    }
    forall a: Loc, b: Loc | bb(a, b) == MustAlias
      ensures Same(bb, a.ptr, b.ptr)
    {
      RoundedMust(aa, used, a, b);
    }
    forall a: Loc, b: Loc
      ensures bb(a, b) == NoAlias <==> bb(b, a) == NoAlias
      ensures bb(a, b) != NoAlias ==> bb(a, a) != NoAlias
    {
      RoundedSymmetric(aa, used, a, b);
    }
  }

  lemma RoundedSymmetric(aa: Oracle, used: Loc -> bool, a: Loc, b: Loc)
    requires ReasonableInUse(aa, used)
    ensures var bb := Rounded(aa, used);
            (bb(a, b) == NoAlias <==> bb(b, a) == NoAlias) && (bb(a, b) != NoAlias ==> bb(a, a) != NoAlias)
  {
    var r, s := RoundDown(used, a), RoundDown(used, b);
    hide RoundDown;
  }

  lemma RoundedGrows(aa: Oracle, used: Loc -> bool, p: Pointer, s: nat, u: nat, b: Loc)
    requires ReasonableInUse(aa, used) && s <= u && Rounded(aa, used)(Loc(p, s), b) != NoAlias
    ensures Rounded(aa, used)(Loc(p, u), b) != NoAlias
  {
    RoundDownGrows(used, p, s, u);
    var r, q, c := RoundDown(used, Loc(p, s)), RoundDown(used, Loc(p, u)), RoundDown(used, b);
    hide RoundDown;
    assert r.value == Loc(p, r.value.size) && q.value == Loc(p, q.value.size);
  }

  lemma RoundedMust(aa: Oracle, used: Loc -> bool, a: Loc, b: Loc)
    requires ReasonableInUse(aa, used) && Rounded(aa, used)(a, b) == MustAlias
    ensures Same(Rounded(aa, used), a.ptr, b.ptr)
  {
    var r, s := RoundDown(used, a), RoundDown(used, b);
    hide RoundDown;
    assert SameInUse(aa, used, r.value.ptr, s.value.ptr);
    hide ReasonableInUse;
    RoundedSame(aa, used, a.ptr, b.ptr);
  }

  lemma RoundedSame(aa: Oracle, used: Loc -> bool, p: Pointer, q: Pointer)
    requires SameInUse(aa, used, p, q)
    ensures Same(Rounded(aa, used), p, q)
  {
    hide RoundDown;
    forall w: nat, r: Loc
      ensures Rounded(aa, used)(Loc(p, w), r) == NoAlias <==> Rounded(aa, used)(Loc(q, w), r) == NoAlias
    {
      RoundDownSame(used, p, q, w);
      var a, b := RoundDown(used, Loc(p, w)), RoundDown(used, Loc(q, w));
      if a.Some? {
        assert a.value == Loc(p, a.value.size) && b.value == Loc(q, a.value.size);
        var c := RoundDown(used, r);
        if c.Some? {
          assert aa(a.value, c.value) == NoAlias <==> aa(b.value, c.value) == NoAlias;
        }
      }
    }
  }

  function Everywhere(): Loc -> bool {
    (_: Loc) => true
  }

  // A reasonable oracle is so wherever it is asked.
  lemma ReasonableEverywhere(aa: Oracle)
    requires Reasonable(aa)
    ensures ReasonableInUse(aa, Everywhere())
  {
    forall a: Loc, b: Loc | aa(a, b) == MustAlias
      ensures SameInUse(aa, Everywhere(), a.ptr, b.ptr)
    {
      assert Same(aa, a.ptr, b.ptr);
    }
  }

  // ----- Both oracles do the same -----

  // The oracles agree on the locations in use, and must-alias pointers have the same sizes in use.
  ghost predicate Alike(aa: Oracle, bb: Oracle, used: Loc -> bool) {
    && (forall a: Loc, b: Loc | used(a) && used(b) :: aa(a, b) == bb(a, b))
    && (forall a: Loc, b: Loc | used(a) && used(b) && aa(a, b) == MustAlias :: used(Loc(a.ptr, b.size)))
  }

  lemma RoundedIsAlike(aa: Oracle, used: Loc -> bool)
    requires ReasonableInUse(aa, used)
    ensures Alike(aa, Rounded(aa, used), used)
  {
    forall a: Loc, b: Loc | used(a) && used(b) && aa(a, b) == MustAlias
      ensures used(Loc(a.ptr, b.size))
    {
      assert SameInUse(aa, used, a.ptr, b.ptr);
      assert used(Loc(b.ptr, b.size));
    }
  }

  // Every pointer in a set is tracked, and the table holds it at a size in use.
  ghost predicate InUse(used: Loc -> bool, t: Table) {
    && (forall x, q | 0 <= x < |t.sets| && q in t.sets[x].ptrs :: q in t.entries)
    && (forall q | q in t.entries :: used(At(t, q)))
  }

  lemma MembersInUse(used: Loc -> bool, t: Table, x: nat, k: nat)
    requires InUse(used, t) && x < |t.sets| && k < |t.sets[x].ptrs|
    ensures used(At(t, t.sets[x].ptrs[k]))
  {
    assert t.sets[x].ptrs[k] in t.sets[x].ptrs;
  }

  lemma AliasesAlike(aa: Oracle, bb: Oracle, used: Loc -> bool, t: Table, i: nat, loc: Loc)
    requires Alike(aa, bb, used) && InUse(used, t) && used(loc) && i < |t.sets|
    ensures Aliases(aa, t, i, loc) == Aliases(bb, t, i, loc)
  {
    forall k | 0 <= k < |t.sets[i].ptrs| ensures used(At(t, t.sets[i].ptrs[k])) {
      MembersInUse(used, t, i, k);
    }
    hide At;
    hide InUse;
  }

  lemma MergeSetInAlike(aa: Oracle, bb: Oracle, used: Loc -> bool, t: Table, i: nat, j: nat)
    requires Alike(aa, bb, used) && InUse(used, t) && i < |t.sets| && j < |t.sets| && i != j
    ensures MergeSetIn(aa, t, i, j) == MergeSetIn(bb, t, i, j) && InUse(used, MergeSetIn(aa, t, i, j))
  {
    if t.sets[i].ptrs != [] && t.sets[j].ptrs != [] {
      MembersInUse(used, t, i, 0);
      MembersInUse(used, t, j, 0);
    }
    assert MergeSetIn(aa, t, i, j) == MergeSetIn(bb, t, i, j);
    MergeSetInShape(aa, t, i, j);
    hide MergeSetIn;
    hide Alike;
  }

  lemma {:induction false} MergeForAlike(aa: Oracle, bb: Oracle, used: Loc -> bool, t: Table, loc: Loc, k: nat,
                                         found: Option<nat>)
    requires Alike(aa, bb, used) && InUse(used, t) && used(loc)
    requires k <= |t.sets| && (found.Some? ==> found.value < k)
    ensures MergeFor(aa, t, loc, k, found) == MergeFor(bb, t, loc, k, found)
    ensures InUse(used, MergeFor(aa, t, loc, k, found).0)
    decreases |t.sets| - k
  {
    hide Alike;
    hide InUse;
    if k < |t.sets| {
      AliasesAlike(aa, bb, used, t, k, loc);
      hide Aliases;
      if t.sets[k].forward.Some? || !Aliases(aa, t, k, loc) {
        MergeForAlike(aa, bb, used, t, loc, k + 1, found);
      } else if found.None? {
        MergeForAlike(aa, bb, used, t, loc, k + 1, Some(k));
      } else {
        MergeSetInAlike(aa, bb, used, t, found.value, k);
        MergeForAlike(aa, bb, used, MergeSetIn(aa, t, found.value, k), loc, k + 1, found);
      }
    }
  }

  lemma {:induction false} MergeAllIntoAlike(aa: Oracle, bb: Oracle, used: Loc -> bool, t: Table, any: nat, k: nat)
    requires Alike(aa, bb, used) && InUse(used, t) && k <= any < |t.sets|
    ensures MergeAllInto(aa, t, any, k) == MergeAllInto(bb, t, any, k) && InUse(used, MergeAllInto(aa, t, any, k))
    decreases any - k
  {
    hide Alike;
    if k < any {
      if t.sets[k].forward.Some? {
        MergeAllIntoAlike(aa, bb, used, t.(sets := t.sets[k := t.sets[k].(forward := Some(any))]), any, k + 1);
      } else {
        MergeSetInAlike(aa, bb, used, t, any, k);
        hide InUse;
        MergeAllIntoAlike(aa, bb, used, MergeSetIn(aa, t, any, k), any, k + 1);
      }
    }
  }

  lemma AddPointerAlike(aa: Oracle, bb: Oracle, used: Loc -> bool, t: Table, i: nat, p: Pointer, size: nat)
    requires Alike(aa, bb, used) && InUse(used, t) && used(Loc(p, size)) && i < |t.sets| && p !in t.entries
    ensures t.sets[i].ptrs != [] ==> t.sets[i].ptrs[0] in t.entries
    ensures AddPointer(aa, t, i, p, size) == AddPointer(bb, t, i, p, size)
    ensures InUse(used, AddPointer(aa, t, i, p, size))
  {
    if t.sets[i].ptrs != [] {
      MembersInUse(used, t, i, 0);
      assert t.sets[i].ptrs[0] in t.sets[i].ptrs;
    }
    assert AddPointer(aa, t, i, p, size) == AddPointer(bb, t, i, p, size);
    AddPointerShape(aa, t, i, p, size);
    hide AddPointer;
  }

  lemma GrowInUse(used: Loc -> bool, t: Table, p: Pointer, size: nat)
    requires InUse(used, t) && used(Loc(p, size)) && p in t.entries
    ensures InUse(used, Grow(t, p, size))
  {
  }

  lemma SettleInUse(used: Loc -> bool, t: Table, p: Pointer)
    requires Core(t) && InUse(used, t) && p in t.entries
    ensures InUse(used, Settle(t, p))
  {
    SettleKeeps(t, p);
    SettledCalm(t.sets, Settle(t, p).sets);
    hide Settle;
    hide Core;
    hide SameRoots;
    hide SetOf;
  }

  lemma {:induction false} GetSetAlike(aa: Oracle, bb: Oracle, used: Loc -> bool, threshold: nat, t: Table, p: Pointer,
                                       size: nat)
    requires Alike(aa, bb, used) && Valid(threshold, t) && InUse(used, t) && used(Loc(p, size))
    ensures GetSet(aa, threshold, t, p, size) == GetSet(bb, threshold, t, p, size)
    ensures InUse(used, GetSet(aa, threshold, t, p, size).0)
  {
    var loc := Loc(p, size);
    hide Alike;
    hide InUse;
    hide AddPointer;
    hide Grow;
    if t.anySet.Some? {
      AddPointerFits(t, t.anySet.value);
      if p in t.entries {
        GrowInUse(used, t, p, size);
      } else {
        AddPointerAlike(aa, bb, used, t, t.anySet.value, p, size);
      }
      hide Core;
    } else if p in t.entries {
      WidenAlike(aa, bb, used, t, p, size);
      WidenKeeps(aa, threshold, t, p, size);
      hide Widen;
      SettleInUse(used, Widen(aa, t, p, size), p);
      hide Settle;
      hide Core;
    } else {
      MergeForMerges(aa, t, loc, 0, None);
      MergeForAlike(aa, bb, used, t, loc, 0, None);
      var (u, found) := MergeFor(aa, t, loc, 0, None);
      hide MergeFor;
      hide MergedFor;
      if found.Some? {
        AddPointerAlike(aa, bb, used, u, found.value, p, size);
      } else {
        PushInUse(used, u);
        AddPointerAlike(aa, bb, used, PushSet(u, NEW_SET), |u.sets|, p, size);
      }
      hide Core;
    }
  }

  lemma PushInUse(used: Loc -> bool, t: Table)
    requires InUse(used, t)
    ensures InUse(used, PushSet(t, NEW_SET))
  {
  }

  lemma WidenAlike(aa: Oracle, bb: Oracle, used: Loc -> bool, t: Table, p: Pointer, size: nat)
    requires Alike(aa, bb, used) && InUse(used, t) && used(Loc(p, size)) && p in t.entries
    ensures Widen(aa, t, p, size) == Widen(bb, t, p, size) && InUse(used, Widen(aa, t, p, size))
  {
    hide Alike;
    hide InUse;
    GrowInUse(used, t, p, size);
    MergeForAlike(aa, bb, used, Grow(t, p, size), Loc(p, size), 0, None);
    hide Grow;
    hide MergeFor;
  }

  lemma AddAlike(aa: Oracle, bb: Oracle, used: Loc -> bool, threshold: nat, t: Table, p: Pointer, size: nat)
    requires Alike(aa, bb, used) && Valid(threshold, t) && InUse(used, t) && used(Loc(p, size))
    ensures Add(aa, threshold, t, p, size) == Add(bb, threshold, t, p, size)
    ensures InUse(used, Add(aa, threshold, t, p, size).0)
  {
    hide Alike;
    GetSetAlike(aa, bb, used, threshold, t, p, size);
    hide GetSet;
    var u := GetSet(aa, threshold, t, p, size).0;
    var any := |u.sets|;
    var v := PushSet(u, AliasSet([], None, false, true)).(anySet := Some(any));
    assert InUse(used, v);
    hide InUse;
    MergeAllIntoAlike(aa, bb, used, v, any, 0);
    hide MergeAllInto;
  }

  lemma OutgrowsAlike(aa: Oracle, bb: Oracle, used: Loc -> bool, t: Table, p: Pointer, size: nat)
    requires Alike(aa, bb, used) && InUse(used, t) && used(Loc(p, size)) && Ordered(t.sets) && InRange(t)
    ensures Outgrows(aa, t, p, size) == Outgrows(bb, t, p, size)
  {
    var loc := Loc(p, size);
    forall x | 0 <= x < |t.sets| ensures Aliases(aa, t, x, loc) == Aliases(bb, t, x, loc) {
      AliasesAlike(aa, bb, used, t, x, loc);
    }
    hide Aliases;
    forall x | 0 <= x < |t.sets| && t.sets[x].ptrs != [] ensures used(At(t, t.sets[x].ptrs[0])) {
      MembersInUse(used, t, x, 0);
    }
    hide At;
    hide InUse;
    hide SetOf;
    if p in t.entries {
      assert forall x :: Twin(aa, t, p, size, x) == Twin(bb, t, p, size, x);
    }
    hide Twin;
  }

  lemma {:induction false} RunAlike(aa: Oracle, bb: Oracle, used: Loc -> bool, threshold: nat, t: Table, adds: seq<Loc>)
    requires Alike(aa, bb, used) && Valid(threshold, t) && InUse(used, t)
    requires forall k | 0 <= k < |adds| :: used(adds[k])
    ensures AddAll(aa, threshold, t, adds) == AddAll(bb, threshold, t, adds)
    ensures Calm(aa, threshold, t, adds) == Calm(bb, threshold, t, adds)
    ensures InUse(used, AddAll(aa, threshold, t, adds))
    decreases |adds|
  {
    hide Alike;
    hide InUse;
    if adds != [] {
      var p, size := adds[0].ptr, adds[0].size;
      assert used(Loc(p, size));
      AddKeepsValid(aa, threshold, t, p, size);
      AddAlike(aa, bb, used, threshold, t, p, size);
      OutgrowsAlike(aa, bb, used, t, p, size);
      hide Add;
      hide Outgrows;
      hide Core;
      RunAlike(aa, bb, used, threshold, Add(aa, threshold, t, p, size).0, adds[1..]);
    }
  }

  // ----- What holds after a run -----

  /** The must-alias sets are at one address each, as far as the locations in use go; pointers in
      different sets do not alias; and first pointers are the largest. */
  ghost predicate KeptApart(aa: Oracle, used: Loc -> bool, t: Table)
    requires Ordered(t.sets) && InRange(t)
  {
    InUse(used, t) && MustSetsAgree(Rounded(aa, used), t) && Apart(aa, t) && FirstIsLargest(t)
  }

  lemma ApartAlike(aa: Oracle, bb: Oracle, used: Loc -> bool, t: Table)
    requires Alike(aa, bb, used) && InUse(used, t) && Ordered(t.sets) && InRange(t)
    ensures Apart(aa, t) == Apart(bb, t)
  {
    hide At;
    hide SetOf;
  }

  /** Sets that are kept apart do not alias, for an oracle that is reasonable on the locations in use:
      every add keeps this, and first pointers stay the largest if and only if no pointer outgrows its
      set. */
  lemma AddKeepsApartInUse(aa: Oracle, used: Loc -> bool, threshold: nat, t: Table, p: Pointer, size: nat)
    requires ReasonableInUse(aa, used) && Valid(threshold, t) && KeptApart(aa, used, t) && used(Loc(p, size))
    ensures var u := Add(aa, threshold, t, p, size).0;
            && Valid(threshold, u) && InUse(used, u) && MustSetsAgree(Rounded(aa, used), u) && Apart(aa, u)
            && (FirstIsLargest(u) <==> !Outgrows(aa, t, p, size))
  {
    var bb := Rounded(aa, used);
    RoundedIsReasonable(aa, used);
    RoundedIsAlike(aa, used);
    AddKeepsValid(aa, threshold, t, p, size);
    AddAlike(aa, bb, used, threshold, t, p, size);
    var u := Add(aa, threshold, t, p, size).0;
    hide Add;
    hide Rounded;
    hide ReasonableInUse;
    hide MustSetsAgree;
    hide FirstIsLargest;
    OutgrowsAlike(aa, bb, used, t, p, size);
    hide Outgrows;
    ApartAlike(aa, bb, used, t);
    ApartAlike(aa, bb, used, u);
    AddKeepsApart(bb, threshold, t, p, size);
    hide Core;
    hide Apart;
    hide InUse;
  }

  /** A must-alias set that is asked through its first member, the largest one, answers for all of
      them, for an oracle that is reasonable on the locations in use. */
  lemma AskedThroughFirstInUse(aa: Oracle, used: Loc -> bool, t: Table, i: nat, loc: Loc)
    requires ReasonableInUse(aa, used) && Core(t) && InUse(used, t) && MustSetsAgree(Rounded(aa, used), t) && used(loc)
    requires Live(t.sets, i) && !Aliases(aa, t, i, loc)
    requires t.sets[i].must ==> forall p | p in t.sets[i].ptrs :: At(t, p).size <= At(t, t.sets[i].ptrs[0]).size
    ensures forall p | p in t.sets[i].ptrs :: aa(At(t, p), loc) == NoAlias && aa(loc, At(t, p)) == NoAlias
  {
    var bb := Rounded(aa, used);
    RoundedIsReasonable(aa, used);
    RoundedIsAlike(aa, used);
    AliasesAlike(aa, bb, used, t, i, loc);
    hide Rounded;
    hide ReasonableInUse;
    hide Aliases;
    AskedThroughFirst(bb, t, i, loc);
    hide Core;
    hide MustSetsAgree;
    hide Reasonable;
    hide At;
  }

  /** In every run of adds in which no pointer outgrows its set, two pointers that are in different
      sets at the end do not alias, at the sizes they were added with. The oracle must be reasonable
      on the locations in use, those of the run among them. */
  lemma {:induction false} CalmRunsKeepApart(aa: Oracle, used: Loc -> bool, threshold: nat, adds: seq<Loc>,
                                             i: nat, j: nat)
    requires ReasonableInUse(aa, used) && (forall k | 0 <= k < |adds| :: used(adds[k])) && i < |adds| && j < |adds|
    ensures Valid(threshold, EMPTY)
    ensures Calm(aa, threshold, EMPTY, adds) ==>
              var u := AddAll(aa, threshold, EMPTY, adds);
              && Valid(threshold, u)
              && adds[i].ptr in u.entries && adds[j].ptr in u.entries
              && (SetOf(u, adds[i].ptr) != SetOf(u, adds[j].ptr) ==> aa(adds[i], adds[j]) == NoAlias)
  {
    var bb := Rounded(aa, used);
    RoundedIsReasonable(aa, used);
    RoundedIsAlike(aa, used);
    EmptyIsValid(bb, threshold);
    RunAlike(aa, bb, used, threshold, EMPTY, adds);
    assert aa(adds[i], adds[j]) == bb(adds[i], adds[j]);
    hide Rounded;
    hide ReasonableInUse;
    hide Alike;
    if Calm(aa, threshold, EMPTY, adds) {
      hide Calm;
      RunKeepsApart(bb, threshold, EMPTY, adds);
      hide AddAll;
      SmallerApart(bb, AddAll(bb, threshold, EMPTY, adds), adds, i, j);
      hide *;
    }
  }

  lemma SmallerApart(aa: Oracle, u: Table, adds: seq<Loc>, i: nat, j: nat)
    requires Reasonable(aa) && Ordered(u.sets) && InRange(u) && Apart(aa, u) && Takes(EMPTY, adds, u)
    requires i < |adds| && j < |adds|
    ensures adds[i].ptr in u.entries && adds[j].ptr in u.entries
    ensures SetOf(u, adds[i].ptr) != SetOf(u, adds[j].ptr) ==> aa(adds[i], adds[j]) == NoAlias
  {
    var p, q := adds[i], adds[j];
    if SetOf(u, p.ptr) != SetOf(u, q.ptr) {
      assert aa(At(u, p.ptr), At(u, q.ptr)) == NoAlias;
      assert aa(p, At(u, q.ptr)) == NoAlias;
      assert aa(At(u, q.ptr), p) == NoAlias;
      assert aa(q, p) == NoAlias;
    }
  }

  /** So in every run of adds with one size for each pointer. */
  lemma {:induction false} RunsKeepApart(aa: Oracle, used: Loc -> bool, threshold: nat, adds: seq<Loc>, i: nat, j: nat)
    requires ReasonableInUse(aa, used) && (forall k | 0 <= k < |adds| :: used(adds[k]))
    requires FixedSizes(adds) && i < |adds| && j < |adds|
    ensures Valid(threshold, EMPTY)
    ensures var u := AddAll(aa, threshold, EMPTY, adds);
            && Valid(threshold, u)
            && adds[i].ptr in u.entries && adds[j].ptr in u.entries
            && (SetOf(u, adds[i].ptr) != SetOf(u, adds[j].ptr) ==> aa(adds[i], adds[j]) == NoAlias)
  {
    var bb := Rounded(aa, used);
    RoundedIsReasonable(aa, used);
    RoundedIsAlike(aa, used);
    EmptyIsValid(bb, threshold);
    RunAlike(aa, bb, used, threshold, EMPTY, adds);
    FittingRunsAreCalm(bb, threshold, EMPTY, adds);
    CalmRunsKeepApart(aa, used, threshold, adds, i, j);
    hide *;
  }
}
