/** Runs whose oracle knows the address of every pointer: calmness is exactly what they need. */
module AliasSetRanges {
  import opened AliasSetRuns
  import opened AliasSetTables
  import opened AliasSets
  import opened AliasSetsProofs
  import opened Options
  import opened AliasSetsApart

  /** The oracle that knows the address of every pointer. As in BasicAAResult::aliasCheck, empty
      accesses and pointers without an address, such as undefined ones, alias nothing. */
  function Ranges(base: Pointer -> Option<int>): Oracle {
    (a: Loc, b: Loc) =>
      if a.size == 0 || b.size == 0 || base(a.ptr).None? || base(b.ptr).None? then NoAlias
      else
        var x, y := base(a.ptr).value, base(b.ptr).value;
        if x == y then MustAlias
        else if x < y + b.size && y < x + a.size then PartialAlias
        else NoAlias
  }

  lemma RangesAreReasonable(base: Pointer -> Option<int>)
    ensures Reasonable(Ranges(base))
  {
    forall a: Loc, b: Loc | Ranges(base)(a, b) == MustAlias
      ensures Same(Ranges(base), a.ptr, b.ptr)
    {
    }
  }

  // ----- Probes -----

  /** A new pointer that is accessed for one byte is put apart from nothing that it aliases, before the
      test for saturation. */
  ghost predicate ProbedApart(aa: Oracle, threshold: nat, t: Table, q: Pointer)
    requires Valid(threshold, t)
  {
    var v := GetSet(aa, threshold, t, q, 1).0;
    Ordered(v.sets) && InRange(v) && Apart(aa, v)
  }

  /** That is so at every point of the run. */
  ghost predicate Robust(aa: Oracle, threshold: nat, t: Table, adds: seq<Loc>)
    requires Valid(threshold, t)
    decreases |adds|
  {
    && (forall q | q !in t.entries :: ProbedApart(aa, threshold, t, q))
    && if adds == [] then true
       else
         AddKeepsValid(aa, threshold, t, adds[0].ptr, adds[0].size);
         Robust(aa, threshold, Add(aa, threshold, t, adds[0].ptr, adds[0].size).0, adds[1..])
  }

  lemma NewIsApart(aa: Oracle, threshold: nat, t: Table, q: Pointer)
    requires Reasonable(aa) && Valid(threshold, t) && MustSetsAgree(aa, t) && Apart(aa, t) && FirstIsLargest(t)
    requires q !in t.entries
    ensures ProbedApart(aa, threshold, t, q)
  {
    if t.anySet.Some? {
      GetSetSaturated(aa, threshold, t, q, 1);
      hide GetSet;
      SaturatedApart(aa, GetSet(aa, threshold, t, q, 1).0);
      hide Core;
      hide Apart;
    } else {
      GetSetNewApart(aa, threshold, t, q, 1);
      hide *;
    }
  }

  lemma {:induction false} CalmIsRobust(aa: Oracle, threshold: nat, t: Table, adds: seq<Loc>)
    requires Reasonable(aa) && Valid(threshold, t) && MustSetsAgree(aa, t) && Apart(aa, t) && FirstIsLargest(t)
    requires Calm(aa, threshold, t, adds)
    ensures Robust(aa, threshold, t, adds)
    decreases |adds|
  {
    hide MustSetsAgree;
    hide Reasonable;
    hide Apart;
    hide FirstIsLargest;
    hide ProbedApart;
    hide Outgrows;
    hide Add;
    hide Core;
    forall q | q !in t.entries ensures ProbedApart(aa, threshold, t, q) {
      NewIsApart(aa, threshold, t, q);
    }
    if adds != [] {
      StepKeepsApart(aa, threshold, t, adds[0].ptr, adds[0].size);
      CalmIsRobust(aa, threshold, Add(aa, threshold, t, adds[0].ptr, adds[0].size).0, adds[1..]);
    }
  }

  // ----- What a set that does not take a location keeps -----

  lemma {:induction false} MergeForLeaves(aa: Oracle, t: Table, loc: Loc, k: nat, found: Option<nat>, i: nat)
    requires k <= |t.sets| && (found.Some? ==> found.value < k && found.value != i)
    requires Live(t.sets, i) && !Aliases(aa, t, i, loc)
    ensures MergeFor(aa, t, loc, k, found).0.sets[i] == t.sets[i] && MergeFor(aa, t, loc, k, found).1 != Some(i)
    decreases |t.sets| - k
  {
    if k == |t.sets| {
    } else if t.sets[k].forward.Some? || !Aliases(aa, t, k, loc) {
      MergeForLeaves(aa, t, loc, k + 1, found, i);
    } else if found.None? {
      MergeForLeaves(aa, t, loc, k + 1, Some(k), i);
    } else {
      var u := MergeSetIn(aa, t, found.value, k);
      MergeSetInShape(aa, t, found.value, k);
      hide MergeSetIn;
      assert k != i && u.sets[i] == t.sets[i];
      assert Aliases(aa, u, i, loc) == Aliases(aa, t, i, loc);
      hide Aliases;
      MergeForLeaves(aa, u, loc, k + 1, found, i);
    }
  }

  // A new pointer that a set does not take goes elsewhere, and the set stays as it is.
  lemma NewGoesElsewhere(aa: Oracle, threshold: nat, t: Table, q: Pointer, size: nat, i: nat)
    requires Valid(threshold, t) && t.anySet.None? && q !in t.entries
    requires Live(t.sets, i) && !Aliases(aa, t, i, Loc(q, size))
    ensures var (v, j) := GetSet(aa, threshold, t, q, size);
            && Core(v) && q in v.entries && SetOf(v, q) != i
            && forall m | m in t.sets[i].ptrs :: m in v.entries && SetOf(v, m) == i
  {
    var (v, j) := GetSet(aa, threshold, t, q, size);
    GetSetNew(aa, threshold, t, q, size);
    SetStays(aa, threshold, t, q, size, i);
    hide GetSet;
    MembersBelong(v);
    hide Core;
    hide Aliases;
  }

  lemma SetStays(aa: Oracle, threshold: nat, t: Table, q: Pointer, size: nat, i: nat)
    requires Valid(threshold, t) && t.anySet.None? && q !in t.entries
    requires Live(t.sets, i) && !Aliases(aa, t, i, Loc(q, size))
    ensures var (v, j) := GetSet(aa, threshold, t, q, size); i < |v.sets| && v.sets[i].ptrs == t.sets[i].ptrs && j != i
  {
    var loc := Loc(q, size);
    MergeForMerges(aa, t, loc, 0, None);
    MergeForLeaves(aa, t, loc, 0, None, i);
    var (u, found) := MergeFor(aa, t, loc, 0, None);
    hide MergeFor;
    hide Aliases;
    MergedIsCore(aa, t, loc, u, found);
    hide MergedFor;
    if found.Some? {
      AddPointerFits(u, found.value);
      AddPointerShape(aa, u, found.value, q, size);
    } else {
      AddPointerShape(aa, PushSet(u, NEW_SET), |u.sets|, q, size);
    }
    hide AddPointer;
    hide Core;
  }

  // ----- An outgrown set misses an alias -----

  lemma MembersShareBase(base: Pointer -> Option<int>, t: Table, f: Pointer, m: Pointer)
    requires Agrees(Ranges(base), t, f, m) && f != m
    ensures base(f).Some? && base(m) == base(f)
  {
    var aa := Ranges(base);
    assert aa(At(t, f), At(t, m)) != NoAlias;
    assert aa(Loc(f, 1), Loc(f, 1)) != NoAlias;
    assert aa(Loc(m, 1), Loc(f, 1)) != NoAlias;
  }

  // A byte past the end of the first pointer and inside a larger member.
  lemma GapIsNotAsked(base: Pointer -> Option<int>, t: Table, i: nat, m: Pointer, q: Pointer)
    requires i < |t.sets| && t.sets[i].must && !t.sets[i].any && t.sets[i].ptrs != []
    requires Agrees(Ranges(base), t, t.sets[i].ptrs[0], m) && At(t, m).size > At(t, t.sets[i].ptrs[0]).size
    requires var f := t.sets[i].ptrs[0]; base(f).Some? ==> base(q) == Some(base(f).value + At(t, f).size)
    ensures !Aliases(Ranges(base), t, i, Loc(q, 1))
    ensures forall s: nat | s >= At(t, m).size :: Ranges(base)(Loc(q, 1), Loc(m, s)) != NoAlias
  {
    MembersShareBase(base, t, t.sets[i].ptrs[0], m);
  }

  lemma ProbeFindsGap(base: Pointer -> Option<int>, threshold: nat, t: Table, i: nat, m: Pointer, q: Pointer)
    requires Valid(threshold, t) && t.anySet.None? && MustSetsAgree(Ranges(base), t)
    requires Live(t.sets, i) && t.sets[i].must && m in t.sets[i].ptrs && m in t.entries
    requires At(t, m).size > At(t, t.sets[i].ptrs[0]).size
    requires var f := t.sets[i].ptrs[0]; base(f).Some? ==> base(q) == Some(base(f).value + At(t, f).size)
    requires q !in t.entries
    ensures !ProbedApart(Ranges(base), threshold, t, q)
  {
    var aa := Ranges(base);
    assert !t.sets[i].any;
    hide Core;
    hide Ranges;
    assert Agrees(aa, t, t.sets[i].ptrs[0], m);
    hide MustSetsAgree;
    hide Agrees;
    GapIsNotAsked(base, t, i, m, q);
    hide Aliases;
    hide AnySetRules;
    hide Backward;
    NewGoesElsewhere(aa, threshold, t, q, 1, i);
    FreshSizes(aa, threshold, t, q, 1);
    hide GetSet;
    hide SetOf;
    AtIsOf(GetSet(aa, threshold, t, q, 1).0, m);
    hide At;
  }

  lemma AtIsOf(t: Table, p: Pointer)
    ensures At(t, p) == Loc(p, At(t, p).size)
  {
  }

  // However many pointers there are at an address, there is one more.
  ghost predicate Room(base: Pointer -> Option<int>, a: int, s: set<Pointer>) {
    exists q :: q !in s && base(q) == Some(a)
  }

  lemma LargerMember(t: Table) returns (i: nat, m: Pointer)
    requires Core(t) && !FirstIsLargest(t)
    ensures Live(t.sets, i) && t.sets[i].must && m in t.sets[i].ptrs && m in t.entries
    ensures At(t, m).size > At(t, t.sets[i].ptrs[0]).size
  {
    MembersAreTracked(t);
    hide Core;
    hide At;
    i, m :| Live(t.sets, i) && t.sets[i].must && m in t.sets[i].ptrs
            && At(t, m).size > At(t, t.sets[i].ptrs[0]).size;
  }

  lemma OutgrownIsNotRobust(base: Pointer -> Option<int>, threshold: nat, t: Table)
    requires Valid(threshold, t) && t.anySet.None? && MustSetsAgree(Ranges(base), t) && !FirstIsLargest(t)
    requires forall a: int, s: set<Pointer> :: Room(base, a, s)
    ensures exists q :: q !in t.entries && !ProbedApart(Ranges(base), threshold, t, q)
  {
    hide FirstIsLargest;
    hide MustSetsAgree;
    hide Ranges;
    hide ProbedApart;
    hide Core;
    hide AnySetRules;
    hide Backward;
    hide At;
    var i, m := LargerMember(t);
    var f := t.sets[i].ptrs[0];
    var a := if base(f).Some? then base(f).value + At(t, f).size else 0;
    assert Room(base, a, t.entries.Keys);
    var q :| q !in t.entries.Keys && base(q) == Some(a);
    hide Room;
    ProbeFindsGap(base, threshold, t, i, m, q);
  }

  lemma {:induction false} RobustIsCalm(base: Pointer -> Option<int>, threshold: nat, t: Table, adds: seq<Loc>)
    requires Valid(threshold, t) && MustSetsAgree(Ranges(base), t) && Apart(Ranges(base), t) && FirstIsLargest(t)
    requires forall a: int, s: set<Pointer> :: Room(base, a, s)
    requires Robust(Ranges(base), threshold, t, adds)
    ensures Calm(Ranges(base), threshold, t, adds)
    decreases |adds|
  {
    var aa := Ranges(base);
    RangesAreReasonable(base);
    hide Ranges;
    hide Reasonable;
    hide MustSetsAgree;
    hide Apart;
    hide FirstIsLargest;
    hide ProbedApart;
    hide Outgrows;
    hide Add;
    hide Room;
    if adds != [] {
      var p, size := adds[0].ptr, adds[0].size;
      var u := Add(aa, threshold, t, p, size).0;
      AddKeepsValid(aa, threshold, t, p, size);
      hide Core;
      if Outgrows(aa, t, p, size) {
        AddKeepsApart(aa, threshold, t, p, size);
        OutgrowsStays(aa, threshold, t, p, size);
        OutgrownIsNotRobust(base, threshold, u);
      } else {
        StepKeepsApart(aa, threshold, t, p, size);
        RobustIsCalm(base, threshold, u, adds[1..]);
      }
    }
  }

  /** Calmness is exact for an oracle that knows all addresses: in a run some pointer outgrows its set
      if and only if at some point of the run a new pointer, accessed for one byte, would get into
      another set than a pointer that it overlaps. */
  lemma {:induction false} CalmIffRobust(base: Pointer -> Option<int>, threshold: nat, adds: seq<Loc>)
    requires forall a: int, s: set<Pointer> :: Room(base, a, s)
    ensures Valid(threshold, EMPTY)
    ensures Calm(Ranges(base), threshold, EMPTY, adds) <==> Robust(Ranges(base), threshold, EMPTY, adds)
  {
    EmptyIsValid(Ranges(base), threshold);
    RangesAreReasonable(base);
    hide *;
    if Calm(Ranges(base), threshold, EMPTY, adds) {
      CalmIsRobust(Ranges(base), threshold, EMPTY, adds);
    }
    if Robust(Ranges(base), threshold, EMPTY, adds) {
      RobustIsCalm(base, threshold, EMPTY, adds);
    }
  }
}
