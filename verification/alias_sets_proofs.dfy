/** Every operation keeps the alias sets consistent, and sets that are kept apart do not alias. */
module AliasSetsProofs {
  import opened AliasSets
  import opened Options

  // ----- Counting -----

  function Weight(s: AliasSet): nat {
    if s.must then 0 else |s.ptrs|
  }

  lemma {:induction false} MayCountUpdate(sets: seq<AliasSet>, i: nat, s: AliasSet)
    requires i < |sets|
    ensures MayCount(sets[i := s]) + Weight(sets[i]) == MayCount(sets) + Weight(s)
    decreases |sets|
  {
    var n := |sets| - 1;
    var now := sets[i := s];
    if i == n {
      assert now[..n] == sets[..n];
    } else {
      MayCountUpdate(sets[..n], i, s);
      assert now[..n] == sets[..n][i := s];
    }
  }

  lemma {:induction false} MayCountPush(sets: seq<AliasSet>, s: AliasSet)
    ensures MayCount(sets + [s]) == MayCount(sets) + Weight(s)
  {
    assert (sets + [s])[..|sets|] == sets;
  }

  // ----- Forwarding -----

  // A change that keeps every forward keeps every root.
  lemma {:induction false} RootSame(a: seq<AliasSet>, b: seq<AliasSet>, i: nat)
    requires Ordered(a) && Ordered(b) && i < |a| <= |b|
    requires forall k | 0 <= k < |a| :: a[k].forward == b[k].forward
    ensures Root(a, i) == Root(b, i)
    decreases if a[i].forward.Some? then i + 1 else 0
  {
    if a[i].forward.Some? {
      RootSame(a, b, a[i].forward.value);
    }
  }

  // Set `j` comes to forward to the live set `i`.
  lemma {:induction false} RootMerge(a: seq<AliasSet>, b: seq<AliasSet>, i: nat, j: nat, x: nat)
    requires Ordered(a) && Ordered(b) && |a| == |b| && x < |a|
    requires Live(a, i) && Live(a, j) && i != j
    requires forall k | 0 <= k < |a| && k != j :: a[k].forward == b[k].forward
    requires b[j].forward == Some(i)
    ensures Root(b, x) == if Root(a, x) == j then i else Root(a, x)
    decreases if a[x].forward.Some? then x + 1 else 0
  {
    if a[x].forward.Some? {
      RootMerge(a, b, i, j, a[x].forward.value);
    }
  }

  // Set `k`, which forwards, comes to forward to its root.
  lemma {:induction false} RootShortcut(a: seq<AliasSet>, b: seq<AliasSet>, k: nat, x: nat)
    requires Ordered(a) && Ordered(b) && |a| == |b| && x < |a| && k < |a|
    requires a[k].forward.Some? && b[k].forward == Some(Root(a, k))
    requires forall y | 0 <= y < |a| && y != k :: a[y].forward == b[y].forward
    ensures Root(b, x) == Root(a, x)
    decreases if a[x].forward.Some? then x + 1 else 0
  {
    if a[x].forward.Some? && x != k {
      RootShortcut(a, b, k, a[x].forward.value);
    }
  }

  // The same table with other forwards but the same roots.
  ghost predicate SameRoots(a: seq<AliasSet>, b: seq<AliasSet>) {
    && |a| == |b| && Ordered(a) && Ordered(b)
    && (forall x | 0 <= x < |a| :: b[x] == a[x].(forward := b[x].forward))
    && (forall x | 0 <= x < |a| :: a[x].forward.Some? <==> b[x].forward.Some?)
    && (forall x | 0 <= x < |a| :: Root(b, x) == Root(a, x))
  }

  /** Collapsing a chain of forwards leaves every root where it was. */
  lemma {:induction false} CollapseKeepsRoots(sets: seq<AliasSet>, i: nat)
    requires Ordered(sets) && i < |sets|
    ensures SameRoots(sets, Collapse(sets, i))
    ensures Backward(sets) ==> Backward(Collapse(sets, i))
    decreases if sets[i].forward.Some? then i + 1 else 0
  {
    if sets[i].forward.Some? {
      var f := sets[i].forward.value;
      CollapseKeepsRoots(sets, f);
      var s := Collapse(sets, f);
      var r := Collapse(sets, i);
      RootBelow(sets, i);
      assert r == s[i := s[i].(forward := Some(Root(sets, i)))];
      hide Collapse;
      assert Ordered(r);
      forall x | 0 <= x < |sets|
        ensures Root(r, x) == Root(sets, x)
      {
        RootShortcut(s, r, i, x);
      }
    }
  }

  lemma {:induction false} RootBelow(sets: seq<AliasSet>, i: nat)
    requires Ordered(sets) && i < |sets|
    ensures Backward(sets) ==> Root(sets, i) <= i && (sets[i].forward.Some? ==> Root(sets, i) < i)
    decreases if sets[i].forward.Some? then i + 1 else 0
  {
    if sets[i].forward.Some? {
      RootBelow(sets, sets[i].forward.value);
    }
  }

  lemma SameRootsKeepsCore(t: Table, sets: seq<AliasSet>)
    requires Core(t) && SameRoots(t.sets, sets)
    ensures Core(t.(sets := sets))
  {
    SameMayCount(t.sets, sets);
    hide Root;
    hide MayCount;
    assert forall i | 0 <= i < |sets| :: sets[i].ptrs == t.sets[i].ptrs && sets[i].must == t.sets[i].must;
    SameRootsKeepPlaced(t, t.(sets := sets));
    hide Placed;
  }

  lemma SameRootsKeepPlaced(t: Table, u: Table)
    requires Ordered(t.sets) && InRange(t) && Placed(t) && SameRoots(t.sets, u.sets)
    requires u.entries == t.entries && InRange(u)
    ensures Placed(u)
  {
    hide Root;
    assert forall x | 0 <= x < |t.sets| :: u.sets[x].ptrs == t.sets[x].ptrs;
    assert forall x | 0 <= x < |t.sets| :: Root(u.sets, x) == Root(t.sets, x);
    hide SameRoots;
    hide Ordered;
  }

  lemma {:induction false} SameMayCount(a: seq<AliasSet>, b: seq<AliasSet>)
    requires |a| == |b|
    requires forall x | 0 <= x < |a| :: b[x].ptrs == a[x].ptrs && b[x].must == a[x].must
    ensures MayCount(a) == MayCount(b)
    decreases |a|
  {
    if a != [] {
      SameMayCount(a[..|a| - 1], b[..|b| - 1]);
    }
  }

  // ----- Merging two sets -----

  // What a merge does, field by field.
  lemma MergeSetInShape(aa: Oracle, t: Table, i: nat, j: nat)
    requires i < |t.sets| && j < |t.sets| && i != j
    ensures var u, a, b := MergeSetIn(aa, t, i, j), t.sets[i], t.sets[j];
            && u.entries == t.entries && u.anySet == t.anySet && |u.sets| == |t.sets|
            && (forall x | 0 <= x < |u.sets| && x != i && x != j :: u.sets[x] == t.sets[x])
            && u.sets[i] == a.(ptrs := a.ptrs + b.ptrs, must := u.sets[i].must)
            && u.sets[j] == b.(ptrs := [], forward := Some(i))
            && (u.sets[i].must ==>
                  && a.must && b.must && a.ptrs != [] && b.ptrs != []
                  && aa(At(t, a.ptrs[0]), At(t, b.ptrs[0])) == MustAlias)
            && u.totalMay + Weight(a) + Weight(b) == t.totalMay + Weight(u.sets[i])
  {
  }

  lemma MergeSetInRoots(aa: Oracle, t: Table, i: nat, j: nat)
    requires Ordered(t.sets) && Live(t.sets, i) && Live(t.sets, j) && i != j
    requires forall x | 0 <= x < |t.sets| && t.sets[x].forward == Some(j) :: j < x
    ensures var u := MergeSetIn(aa, t, i, j);
            && Ordered(u.sets)
            && (forall x :: Live(u.sets, x) <==> Live(t.sets, x) && x != j)
            && (forall x | 0 <= x < |t.sets| :: Root(u.sets, x) == if Root(t.sets, x) == j then i else Root(t.sets, x))
  {
    var u := MergeSetIn(aa, t, i, j);
    forall x | 0 <= x < |t.sets|
      ensures Root(u.sets, x) == if Root(t.sets, x) == j then i else Root(t.sets, x)
    {
      RootMerge(t.sets, u.sets, i, j, x);
    }
  }

  // The lists and roots after set `j` has gone into set `i`.
  ghost predicate ListsMerged(t: Table, u: Table, i: nat, j: nat) {
    && i < |t.sets| && j < |t.sets| && i != j && |u.sets| == |t.sets| && u.entries == t.entries
    && Ordered(t.sets) && InRange(t) && Ordered(u.sets) && InRange(u)
    && u.sets[i].ptrs == t.sets[i].ptrs + t.sets[j].ptrs && u.sets[j].ptrs == []
    && (forall x | 0 <= x < |t.sets| && x != i && x != j :: u.sets[x].ptrs == t.sets[x].ptrs)
    && (forall x | 0 <= x < |t.sets| :: Root(u.sets, x) == if Root(t.sets, x) == j then i else Root(t.sets, x))
  }

  lemma MergedKnown(t: Table, u: Table, i: nat, j: nat)
    requires ListsMerged(t, u, i, j) && MembersKnown(t)
    ensures MembersKnown(u)
  {
    hide Root;
    hide Ordered;
  }

  lemma MergedListed(t: Table, u: Table, i: nat, j: nat)
    requires ListsMerged(t, u, i, j) && EntriesListed(t)
    ensures EntriesListed(u)
  {
    hide Root;
    hide Ordered;
    forall p | p in u.entries
      ensures p in u.sets[Root(u.sets, u.entries[p].home)].ptrs
    {
      assert p in t.sets[Root(t.sets, t.entries[p].home)].ptrs;
    }
  }

  lemma MergeSetInLists(aa: Oracle, t: Table, i: nat, j: nat)
    requires Ordered(t.sets) && InRange(t) && Live(t.sets, i) && Live(t.sets, j) && i != j
    requires forall x | 0 <= x < |t.sets| && t.sets[x].forward == Some(j) :: j < x
    ensures ListsMerged(t, MergeSetIn(aa, t, i, j), i, j)
  {
    MergeSetInRoots(aa, t, i, j);
    MergeSetInShape(aa, t, i, j);
    hide MergeSetIn;
    hide Root;
  }

  lemma MergeSetInPlaced(aa: Oracle, t: Table, i: nat, j: nat)
    requires Core(t) && Live(t.sets, i) && Live(t.sets, j) && i != j
    requires forall x | 0 <= x < |t.sets| && t.sets[x].forward == Some(j) :: j < x
    ensures Ordered(MergeSetIn(aa, t, i, j).sets) && InRange(MergeSetIn(aa, t, i, j)) && Placed(MergeSetIn(aa, t, i, j))
  {
    hide NoRepeats;
    hide MembersKnown;
    hide EntriesListed;
    hide MergeSetIn;
    hide MayCount;
    hide Root;
    var u := MergeSetIn(aa, t, i, j);
    MergeSetInLists(aa, t, i, j);
    MergedKnown(t, u, i, j);
    MergedListed(t, u, i, j);
    MergeSetInNoRepeats(aa, t, i, j);
  }

  lemma MergeSetInNoRepeats(aa: Oracle, t: Table, i: nat, j: nat)
    requires Core(t) && Live(t.sets, i) && Live(t.sets, j) && i != j
    ensures NoRepeats(MergeSetIn(aa, t, i, j))
  {
    var u := MergeSetIn(aa, t, i, j);
    var a, b := t.sets[i].ptrs, t.sets[j].ptrs;
    forall x, k, l | 0 <= x < |u.sets| && 0 <= k < l < |u.sets[x].ptrs|
      ensures u.sets[x].ptrs[k] != u.sets[x].ptrs[l]
    {
      if x == i && k < |a| <= l {
        assert u.sets[i].ptrs[k] == a[k] && a[k] in a && b[l - |a|] in b;
        assert Root(t.sets, t.entries[a[k]].home) == i && Root(t.sets, t.entries[b[l - |a|]].home) == j;
      }
    }
  }

  /** Merging two live sets keeps the table consistent. */
  lemma MergeSetInCore(aa: Oracle, t: Table, i: nat, j: nat)
    requires Core(t) && Live(t.sets, i) && Live(t.sets, j) && i != j
    requires forall x | 0 <= x < |t.sets| && t.sets[x].forward == Some(j) :: j < x
    ensures Core(MergeSetIn(aa, t, i, j))
  {
    MergeSetInPlaced(aa, t, i, j);
    MergeSetInRoots(aa, t, i, j);
    MergeSetInShape(aa, t, i, j);
    hide MergeSetIn;
    hide Placed;
    hide Root;
    var u := MergeSetIn(aa, t, i, j);
    var a, b := t.sets[i], t.sets[j];
    var mid := t.sets[i := u.sets[i]];
    MayCountUpdate(t.sets, i, u.sets[i]);
    MayCountUpdate(mid, j, u.sets[j]);
    assert u.sets == mid[j := u.sets[j]];
  }

  lemma MergeSetInAgree(aa: Oracle, t: Table, i: nat, j: nat)
    requires Reasonable(aa) && MustSetsAgree(aa, t) && Live(t.sets, i) && Live(t.sets, j) && i != j
    ensures MustSetsAgree(aa, MergeSetIn(aa, t, i, j))
  {
    MergeSetInShape(aa, t, i, j);
    hide MergeSetIn;
    hide Reasonable;
    hide Agrees;
    var u := MergeSetIn(aa, t, i, j);
    var a, b := t.sets[i], t.sets[j];
    assert forall q :: At(u, q) == At(t, q);
    forall x, p | Live(u.sets, x) && u.sets[x].must && p in u.sets[x].ptrs
      ensures Agrees(aa, u, u.sets[x].ptrs[0], p)
    {
      AgreesSame(aa, t, u, u.sets[x].ptrs[0], p);
      if x == i {
        if p in b.ptrs {
          AgreesTransitive(aa, t, a.ptrs[0], b.ptrs[0], p);
        } else {
          assert Live(t.sets, i);
        }
      } else {
        assert Live(t.sets, x);
      }
    }
  }

  lemma AgreesSame(aa: Oracle, t: Table, u: Table, p: Pointer, q: Pointer)
    requires At(t, p) == At(u, p) && At(t, q) == At(u, q)
    ensures Agrees(aa, t, p, q) == Agrees(aa, u, p, q)
  {
    hide Same;
  }

  // The first pointer of one must-alias set is at the address of the first pointer of another.
  lemma AgreesTransitive(aa: Oracle, t: Table, p: Pointer, q: Pointer, r: Pointer)
    requires Reasonable(aa) && aa(At(t, p), At(t, q)) == MustAlias && Agrees(aa, t, q, r)
    ensures Agrees(aa, t, p, r)
  {
    assert forall x :: At(t, x).ptr == x;
    hide At;
    hide Same;
    assert Same(aa, p, q);
    SameTransitive(aa, p, q, r);
    if r != q {
      assert aa(At(t, q), At(t, r)) != NoAlias;
      assert aa(At(t, r), At(t, q)) != NoAlias;
      assert aa(At(t, p), At(t, p)) != NoAlias && aa(At(t, r), At(t, r)) != NoAlias;
      SeenAlias(aa, At(t, p), At(t, r));
    }
  }

  // Two locations at one address, each of which aliases itself, alias each other.
  lemma SeenAlias(aa: Oracle, a: Loc, b: Loc)
    requires Reasonable(aa) && Same(aa, a.ptr, b.ptr)
    requires aa(a, a) != NoAlias && aa(b, b) != NoAlias
    ensures aa(a, b) != NoAlias
  {
    var p, q, s, u := a.ptr, b.ptr, a.size, b.size;
    assert aa(Loc(q, s), a) != NoAlias;
    assert aa(a, Loc(q, s)) != NoAlias;
    assert aa(Loc(q, s), Loc(q, s)) != NoAlias;
    if s <= u {
      assert aa(Loc(q, u), Loc(q, s)) != NoAlias;
      assert aa(Loc(q, s), Loc(q, u)) != NoAlias;
      assert aa(Loc(p, s), Loc(q, u)) != NoAlias;
    } else {
      assert aa(Loc(q, s), Loc(q, u)) != NoAlias;
      assert aa(Loc(p, s), Loc(q, u)) != NoAlias;
    }
  }

  lemma SameTransitive(aa: Oracle, p: Pointer, q: Pointer, r: Pointer)
    requires Same(aa, p, q) && Same(aa, q, r)
    ensures Same(aa, p, r)
  {
    forall u: nat, x: Loc
      ensures aa(Loc(p, u), x) == NoAlias <==> aa(Loc(r, u), x) == NoAlias
    {
      assert aa(Loc(q, u), x) == NoAlias <==> aa(Loc(r, u), x) == NoAlias;
    }
  }

  // ----- Merging for a pointer -----

  // The first pointers of no two sets must alias.
  ghost predicate Unmatched(aa: Oracle, t: Table) {
    forall i, j | Live(t.sets, i) && Live(t.sets, j) && i != j && t.sets[i].ptrs != [] && t.sets[j].ptrs != [] ::
      aa(At(t, t.sets[i].ptrs[0]), At(t, t.sets[j].ptrs[0])) != MustAlias
  }

  // Two live sets, the later one merged into the earlier one.
  ghost predicate MergedOne(aa: Oracle, t: Table, u: Table, i: nat, j: nat) {
    && Ordered(t.sets) && Ordered(u.sets)
    && i < j < |t.sets| && Live(t.sets, i) && Live(t.sets, j)
    && |u.sets| == |t.sets| && u.entries == t.entries && u.anySet == t.anySet
    && (u.sets[i].must ==> t.sets[i].must && u.sets[i].ptrs != [])
    && (Unmatched(aa, t) ==> !u.sets[i].must && Unmatched(aa, u))
    && (forall x | 0 <= x < |t.sets| && x != i && x != j :: u.sets[x] == t.sets[x])
    && u.sets[i].any == t.sets[i].any && u.sets[j].any == t.sets[j].any
    && (forall x :: Live(u.sets, x) <==> Live(t.sets, x) && x != j)
    && (forall x | 0 <= x < |t.sets| :: Root(u.sets, x) == if Root(t.sets, x) == j then i else Root(t.sets, x))
  }

  // What was in one set still is.
  ghost predicate Coarser(t: Table, u: Table) {
    && Ordered(t.sets) && Ordered(u.sets) && |u.sets| == |t.sets|
    && forall x, y | 0 <= x < |t.sets| && 0 <= y < |t.sets| && Root(t.sets, x) == Root(t.sets, y) ::
         Root(u.sets, x) == Root(u.sets, y)
  }

  lemma MergeSetInKeeps(aa: Oracle, t: Table, i: nat, j: nat)
    requires Core(t) && Backward(t.sets)
    requires Live(t.sets, i) && Live(t.sets, j) && i < j
    ensures var u := MergeSetIn(aa, t, i, j);
            Core(u) && Backward(u.sets) && MergedOne(aa, t, u, i, j)
  {
    hide MergeSetIn;
    hide Placed;
    hide MayCount;
    hide Root;
    hide MergedOne;
    MergeSetInCore(aa, t, i, j);
    MergeSetInOne(aa, t, i, j);
    MergedOneIsBackward(aa, t, i, j);
  }

  lemma MergeSetInOne(aa: Oracle, t: Table, i: nat, j: nat)
    requires Core(t) && Backward(t.sets)
    requires Live(t.sets, i) && Live(t.sets, j) && i < j
    ensures MergedOne(aa, t, MergeSetIn(aa, t, i, j), i, j)
  {
    hide Placed;
    hide MayCount;
    hide Root;
    MergeSetInMatches(aa, t, i, j);
    hide MergeSetIn;
    hide Unmatched;
    MergeSetInShape(aa, t, i, j);
    MergeSetInRoots(aa, t, i, j);
  }

  // Sets with pointers that must alias stay together; sets of which no two match become a may-alias set.
  lemma MergeSetInMatches(aa: Oracle, t: Table, i: nat, j: nat)
    requires Live(t.sets, i) && Live(t.sets, j) && i < j
    ensures Unmatched(aa, t) ==> !MergeSetIn(aa, t, i, j).sets[i].must && Unmatched(aa, MergeSetIn(aa, t, i, j))
  {
    var u := MergeSetIn(aa, t, i, j);
    MergeSetInShape(aa, t, i, j);
    hide MergeSetIn;
    assert forall q :: At(u, q) == At(t, q);
    hide At;
    if Unmatched(aa, t) {
      forall x, y | Live(u.sets, x) && Live(u.sets, y) && x != y && u.sets[x].ptrs != [] && u.sets[y].ptrs != []
        ensures aa(At(u, u.sets[x].ptrs[0]), At(u, u.sets[y].ptrs[0])) != MustAlias
      {
        assert x != j && y != j;
        var v, w := if x == i && t.sets[i].ptrs == [] then j else x, if y == i && t.sets[i].ptrs == [] then j else y;
        assert t.sets[v].ptrs != [] && t.sets[v].ptrs[0] == u.sets[x].ptrs[0];
        assert t.sets[w].ptrs != [] && t.sets[w].ptrs[0] == u.sets[y].ptrs[0];
        assert Live(t.sets, v) && Live(t.sets, w);
      }
    }
  }

  lemma MergedOneIsBackward(aa: Oracle, t: Table, i: nat, j: nat)
    requires Backward(t.sets) && i < j < |t.sets|
    ensures Backward(MergeSetIn(aa, t, i, j).sets)
  {
    MergeSetInShape(aa, t, i, j);
    hide MergeSetIn;
  }

  /** What mergeAliasSetsForPointer has done once it has looked at every set from `k` on. */
  ghost predicate MergedFor(aa: Oracle, t: Table, loc: Loc, k: nat, found: Option<nat>, u: Table, f: Option<nat>) {
    && Ordered(t.sets)
    && Core(u) && Backward(u.sets)
    && u.entries == t.entries && |u.sets| == |t.sets| && u.anySet == t.anySet
    && (forall x | 0 <= x < |u.sets| :: u.sets[x].any == t.sets[x].any)
    && (found.Some? ==> f == found)
    && (f.Some? ==> Live(u.sets, f.value))
    && (f.None? ==> u == t)
    && (forall x | Live(u.sets, x) :: Live(t.sets, x))
    && (forall x | Live(u.sets, x) && f != Some(x) :: u.sets[x] == t.sets[x])
    && (forall x | k <= x && Live(u.sets, x) && f != Some(x) :: !Aliases(aa, u, x, loc))
    && (f.Some? && u.sets[f.value].must ==> t.sets[f.value].must && (u == t || u.sets[f.value].ptrs != []))
    && (Unmatched(aa, t) && f.Some? && u.sets[f.value].must ==> u == t)
    && ((forall x | k <= x && Live(t.sets, x) && f != Some(x) :: !Aliases(aa, t, x, loc)) ==> u == t)
    && Coarser(t, u)
    && (forall x | 0 <= x < |u.sets| :: Root(u.sets, x) == Root(t.sets, x) || f == Some(Root(u.sets, x)))
    && (f.Some? && found.None? ==> k <= f.value && Aliases(aa, t, f.value, loc))
  }

  lemma {:induction false} MergeForMerges(aa: Oracle, t: Table, loc: Loc, k: nat, found: Option<nat>)
    requires Core(t) && Backward(t.sets)
    requires k <= |t.sets| && (found.Some? ==> found.value < k && Live(t.sets, found.value))
    ensures MergedFor(aa, t, loc, k, found, MergeFor(aa, t, loc, k, found).0, MergeFor(aa, t, loc, k, found).1)
    decreases |t.sets| - k
  {
    hide MergedFor;
    hide Backward;
    if k == |t.sets| {
      MergedForDone(aa, t, loc, found);
    } else if t.sets[k].forward.Some? || !Aliases(aa, t, k, loc) {
      MergeForMerges(aa, t, loc, k + 1, found);
      MergedForSkip(aa, t, loc, k, found, MergeFor(aa, t, loc, k + 1, found).0, MergeFor(aa, t, loc, k + 1, found).1);
    } else if found.None? {
      MergeForMerges(aa, t, loc, k + 1, Some(k));
      MergedForFirst(aa, t, loc, k, MergeFor(aa, t, loc, k + 1, Some(k)).0, MergeFor(aa, t, loc, k + 1, Some(k)).1);
    } else {
      hide Aliases;
      var u := MergeSetIn(aa, t, found.value, k);
      MergeSetInKeeps(aa, t, found.value, k);
      hide MergeSetIn;
      hide Core;
      MergeForMerges(aa, u, loc, k + 1, found);
      MergedForMore(aa, t, loc, k, found.value, u,
                    MergeFor(aa, u, loc, k + 1, found).0, MergeFor(aa, u, loc, k + 1, found).1);
    }
  }

  lemma MergedForDone(aa: Oracle, t: Table, loc: Loc, found: Option<nat>)
    requires Core(t) && Backward(t.sets)
    requires found.Some? ==> Live(t.sets, found.value)
    ensures MergedFor(aa, t, loc, |t.sets|, found, t, found)
  {
    hide Core;
    hide Unmatched;
  }

  lemma MergedForFirst(aa: Oracle, t: Table, loc: Loc, k: nat, u: Table, f: Option<nat>)
    requires k < |t.sets| && Aliases(aa, t, k, loc)
    requires MergedFor(aa, t, loc, k + 1, Some(k), u, f)
    ensures MergedFor(aa, t, loc, k, None, u, f)
  {
    hide Core;
    hide Unmatched;
    hide Aliases;
  }

  lemma MergedForSkip(aa: Oracle, t: Table, loc: Loc, k: nat, found: Option<nat>, u: Table, f: Option<nat>)
    requires k < |t.sets| && (found.Some? ==> found.value < k)
    requires t.sets[k].forward.Some? || !Aliases(aa, t, k, loc)
    requires MergedFor(aa, t, loc, k + 1, found, u, f)
    ensures MergedFor(aa, t, loc, k, found, u, f)
  {
    hide Core;
    hide Unmatched;
    hide Coarser;
    hide Backward;
    hide Root;
    hide Ordered;
    if Live(u.sets, k) && f != Some(k) {
      assert u.sets[k] == t.sets[k];
      assert Aliases(aa, u, k, loc) == Aliases(aa, t, k, loc);
    }
    hide Aliases;
  }

  lemma MergedForMore(aa: Oracle, t: Table, loc: Loc, k: nat, found: nat, u: Table, v: Table, f: Option<nat>)
    requires MergedOne(aa, t, u, found, k) && Aliases(aa, t, k, loc)
    requires MergedFor(aa, u, loc, k + 1, Some(found), v, f)
    ensures MergedFor(aa, t, loc, k, Some(found), v, f)
  {
    hide Core;
    hide Unmatched;
    hide Aliases;
  }

  // ----- Adding a pointer to a set -----

  /** A set that says it does not alias a location has no member that does, although a must-alias
      set was asked through its first member only. */
  lemma AskedThroughFirst(aa: Oracle, t: Table, i: nat, loc: Loc)
    requires Reasonable(aa) && Core(t) && MustSetsAgree(aa, t)
    requires Live(t.sets, i) && !Aliases(aa, t, i, loc)
    requires t.sets[i].must ==> forall p | p in t.sets[i].ptrs :: At(t, p).size <= At(t, t.sets[i].ptrs[0]).size
    ensures forall p | p in t.sets[i].ptrs :: aa(At(t, p), loc) == NoAlias && aa(loc, At(t, p)) == NoAlias
  {
    var s := t.sets[i];
    forall p | p in s.ptrs
      ensures aa(At(t, p), loc) == NoAlias && aa(loc, At(t, p)) == NoAlias
    {
      if s.must {
        var f := s.ptrs[0];
        assert Same(aa, f, p);
        assert aa(Loc(f, At(t, p).size), loc) == NoAlias;
      } else {
        var k :| 0 <= k < |s.ptrs| && s.ptrs[k] == p;
        assert aa(loc, At(t, s.ptrs[k])) == NoAlias;
      }
    }
  }

  // What adding does, field by field.
  lemma AddPointerShape(aa: Oracle, t: Table, i: nat, p: Pointer, size: nat)
    requires i < |t.sets| && p !in t.entries
    requires t.sets[i].ptrs != [] ==> t.sets[i].ptrs[0] in t.entries
    ensures var u, s := AddPointer(aa, t, i, p, size), t.sets[i];
            && u.anySet == t.anySet && |u.sets| == |t.sets|
            && u.sets == t.sets[i := s.(ptrs := s.ptrs + [p], must := u.sets[i].must)]
            && u.entries.Keys == t.entries.Keys + {p} && u.entries[p] == PointerRec(i, size)
            && (forall q | q in t.entries :: u.entries[q].home == t.entries[q].home)
            && (forall q | q in t.entries && !(s.ptrs != [] && q == s.ptrs[0]) :: u.entries[q] == t.entries[q])
            && (u.sets[i].must ==> s.must)
            && (u.sets[i].must && s.ptrs != [] ==>
                  && aa(At(t, s.ptrs[0]), Loc(p, size)) == MustAlias
                  && u.entries[s.ptrs[0]].size ==
                       if size > t.entries[s.ptrs[0]].size then size else t.entries[s.ptrs[0]].size)
            && (s.ptrs != [] && !u.sets[i].must ==> u.entries[s.ptrs[0]] == t.entries[s.ptrs[0]])
            && (s.must && s.ptrs == [] ==> u.sets[i].must)
            && u.totalMay + Weight(s) == t.totalMay + Weight(u.sets[i])
  {
  }

  /** Adding a new pointer to a live set keeps the table consistent. */
  lemma AddPointerCore(aa: Oracle, t: Table, i: nat, p: Pointer, size: nat)
    requires Core(t) && Live(t.sets, i) && p !in t.entries
    ensures t.sets[i].ptrs != [] ==> t.sets[i].ptrs[0] in t.entries
    ensures var u := AddPointer(aa, t, i, p, size);
            && Core(u)
            && (forall x | 0 <= x < |t.sets| :: Root(u.sets, x) == Root(t.sets, x))
  {
    hide AddPointer;
    hide EntriesListed;
    hide NoRepeats;
    hide MayCount;
    hide Root;
    assert t.sets[i].ptrs != [] ==> t.sets[i].ptrs[0] in t.sets[i].ptrs;
    assert t.sets[i].ptrs != [] ==> t.sets[i].ptrs[0] in t.entries;
    hide MembersKnown;
    var u := AddPointer(aa, t, i, p, size);
    AddPointerLists(aa, t, i, p, size);
    AddedKnown(t, u, i, p);
    AddedListed(t, u, i, p);
    AddedOnce(t, u, i, p);
    hide Placed;
    AddPointerShape(aa, t, i, p, size);
    MayCountUpdate(t.sets, i, u.sets[i]);
  }

  // The lists and roots after `p` has been added to set `i`.
  ghost predicate ListsAdded(t: Table, u: Table, i: nat, p: Pointer) {
    && Ordered(t.sets) && InRange(t) && Ordered(u.sets) && InRange(u)
    && Live(t.sets, i) && p !in t.entries && |u.sets| == |t.sets|
    && u.sets[i].ptrs == t.sets[i].ptrs + [p]
    && (forall x | 0 <= x < |t.sets| && x != i :: u.sets[x].ptrs == t.sets[x].ptrs)
    && (forall x | 0 <= x < |t.sets| :: Root(u.sets, x) == Root(t.sets, x))
    && Root(t.sets, i) == i
    && u.entries.Keys == t.entries.Keys + {p} && u.entries[p].home == i
    && (forall q | q in t.entries :: u.entries[q].home == t.entries[q].home)
  }

  lemma AddPointerLists(aa: Oracle, t: Table, i: nat, p: Pointer, size: nat)
    requires Ordered(t.sets) && InRange(t) && Live(t.sets, i) && p !in t.entries
    requires t.sets[i].ptrs != [] ==> t.sets[i].ptrs[0] in t.entries
    ensures ListsAdded(t, AddPointer(aa, t, i, p, size), i, p)
  {
    var u := AddPointer(aa, t, i, p, size);
    AddPointerShape(aa, t, i, p, size);
    hide AddPointer;
    assert Root(t.sets, i) == i;
    forall x | 0 <= x < |t.sets|
      ensures Root(u.sets, x) == Root(t.sets, x)
    {
      RootSame(t.sets, u.sets, x);
    }
    hide Root;
  }

  lemma AddedKnown(t: Table, u: Table, i: nat, p: Pointer)
    requires ListsAdded(t, u, i, p) && MembersKnown(t)
    ensures MembersKnown(u)
  {
    hide Root;
    hide Ordered;
  }

  lemma AddedListed(t: Table, u: Table, i: nat, p: Pointer)
    requires ListsAdded(t, u, i, p) && EntriesListed(t)
    ensures EntriesListed(u)
  {
    hide Root;
    hide Ordered;
    forall q | q in u.entries
      ensures q in u.sets[Root(u.sets, u.entries[q].home)].ptrs
    {
      if q in t.entries {
        assert q in t.sets[Root(t.sets, t.entries[q].home)].ptrs;
      }
    }
  }

  lemma AddedOnce(t: Table, u: Table, i: nat, p: Pointer)
    requires ListsAdded(t, u, i, p) && MembersKnown(t) && NoRepeats(t)
    ensures NoRepeats(u)
  {
    hide Root;
    hide Ordered;
    forall x, k, l | 0 <= x < |u.sets| && 0 <= k < l < |u.sets[x].ptrs|
      ensures u.sets[x].ptrs[k] != u.sets[x].ptrs[l]
    {
      if x == i && l == |t.sets[i].ptrs| {
        assert t.sets[i].ptrs[k] in t.sets[i].ptrs;
      }
    }
  }

  lemma AddPointerAgrees(aa: Oracle, t: Table, i: nat, p: Pointer, size: nat)
    requires Reasonable(aa) && MustSetsAgree(aa, t) && Live(t.sets, i) && p !in t.entries
    requires forall x, q | 0 <= x < |t.sets| && q in t.sets[x].ptrs :: q in t.entries
    ensures t.sets[i].ptrs != [] ==> t.sets[i].ptrs[0] in t.entries
    ensures MustSetsAgree(aa, AddPointer(aa, t, i, p, size))
  {
    assert t.sets[i].ptrs != [] ==> t.sets[i].ptrs[0] in t.sets[i].ptrs;
    AddPointerShape(aa, t, i, p, size);
    var u := AddPointer(aa, t, i, p, size);
    hide AddPointer;
    AddedSizes(t, u, p);
    hide Same;
    forall x, q | Live(u.sets, x) && u.sets[x].must && q in u.sets[x].ptrs
      ensures Agrees(aa, u, u.sets[x].ptrs[0], q)
    {
      assert Live(t.sets, x);
      if x == i && q == p && t.sets[i].ptrs != [] {
        assert u.sets[x].ptrs[0] == t.sets[i].ptrs[0];
        assert Same(aa, t.sets[i].ptrs[0], p);
        assert aa(At(t, t.sets[i].ptrs[0]), At(u, p)) != NoAlias;
      } else if q != p {
        assert u.sets[x].ptrs[0] in t.sets[x].ptrs && u.sets[x].ptrs[0] == t.sets[x].ptrs[0];
        assert Agrees(aa, t, t.sets[x].ptrs[0], q);
        AgreesGrown(aa, t, u, t.sets[x].ptrs[0], q);
      } else {
        SameReflexive(aa, p);
      }
    }
  }

  lemma SameReflexive(aa: Oracle, p: Pointer)
    ensures Same(aa, p, p)
  {
  }

  lemma AddedSizes(t: Table, u: Table, p: Pointer)
    requires u.entries.Keys == t.entries.Keys + {p} && p !in t.entries
    requires forall q | q in t.entries :: u.entries[q].size >= t.entries[q].size
    ensures forall q :: At(u, q).ptr == q && At(u, q).size >= At(t, q).size
  {
  }

  // Two pointers that alias go on doing so when they grow.
  lemma AgreesGrown(aa: Oracle, t: Table, u: Table, p: Pointer, q: Pointer)
    requires Reasonable(aa) && Agrees(aa, t, p, q)
    requires At(t, p).size <= At(u, p).size && At(t, q).size <= At(u, q).size
    ensures Agrees(aa, u, p, q)
  {
    hide Same;
    if p != q {
      assert aa(At(u, p), At(t, q)) != NoAlias;
      assert aa(At(t, q), At(u, p)) != NoAlias;
      assert aa(At(u, q), At(u, p)) != NoAlias;
    }
  }

  /** Adding a pointer to the one live set that may alias it keeps sets apart, and leaves the
      largest size of a must-alias set with its first pointer. */
  lemma AddPointerApart(aa: Oracle, t: Table, i: nat, p: Pointer, size: nat)
    requires Reasonable(aa) && Core(t) && MustSetsAgree(aa, t) && Live(t.sets, i) && p !in t.entries
    requires Apart(aa, t) && FirstIsLargest(t)
    requires forall x | Live(t.sets, x) && x != i :: !Aliases(aa, t, x, Loc(p, size))
    ensures t.sets[i].ptrs != [] ==> t.sets[i].ptrs[0] in t.entries
    ensures var u := AddPointer(aa, t, i, p, size);
            Ordered(u.sets) && InRange(u) && Apart(aa, u) && FirstIsLargest(u)
  {
    AddPointerCore(aa, t, i, p, size);
    hide AddPointer;
    var u := AddPointer(aa, t, i, p, size);
    assert FirstIsLargest(u) by { AddPointerFirst(aa, t, i, p, size); }
    forall q, r | q in u.entries && r in u.entries && SetOf(u, q) != SetOf(u, r)
      ensures aa(At(u, q), At(u, r)) == NoAlias
    {
      AddPointerApartPair(aa, t, i, p, size, q, r);
    }
  }

  lemma AddPointerApartPair(aa: Oracle, t: Table, i: nat, p: Pointer, size: nat, q: Pointer, r: Pointer)
    requires Reasonable(aa) && Core(t) && MustSetsAgree(aa, t) && Live(t.sets, i) && p !in t.entries
    requires Apart(aa, t) && FirstIsLargest(t)
    requires t.sets[i].ptrs != [] ==> t.sets[i].ptrs[0] in t.entries
    requires forall x | Live(t.sets, x) && x != i :: !Aliases(aa, t, x, Loc(p, size))
    requires var u := AddPointer(aa, t, i, p, size);
             && Ordered(u.sets) && InRange(u)
             && (forall x | 0 <= x < |t.sets| :: Root(u.sets, x) == Root(t.sets, x))
             && q in u.entries && r in u.entries && SetOf(u, q) != SetOf(u, r)
    ensures aa(At(AddPointer(aa, t, i, p, size), q), At(AddPointer(aa, t, i, p, size), r)) == NoAlias
  {
    AddPointerShape(aa, t, i, p, size);
    hide AddPointer;
    hide MayCount;
    hide FirstIsLargest;
    hide Aliases;
    hide Reasonable;
    hide Placed;
    hide MustSetsAgree;
    if q != p && r != p {
      AddPointerApartOld(aa, t, i, p, size, q, r);
    } else {
      AddPointerApartNew(aa, t, i, p, size, if q == p then r else q);
    }
  }

  lemma AddPointerFirst(aa: Oracle, t: Table, i: nat, p: Pointer, size: nat)
    requires Live(t.sets, i) && p !in t.entries && FirstIsLargest(t)
    requires forall x, q | Live(t.sets, x) && q in t.sets[x].ptrs :: q in t.entries
    requires forall x, q | Live(t.sets, x) && x != i && q in t.sets[x].ptrs ::
          t.sets[i].ptrs == [] || q != t.sets[i].ptrs[0]
    ensures t.sets[i].ptrs != [] ==> t.sets[i].ptrs[0] in t.sets[i].ptrs
    ensures FirstIsLargest(AddPointer(aa, t, i, p, size))
  {
    assert t.sets[i].ptrs != [] ==> t.sets[i].ptrs[0] in t.sets[i].ptrs;
    AddPointerShape(aa, t, i, p, size);
    var u := AddPointer(aa, t, i, p, size);
    hide AddPointer;
    forall x, q | Live(u.sets, x) && u.sets[x].must && q in u.sets[x].ptrs
      ensures q in u.entries && At(u, q).size <= At(u, u.sets[x].ptrs[0]).size
    {
      assert Live(t.sets, x);
      if x != i {
        assert u.sets[x].ptrs[0] in u.sets[x].ptrs;
      }
    }
  }

  // The added pointer, or the one that speaks for its set, against a pointer of another set.
  lemma AddPointerApartNew(aa: Oracle, t: Table, i: nat, p: Pointer, size: nat, q: Pointer)
    requires Reasonable(aa) && Core(t) && MustSetsAgree(aa, t) && Live(t.sets, i) && p !in t.entries
    requires FirstIsLargest(t)
    requires t.sets[i].ptrs != [] ==> t.sets[i].ptrs[0] in t.entries
    requires forall x | Live(t.sets, x) && x != i :: !Aliases(aa, t, x, Loc(p, size))
    requires q in t.entries && SetOf(t, q) != i
    ensures At(AddPointer(aa, t, i, p, size), q) == At(t, q)
    ensures aa(Loc(p, size), At(t, q)) == NoAlias && aa(At(t, q), Loc(p, size)) == NoAlias
  {
    AddPointerShape(aa, t, i, p, size);
    hide AddPointer;
    AskedThroughFirst(aa, t, SetOf(t, q), Loc(p, size));
    if t.sets[i].ptrs != [] {
      assert t.sets[i].ptrs[0] in t.sets[i].ptrs;
    }
  }

  lemma AddPointerApartOld(aa: Oracle, t: Table, i: nat, p: Pointer, size: nat, q: Pointer, r: Pointer)
    requires Reasonable(aa) && Core(t) && MustSetsAgree(aa, t) && Live(t.sets, i) && p !in t.entries
    requires Apart(aa, t) && FirstIsLargest(t)
    requires t.sets[i].ptrs != [] ==> t.sets[i].ptrs[0] in t.entries
    requires forall x | Live(t.sets, x) && x != i :: !Aliases(aa, t, x, Loc(p, size))
    requires q in t.entries && r in t.entries && SetOf(t, q) != SetOf(t, r)
    ensures aa(At(AddPointer(aa, t, i, p, size), q), At(AddPointer(aa, t, i, p, size), r)) == NoAlias
  {
    AddPointerShape(aa, t, i, p, size);
    var u := AddPointer(aa, t, i, p, size);
    hide AddPointer;
    assert aa(At(t, q), At(t, r)) == NoAlias;
    var s := t.sets[i];
    if s.ptrs != [] && u.sets[i].must && (q == s.ptrs[0] || r == s.ptrs[0]) {
      var o := if q == s.ptrs[0] then r else q;
      assert s.ptrs[0] in s.ptrs;
      assert SetOf(t, s.ptrs[0]) == i;
      AddPointerApartNew(aa, t, i, p, size, o);
      assert Same(aa, s.ptrs[0], p);
      assert aa(Loc(s.ptrs[0], size), At(t, o)) == NoAlias;
    }
  }
}
