/** What the pointers of one set have to do with each other: until saturation every set hangs together
    by pointers that alias. */
module AliasSetLinks {
  import opened AliasSetTables
  import opened AliasSets
  import opened AliasSetsProofs
  import opened AliasSetsApart
  import opened AliasSetRuns
  import opened Options

  // ----- Chains of aliasing pointers -----

  // Do the pointers alias at the sizes that the table has for them?
  predicate Link(aa: Oracle, t: Table, p: Pointer, q: Pointer) {
    aa(At(t, p), At(t, q)) != NoAlias
  }

  predicate Chain(aa: Oracle, t: Table, within: set<Pointer>, c: seq<Pointer>) {
    && c != [] && (forall i | 0 <= i < |c| :: c[i] in within)
    && forall i | 0 <= i < |c| - 1 :: Link(aa, t, c[i], c[i + 1])
  }

  /** A chain of pointers leads from one to the other, each aliasing the next. */
  ghost predicate Linked(aa: Oracle, t: Table, within: set<Pointer>, p: Pointer, q: Pointer) {
    exists c: seq<Pointer> :: Chain(aa, t, within, c) && c[0] == p && c[|c| - 1] == q
  }

  lemma LinkedSelf(aa: Oracle, t: Table, within: set<Pointer>, p: Pointer)
    requires p in within
    ensures Linked(aa, t, within, p, p)
  {
    assert Chain(aa, t, within, [p]);
  }

  lemma LinkedStep(aa: Oracle, t: Table, within: set<Pointer>, p: Pointer, q: Pointer)
    requires p in within && q in within && Link(aa, t, p, q)
    ensures Linked(aa, t, within, p, q)
  {
    var c := [p, q];
    assert Chain(aa, t, within, c) && c[0] == p && c[|c| - 1] == q;
  }

  lemma LinkedThrough(aa: Oracle, t: Table, within: set<Pointer>, p: Pointer, q: Pointer, r: Pointer)
    requires Linked(aa, t, within, p, q) && Linked(aa, t, within, q, r)
    ensures Linked(aa, t, within, p, r)
  {
    var c :| Chain(aa, t, within, c) && c[0] == p && c[|c| - 1] == q;
    var d :| Chain(aa, t, within, d) && d[0] == q && d[|d| - 1] == r;
    hide Link;
    var e := c + d[1..];
    assert forall i | 0 <= i < |e| - 1 :: Link(aa, t, e[i], e[i + 1]);
    assert Chain(aa, t, within, e) && e[0] == p && e[|e| - 1] == r;
  }

  lemma LinkedBack(aa: Oracle, t: Table, within: set<Pointer>, p: Pointer, q: Pointer)
    requires Symmetric(aa) && Linked(aa, t, within, p, q)
    ensures Linked(aa, t, within, q, p)
  {
    var c :| Chain(aa, t, within, c) && c[0] == p && c[|c| - 1] == q;
    var n := |c|;
    var d := seq(n, i requires 0 <= i < n => c[n - 1 - i]);
    forall i | 0 <= i < n - 1 ensures Link(aa, t, d[i], d[i + 1]) {
      assert Link(aa, t, c[n - 2 - i], c[n - 1 - i]);
    }
    hide Link;
    assert Chain(aa, t, within, d) && d[0] == q && d[|d| - 1] == p;
  }

  // Every size is at least what it was.
  ghost predicate Wider(t: Table, u: Table) {
    forall q: Pointer :: At(u, q).size >= At(t, q).size
  }

  lemma LinkStays(aa: Oracle, t: Table, u: Table, p: Pointer, q: Pointer)
    requires Symmetric(aa) && KeepsAliases(aa) && Wider(t, u) && Link(aa, t, p, q)
    ensures Link(aa, u, p, q)
  {
    assert aa(At(u, p), At(t, q)) != NoAlias;
    assert aa(At(t, q), At(u, p)) != NoAlias;
    assert aa(At(u, q), At(u, p)) != NoAlias;
  }

  // Larger accesses and more pointers to go through break no chain.
  lemma LinkedStays(aa: Oracle, t: Table, u: Table, within: set<Pointer>, wider: set<Pointer>, p: Pointer, q: Pointer)
    requires Symmetric(aa) && KeepsAliases(aa) && Wider(t, u) && within <= wider && Linked(aa, t, within, p, q)
    ensures Linked(aa, u, wider, p, q)
  {
    var c :| Chain(aa, t, within, c) && c[0] == p && c[|c| - 1] == q;
    forall i | 0 <= i < |c| - 1 ensures Link(aa, u, c[i], c[i + 1]) {
      LinkStays(aa, t, u, c[i], c[i + 1]);
    }
    hide Link;
    assert Chain(aa, u, wider, c);
  }

  // ----- Sets that hang together -----

  function Members(s: AliasSet): set<Pointer> {
    set p | p in s.ptrs
  }

  ghost predicate Connected(aa: Oracle, t: Table, members: set<Pointer>) {
    forall p, q | p in members && q in members :: Linked(aa, t, members, p, q)
  }

  // The pointer is linked to a member that aliases the location.
  ghost predicate HangsOn(aa: Oracle, t: Table, members: set<Pointer>, loc: Loc, p: Pointer) {
    exists a | a in members :: aa(At(t, a), loc) != NoAlias && Linked(aa, t, members, p, a)
  }

  ghost predicate AllHang(aa: Oracle, t: Table, members: set<Pointer>, loc: Loc) {
    forall p | p in members :: HangsOn(aa, t, members, loc, p)
  }

  // Sets that are asked about the location say so because of a member.
  lemma AliasedHangs(aa: Oracle, t: Table, i: nat, loc: Loc)
    requires Symmetric(aa) && i < |t.sets| && !t.sets[i].any && Aliases(aa, t, i, loc)
    requires Connected(aa, t, Members(t.sets[i]))
    ensures AllHang(aa, t, Members(t.sets[i]), loc)
  {
    var s := t.sets[i];
    var k :| 0 <= k < |s.ptrs| && aa(At(t, s.ptrs[k]), loc) != NoAlias;
    assert s.ptrs[k] in Members(s);
    hide Linked;
    hide At;
    forall p | p in Members(s) ensures HangsOn(aa, t, Members(s), loc, p) {
      assert Linked(aa, t, Members(s), p, s.ptrs[k]);
    }
  }

  lemma HangsMore(aa: Oracle, t: Table, u: Table, members: set<Pointer>, more: set<Pointer>, loc: Loc, p: Pointer)
    requires Symmetric(aa) && KeepsAliases(aa) && Wider(t, u) && members <= more && HangsOn(aa, t, members, loc, p)
    ensures HangsOn(aa, u, more, loc, p)
  {
    var a :| a in members && aa(At(t, a), loc) != NoAlias && Linked(aa, t, members, p, a);
    LinkedStays(aa, t, u, members, more, p, a);
    hide Linked;
    assert aa(At(u, a), loc) != NoAlias;
  }

  // A set whose members all hang on the location of one of them is connected.
  lemma HungIsConnected(aa: Oracle, t: Table, members: set<Pointer>, p: Pointer)
    requires Symmetric(aa) && p in members
    requires forall q | q in members && q != p :: HangsOn(aa, t, members, At(t, p), q)
    ensures Connected(aa, t, members)
  {
    forall q | q in members ensures Linked(aa, t, members, q, p) && Linked(aa, t, members, p, q) {
      if q == p {
        LinkedSelf(aa, t, members, p);
      } else {
        var a :| a in members && aa(At(t, a), At(t, p)) != NoAlias && Linked(aa, t, members, q, a);
        LinkedStep(aa, t, members, a, p);
        LinkedThrough(aa, t, members, q, a, p);
        LinkedBack(aa, t, members, q, p);
      }
    }
    hide Linked;
    hide HangsOn;
    forall q, r | q in members && r in members ensures Linked(aa, t, members, q, r) {
      LinkedThrough(aa, t, members, q, p, r);
    }
  }

  // All sets but one are connected.
  ghost predicate AllConnected(aa: Oracle, t: Table, but: Option<nat>) {
    forall x: nat | x < |t.sets| && but != Some(x) :: Connected(aa, t, Members(t.sets[x]))
  }

  lemma ConnectedStays(aa: Oracle, t: Table, u: Table, members: set<Pointer>)
    requires Symmetric(aa) && KeepsAliases(aa) && Wider(t, u) && Connected(aa, t, members)
    ensures Connected(aa, u, members)
  {
    forall p, q | p in members && q in members ensures Linked(aa, u, members, p, q) {
      LinkedStays(aa, t, u, members, members, p, q);
    }
  }

  // ----- Merging for a location -----

  lemma MergedHangs(aa: Oracle, t: Table, i: nat, j: nat, loc: Loc)
    requires Symmetric(aa) && KeepsAliases(aa) && i < |t.sets| && j < |t.sets| && i != j
    requires AllConnected(aa, t, Some(i)) && AllHang(aa, t, Members(t.sets[i]), loc)
    requires AllHang(aa, t, Members(t.sets[j]), loc)
    ensures var u := MergeSetIn(aa, t, i, j);
            AllConnected(aa, u, Some(i)) && AllHang(aa, u, Members(u.sets[i]), loc)
  {
    var u := MergeSetIn(aa, t, i, j);
    hide MergeSetIn;
    MergeSetInShape(aa, t, i, j);
    assert Wider(t, u);
    var a, b, c := Members(t.sets[i]), Members(t.sets[j]), Members(u.sets[i]);
    assert c == a + b;
    hide At;
    hide Wider;
    hide HangsOn;
    forall p | p in c ensures HangsOn(aa, u, c, loc, p) {
      HangsMore(aa, t, u, if p in a then a else b, c, loc, p);
    }
    assert Members(u.sets[j]) == {};
    hide Connected;
    forall x: nat | x < |u.sets| && x != i ensures Connected(aa, u, Members(u.sets[x])) {
      if x == j {
        NothingIsConnected(aa, u);
      } else {
        ConnectedStays(aa, t, u, Members(t.sets[x]));
      }
    }
  }

  lemma NothingIsConnected(aa: Oracle, t: Table)
    ensures Connected(aa, t, {})
  {
  }

  /** The merging walk merges sets that hang on the location, each by a pointer that aliases it. */
  lemma {:induction false} MergeForLinks(aa: Oracle, t: Table, loc: Loc, k: nat, found: Option<nat>)
    requires Symmetric(aa) && KeepsAliases(aa) && forall x | 0 <= x < |t.sets| :: !t.sets[x].any
    requires k <= |t.sets| && (found.Some? ==> found.value < k && AllHang(aa, t, Members(t.sets[found.value]), loc))
    requires AllConnected(aa, t, found)
    ensures var (u, f) := MergeFor(aa, t, loc, k, found);
            AllConnected(aa, u, f) && (f.Some? ==> AllHang(aa, u, Members(u.sets[f.value]), loc))
    decreases |t.sets| - k
  {
    hide MergeSetIn;
    hide AllHang;
    hide Connected;
    hide Aliases;
    hide Symmetric;
    hide KeepsAliases;
    if k == |t.sets| {
    } else if t.sets[k].forward.Some? || !Aliases(aa, t, k, loc) {
      MergeForLinks(aa, t, loc, k + 1, found);
    } else {
      AliasedHangs(aa, t, k, loc);
      if found.None? {
        MergeForLinks(aa, t, loc, k + 1, Some(k));
      } else {
        MergedHangs(aa, t, found.value, k, loc);
        MergeSetInShape(aa, t, found.value, k);
        hide AllConnected;
        MergeForLinks(aa, MergeSetIn(aa, t, found.value, k), loc, k + 1, found);
      }
    }
  }

  // ----- What an add links -----

  // A new pointer in a set that hangs on its location, or in an empty one.
  lemma AddPointerLinks(aa: Oracle, t: Table, i: nat, p: Pointer, size: nat)
    requires Symmetric(aa) && KeepsAliases(aa) && i < |t.sets| && p !in t.entries
    requires forall q | q in t.sets[i].ptrs :: q in t.entries
    requires AllConnected(aa, t, Some(i)) && AllHang(aa, t, Members(t.sets[i]), Loc(p, size))
    ensures AllConnected(aa, AddPointer(aa, t, i, p, size), None)
  {
    var u := AddPointer(aa, t, i, p, size);
    assert t.sets[i].ptrs != [] ==> t.sets[i].ptrs[0] in t.sets[i].ptrs;
    AddPointerShape(aa, t, i, p, size);
    AddPointerSizes(aa, t, i, p, size);
    hide AddPointer;
    assert Wider(t, u) && At(u, p) == Loc(p, size);
    var a, b := Members(t.sets[i]), Members(u.sets[i]);
    assert b == a + {p};
    hide At;
    hide Wider;
    hide HangsOn;
    hide Connected;
    forall q | q in b && q != p ensures HangsOn(aa, u, b, Loc(p, size), q) {
      HangsMore(aa, t, u, a, b, Loc(p, size), q);
    }
    HungIsConnected(aa, u, b, p);
    forall x: nat | x < |u.sets| ensures Connected(aa, u, Members(u.sets[x])) {
      if x != i {
        ConnectedStays(aa, t, u, Members(t.sets[x]));
      }
    }
  }

  lemma AllConnectedStays(aa: Oracle, t: Table, u: Table)
    requires Symmetric(aa) && KeepsAliases(aa) && AllConnected(aa, t, None) && Wider(t, u) && |u.sets| == |t.sets|
    requires forall x | 0 <= x < |t.sets| :: u.sets[x].ptrs == t.sets[x].ptrs
    ensures AllConnected(aa, u, None)
  {
    hide Connected;
    hide Wider;
    forall x: nat | x < |u.sets| ensures Connected(aa, u, Members(u.sets[x])) {
      assert Members(u.sets[x]) == Members(t.sets[x]);
      ConnectedStays(aa, t, u, Members(t.sets[x]));
    }
  }

  // A pointer that grew: the sets that alias it now are linked through it, its own set among them.
  lemma GrownLinks(aa: Oracle, v: Table, loc: Loc, u: Table, f: Option<nat>)
    requires Reasonable(aa) && Core(v) && MustSetsAgree(aa, v) && loc.ptr in v.entries && loc == At(v, loc.ptr)
    requires MergedFor(aa, v, loc, 0, None, u, f) && forall x | 0 <= x < |v.sets| :: !v.sets[x].any
    requires AllConnected(aa, u, f) && (f.Some? ==> AllHang(aa, u, Members(u.sets[f.value]), loc))
    ensures AllConnected(aa, u, None)
  {
    if f.Some? {
      MergedFound(aa, v, loc, u, f);
      SomeMemberAliases(aa, v, f.value, loc);
      WidenFindsOwn(aa, v, loc, u, f);
      ReasonableLaws(aa);
      MergedIsCore(aa, v, loc, u, f);
      OwnSet(u, loc.ptr);
      assert At(u, loc.ptr) == loc;
      hide *;
      LastIsConnected(aa, u, f.value, loc.ptr);
    }
  }

  lemma MergedFound(aa: Oracle, t: Table, loc: Loc, u: Table, f: Option<nat>)
    requires MergedFor(aa, t, loc, 0, None, u, f) && f.Some?
    ensures f.value < |t.sets| && Aliases(aa, t, f.value, loc)
  {
    hide Core;
    hide Coarser;
    hide Unmatched;
    hide Aliases;
  }

  lemma LastIsConnected(aa: Oracle, t: Table, i: nat, p: Pointer)
    requires Symmetric(aa) && AllConnected(aa, t, Some(i)) && i < |t.sets| && p in t.sets[i].ptrs
    requires AllHang(aa, t, Members(t.sets[i]), At(t, p))
    ensures AllConnected(aa, t, None)
  {
    hide At;
    hide HangsOn;
    hide Symmetric;
    assert p in Members(t.sets[i]);
    HungIsConnected(aa, t, Members(t.sets[i]), p);
    hide Connected;
  }

  // What is aliased by anything aliases itself.
  lemma SomeMemberAliases(aa: Oracle, t: Table, i: nat, loc: Loc)
    requires Reasonable(aa) && i < |t.sets| && !t.sets[i].any && Aliases(aa, t, i, loc)
    ensures aa(loc, loc) != NoAlias
  {
    var s := t.sets[i];
    var k :| 0 <= k < |s.ptrs| && aa(At(t, s.ptrs[k]), loc) != NoAlias;
    assert aa(loc, At(t, s.ptrs[k])) != NoAlias;
  }

  lemma WidenLinks(aa: Oracle, t: Table, p: Pointer, size: nat)
    requires Reasonable(aa) && Core(t) && Backward(t.sets) && MustSetsAgree(aa, t) && p in t.entries
    requires (forall x | 0 <= x < |t.sets| :: !t.sets[x].any) && AllConnected(aa, t, None)
    ensures AllConnected(aa, Widen(aa, t, p, size), None)
  {
    if size > t.entries[p].size {
      var v, loc := Grow(t, p, size), Loc(p, size);
      ReasonableLaws(aa);
      GrowLinks(aa, t, p, size);
      GrowAgrees(aa, t, p, size);
      GrownMerges(aa, t, p, size);
      hide Grow;
      hide At;
      hide MustSetsAgree;
      hide Core;
      hide AllConnected;
      hide AllHang;
      hide MergedFor;
      hide Reasonable;
      hide Symmetric;
      hide KeepsAliases;
      MergeForLinks(aa, v, loc, 0, None);
      hide MergeFor;
      GrownLinks(aa, v, loc, MergeFor(aa, v, loc, 0, None).0, MergeFor(aa, v, loc, 0, None).1);
    }
  }

  // A size that was raised breaks no chain.
  lemma GrowLinks(aa: Oracle, t: Table, p: Pointer, size: nat)
    requires Symmetric(aa) && KeepsAliases(aa) && AllConnected(aa, t, None)
    requires p in t.entries && size > t.entries[p].size
    ensures var v := Grow(t, p, size);
            p in v.entries && At(v, p) == Loc(p, size) && v.sets == t.sets && AllConnected(aa, v, None)
  {
    var v := Grow(t, p, size);
    assert Wider(t, v);
    hide AllConnected;
    hide Wider;
    hide Grow;
    AllConnectedStays(aa, t, v);
  }

  lemma KnownLinks(aa: Oracle, threshold: nat, t: Table, p: Pointer, size: nat)
    requires Reasonable(aa) && Valid(threshold, t) && MustSetsAgree(aa, t) && t.anySet.None? && p in t.entries
    requires AllConnected(aa, t, None)
    ensures AllConnected(aa, GetSet(aa, threshold, t, p, size).0, None)
  {
    hide Reasonable;
    hide MustSetsAgree;
    hide AllConnected;
    WidenKeeps(aa, threshold, t, p, size);
    WidenLinks(aa, t, p, size);
    hide Widen;
    ReasonableLaws(aa);
    hide Core;
    hide Settle;
    SettledLinks(aa, Widen(aa, t, p, size), p);
  }

  lemma SettledLinks(aa: Oracle, t: Table, p: Pointer)
    requires Core(t) && p in t.entries && Symmetric(aa) && KeepsAliases(aa) && AllConnected(aa, t, None)
    ensures AllConnected(aa, Settle(t, p), None)
  {
    SettledSame(t, p);
    hide *;
    AllConnectedStays(aa, t, Settle(t, p));
  }

  // Settling changes neither the lists nor the sizes.
  lemma SettledSame(t: Table, p: Pointer)
    requires Core(t) && p in t.entries
    ensures var u := Settle(t, p);
            |u.sets| == |t.sets| && Wider(t, u) && forall x | 0 <= x < |t.sets| :: u.sets[x].ptrs == t.sets[x].ptrs
  {
    SettleKeeps(t, p);
    SettledCalm(t.sets, Settle(t, p).sets);
    hide Settle;
    hide Core;
    hide SetOf;
    hide Backward;
    hide Root;
    hide Ordered;
  }

  lemma ReasonableLaws(aa: Oracle)
    requires Reasonable(aa)
    ensures Symmetric(aa) && KeepsAliases(aa)
  {
  }

  lemma NewLinks(aa: Oracle, threshold: nat, t: Table, p: Pointer, size: nat)
    requires Reasonable(aa) && Valid(threshold, t) && t.anySet.None? && p !in t.entries
    requires AllConnected(aa, t, None)
    ensures AllConnected(aa, GetSet(aa, threshold, t, p, size).0, None)
  {
    var loc := Loc(p, size);
    ReasonableLaws(aa);
    hide Symmetric;
    hide KeepsAliases;
    hide Reasonable;
    hide AllConnected;
    hide AllHang;
    MergeForLinks(aa, t, loc, 0, None);
    MergeForMerges(aa, t, loc, 0, None);
    var (v, found) := MergeFor(aa, t, loc, 0, None);
    hide MergeFor;
    MergedIsCore(aa, t, loc, v, found);
    hide MergedFor;
    if found.Some? {
      MembersAreTracked(v);
      hide Core;
      AddPointerLinks(aa, v, found.value, p, size);
      hide AddPointer;
    } else {
      NewSetKeeps(v);
      var w := PushSet(v, NEW_SET);
      MembersAreTracked(w);
      hide Core;
      PushedLinks(aa, v, loc);
      AddPointerLinks(aa, w, |v.sets|, p, size);
      hide AddPointer;
    }
  }

  lemma PushedLinks(aa: Oracle, t: Table, loc: Loc)
    requires Symmetric(aa) && KeepsAliases(aa) && AllConnected(aa, t, None)
    ensures var u := PushSet(t, NEW_SET);
            AllConnected(aa, u, Some(|t.sets|)) && AllHang(aa, u, Members(u.sets[|t.sets|]), loc)
  {
    var u := PushSet(t, NEW_SET);
    assert Wider(t, u);
    hide Connected;
    hide Wider;
    forall x: nat | x < |t.sets| ensures Connected(aa, u, Members(u.sets[x])) {
      assert u.sets[x] == t.sets[x];
      ConnectedStays(aa, t, u, Members(t.sets[x]));
    }
  }

  /** Every add that does not saturate the table leaves every set connected. */
  lemma AddKeepsLinks(aa: Oracle, threshold: nat, t: Table, p: Pointer, size: nat)
    requires Reasonable(aa) && Valid(threshold, t) && MustSetsAgree(aa, t)
    requires t.anySet.None? ==> AllConnected(aa, t, None)
    ensures var u := Add(aa, threshold, t, p, size).0; u.anySet.None? ==> AllConnected(aa, u, None)
  {
    AddSplits(aa, threshold, t, p, size);
    AddKeepsValid(aa, threshold, t, p, size);
    var u := Add(aa, threshold, t, p, size).0;
    hide Add;
    if u.anySet.None? {
      if p in t.entries {
        KnownLinks(aa, threshold, t, p, size);
      } else {
        NewLinks(aa, threshold, t, p, size);
      }
    }
    hide *;
  }

  lemma {:induction false} RunKeepsLinks(aa: Oracle, threshold: nat, t: Table, adds: seq<Loc>)
    requires Reasonable(aa) && Valid(threshold, t) && MustSetsAgree(aa, t)
    requires t.anySet.None? ==> AllConnected(aa, t, None)
    ensures var u := AddAll(aa, threshold, t, adds);
            Valid(threshold, u) && (u.anySet.None? ==> AllConnected(aa, u, None))
    decreases |adds|
  {
    hide Reasonable;
    hide Valid;
    hide MustSetsAgree;
    hide AllConnected;
    if adds != [] {
      var p, size := adds[0].ptr, adds[0].size;
      AddKeepsValid(aa, threshold, t, p, size);
      AddKeepsAgreement(aa, threshold, t, p, size);
      AddKeepsLinks(aa, threshold, t, p, size);
      hide Add;
      RunKeepsLinks(aa, threshold, Add(aa, threshold, t, p, size).0, adds[1..]);
    }
  }

  // ----- What holds after a run -----

  lemma LinkedAlike(aa: Oracle, bb: Oracle, used: Loc -> bool, t: Table, within: set<Pointer>, p: Pointer, q: Pointer)
    requires Alike(aa, bb, used) && InUse(used, t) && (forall r | r in within :: r in t.entries)
    ensures Linked(aa, t, within, p, q) <==> Linked(bb, t, within, p, q)
  {
    forall a, b | a in within && b in within ensures Link(aa, t, a, b) == Link(bb, t, a, b) {
      assert used(At(t, a)) && used(At(t, b));
    }
    hide Link;
    hide Alike;
    hide InUse;
    if Linked(aa, t, within, p, q) {
      var c :| Chain(aa, t, within, c) && c[0] == p && c[|c| - 1] == q;
      assert Chain(bb, t, within, c);
    }
    if Linked(bb, t, within, p, q) {
      var c :| Chain(bb, t, within, c) && c[0] == p && c[|c| - 1] == q;
      assert Chain(aa, t, within, c);
    }
  }

  /** In every run of adds, until saturation: between any two pointers of one set there is a chain of
      pointers of that set, each aliasing the next at the sizes of the final table. The oracle must be
      reasonable on the locations in use. */
  lemma {:induction false} RunsLink(aa: Oracle, used: Loc -> bool, threshold: nat, adds: seq<Loc>,
                                    p: Pointer, q: Pointer)
    requires ReasonableInUse(aa, used) && forall k | 0 <= k < |adds| :: used(adds[k])
    ensures Valid(threshold, EMPTY)
    ensures var u := AddAll(aa, threshold, EMPTY, adds);
            && Valid(threshold, u)
            && (u.anySet.None? && p in u.entries && q in u.entries && SetOf(u, p) == SetOf(u, q) ==>
                  Linked(aa, u, Members(u.sets[SetOf(u, p)]), p, q))
  {
    var bb := Rounded(aa, used);
    RoundedIsReasonable(aa, used);
    RoundedIsAlike(aa, used);
    EmptyIsValid(bb, threshold);
    RunAlike(aa, bb, used, threshold, EMPTY, adds);
    RunKeepsLinks(bb, threshold, EMPTY, adds);
    var u := AddAll(aa, threshold, EMPTY, adds);
    hide Rounded;
    hide ReasonableInUse;
    hide AddAll;
    if u.anySet.None? && p in u.entries && q in u.entries && SetOf(u, p) == SetOf(u, q) {
      var x := SetOf(u, p);
      OwnSet(u, p);
      OwnSet(u, q);
      MembersAreTracked(u);
      hide Core;
      hide Root;
      hide InUse;
      hide Alike;
      hide Linked;
      LinkedAlike(aa, bb, used, u, Members(u.sets[x]), p, q);
    }
  }

  lemma {:induction false} ChainStaysInside(aa: Oracle, t: Table, c: seq<Pointer>)
    requires Ordered(t.sets) && InRange(t) && Apart(aa, t) && Chain(aa, t, t.entries.Keys, c)
    ensures SetOf(t, c[0]) == SetOf(t, c[|c| - 1])
    decreases |c|
  {
    if |c| > 1 {
      var n := |c| - 1;
      assert Link(aa, t, c[n - 1], c[n]);
      assert forall i | 0 <= i < n :: c[..n][i] == c[i];
      ChainStaysInside(aa, t, c[..n]);
      assert c[n - 1] in t.entries && c[n] in t.entries;
      hide At;
      hide Root;
    }
  }

  /** In every calm run, until saturation, the sets are exactly the connected components of the alias
      relation: two pointers are in one set if and only if a chain of pointers leads from one to the
      other, each aliasing the next. */
  lemma {:induction false} SetsAreComponents(aa: Oracle, used: Loc -> bool, threshold: nat, adds: seq<Loc>,
                                             p: Pointer, q: Pointer)
    requires ReasonableInUse(aa, used) && forall k | 0 <= k < |adds| :: used(adds[k])
    ensures Valid(threshold, EMPTY)
    ensures var u := AddAll(aa, threshold, EMPTY, adds);
            && Valid(threshold, u)
            && (Calm(aa, threshold, EMPTY, adds) && u.anySet.None? && p in u.entries && q in u.entries ==>
                  (SetOf(u, p) == SetOf(u, q) <==> Linked(aa, u, u.entries.Keys, p, q)))
  {
    var u := AddAll(aa, threshold, EMPTY, adds);
    RunsLink(aa, used, threshold, adds, p, q);
    if Calm(aa, threshold, EMPTY, adds) && u.anySet.None? && p in u.entries && q in u.entries {
      CalmRunIsApart(aa, used, threshold, adds);
      hide Calm;
      hide AddAll;
      hide ReasonableInUse;
      if SetOf(u, p) == SetOf(u, q) {
        MembersAreTracked(u);
        hide Core;
        LinkedInside(aa, u, Members(u.sets[SetOf(u, p)]), u.entries.Keys, p, q);
      } else if Linked(aa, u, u.entries.Keys, p, q) {
        var c :| Chain(aa, u, u.entries.Keys, c) && c[0] == p && c[|c| - 1] == q;
        ChainStaysInside(aa, u, c);
      }
    }
  }

  lemma LinkedInside(aa: Oracle, t: Table, within: set<Pointer>, wider: set<Pointer>, p: Pointer, q: Pointer)
    requires within <= wider && Linked(aa, t, within, p, q)
    ensures Linked(aa, t, wider, p, q)
  {
    var c :| Chain(aa, t, within, c) && c[0] == p && c[|c| - 1] == q;
    hide Link;
    assert Chain(aa, t, wider, c);
  }

  lemma {:induction false} CalmRunIsApart(aa: Oracle, used: Loc -> bool, threshold: nat, adds: seq<Loc>)
    requires ReasonableInUse(aa, used) && forall k | 0 <= k < |adds| :: used(adds[k])
    requires Valid(threshold, EMPTY) && Calm(aa, threshold, EMPTY, adds)
    ensures var u := AddAll(aa, threshold, EMPTY, adds); Valid(threshold, u) && Apart(aa, u)
  {
    var bb := Rounded(aa, used);
    RoundedIsReasonable(aa, used);
    RoundedIsAlike(aa, used);
    EmptyIsValid(bb, threshold);
    RunAlike(aa, bb, used, threshold, EMPTY, adds);
    hide Rounded;
    hide ReasonableInUse;
    hide Calm;
    RunKeepsApart(bb, threshold, EMPTY, adds);
    hide AddAll;
    ApartAlike(aa, bb, used, AddAll(aa, threshold, EMPTY, adds));
  }

  // ----- Why a set is a may-alias set -----

  // Two pointers of the set that did not must-alias, at sizes no larger than those of the table.
  ghost predicate Mismatch(aa: Oracle, t: Table, s: AliasSet, a: Loc, b: Loc) {
    && a.ptr in s.ptrs && b.ptr in s.ptrs && a.size <= At(t, a.ptr).size && b.size <= At(t, b.ptr).size
    && aa(a, b) != MustAlias
  }

  ghost predicate HasMismatch(aa: Oracle, t: Table, s: AliasSet) {
    exists a: Loc, b: Loc :: Mismatch(aa, t, s, a, b)
  }

  ghost predicate AllHaveReason(aa: Oracle, t: Table) {
    forall x | Live(t.sets, x) :: !t.sets[x].must ==> HasMismatch(aa, t, t.sets[x])
  }

  ghost predicate NoneEmpty(t: Table) {
    forall x | Live(t.sets, x) && t.sets[x].must :: t.sets[x].ptrs != []
  }

  lemma MismatchStays(aa: Oracle, t: Table, u: Table, r: AliasSet, s: AliasSet)
    requires Wider(t, u) && HasMismatch(aa, t, r) && (forall p | p in r.ptrs :: p in s.ptrs)
    ensures HasMismatch(aa, u, s)
  {
    var a: Loc, b: Loc :| Mismatch(aa, t, r, a, b);
    assert Mismatch(aa, u, s, a, b);
  }

  lemma ReasonsStay(aa: Oracle, t: Table, u: Table)
    requires AllHaveReason(aa, t) && Wider(t, u) && |u.sets| == |t.sets|
    requires forall x | Live(u.sets, x) :: Live(t.sets, x) && u.sets[x].ptrs == t.sets[x].ptrs
                                          && u.sets[x].must == t.sets[x].must
    ensures AllHaveReason(aa, u)
  {
    hide HasMismatch;
    hide Wider;
    forall x | Live(u.sets, x) && !u.sets[x].must ensures HasMismatch(aa, u, u.sets[x]) {
      MismatchStays(aa, t, u, t.sets[x], u.sets[x]);
    }
  }

  lemma MergedHasReason(aa: Oracle, t: Table, i: nat, j: nat)
    requires AllHaveReason(aa, t) && NoneEmpty(t) && Live(t.sets, i) && Live(t.sets, j) && i != j
    ensures AllHaveReason(aa, MergeSetIn(aa, t, i, j)) && NoneEmpty(MergeSetIn(aa, t, i, j))
  {
    var u, a, b := MergeSetIn(aa, t, i, j), t.sets[i], t.sets[j];
    MergeSetInShape(aa, t, i, j);
    assert Wider(t, u);
    forall x | Live(u.sets, x) && !u.sets[x].must ensures HasMismatch(aa, u, u.sets[x]) {
      if x == i && a.must && b.must {
        assert Mismatch(aa, u, u.sets[x], At(t, a.ptrs[0]), At(t, b.ptrs[0]));
      } else if x == i {
        MismatchStays(aa, t, u, if a.must then b else a, u.sets[i]);
      } else {
        MismatchStays(aa, t, u, t.sets[x], u.sets[x]);
      }
    }
  }

  lemma {:induction false} MergeForHasReason(aa: Oracle, t: Table, loc: Loc, k: nat, found: Option<nat>)
    requires AllHaveReason(aa, t) && NoneEmpty(t)
    requires k <= |t.sets| && (found.Some? ==> found.value < k && Live(t.sets, found.value))
    ensures AllHaveReason(aa, MergeFor(aa, t, loc, k, found).0)
    decreases |t.sets| - k
  {
    hide AllHaveReason;
    hide NoneEmpty;
    hide Aliases;
    hide MergeSetIn;
    if k == |t.sets| {
    } else if t.sets[k].forward.Some? || !Aliases(aa, t, k, loc) {
      MergeForHasReason(aa, t, loc, k + 1, found);
    } else if found.None? {
      MergeForHasReason(aa, t, loc, k + 1, Some(k));
    } else {
      MergedHasReason(aa, t, found.value, k);
      MergeSetInShape(aa, t, found.value, k);
      MergeForHasReason(aa, MergeSetIn(aa, t, found.value, k), loc, k + 1, found);
    }
  }

  lemma AddPointerHasReason(aa: Oracle, t: Table, i: nat, p: Pointer, size: nat)
    requires AllHaveReason(aa, t) && Live(t.sets, i) && p !in t.entries
    requires forall q | q in t.sets[i].ptrs :: q in t.entries
    ensures AllHaveReason(aa, AddPointer(aa, t, i, p, size))
  {
    var u, s := AddPointer(aa, t, i, p, size), t.sets[i];
    assert s.ptrs != [] ==> s.ptrs[0] in s.ptrs;
    AddPointerShape(aa, t, i, p, size);
    AddPointerSizes(aa, t, i, p, size);
    assert Wider(t, u);
    if s.must && !u.sets[i].must {
      assert Mismatch(aa, u, u.sets[i], At(t, s.ptrs[0]), Loc(p, size));
    }
    hide AddPointer;
    hide Wider;
    hide Mismatch;
    forall x | Live(u.sets, x) && !u.sets[x].must ensures HasMismatch(aa, u, u.sets[x]) {
      if !t.sets[x].must {
        MismatchStays(aa, t, u, t.sets[x], u.sets[x]);
      }
    }
  }

  lemma AddHasReason(aa: Oracle, threshold: nat, t: Table, p: Pointer, size: nat)
    requires Valid(threshold, t) && (t.anySet.None? ==> AllHaveReason(aa, t))
    ensures var u := Add(aa, threshold, t, p, size).0; u.anySet.None? ==> AllHaveReason(aa, u)
  {
    AddSplits(aa, threshold, t, p, size);
    AddKeepsValid(aa, threshold, t, p, size);
    var u := Add(aa, threshold, t, p, size).0;
    hide Add;
    if u.anySet.None? {
      if p in t.entries {
        KnownHasReason(aa, threshold, t, p, size);
      } else {
        NewHasReason(aa, threshold, t, p, size);
      }
    }
    hide *;
  }

  lemma KnownHasReason(aa: Oracle, threshold: nat, t: Table, p: Pointer, size: nat)
    requires Valid(threshold, t) && t.anySet.None? && p in t.entries && AllHaveReason(aa, t)
    ensures AllHaveReason(aa, GetSet(aa, threshold, t, p, size).0)
  {
    WidenKeeps(aa, threshold, t, p, size);
    var u := Widen(aa, t, p, size);
    if size > t.entries[p].size {
      var v := Grow(t, p, size);
      assert Wider(t, v);
      hide Wider;
      ReasonsStay(aa, t, v);
      hide AllHaveReason;
      MergeForHasReason(aa, v, Loc(p, size), 0, None);
    }
    hide *;
    SettledHasReason(aa, threshold, t, p, size);
  }

  lemma SettledHasReason(aa: Oracle, threshold: nat, t: Table, p: Pointer, size: nat)
    requires Valid(threshold, t) && t.anySet.None? && p in t.entries && AllHaveReason(aa, Widen(aa, t, p, size))
    ensures AllHaveReason(aa, GetSet(aa, threshold, t, p, size).0)
  {
    WidenKeeps(aa, threshold, t, p, size);
    hide Widen;
    hide Core;
    hide AllHaveReason;
    var u := Widen(aa, t, p, size);
    SettledSame(u, p);
    SettleKeeps(u, p);
    SettledCalm(u.sets, Settle(u, p).sets);
    hide Settle;
    hide SameRoots;
    hide Wider;
    hide At;
    ReasonsStay(aa, u, Settle(u, p));
  }

  lemma NewHasReason(aa: Oracle, threshold: nat, t: Table, p: Pointer, size: nat)
    requires Valid(threshold, t) && t.anySet.None? && p !in t.entries && AllHaveReason(aa, t)
    ensures AllHaveReason(aa, GetSet(aa, threshold, t, p, size).0)
  {
    var loc := Loc(p, size);
    hide AllHaveReason;
    MergeForHasReason(aa, t, loc, 0, None);
    MergeForMerges(aa, t, loc, 0, None);
    var (v, found) := MergeFor(aa, t, loc, 0, None);
    hide MergeFor;
    MergedIsCore(aa, t, loc, v, found);
    hide MergedFor;
    if found.Some? {
      MembersAreTracked(v);
      hide Core;
      AddPointerHasReason(aa, v, found.value, p, size);
      hide AddPointer;
    } else {
      NewSetKeeps(v);
      var w := PushSet(v, NEW_SET);
      MembersAreTracked(w);
      hide Core;
      PushedHasReason(aa, v);
      AddPointerHasReason(aa, w, |v.sets|, p, size);
      hide AddPointer;
    }
  }

  lemma PushedHasReason(aa: Oracle, t: Table)
    requires AllHaveReason(aa, t)
    ensures AllHaveReason(aa, PushSet(t, NEW_SET))
  {
    var u := PushSet(t, NEW_SET);
    assert Wider(t, u);
    hide HasMismatch;
    hide Wider;
    forall x | Live(u.sets, x) && !u.sets[x].must ensures HasMismatch(aa, u, u.sets[x]) {
      assert Live(t.sets, x);
      MismatchStays(aa, t, u, t.sets[x], u.sets[x]);
    }
  }

  lemma {:induction false} RunHasReason(aa: Oracle, threshold: nat, t: Table, adds: seq<Loc>)
    requires Valid(threshold, t) && (t.anySet.None? ==> AllHaveReason(aa, t))
    ensures var u := AddAll(aa, threshold, t, adds);
            Valid(threshold, u) && (u.anySet.None? ==> AllHaveReason(aa, u))
    decreases |adds|
  {
    hide Valid;
    hide AllHaveReason;
    if adds != [] {
      var p, size := adds[0].ptr, adds[0].size;
      AddKeepsValid(aa, threshold, t, p, size);
      AddHasReason(aa, threshold, t, p, size);
      hide Add;
      RunHasReason(aa, threshold, Add(aa, threshold, t, p, size).0, adds[1..]);
    }
  }

  /** In every run of adds, until saturation: a set is a may-alias set only if two pointers of it did not
      must-alias. The oracle need not be reasonable. */
  lemma {:induction false} RunsDowngradeForReason(aa: Oracle, threshold: nat, adds: seq<Loc>, x: nat)
    ensures Valid(threshold, EMPTY)
    ensures var u := AddAll(aa, threshold, EMPTY, adds);
            u.anySet.None? && Live(u.sets, x) && !u.sets[x].must ==> HasMismatch(aa, u, u.sets[x])
  {
    EmptyIsValid(aa, threshold);
    RunHasReason(aa, threshold, EMPTY, adds);
    hide AddAll;
    hide HasMismatch;
  }
}
