/** The tracker: the methods of AliasSet and AliasSetTracker. */
module AliasSetTracking {
  import opened AliasSetTables
  import opened AliasSets
  import opened AliasSetsProofs
  import opened Options
  import opened AliasSetsApart

  // ----- The tracker -----

  class AliasSetTracker {
    const aa: Oracle
    const threshold: nat
    var sets: seq<AliasSet>
    var entries: map<Pointer, PointerRec>
    var totalMay: nat
    var anySet: Option<nat>

    ghost function Made(): Table
      reads this
    {
      Table(sets, entries, totalMay, anySet)
    }

    constructor (aa: Oracle, threshold: nat)
      ensures Made() == EMPTY && this.aa == aa && this.threshold == threshold
    {
      this.aa, this.threshold := aa, threshold;
      sets, entries, totalMay, anySet := [], map[], 0, None;
    }

    method SizeOf(p: Pointer) returns (size: nat)
      ensures Loc(p, size) == At(Made(), p)
    {
      size := if p in entries then entries[p].size else 0;
    }

    // AliasSet::aliasesPointer
    method AliasesPointer(i: nat, loc: Loc) returns (b: bool)
      requires i < |sets|
      ensures b == Aliases(aa, Made(), i, loc)
    {
      var s := sets[i];
      if s.any {
        return true;
      }
      if s.must {
        if s.ptrs == [] {
          return false;
        }
        var size := SizeOf(s.ptrs[0]);
        return aa(Loc(s.ptrs[0], size), loc) != NoAlias;
      }
      for k := 0 to |s.ptrs|
        invariant forall l | 0 <= l < k :: aa(loc, At(Made(), s.ptrs[l])) == NoAlias
      {
        var size := SizeOf(s.ptrs[k]);
        if aa(loc, Loc(s.ptrs[k], size)) != NoAlias {
          return true;
        }
      }
      return false;
    }

    // AliasSet::mergeSetIn
    method MergeSetInto(i: nat, j: nat)
      requires i < |sets| && j < |sets|
      modifies this`sets, this`totalMay
      ensures Made() == MergeSetIn(aa, old(Made()), i, j)
    {
      var a, b := sets[i], sets[j];
      var must := a.must && b.must;
      if must {
        if a.ptrs == [] || b.ptrs == [] {
          must := false;
        } else {
          var m := SizeOf(a.ptrs[0]);
          var n := SizeOf(b.ptrs[0]);
          must := aa(Loc(a.ptrs[0], m), Loc(b.ptrs[0], n)) == MustAlias;
        }
      }
      if !must {
        if a.must {
          totalMay := totalMay + |a.ptrs|;
        }
        if b.must {
          totalMay := totalMay + |b.ptrs|;
        }
      }
      sets := sets[i := a.(ptrs := a.ptrs + b.ptrs, must := must)];
      sets := sets[j := b.(ptrs := [], forward := Some(i))];
    }

    method GrowEntry(p: Pointer, size: nat)
      requires p in entries
      modifies this`entries
      ensures Made() == Grow(old(Made()), p, size)
    {
      if size > entries[p].size {
        entries := entries[p := entries[p].(size := size)];
      }
    }

    // AliasSet::addPointer
    method AddToSet(i: nat, p: Pointer, size: nat)
      requires i < |sets|
      requires sets[i].ptrs != [] ==> sets[i].ptrs[0] in entries
      modifies this`sets, this`entries, this`totalMay
      ensures Made() == AddPointer(aa, old(Made()), i, p, size)
    {
      var s := sets[i];
      var must := s.must;
      if must && s.ptrs != [] {
        var first := s.ptrs[0];
        var m := SizeOf(first);
        if aa(Loc(first, m), Loc(p, size)) != MustAlias {
          must := false;
          totalMay := totalMay + |s.ptrs|;
        } else {
          GrowEntry(first, size);
        }
      }
      entries := entries[p := PointerRec(i, size)];
      sets := sets[i := s.(ptrs := s.ptrs + [p], must := must)];
      if !must {
        totalMay := totalMay + 1;
      }
    }

    // mergeAliasSetsForPointer
    method MergeForPointer(loc: Loc) returns (found: Option<nat>)
      modifies this`sets, this`totalMay
      ensures found.Some? ==> found.value < |sets|
      ensures (Made(), found) == MergeFor(aa, old(Made()), loc, 0, None)
    {
      found := None;
      var k := 0;
      while k < |sets|
        invariant k <= |sets| && (found.Some? ==> found.value < k)
        invariant MergeFor(aa, Made(), loc, k, found) == MergeFor(aa, old(Made()), loc, 0, None)
        decreases |sets| - k
      {
        var aliases := AliasesPointer(k, loc);
        if sets[k].forward.None? && aliases {
          if found.None? {
            found := Some(k);
          } else {
            MergeSetInto(found.value, k);
          }
        }
        k := k + 1;
      }
    }

    // getForwardedTarget, which collapses the chain it has followed.
    method ForwardedTarget(i: nat) returns (r: nat)
      requires Ordered(sets) && i < |sets|
      modifies this`sets
      ensures sets == Collapse(old(sets), i) && r == Root(old(sets), i)
      decreases if sets[i].forward.Some? then i + 1 else 0
    {
      if sets[i].forward.None? {
        return i;
      }
      var f := sets[i].forward.value;
      CollapseKeepsRoots(sets, f);
      r := ForwardedTarget(f);
      if r != f {
        sets := sets[i := sets[i].(forward := Some(r))];
      } else {
        assert sets[i].(forward := Some(r)) == sets[i];
        assert sets[i := sets[i]] == sets;
      }
    }

    // mergeAllAliasSets
    method MergeAllSets() returns (any: nat)
      modifies this
      ensures Made() == MergeAll(aa, old(Made())) && any == |old(sets)|
    {
      any := |sets|;
      sets := sets + [AliasSet([], None, false, true)];
      anySet := Some(any);
      ghost var start := Made();
      var k := 0;
      while k < any
        invariant k <= any < |sets|
        invariant MergeAllInto(aa, Made(), any, k) == MergeAllInto(aa, start, any, 0)
      {
        if sets[k].forward.Some? {
          sets := sets[k := sets[k].(forward := Some(any))];
        } else {
          MergeSetInto(any, k);
        }
        k := k + 1;
      }
    }

    // getAliasSetForPointer for a pointer that has an entry.
    method KnownSetFor(p: Pointer, size: nat) returns (i: nat)
      requires Valid(threshold, Made()) && anySet.None? && p in entries
      modifies this
      ensures (Made(), i) == GetSet(aa, threshold, old(Made()), p, size)
    {
      ghost var t := Made();
      hide Valid;
      hide Core;
      hide Backward;
      hide MergeFor;
      hide Collapse;
      hide Root;
      WidenKeeps(aa, threshold, t, p, size);
      CoreIsOrdered(Widen(aa, t, p, size));
      if size > entries[p].size {
        GrowEntry(p, size);
        var found := MergeForPointer(Loc(p, size));
      }
      assert Made() == Widen(aa, t, p, size);
      hide Widen;
      i := ForwardedTarget(entries[p].home);
      entries := entries[p := entries[p].(home := i)];
    }

    // getAliasSetForPointer
    method AliasSetFor(p: Pointer, size: nat) returns (i: nat)
      requires Valid(threshold, Made())
      modifies this
      ensures (Made(), i) == GetSet(aa, threshold, old(Made()), p, size)
    {
      ghost var t := Made();
      if anySet.Some? {
        i := anySet.value;
        AddPointerFits(t, i);
        if p in entries {
          GrowEntry(p, size);
        } else {
          AddToSet(i, p, size);
        }
        return;
      }
      if p in entries {
        i := KnownSetFor(p, size);
        return;
      }
      MergeForMerges(aa, t, Loc(p, size), 0, None);
      var found := MergeForPointer(Loc(p, size));
      if found.Some? {
        i := found.value;
        AddPointerFits(Made(), i);
      } else {
        i := |sets|;
        sets := sets + [NEW_SET];
      }
      AddToSet(i, p, size);
    }

    /** AliasSetTracker::addPointer: returns the set the pointer is in now. */
    method AddPointerToTracker(p: Pointer, size: nat) returns (i: nat)
      requires Valid(threshold, Made())
      modifies this
      ensures (Made(), i) == Add(aa, threshold, old(Made()), p, size)
      ensures Valid(threshold, Made()) && p in entries && SetOf(Made(), p) == i
      ensures Reasonable(aa) && old(MustSetsAgree(aa, Made()) && Apart(aa, Made()) && FirstIsLargest(Made())) ==>
                && MustSetsAgree(aa, Made()) && Apart(aa, Made())
                && (FirstIsLargest(Made()) <==> old(!Outgrows(aa, Made(), p, size)))
    {
      ghost var t := Made();
      AddKeepsValid(aa, threshold, t, p, size);
      if Reasonable(aa) && MustSetsAgree(aa, t) && Apart(aa, t) && FirstIsLargest(t) {
        AddKeepsApart(aa, threshold, t, p, size);
      }
      i := AliasSetFor(p, size);
      if anySet.None? && totalMay > threshold {
        i := MergeAllSets();
      }
    }
  }
}
