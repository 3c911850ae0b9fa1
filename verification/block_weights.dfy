/** Distributions of branch weights: collecting, combining and normalizing them
    (llvm/lib/Analysis/BlockFrequencyInfoImpl.cpp). */
module BlockWeights {
  import Sorting
  import opened Words

  datatype Kind = Local | Exit | Backedge

  datatype Weight = Weight(kind: Kind, target: nat, amount: nat)

  // ----- What a list of weights says -----

  function TrueSum(ws: seq<Weight>): nat {
    if ws == [] then 0 else TrueSum(ws[..|ws| - 1]) + ws[|ws| - 1].amount
  }

  function AmountTo(ws: seq<Weight>, t: nat): nat {
    if ws == [] then 0
    else AmountTo(ws[..|ws| - 1], t) + (if ws[|ws| - 1].target == t then ws[|ws| - 1].amount else 0)
  }

  function Sat(x: nat): nat {
    if x <= MAX_64 then x else MAX_64
  }

  predicate Targeted(ws: seq<Weight>, t: nat) {
    exists i :: 0 <= i < |ws| && ws[i].target == t
  }

  // Every amount is a positive 64-bit number, and a target is reached in one way only.
  predicate Coherent(ws: seq<Weight>) {
    && (forall i | 0 <= i < |ws| :: 0 < ws[i].amount <= MAX_64)
    && (forall i, j | 0 <= i < |ws| && 0 <= j < |ws| :: ws[i].target == ws[j].target ==> ws[i].kind == ws[j].kind)
  }

  predicate DistinctTargets(ws: seq<Weight>) {
    forall i, j | 0 <= i < j < |ws| :: ws[i].target != ws[j].target
  }

  predicate Reaches(ws: seq<Weight>, t: nat, kind: Kind) {
    exists j :: 0 <= j < |ws| && ws[j].target == t && ws[j].kind == kind
  }

  // Is `w` the one weight that all weights of `ws` to its target make together?
  predicate Combines(w: Weight, ws: seq<Weight>) {
    Reaches(ws, w.target, w.kind) && w.amount == Sat(AmountTo(ws, w.target))
  }

  /** One weight for every target, with the saturated sum of the amounts. */
  predicate CombinedFrom(out: seq<Weight>, ws: seq<Weight>) {
    && DistinctTargets(out)
    && (forall i | 0 <= i < |out| :: Combines(out[i], ws))
    && (forall j | 0 <= j < |ws| :: Targeted(out, ws[j].target))
  }

  // ----- Combining weights -----

  function CombineWeight(w: Weight, other: Weight): Weight {
    if w.amount == 0 then other
    else
      var sum := (w.amount + other.amount) % TWO_TO_64;
      w.(amount := if w.amount > sum then MAX_64 else sum)
  }

  lemma CombineSaturates(a: nat, b: nat)
    requires 0 < a && 0 < b <= MAX_64
    ensures Sat(Sat(a) + b) == Sat(a + b)
    ensures var sum := (Sat(a) + b) % TWO_TO_64; (if Sat(a) > sum then MAX_64 else sum) == Sat(a + b)
  {
  }

  // One more weight: into the last entry if that has the same target.
  function Absorb(r: seq<Weight>, w: Weight): seq<Weight> {
    var n := |r| - 1;
    if r != [] && r[n].target == w.target then r[..n] + [CombineWeight(r[n], w)] else r + [w]
  }

  // Runs of weights to one target, each made into one weight.
  function CombineRuns(s: seq<Weight>): (r: seq<Weight>)
    ensures s == [] <==> r == []
    ensures s != [] ==> r[|r| - 1].target == s[|s| - 1].target
  {
    if s == [] then [] else Absorb(CombineRuns(s[..|s| - 1]), s[|s| - 1])
  }

  lemma CombineRunsStep(s: seq<Weight>, k: nat)
    requires k < |s|
    ensures CombineRuns(s[..k + 1]) == Absorb(CombineRuns(s[..k]), s[k])
  {
    assert s[..k + 1][..k] == s[..k];
  }

  // Sorts by target.
  method SortByTarget(ws: seq<Weight>) returns (s: seq<Weight>)
    ensures Sorted(s) && multiset(s) == multiset(ws)
  {
    var key := (w: Weight) => w.target;
    s := Sorting.Sort(ws, key);
    assert forall i | 0 <= i < |s| :: key(s[i]) == s[i].target;
  }

  predicate Sorted(s: seq<Weight>) {
    forall i, j | 0 <= i < j < |s| :: s[i].target <= s[j].target
  }

  lemma AbsorbJoins(r: seq<Weight>, w: Weight)
    requires r != [] && r[|r| - 1].target == w.target
    ensures Absorb(r, w) == r[..|r| - 1] + [CombineWeight(r[|r| - 1], w)]
  {
  }

  lemma AbsorbStarts(r: seq<Weight>, w: Weight)
    requires r != [] ==> r[|r| - 1].target != w.target
    ensures Absorb(r, w) == r + [w]
  {
  }

  // The inner loop: the run that starts at `i` goes into entry `o`.
  method CombineRun(a: array<Weight>, o: nat, i: nat, ghost s: seq<Weight>) returns (l: nat)
    requires o <= i < a.Length == |s| && a[..o + 1] == CombineRuns(s[..i + 1]) && a[i].target == s[i].target
    requires forall k | i < k < a.Length :: a[k] == s[k]
    modifies a
    ensures i < l <= a.Length && a[..o + 1] == CombineRuns(s[..l])
    ensures forall k | l <= k < a.Length :: a[k] == s[k]
    ensures l < a.Length ==> s[l - 1].target != s[l].target
  {
    hide CombineRuns;
    hide Absorb;
    hide CombineWeight;
    l := i + 1;
    while l < a.Length && a[i].target == a[l].target
      invariant i < l <= a.Length && a[..o + 1] == CombineRuns(s[..l])
      invariant a[i].target == s[l - 1].target
      invariant forall k | l <= k < a.Length :: a[k] == s[k]
    {
      CombineRunsStep(s, l);
      AbsorbJoins(a[..o + 1], s[l]);
      a[o] := CombineWeight(a[o], a[l]);
      l := l + 1;
    }
  }

  /** Combines adjacent weights in place; the first `o` entries are the result. */
  method CombineAdjacent(a: array<Weight>) returns (o: nat)
    modifies a
    ensures o <= a.Length && a[..o] == CombineRuns(old(a[..]))
  {
    ghost var s := a[..];
    assert s[..0] == [] && CombineRuns([]) == [];
    hide CombineRuns;
    hide Absorb;
    o := 0;
    var i := 0;
    while i < a.Length
      invariant o <= i <= a.Length && a[..o] == CombineRuns(s[..i])
      invariant forall k | i <= k < a.Length :: a[k] == s[k]
      invariant 0 < i < a.Length ==> s[i - 1].target != s[i].target
    {
      CombineRunsStep(s, i);
      AbsorbStarts(a[..o], s[i]);
      a[o] := a[i];
      i := CombineRun(a, o, i, s);
      o := o + 1;
    }
    assert s[..i] == s;
  }

  method CombineWeightsBySorting(ws: seq<Weight>) returns (out: seq<Weight>)
    requires Coherent(ws)
    ensures CombinedFrom(out, ws)
  {
    var s := SortByTarget(ws);
    var a := new Weight[|s|](i requires 0 <= i < |s| => s[i]);
    assert a[..] == s;
    var o := CombineAdjacent(a);
    out := a[..o];
    CombineSorted(s, ws);
  }

  method CombineWeightsByHashing(ws: seq<Weight>) returns (out: seq<Weight>)
    requires Coherent(ws)
    ensures CombinedFrom(out, ws)
  {
    var combined: map<nat, Weight> := map[];
    for i := 0 to |ws|
      invariant Tabulates(combined, ws[..i])
    {
      var w := ws[i];
      CoherentPrefix(ws, i + 1);
      assert ws[..i + 1] == ws[..i] + [w];
      TabulateOne(combined, ws[..i], w);
      hide Tabulates;
      hide CombineWeight;
      var slot := if w.target in combined then combined[w.target] else Weight(Local, MAX_32, 0);
      combined := combined[w.target := CombineWeight(slot, w)];
    }
    assert ws[..|ws|] == ws;
    if |ws| == |combined| {
      NothingToCombine(combined, ws);
      return ws;
    }
    out := Enumerate(combined);
    hide Combines;
  }

  // The entries of a table, in whatever order the table has them.
  method Enumerate(m: map<nat, Weight>) returns (out: seq<Weight>)
    requires forall t | t in m :: m[t].target == t
    ensures DistinctTargets(out)
    ensures forall i | 0 <= i < |out| :: out[i].target in m && out[i] == m[out[i].target]
    ensures forall t | t in m :: Targeted(out, t)
  {
    out := [];
    var left := m.Keys;
    while left != {}
      invariant left <= m.Keys
      invariant forall i | 0 <= i < |out| :: out[i].target in m && out[i].target !in left && out[i] == m[out[i].target]
      invariant forall t | t in m :: t in left || Targeted(out, t)
      invariant DistinctTargets(out)
    {
      var t :| t in left;
      TargetedAppend(out, m[t]);
      out := out + [m[t]];
      left := left - {t};
    }
  }

  method CombineWeights(ws: seq<Weight>) returns (out: seq<Weight>)
    requires Coherent(ws)
    ensures CombinedFrom(out, ws)
  {
    if |ws| > 128 {
      out := CombineWeightsByHashing(ws);
    } else {
      out := CombineWeightsBySorting(ws);
    }
  }

  lemma TargetedAppend(out: seq<Weight>, w: Weight)
    ensures Targeted(out + [w], w.target)
    ensures forall t | Targeted(out, t) :: Targeted(out + [w], t)
  {
    assert (out + [w])[|out|] == w;
    forall t | Targeted(out, t) ensures Targeted(out + [w], t) {
      var i :| 0 <= i < |out| && out[i].target == t;
      assert (out + [w])[i].target == t;
    }
  }

  // ----- The hash table -----

  ghost predicate Tabulates(m: map<nat, Weight>, ws: seq<Weight>) {
    && (forall t :: t in m <==> Targeted(ws, t))
    && (forall t | t in m :: m[t].target == t && Combines(m[t], ws))
  }

  lemma {:induction false} AmountIsPositive(ws: seq<Weight>, t: nat)
    requires Coherent(ws)
    ensures AmountTo(ws, t) > 0 <==> Targeted(ws, t)
  {
    if ws != [] {
      var n := |ws| - 1;
      AmountIsPositive(ws[..n], t);
      if Targeted(ws[..n], t) {
        var i :| 0 <= i < n && ws[..n][i].target == t;
        assert ws[i].target == t;
      }
      if i :| 0 <= i < |ws| && ws[i].target == t && i < n {
        assert ws[..n][i].target == t;
      }
    }
  }

  lemma CoherentPrefix(ws: seq<Weight>, n: nat)
    requires Coherent(ws) && n <= |ws|
    ensures Coherent(ws[..n])
  {
  }

  // What one more weight changes.
  lemma {:induction false} AppendAmount(s: seq<Weight>, w: Weight, t: nat)
    ensures AmountTo(s + [w], t) == AmountTo(s, t) + (if t == w.target then w.amount else 0)
  {
    assert (s + [w])[..|s|] == s;
  }

  lemma TargetedBefore(s: seq<Weight>, w: Weight, t: nat)
    requires Targeted(s + [w], t) && t != w.target
    ensures Targeted(s, t)
  {
    var i :| 0 <= i < |s + [w]| && (s + [w])[i].target == t;
    assert s[i].target == t;
  }

  lemma CombinesKept(u: Weight, s: seq<Weight>, w: Weight)
    requires Combines(u, s) && u.target != w.target
    ensures Combines(u, s + [w])
  {
    AppendAmount(s, w, u.target);
    var j :| 0 <= j < |s| && s[j].target == u.target && s[j].kind == u.kind;
    assert (s + [w])[j] == s[j];
  }

  lemma CombinesNew(s: seq<Weight>, w: Weight)
    requires !Targeted(s, w.target) && w.amount <= MAX_64
    ensures Combines(w, s + [w])
  {
    AppendAmount(s, w, w.target);
    NothingTo(s, w.target);
    assert (s + [w])[|s|] == w;
  }

  lemma CombinesJoined(u: Weight, s: seq<Weight>, w: Weight)
    requires Coherent(s + [w]) && Combines(u, s) && u.target == w.target
    ensures CombineWeight(u, w).target == w.target && Combines(CombineWeight(u, w), s + [w])
  {
    var all := s + [w];
    AppendAmount(s, w, u.target);
    var j :| 0 <= j < |s| && s[j].target == u.target && s[j].kind == u.kind;
    assert all[j] == s[j];
    assert all[..|s|] == s && all[|s|] == w;
    CoherentPrefix(all, |s|);
    AmountIsPositive(s, u.target);
    CombineSaturates(AmountTo(s, u.target), w.amount);
    hide AmountTo;
    hide Coherent;
    assert CombineWeight(u, w).amount == Sat(AmountTo(s, u.target) + w.amount);
  }

  lemma TabulateOne(m: map<nat, Weight>, s: seq<Weight>, w: Weight)
    requires Coherent(s + [w]) && Tabulates(m, s)
    ensures var slot := if w.target in m then m[w.target] else Weight(Local, MAX_32, 0);
            Tabulates(m[w.target := CombineWeight(slot, w)], s + [w])
  {
    var slot := if w.target in m then m[w.target] else Weight(Local, MAX_32, 0);
    var u := CombineWeight(slot, w);
    var next := m[w.target := u];
    assert (s + [w])[|s|] == w;
    if w.target in m {
      CombinesJoined(slot, s, w);
    } else {
      CombinesNew(s, w);
    }
    hide CombineWeight;
    hide Coherent;
    forall t | t in m && t != w.target ensures Combines(m[t], s + [w]) {
      CombinesKept(m[t], s, w);
    }
    hide Combines;
    TargetedAppend(s, w);
    forall t ensures t in next <==> Targeted(s + [w], t) {
      if Targeted(s + [w], t) && t != w.target {
        TargetedBefore(s, w, t);
      }
    }
  }

  // As many entries as weights: no two weights have the same target.
  lemma NothingToCombine(m: map<nat, Weight>, ws: seq<Weight>)
    requires Coherent(ws) && Tabulates(m, ws) && |m| == |ws|
    ensures CombinedFrom(ws, ws)
  {
    assert m.Keys == Targets(ws) by {
      forall t ensures t in m.Keys <==> t in Targets(ws) {
        TargetsAreTargeted(ws, t);
      }
    }
    CountTargets(ws);
    forall i | 0 <= i < |ws| ensures Combines(ws[i], ws) {
      AmountOfOnly(ws, i);
    }
  }

  function Targets(ws: seq<Weight>): set<nat> {
    if ws == [] then {} else Targets(ws[..|ws| - 1]) + {ws[|ws| - 1].target}
  }

  lemma {:induction false} TargetsAreTargeted(ws: seq<Weight>, t: nat)
    ensures t in Targets(ws) <==> Targeted(ws, t)
  {
    if ws != [] {
      var s, w := ws[..|ws| - 1], ws[|ws| - 1];
      assert ws == s + [w];
      TargetsAreTargeted(s, t);
      TargetedAppend(s, w);
      if Targeted(ws, t) && t != w.target {
        TargetedBefore(s, w, t);
      }
    }
  }

  // Targets are distinct exactly when there are as many of them as weights.
  lemma {:induction false} CountTargets(ws: seq<Weight>)
    ensures |Targets(ws)| <= |ws|
    ensures |Targets(ws)| == |ws| <==> DistinctTargets(ws)
  {
    if ws != [] {
      var n := |ws| - 1;
      CountTargets(ws[..n]);
      TargetsAreTargeted(ws[..n], ws[n].target);
      if Targeted(ws[..n], ws[n].target) {
        var i :| 0 <= i < n && ws[..n][i].target == ws[n].target;
        assert !DistinctTargets(ws) by {
          assert ws[i].target == ws[n].target;
        }
        assert Targets(ws) == Targets(ws[..n]);
      } else {
        assert DistinctTargets(ws) == DistinctTargets(ws[..n]) by {
          forall i | 0 <= i < n ensures ws[i].target != ws[n].target {
            assert ws[..n][i].target == ws[i].target;
          }
        }
      }
    }
  }

  lemma {:induction false} NothingTo(ws: seq<Weight>, t: nat)
    requires !Targeted(ws, t)
    ensures AmountTo(ws, t) == 0
  {
    if ws != [] {
      var n := |ws| - 1;
      assert ws[n].target != t;
      assert !Targeted(ws[..n], t) by {
        forall i | 0 <= i < n ensures ws[..n][i].target != t {
          assert ws[i].target != t;
        }
      }
      NothingTo(ws[..n], t);
    }
  }

  lemma {:induction false} AmountOfOnly(ws: seq<Weight>, i: nat)
    requires i < |ws| && DistinctTargets(ws)
    ensures AmountTo(ws, ws[i].target) == ws[i].amount
  {
    var n := |ws| - 1;
    if i == n {
      assert !Targeted(ws[..n], ws[n].target);
      NothingTo(ws[..n], ws[n].target);
    } else {
      assert ws[..n][i] == ws[i];
      AmountOfOnly(ws[..n], i);
    }
  }

  // ----- The sorted list -----

  predicate Ascending(s: seq<Weight>) {
    forall i, j | 0 <= i < j < |s| :: s[i].target < s[j].target
  }

  /** Combining the runs of a sorted list leaves one weight for every target. */
  lemma NothingCombined()
    ensures CombinedFrom([], []) && Ascending([])
  {
  }

  lemma SortedPrefix(s: seq<Weight>, n: nat)
    requires n <= |s| && Sorted(s)
    ensures Sorted(s[..n])
  {
  }

  lemma {:induction false} CombineRunsIsCombined(s: seq<Weight>)
    requires Coherent(s) && Sorted(s)
    ensures CombinedFrom(CombineRuns(s), s) && Ascending(CombineRuns(s))
  {
    hide Coherent;
    hide CombinedFrom;
    hide Ascending;
    hide Sorted;
    if s == [] {
      NothingCombined();
    } else {
      var n := |s| - 1;
      SortedPrefix(s, n);
      CoherentPrefix(s, n);
      CombineRunsIsCombined(s[..n]);
      assert s == s[..n] + [s[n]];
      AbsorbIsCombined(s[..n], s[n], CombineRuns(s[..n]));
    }
  }

  lemma AbsorbIsCombined(s: seq<Weight>, w: Weight, r: seq<Weight>)
    requires Coherent(s + [w]) && Sorted(s + [w]) && CombinedFrom(r, s) && Ascending(r)
    requires s == [] <==> r == []
    requires s != [] ==> r[|r| - 1].target == s[|s| - 1].target
    ensures CombinedFrom(Absorb(r, w), s + [w]) && Ascending(Absorb(r, w))
  {
    hide Coherent;
    hide CombinedFrom;
    hide Ascending;
    if r != [] && r[|r| - 1].target == w.target {
      AbsorbJoins(r, w);
      hide Absorb;
      RunContinues(s, w, r);
    } else {
      AbsorbStarts(r, w);
      hide Absorb;
      NotInRun(s, w);
      hide Sorted;
      RunStarts(s, w, r);
    }
  }

  lemma NotInRun(s: seq<Weight>, w: Weight)
    requires Sorted(s + [w]) && (s == [] || s[|s| - 1].target != w.target)
    ensures !Targeted(s, w.target)
  {
    forall i | 0 <= i < |s| ensures s[i].target != w.target {
      assert (s + [w])[i].target <= (s + [w])[|s| - 1].target <= (s + [w])[|s|].target;
    }
  }

  lemma RunContinues(s: seq<Weight>, w: Weight, r: seq<Weight>)
    requires Coherent(s + [w]) && CombinedFrom(r, s) && Ascending(r)
    requires r != [] && r[|r| - 1].target == w.target
    ensures var u := r[..|r| - 1] + [CombineWeight(r[|r| - 1], w)];
            CombinedFrom(u, s + [w]) && Ascending(u)
  {
    var n := |r| - 1;
    var joined := CombineWeight(r[n], w);
    var u := r[..n] + [joined];
    CombinesJoined(r[n], s, w);
    hide CombineWeight;
    assert forall i | 0 <= i < |r| :: u[i].target == r[i].target;
    forall i | 0 <= i < n ensures Combines(u[i], s + [w]) {
      CombinesKept(r[i], s, w);
    }
    hide Combines;
    hide Coherent;
    forall j | 0 <= j < |s + [w]| ensures Targeted(u, (s + [w])[j].target) {
      if j < |s| {
        assert Targeted(r, s[j].target);
        var i :| 0 <= i < |r| && r[i].target == s[j].target;
        assert u[i].target == s[j].target;
      } else {
        assert u[n].target == w.target;
      }
    }
  }

  lemma RunStarts(s: seq<Weight>, w: Weight, r: seq<Weight>)
    requires Coherent(s + [w]) && Sorted(s + [w]) && CombinedFrom(r, s) && Ascending(r) && !Targeted(s, w.target)
    ensures CombinedFrom(r + [w], s + [w]) && Ascending(r + [w])
  {
    var u, all := r + [w], s + [w];
    assert all[|s|] == w;
    CombinesNew(s, w);
    forall i | 0 <= i < |r| ensures u[i].target < w.target && Combines(u[i], all) {
      assert Combines(r[i], s);
      var j :| 0 <= j < |s| && s[j].target == r[i].target && s[j].kind == r[i].kind;
      assert all[j] == s[j];
      CombinesKept(r[i], s, w);
    }
    hide Combines;
    hide Coherent;
    TargetedAppend(r, w);
    forall j | 0 <= j < |all| ensures Targeted(u, all[j].target) {
      if j < |s| {
        assert Targeted(r, s[j].target);
      }
    }
  }

  // Amounts do not depend on the order.
  lemma {:induction false} AmountWithout(ws: seq<Weight>, j: nat, t: nat)
    requires j < |ws|
    ensures AmountTo(ws, t) == AmountTo(ws[..j] + ws[j + 1..], t) + (if ws[j].target == t then ws[j].amount else 0)
  {
    assert ws == ws[..j] + [ws[j]] + ws[j + 1..];
    AmountOfConcat(ws[..j], ws[j + 1..], t);
    AmountOfConcat(ws[..j] + [ws[j]], ws[j + 1..], t);
    assert (ws[..j] + [ws[j]])[..j] == ws[..j];
  }

  lemma PermutationWithout(a: seq<Weight>, b: seq<Weight>) returns (j: nat)
    requires multiset(a) == multiset(b) && a != []
    ensures j < |b| && b[j] == a[|a| - 1] && multiset(a[..|a| - 1]) == multiset(b[..j] + b[j + 1..])
  {
    var n := |a| - 1;
    assert a == a[..n] + [a[n]];
    assert a[n] in multiset(b);
    j :| 0 <= j < |b| && b[j] == a[n];
    assert b == b[..j] + [b[j]] + b[j + 1..];
    assert multiset(b[..j] + b[j + 1..]) == multiset(b) - multiset{b[j]};
  }

  lemma {:induction false} AmountOfPermutation(a: seq<Weight>, b: seq<Weight>, t: nat)
    requires multiset(a) == multiset(b)
    ensures AmountTo(a, t) == AmountTo(b, t)
    decreases |a|
  {
    hide AmountTo;
    if a == [] {
      assert |multiset(b)| == 0;
      assert b == a;
    } else {
      var n := |a| - 1;
      var j := PermutationWithout(a, b);
      AmountOfPermutation(a[..n], b[..j] + b[j + 1..], t);
      AmountWithout(b, j, t);
      AmountWithout(a, n, t);
      assert a[..n] + a[n + 1..] == a[..n];
    }
  }

  lemma {:induction false} AmountOfConcat(a: seq<Weight>, b: seq<Weight>, t: nat)
    ensures AmountTo(a + b, t) == AmountTo(a, t) + AmountTo(b, t)
  {
    if b == [] {
      assert a + b == a;
    } else {
      var n := |b| - 1;
      assert (a + b)[..|a + b| - 1] == a + b[..n];
      AmountOfConcat(a, b[..n], t);
    }
  }

  lemma MemberOfPermutation(a: seq<Weight>, b: seq<Weight>, i: nat) returns (j: nat)
    requires multiset(a) == multiset(b) && i < |a|
    ensures j < |b| && b[j] == a[i]
  {
    assert a[i] in multiset(b);
    j :| 0 <= j < |b| && b[j] == a[i];
  }

  lemma {:induction false} CombineSorted(s: seq<Weight>, ws: seq<Weight>)
    requires Coherent(ws) && Sorted(s) && multiset(s) == multiset(ws)
    ensures CombinedFrom(CombineRuns(s), ws)
  {
    var r := CombineRuns(s);
    assert Coherent(s) by {
      forall i | 0 <= i < |s| ensures 0 < s[i].amount <= MAX_64 {
        var i' := MemberOfPermutation(s, ws, i);
      }
      forall i, j | 0 <= i < |s| && 0 <= j < |s| ensures s[i].target == s[j].target ==> s[i].kind == s[j].kind {
        var i' := MemberOfPermutation(s, ws, i);
        var j' := MemberOfPermutation(s, ws, j);
      }
    }
    CombineRunsIsCombined(s);
    hide CombineRuns;
    forall i | 0 <= i < |r| ensures Combines(r[i], ws) {
      AmountOfPermutation(s, ws, r[i].target);
      assert Combines(r[i], s);
      var j :| 0 <= j < |s| && s[j].target == r[i].target && s[j].kind == r[i].kind;
      var j' := MemberOfPermutation(s, ws, j);
    }
    forall j | 0 <= j < |ws| ensures Targeted(r, ws[j].target) {
      var j' := MemberOfPermutation(ws, s, j);
    }
  }

  // ----- One result -----

  /** Sorting and hashing combine to the same weights: the combination is unique up to order. */
  lemma CombinationIsUnique(a: seq<Weight>, b: seq<Weight>, ws: seq<Weight>)
    requires Coherent(ws) && CombinedFrom(a, ws) && CombinedFrom(b, ws)
    ensures multiset(a) == multiset(b)
  {
    forall w ensures multiset(a)[w] == multiset(b)[w] {
      OccursOnce(a, w);
      OccursOnce(b, w);
      if w in a {
        CombinedMember(a, b, ws, w);
      }
      if w in b {
        CombinedMember(b, a, ws, w);
      }
    }
  }

  lemma CombinedMember(a: seq<Weight>, b: seq<Weight>, ws: seq<Weight>, w: Weight)
    requires Coherent(ws) && CombinedFrom(a, ws) && CombinedFrom(b, ws) && w in a
    ensures w in b
  {
    var i :| 0 <= i < |a| && a[i] == w;
    var j :| 0 <= j < |ws| && ws[j].target == w.target && ws[j].kind == w.kind;
    assert Targeted(b, ws[j].target);
    var k :| 0 <= k < |b| && b[k].target == w.target;
    assert Combines(b[k], ws) && Combines(a[i], ws);
    assert b[k] == w;
  }

  lemma {:induction false} OccursOnce(a: seq<Weight>, w: Weight)
    requires DistinctTargets(a)
    ensures multiset(a)[w] == if w in a then 1 else 0
  {
    if a != [] {
      var n := |a| - 1;
      OccursOnce(a[..n], w);
      assert a == a[..n] + [a[n]];
    }
  }
}
