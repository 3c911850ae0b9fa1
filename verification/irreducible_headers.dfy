/** Choosing the headers of an irreducible loop
    (llvm/lib/Analysis/BlockFrequencyInfoImpl.cpp, findIrreducibleHeaders). */
module IrreducibleHeaders {
  import Sorting

  // The predecessors of every node. Nodes are numbered in reverse post-order.
  type Preds = nat -> seq<nat>

  predicate Distinct(s: seq<nat>) {
    forall i, j | 0 <= i < j < |s| :: s[i] != s[j]
  }

  predicate Sorted(s: seq<nat>) {
    forall i, j | 0 <= i < j < |s| :: s[i] <= s[j]
  }

  // Entered from outside the component.
  predicate IsEntry(scc: seq<nat>, preds: Preds, v: nat) {
    exists i :: 0 <= i < |preds(v)| && preds(v)[i] !in scc
  }

  // Not an entry, but reached by a backward edge from something that is no entry either.
  predicate IsExtra(scc: seq<nat>, preds: Preds, v: nat) {
    && !IsEntry(scc, preds, v)
    && exists i :: 0 <= i < |preds(v)| && preds(v)[i] >= v && !IsEntry(scc, preds, preds(v)[i])
  }

  predicate IsHeader(scc: seq<nat>, preds: Preds, v: nat) {
    IsEntry(scc, preds, v) || IsExtra(scc, preds, v)
  }

  method EnteredFromOutside(scc: seq<nat>, preds: Preds, v: nat) returns (entry: bool)
    ensures entry <==> IsEntry(scc, preds, v)
  {
    for i := 0 to |preds(v)|
      invariant forall k | 0 <= k < i :: preds(v)[k] in scc
    {
      if preds(v)[i] in scc {
        continue;
      }
      return true;
    }
    return false;
  }

  method ReachedBackwards(scc: seq<nat>, preds: Preds, inScc: map<nat, bool>, v: nat) returns (extra: bool)
    requires v in scc && !IsEntry(scc, preds, v)
    requires forall u | u in scc :: u in inScc && inScc[u] == IsEntry(scc, preds, u)
    ensures extra <==> IsExtra(scc, preds, v)
  {
    for i := 0 to |preds(v)|
      invariant forall k | 0 <= k < i :: preds(v)[k] < v || IsEntry(scc, preds, preds(v)[k])
    {
      var p := preds(v)[i];
      assert p in scc;
      if p < v {
        continue;
      }
      if inScc[p] {
        continue;
      }
      return true;
    }
    return false;
  }

  method Sort(xs: seq<nat>) returns (s: seq<nat>)
    ensures Sorted(s) && multiset(s) == multiset(xs)
  {
    var key := (x: nat) => x;
    s := Sorting.Sort(xs, key);
    assert forall i | 0 <= i < |s| :: key(s[i]) == s[i];
  }

  // Where each node of the component goes.
  ghost predicate Split(headers: seq<nat>, others: seq<nat>, scc: seq<nat>, preds: Preds) {
    && Sorted(headers) && Sorted(others)
    && (multiset(headers) + multiset(others) == multiset(scc))
    && (forall v | v in headers :: IsHeader(scc, preds, v))
    && (forall v | v in others :: !IsHeader(scc, preds, v))
  }

  lemma SplitSorted(hs: seq<nat>, os: seq<nat>, headers: seq<nat>, others: seq<nat>, scc: seq<nat>, preds: Preds)
    requires multiset(hs) + multiset(os) == multiset(scc)
    requires forall v | v in hs :: IsHeader(scc, preds, v)
    requires forall v | v in os :: !IsHeader(scc, preds, v)
    requires Sorted(headers) && multiset(headers) == multiset(hs) && Sorted(others) && multiset(others) == multiset(os)
    ensures Split(headers, others, scc, preds)
  {
    forall v | v in headers ensures IsHeader(scc, preds, v) {
      assert v in multiset(hs);
    }
    forall v | v in others ensures !IsHeader(scc, preds, v) {
      assert v in multiset(os);
    }
  }

  // The entry blocks, and for every node whether it is one.
  method FindEntries(scc: seq<nat>, preds: Preds) returns (inScc: map<nat, bool>, hs: seq<nat>)
    ensures forall v | v in scc :: v in inScc && inScc[v] == IsEntry(scc, preds, v)
    ensures |hs| <= |scc| && forall v | v in hs :: v in scc && IsEntry(scc, preds, v)
    ensures |hs| == |scc| ==> hs == scc
    ensures forall i | 0 <= i < |scc| :: IsEntry(scc, preds, scc[i]) ==> scc[i] in hs
    ensures multiset(hs) <= multiset(scc)
    ensures forall v :: multiset(hs)[v] == if IsEntry(scc, preds, v) then multiset(scc)[v] else 0
  {
    inScc, hs := map[], [];
    hide IsEntry;
    for i := 0 to |scc|
      invariant forall v | v in scc[..i] :: v in inScc && inScc[v] == IsEntry(scc, preds, v)
      invariant |hs| <= i && (|hs| == i ==> hs == scc[..i])
      invariant forall v | v in hs :: v in scc && IsEntry(scc, preds, v)
      invariant forall v :: multiset(hs)[v] == if IsEntry(scc, preds, v) then multiset(scc[..i])[v] else 0
    {
      assert scc[..i + 1] == scc[..i] + [scc[i]];
      var entry := EnteredFromOutside(scc, preds, scc[i]);
      inScc := inScc[scc[i] := entry];
      if entry {
        hs := hs + [scc[i]];
      }
    }
    assert scc[..|scc|] == scc;
    forall i | 0 <= i < |scc| && IsEntry(scc, preds, scc[i]) ensures scc[i] in hs {
      assert multiset(hs)[scc[i]] > 0;
    }
  }

  /** Splits a component into headers and others. */
  method FindIrreducibleHeaders(scc: seq<nat>, preds: Preds) returns (headers: seq<nat>, others: seq<nat>)
    ensures Split(headers, others, scc, preds)
  {
    var inScc, hs := FindEntries(scc, preds);
    if |hs| == |scc| {
      headers := Sort(hs);
      others := [];
      SplitSorted(hs, [], headers, [], scc, preds);
      return;
    }
    var os;
    hs, os := FindExtraHeaders(scc, preds, inScc, hs);
    headers := Sort(hs);
    others := Sort(os);
    SplitSorted(hs, os, headers, others, scc, preds);
  }

  // The second pass: extra headers join the entries, the rest become others.
  method FindExtraHeaders(scc: seq<nat>, preds: Preds, inScc: map<nat, bool>, entries: seq<nat>)
    returns (hs: seq<nat>, os: seq<nat>)
    requires forall v | v in scc :: v in inScc && inScc[v] == IsEntry(scc, preds, v)
    requires forall v | v in entries :: IsEntry(scc, preds, v)
    requires forall v :: multiset(entries)[v] == if IsEntry(scc, preds, v) then multiset(scc)[v] else 0
    ensures multiset(hs) + multiset(os) == multiset(scc)
    ensures forall v | v in hs :: IsHeader(scc, preds, v)
    ensures forall v | v in os :: !IsHeader(scc, preds, v)
  {
    hs, os := entries, [];
    hide IsEntry;
    hide IsExtra;
    for i := 0 to |scc|
      invariant forall v | v in hs :: IsHeader(scc, preds, v)
      invariant forall v | v in os :: !IsHeader(scc, preds, v)
      invariant forall v ::
                  multiset(hs)[v] + multiset(os)[v] ==
                  if IsEntry(scc, preds, v) then multiset(scc)[v] else multiset(scc[..i])[v]
    {
      assert scc[..i + 1] == scc[..i] + [scc[i]];
      if inScc[scc[i]] {
        continue;
      }
      var extra := ReachedBackwards(scc, preds, inScc, scc[i]);
      if extra {
        hs := hs + [scc[i]];
      } else {
        os := os + [scc[i]];
      }
    }
    assert scc[..|scc|] == scc;
  }

  // ----- What the headers are good for -----

  /** Every node is on exactly one side. */
  lemma EveryNodeOnce(headers: seq<nat>, others: seq<nat>, scc: seq<nat>, preds: Preds, v: nat)
    requires Split(headers, others, scc, preds)
    ensures v in scc <==> v in headers || v in others
    ensures !(v in headers && v in others)
  {
    assert v in scc <==> v in multiset(scc);
    assert v in headers <==> v in multiset(headers);
    assert v in others <==> v in multiset(others);
  }

  /** In terms of the edges: a node is a header if and only if something outside the component leads to
      it, or something that does not come before it and that nothing outside leads to. */
  lemma HeadersExactly(headers: seq<nat>, others: seq<nat>, scc: seq<nat>, preds: Preds, v: nat)
    requires Split(headers, others, scc, preds) && v in scc
    ensures v in headers <==>
            || (exists p :: p in preds(v) && p !in scc)
            || (exists p :: p in preds(v) && p >= v && forall q | q in preds(p) :: q in scc)
  {
    EveryNodeOnce(headers, others, scc, preds, v);
    assert v in headers <==> IsHeader(scc, preds, v);
    EntryMeans(scc, preds, v);
    forall p | p in preds(v) ensures IsEntry(scc, preds, p) <==> exists q :: q in preds(p) && q !in scc {
      EntryMeans(scc, preds, p);
    }
    hide IsEntry;
    if IsExtra(scc, preds, v) {
      var i :| 0 <= i < |preds(v)| && preds(v)[i] >= v && !IsEntry(scc, preds, preds(v)[i]);
      assert preds(v)[i] in preds(v);
    }
  }

  lemma EntryMeans(scc: seq<nat>, preds: Preds, v: nat)
    ensures IsEntry(scc, preds, v) <==> exists p :: p in preds(v) && p !in scc
  {
  }

  /** Between two nodes that are not headers every edge runs forward, so that the mass of such a
      node never has to be handed back. */
  lemma OthersRunForward(headers: seq<nat>, others: seq<nat>, scc: seq<nat>, preds: Preds, u: nat, v: nat)
    requires Split(headers, others, scc, preds) && u in others && v in others && u in preds(v)
    ensures u < v
  {
    EveryNodeOnce(headers, others, scc, preds, u);
    var i :| 0 <= i < |preds(v)| && preds(v)[i] == u;
    assert !IsHeader(scc, preds, u) && !IsHeader(scc, preds, v);
    assert preds(v)[i] in scc;
  }

  // A closed walk inside the component.
  predicate Cycle(c: seq<nat>, scc: seq<nat>, preds: Preds) {
    && c != []
    && (forall i | 0 <= i < |c| :: c[i] in scc)
    && (forall i, j | 0 <= i && j == i + 1 < |c| :: c[i] in preds(c[j]))
    && c[|c| - 1] in preds(c[0])
  }

  lemma {:induction false} WalkGrows(c: seq<nat>, i: nat)
    requires i < |c| && forall k, j | 0 <= k && j == k + 1 < |c| :: c[k] < c[j]
    ensures c[0] <= c[i]
  {
    if i > 0 {
      WalkGrows(c, i - 1);
    }
  }

  /** Every cycle of the component passes through a header. */
  lemma EveryCycleHasHeader(c: seq<nat>, headers: seq<nat>, others: seq<nat>, scc: seq<nat>, preds: Preds)
    requires Split(headers, others, scc, preds) && Cycle(c, scc, preds)
    ensures exists i :: 0 <= i < |c| && c[i] in headers
  {
    if forall i | 0 <= i < |c| :: c[i] !in headers {
      forall i | 0 <= i < |c| ensures c[i] in others {
        EveryNodeOnce(headers, others, scc, preds, c[i]);
      }
      forall i, j | 0 <= i && j == i + 1 < |c| ensures c[i] < c[j] {
        OthersRunForward(headers, others, scc, preds, c[i], c[j]);
      }
      WalkGrows(c, |c| - 1);
      OthersRunForward(headers, others, scc, preds, c[|c| - 1], c[0]);
      assert false;
    }
  }
}
