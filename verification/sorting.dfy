/** The standard library's sort: some permutation in the order of a key. */
module Sorting {

  predicate SortedBy<T>(s: seq<T>, key: T -> nat) {
    forall i, j | 0 <= i < j < |s| :: key(s[i]) <= key(s[j])
  }

  lemma InsertedSorted<T>(s: seq<T>, key: T -> nat, x: T, j: nat)
    requires SortedBy(s, key) && j <= |s|
    requires (forall k | 0 <= k < j :: key(s[k]) <= key(x)) && (forall k | j <= k < |s| :: key(x) <= key(s[k]))
    ensures SortedBy(s[..j] + [x] + s[j..], key)
  {
    var r := s[..j] + [x] + s[j..];
    forall i, k | 0 <= i < k < |r| ensures key(r[i]) <= key(r[k]) {
      assert r[i] == if i < j then s[i] else if i == j then x else s[i - 1];
      assert r[k] == if k < j then s[k] else if k == j then x else s[k - 1];
    }
  }

  method Insert<T>(s: seq<T>, key: T -> nat, x: T) returns (r: seq<T>)
    requires SortedBy(s, key)
    ensures SortedBy(r, key) && multiset(r) == multiset(s) + multiset{x}
  {
    var j := |s|;
    while j > 0 && key(x) < key(s[j - 1])
      invariant 0 <= j <= |s|
      invariant forall k | j <= k < |s| :: key(x) <= key(s[k])
    {
      j := j - 1;
    }
    InsertedSorted(s, key, x, j);
    InsertedMembers(s, x, j);
    hide SortedBy;
    r := s[..j] + [x] + s[j..];
  }

  lemma InsertedMembers<T>(s: seq<T>, x: T, j: nat)
    requires j <= |s|
    ensures multiset(s[..j] + [x] + s[j..]) == multiset(s) + multiset{x}
  {
    assert s == s[..j] + s[j..];
  }

  method Sort<T>(xs: seq<T>, key: T -> nat) returns (s: seq<T>)
    ensures SortedBy(s, key) && multiset(s) == multiset(xs)
  {
    s := [];
    for i := 0 to |xs|
      invariant SortedBy(s, key) && multiset(s) == multiset(xs[..i])
    {
      assert xs[..i + 1] == xs[..i] + [xs[i]];
      s := Insert(s, key, xs[i]);
    }
    assert xs[..|xs|] == xs;
  }
}
