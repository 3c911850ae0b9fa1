/** Alias sets: a union-find of pointer sets kept apart by an alias oracle
    (llvm/lib/Analysis/AliasSetTracker.cpp and the class declarations in its header). This
    module has the state and what each operation does to it. */
module AliasSets {
  import opened Options

  type Pointer = nat

  // A pointer and the number of bytes accessed through it.
  datatype Loc = Loc(ptr: Pointer, size: nat)

  datatype AliasResult = NoAlias | MayAlias | PartialAlias | MustAlias

  type Oracle = (Loc, Loc) -> AliasResult

  // `ptrs` is the list of pointers in the order in which they came; the first one speaks for
  // a must-alias set. `forward` is where the set has been merged into.
  datatype AliasSet = AliasSet(ptrs: seq<Pointer>, forward: Option<nat>, must: bool, any: bool)

  // Where a pointer was put, and the largest size seen for it.
  datatype PointerRec = PointerRec(home: nat, size: nat)

  datatype Table = Table(sets: seq<AliasSet>, entries: map<Pointer, PointerRec>, totalMay: nat, anySet: Option<nat>)

  const EMPTY := Table([], map[], 0, None)

  // ----- Forwarding -----

  // Forwarding leads to an earlier set, or to a set that forwards no further.
  ghost predicate Ordered(sets: seq<AliasSet>) {
    forall i | 0 <= i < |sets| && sets[i].forward.Some? ::
      var f := sets[i].forward.value;
      f < |sets| && f != i && (f < i || sets[f].forward.None?)
  }

  ghost predicate Live(sets: seq<AliasSet>, i: int) {
    0 <= i < |sets| && sets[i].forward.None?
  }

  function Root(sets: seq<AliasSet>, i: nat): (r: nat)
    requires Ordered(sets) && i < |sets|
    ensures Live(sets, r)
    decreases if sets[i].forward.Some? then i + 1 else 0
  {
    if sets[i].forward.None? then i else Root(sets, sets[i].forward.value)
  }

  // Every set on the way to the root comes to forward to the root itself.
  function Collapse(sets: seq<AliasSet>, i: nat): (r: seq<AliasSet>)
    requires Ordered(sets) && i < |sets|
    ensures |r| == |sets|
    decreases if sets[i].forward.Some? then i + 1 else 0
  {
    if sets[i].forward.None? then sets
    else
      var s := Collapse(sets, sets[i].forward.value);
      s[i := s[i].(forward := Some(Root(sets, i)))]
  }

  // ----- Operations -----

  function At(t: Table, p: Pointer): Loc {
    Loc(p, if p in t.entries then t.entries[p].size else 0)
  }

  // Might the location alias a member of the set? A must-alias set is asked through its
  // first pointer only.
  predicate Aliases(aa: Oracle, t: Table, i: nat, loc: Loc)
    requires i < |t.sets|
  {
    var s := t.sets[i];
    if s.any then true
    else if s.must then s.ptrs != [] && aa(At(t, s.ptrs[0]), loc) != NoAlias
    else exists k :: 0 <= k < |s.ptrs| && aa(loc, At(t, s.ptrs[k])) != NoAlias
  }

  // mergeSetIn: set `j` goes into set `i`.
  function MergeSetIn(aa: Oracle, t: Table, i: nat, j: nat): Table
    requires i < |t.sets| && j < |t.sets|
  {
    var a, b := t.sets[i], t.sets[j];
    var must := a.must && b.must && a.ptrs != [] && b.ptrs != []
                && aa(At(t, a.ptrs[0]), At(t, b.ptrs[0])) == MustAlias;
    var grown := if must then 0 else (if a.must then |a.ptrs| else 0) + (if b.must then |b.ptrs| else 0);
    t.(sets := t.sets[i := a.(ptrs := a.ptrs + b.ptrs, must := must)][j := b.(ptrs := [], forward := Some(i))],
       totalMay := t.totalMay + grown)
  }

  // updateSizeAndAAInfo
  function Grow(t: Table, p: Pointer, size: nat): Table
    requires p in t.entries
  {
    if size > t.entries[p].size then t.(entries := t.entries[p := t.entries[p].(size := size)]) else t
  }

  // AliasSet::addPointer
  function AddPointer(aa: Oracle, t: Table, i: nat, p: Pointer, size: nat): Table
    requires i < |t.sets|
    requires t.sets[i].ptrs != [] ==> t.sets[i].ptrs[0] in t.entries
  {
    var s := t.sets[i];
    var asked := s.must && s.ptrs != [];
    var same := asked && aa(At(t, s.ptrs[0]), Loc(p, size)) == MustAlias;
    var must := s.must && (asked ==> same);
    var u := if same then Grow(t, s.ptrs[0], size) else t;
    Table(u.sets[i := s.(ptrs := s.ptrs + [p], must := must)],
          u.entries[p := PointerRec(i, size)],
          u.totalMay + (if asked && !same then |s.ptrs| else 0) + (if must then 0 else 1),
          u.anySet)
  }

  // mergeAliasSetsForPointer, from set `k` on.
  function MergeFor(aa: Oracle, t: Table, loc: Loc, k: nat, found: Option<nat>): (r: (Table, Option<nat>))
    requires k <= |t.sets| && (found.Some? ==> found.value < |t.sets|)
    ensures |r.0.sets| == |t.sets| && (r.1.Some? ==> r.1.value < |t.sets|)
    ensures r.0.entries == t.entries
    decreases |t.sets| - k
  {
    if k == |t.sets| then (t, found)
    else if t.sets[k].forward.Some? || !Aliases(aa, t, k, loc) then MergeFor(aa, t, loc, k + 1, found)
    else if found.None? then MergeFor(aa, t, loc, k + 1, Some(k))
    else MergeFor(aa, MergeSetIn(aa, t, found.value, k), loc, k + 1, found)
  }

  function PushSet(t: Table, s: AliasSet): Table {
    t.(sets := t.sets + [s])
  }

  const NEW_SET := AliasSet([], None, true, false)

  // mergeAllAliasSets, from set `k` on: everything goes into set `any`.
  function MergeAllInto(aa: Oracle, t: Table, any: nat, k: nat): (r: Table)
    requires k <= any < |t.sets|
    ensures |r.sets| == |t.sets|
    decreases any - k
  {
    if k == any then t
    else if t.sets[k].forward.Some? then
      MergeAllInto(aa, t.(sets := t.sets[k := t.sets[k].(forward := Some(any))]), any, k + 1)
    else
      MergeAllInto(aa, MergeSetIn(aa, t, any, k), any, k + 1)
  }

  function MergeAll(aa: Oracle, t: Table): Table {
    var any := |t.sets|;
    MergeAllInto(aa, PushSet(t, AliasSet([], None, false, true)).(anySet := Some(any)), any, 0)
  }

  // The entry of a pointer comes to name the set the pointer is in now.
  function Settle(t: Table, p: Pointer): Table
    requires Ordered(t.sets) && p in t.entries && t.entries[p].home < |t.sets|
  {
    var rec := t.entries[p];
    t.(sets := Collapse(t.sets, rec.home), entries := t.entries[p := rec.(home := Root(t.sets, rec.home))])
  }

  // ----- What always holds -----

  ghost predicate InRange(t: Table) {
    && (forall p | p in t.entries :: t.entries[p].home < |t.sets|)
    && (t.anySet.Some? ==> t.anySet.value < |t.sets|)
  }

  // Pointers and sets know each other.
  ghost predicate Placed(t: Table)
    requires Ordered(t.sets) && InRange(t)
  {
    MembersKnown(t) && EntriesListed(t) && NoRepeats(t)
  }

  ghost predicate MembersKnown(t: Table)
    requires Ordered(t.sets) && InRange(t)
  {
    forall i, p | 0 <= i < |t.sets| && p in t.sets[i].ptrs :: p in t.entries && Root(t.sets, t.entries[p].home) == i
  }

  ghost predicate EntriesListed(t: Table)
    requires Ordered(t.sets) && InRange(t)
  {
    forall p | p in t.entries :: p in t.sets[Root(t.sets, t.entries[p].home)].ptrs
  }

  ghost predicate NoRepeats(t: Table) {
    forall i, k, l | 0 <= i < |t.sets| && 0 <= k < l < |t.sets[i].ptrs| :: t.sets[i].ptrs[k] != t.sets[i].ptrs[l]
  }

  // The number of pointers in may-alias sets.
  function MayCount(sets: seq<AliasSet>): nat {
    if sets == [] then 0
    else
      var last := sets[|sets| - 1];
      MayCount(sets[..|sets| - 1]) + (if last.must then 0 else |last.ptrs|)
  }

  // A saturated table has one live set, which takes everything.
  ghost predicate AnySetRules(t: Table) {
    if t.anySet.None? then forall i | 0 <= i < |t.sets| :: !t.sets[i].any
    else
      && Live(t.sets, t.anySet.value)
      && t.sets[t.anySet.value].any && !t.sets[t.anySet.value].must
      && forall i | Live(t.sets, i) :: i == t.anySet.value
  }

  /** Lists, entries, forwards and the counter agree with each other, whatever the oracle says. */
  ghost predicate Core(t: Table) {
    && Ordered(t.sets) && InRange(t) && Placed(t)
    && (forall i | 0 <= i < |t.sets| && t.sets[i].forward.Some? :: t.sets[i].ptrs == [])
    && t.totalMay == MayCount(t.sets)
  }

  // Until saturation, sets only forward to earlier sets.
  ghost predicate Backward(sets: seq<AliasSet>) {
    forall i | 0 <= i < |sets| && sets[i].forward.Some? :: sets[i].forward.value < i
  }

  // ----- What keeps sets apart -----

  // As far as the oracle can tell, `p` and `q` are at the same address.
  ghost predicate Same(aa: Oracle, p: Pointer, q: Pointer) {
    forall u: nat, r: Loc :: aa(Loc(p, u), r) == NoAlias <==> aa(Loc(q, u), r) == NoAlias
  }

  /** What is asked of an oracle: it is symmetric, a location that aliases anything aliases itself,
      accessing more bytes never makes an alias go away, and must-alias pointers are
      interchangeable. Undefined pointers and empty accesses may alias nothing, not even themselves. */
  ghost predicate Reasonable(aa: Oracle) {
    Symmetric(aa) && SeesItself(aa) && KeepsAliases(aa) && MustMeansSame(aa)
  }

  ghost predicate Symmetric(aa: Oracle) {
    forall a: Loc, b: Loc :: aa(a, b) == NoAlias <==> aa(b, a) == NoAlias
  }

  ghost predicate SeesItself(aa: Oracle) {
    forall a: Loc, b: Loc :: aa(a, b) != NoAlias ==> aa(a, a) != NoAlias
  }

  ghost predicate KeepsAliases(aa: Oracle) {
    forall p: Pointer, s: nat, u: nat, b: Loc ::
      s <= u && aa(Loc(p, s), b) != NoAlias ==> aa(Loc(p, u), b) != NoAlias
  }

  ghost predicate MustMeansSame(aa: Oracle) {
    forall a: Loc, b: Loc :: aa(a, b) == MustAlias ==> Same(aa, a.ptr, b.ptr)
  }

  // All members of a must-alias set are at the address of the first one and alias it.
  ghost predicate MustSetsAgree(aa: Oracle, t: Table) {
    forall i, p | Live(t.sets, i) && t.sets[i].must && p in t.sets[i].ptrs :: Agrees(aa, t, t.sets[i].ptrs[0], p)
  }

  ghost predicate Agrees(aa: Oracle, t: Table, first: Pointer, p: Pointer) {
    Same(aa, first, p) && (p != first ==> aa(At(t, first), At(t, p)) != NoAlias)
  }

  // The set that a tracked pointer is in now.
  function SetOf(t: Table, p: Pointer): nat
    requires Ordered(t.sets) && InRange(t) && p in t.entries
  {
    Root(t.sets, t.entries[p].home)
  }

  /** Pointers in different sets do not alias. */
  ghost predicate Apart(aa: Oracle, t: Table)
    requires Ordered(t.sets) && InRange(t)
  {
    forall p, q | p in t.entries && q in t.entries && SetOf(t, p) != SetOf(t, q) :: aa(At(t, p), At(t, q)) == NoAlias
  }

  // The first pointer of a must-alias set has the largest size in it.
  ghost predicate FirstIsLargest(t: Table) {
    forall i | Live(t.sets, i) && t.sets[i].must ::
      forall p | p in t.sets[i].ptrs :: p in t.entries && At(t, p).size <= At(t, t.sets[i].ptrs[0]).size
  }
}
