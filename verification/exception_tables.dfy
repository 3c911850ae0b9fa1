/** Exception tables as bytes, and the personality function that reads them
    (llvm/examples/ExceptionDemo/ExceptionDemo.cpp). */
module ExceptionTables {
  import opened Words

  type Bytes = seq<nat>

  // ----- LEB128 numbers, of at most four bytes -----

  // A number starts at `pos` and takes at most `n` bytes.
  predicate Number(bytes: Bytes, pos: nat, n: nat)
    decreases n
  {
    n > 0 && pos < |bytes| && bytes[pos] < 256 && (bytes[pos] < 128 || Number(bytes, pos + 1, n - 1))
  }

  function LebLength(bytes: Bytes, pos: nat, n: nat): (r: nat)
    requires Number(bytes, pos, n)
    ensures 0 < r <= n && pos + r <= |bytes|
    decreases n
  {
    if bytes[pos] < 128 then 1 else 1 + LebLength(bytes, pos + 1, n - 1)
  }

  function Uleb(bytes: Bytes, pos: nat, n: nat): nat
    requires Number(bytes, pos, n)
    decreases n
  {
    if bytes[pos] < 128 then bytes[pos] else bytes[pos] % 128 + 128 * Uleb(bytes, pos + 1, n - 1)
  }

  // The same with the highest bit of the last byte as the sign.
  function Sleb(bytes: Bytes, pos: nat, n: nat): int
    requires Number(bytes, pos, n)
    decreases n
  {
    if bytes[pos] < 64 then bytes[pos]
    else if bytes[pos] < 128 then bytes[pos] - 128
    else bytes[pos] % 128 + 128 * Sleb(bytes, pos + 1, n - 1)
  }

  // Value and sign from the groups of seven bits that the loops collect.
  lemma {:induction false} SignExtends(bytes: Bytes, pos: nat, n: nat)
    requires Number(bytes, pos, n)
    ensures var l := LebLength(bytes, pos, n);
            Sleb(bytes, pos, n) == Uleb(bytes, pos, n) - (if bytes[pos + l - 1] >= 64 then Pow2(7 * l) else 0)
    ensures bytes[pos + LebLength(bytes, pos, n) - 1] < 128
    decreases n
  {
    assert Pow2(7) == 128;
    if bytes[pos] >= 128 {
      SignExtends(bytes, pos + 1, n - 1);
      Pow2Add(7, 7 * LebLength(bytes, pos + 1, n - 1));
    }
  }

  lemma JoinProducts(result: nat, group: nat, rest: nat, p: nat)
    ensures (result + group * p) + rest * (128 * p) == result + (group + 128 * rest) * p
  {
  }

  // What has been collected so far, with the rest on top.
  function Joined(result: nat, rest: nat, shift: nat): nat {
    result + rest * Pow2(shift)
  }

  lemma {:induction false} JoinGroup(result: nat, group: nat, rest: nat, shift: nat)
    ensures Joined(result + group * Pow2(shift), rest, shift + 7) == Joined(result, group + 128 * rest, shift)
    ensures result + group * Pow2(shift) == Joined(result, group, shift)
  {
    Pow2Add(7, shift);
    assert Pow2(7) == 128;
    hide Pow2;
    JoinProducts(result, group, rest, Pow2(shift));
  }

  lemma JoinNothing(rest: nat)
    ensures Joined(0, rest, 0) == rest
  {
  }

  method ReadULEB128(bytes: Bytes, pos: nat) returns (result: nat, next: nat)
    requires Number(bytes, pos, 4)
    ensures result == Uleb(bytes, pos, 4) && next == pos + LebLength(bytes, pos, 4)
  {
    ghost var last, shift;
    result, next, last, shift := ReadGroups(bytes, pos);
  }

  // The loop of both readers: collects seven bits a byte. Bits of different groups do not overlap,
  // so that adding them is what or-ing them is.
  method ReadGroups(bytes: Bytes, pos: nat) returns (result: nat, next: nat, last: nat, shift: nat)
    requires Number(bytes, pos, 4)
    ensures result == Uleb(bytes, pos, 4) && next == pos + LebLength(bytes, pos, 4)
    ensures last == bytes[next - 1] && shift == 7 * LebLength(bytes, pos, 4)
  {
    result, shift, next := 0, 0, pos;
    ghost var n: nat := 4;
    JoinNothing(Uleb(bytes, pos, 4));
    hide Joined;
    hide Pow2;
    while true
      invariant Number(bytes, next, n) && shift == 7 * (next - pos)
      invariant pos <= next && next + LebLength(bytes, next, n) == pos + LebLength(bytes, pos, 4)
      invariant Joined(result, Uleb(bytes, next, n), shift) == Uleb(bytes, pos, 4)
      decreases n
    {
      last := bytes[next];
      if last < 128 {
        JoinGroup(result, last, 0, shift);
        result := result + last * Pow2(shift);
        shift := shift + 7;
        next := next + 1;
        return;
      }
      JoinGroup(result, last % 128, Uleb(bytes, next + 1, n - 1), shift);
      result := result + (last % 128) * Pow2(shift);
      shift := shift + 7;
      next := next + 1;
      n := n - 1;
    }
  }

  method ReadSLEB128(bytes: Bytes, pos: nat) returns (result: int, next: nat)
    requires Number(bytes, pos, 4)
    ensures result == Sleb(bytes, pos, 4) && next == pos + LebLength(bytes, pos, 4)
  {
    var last, shift;
    result, next, last, shift := ReadGroups(bytes, pos);
    SignExtends(bytes, pos, 4);
    if (last / 64) % 2 == 1 {
      result := result - Pow2(shift);
    }
  }

  // ----- Encoding -----

  function EncodeS(x: int): (r: Bytes)
    ensures |r| > 0
    decreases if x < 0 then -x else x
  {
    if -64 <= x < 64 then [x % 128] else [x % 128 + 128] + EncodeS(x / 128)
  }

  // Do these bytes stand at `pos`?
  predicate Holds(bytes: Bytes, pos: nat, part: Bytes) {
    pos + |part| <= |bytes| && forall i | 0 <= i < |part| :: bytes[pos + i] == part[i]
  }

  lemma HoldsParts(bytes: Bytes, pos: nat, a: Bytes, b: Bytes)
    requires Holds(bytes, pos, a + b)
    ensures Holds(bytes, pos, a) && Holds(bytes, pos + |a|, b)
  {
    forall i | 0 <= i < |a| ensures bytes[pos + i] == a[i] {
      assert (a + b)[i] == a[i];
    }
    forall i | 0 <= i < |b| ensures bytes[pos + |a| + i] == b[i] {
      assert bytes[pos + (|a| + i)] == (a + b)[|a| + i];
    }
  }

  /** Reading back what was written, wherever it stands. */
  lemma {:induction false} SlebRoundTrip(bytes: Bytes, pos: nat, x: int, n: nat)
    requires Holds(bytes, pos, EncodeS(x)) && |EncodeS(x)| <= n
    ensures Number(bytes, pos, n) && LebLength(bytes, pos, n) == |EncodeS(x)| && Sleb(bytes, pos, n) == x
    decreases n
  {
    assert bytes[pos + 0] == EncodeS(x)[0];
    if !(-64 <= x < 64) {
      var b := x % 128 + 128;
      HoldsParts(bytes, pos, [b], EncodeS(x / 128));
      SlebRoundTrip(bytes, pos + 1, x / 128, n - 1);
      assert b % 128 == x % 128 && x == x % 128 + 128 * (x / 128);
    }
  }

  function EncodeU(x: nat): (r: Bytes)
    ensures |r| > 0
  {
    if x < 128 then [x] else [x % 128 + 128] + EncodeU(x / 128)
  }

  lemma {:induction false} UlebRoundTrip(bytes: Bytes, pos: nat, x: nat, n: nat)
    requires Holds(bytes, pos, EncodeU(x)) && |EncodeU(x)| <= n
    ensures Number(bytes, pos, n) && LebLength(bytes, pos, n) == |EncodeU(x)| && Uleb(bytes, pos, n) == x
    decreases n
  {
    assert bytes[pos + 0] == EncodeU(x)[0];
    if x >= 128 {
      var b := x % 128 + 128;
      HoldsParts(bytes, pos, [b], EncodeU(x / 128));
      UlebRoundTrip(bytes, pos + 1, x / 128, n - 1);
      assert b % 128 == x % 128 && x == x % 128 + 128 * (x / 128);
    }
  }

  /** Four bytes hold exactly the numbers of 28 bits. */
  lemma {:induction false} FourBytes(x: int)
    ensures |EncodeS(x)| <= 4 <==> -0x800_0000 <= x < 0x800_0000
  {
    Bytes1(x / 128 / 128 / 128);
    BytesMore(x / 128 / 128, 1);
    BytesMore(x / 128, 2);
    BytesMore(x, 3);
  }

  lemma {:induction false} Bytes1(x: int)
    ensures |EncodeS(x)| <= 1 <==> -64 <= x < 64
  {
  }

  lemma {:induction false} BytesMore(x: int, n: nat)
    requires n > 0
    ensures |EncodeS(x)| <= n + 1 <==> -64 <= x < 64 || |EncodeS(x / 128)| <= n
  {
  }

  // ----- The action chain -----

  // The records of a chain that starts at `pos`: type indices, each followed by how far it is from
  // there to the next record, 0 at the end.
  predicate ChainAt(bytes: Bytes, pos: nat, records: seq<nat>)
    decreases |records|
  {
    && records != [] && Number(bytes, pos, 4) && Sleb(bytes, pos, 4) == records[0]
    && var p := pos + LebLength(bytes, pos, 4);
       Number(bytes, p, 4)
       && (if |records| == 1 then Sleb(bytes, p, 4) == 0
           else Sleb(bytes, p, 4) != 0 && p + Sleb(bytes, p, 4) >= 0
                && ChainAt(bytes, p + Sleb(bytes, p, 4), records[1..]))
  }

  // The bytes determine the chain.
  lemma {:induction false} ChainIsUnique(bytes: Bytes, pos: nat, a: seq<nat>, b: seq<nat>)
    requires ChainAt(bytes, pos, a) && ChainAt(bytes, pos, b)
    ensures a == b
    decreases |a|
  {
    var p := pos + LebLength(bytes, pos, 4);
    if |a| > 1 {
      assert |b| > 1;
      ChainIsUnique(bytes, p + Sleb(bytes, p, 4), a[1..], b[1..]);
      assert a == [a[0]] + a[1..] && b == [b[0]] + b[1..];
    } else {
      assert |b| == 1;
    }
  }

  // The action table that the code generator writes for a chain: the last record first, each record
  // followed by the negative distance to the one written before it.
  function EmitChain(records: seq<nat>): Bytes
    requires records != []
    decreases |records|
  {
    if |records| == 1 then EncodeS(records[0]) + EncodeS(0)
    else EmitChain(records[1..]) + EncodeS(records[0]) + EncodeS(NextAction(records))
  }

  // How many bytes the record written last takes.
  function LastSize(records: seq<nat>): nat
    requires records != []
    decreases |records|, 1
  {
    |EncodeS(records[0])| + |EncodeS(NextAction(records))|
  }

  // From the second number of the first record to the record after it in the chain.
  function NextAction(records: seq<nat>): int
    requires records != []
    decreases |records|, 0
  {
    if |records| == 1 then 0 else 0 - (LastSize(records[1..]) + |EncodeS(records[0])|)
  }

  // Where the chain starts: at the record written last.
  function FirstAction(records: seq<nat>): int
    requires records != []
  {
    |EmitChain(records)| - LastSize(records)
  }

  // Records below 2^27 take at most eight bytes, so that every distance takes one.
  lemma {:induction false} RecordsAreSmall(records: seq<nat>)
    requires records != [] && forall i | 0 <= i < |records| :: records[i] < 0x800_0000
    ensures |EncodeS(records[0])| <= 4 && |EncodeS(NextAction(records))| == 1 && LastSize(records) <= 5
    ensures FirstAction(records) >= 0
    decreases |records|
  {
    FourBytes(records[0]);
    if |records| > 1 {
      RecordsAreSmall(records[1..]);
    }
  }

  /** The chain that was written can be read back wherever the table stands. */
  lemma {:induction false} ChainRoundTrip(bytes: Bytes, pos: nat, records: seq<nat>)
    requires records != [] && forall i | 0 <= i < |records| :: records[i] < 0x800_0000
    requires Holds(bytes, pos, EmitChain(records))
    ensures FirstAction(records) >= 0 && ChainAt(bytes, pos + FirstAction(records), records)
    decreases |records|
  {
    RecordsAreSmall(records);
    var head, next := EncodeS(records[0]), EncodeS(NextAction(records));
    var start := pos + FirstAction(records);
    if |records| == 1 {
      HoldsParts(bytes, pos, head, next);
    } else {
      var rest := EmitChain(records[1..]);
      HoldsParts(bytes, pos, rest + head, next);
      HoldsParts(bytes, pos, rest, head);
      ChainRoundTrip(bytes, pos, records[1..]);
      assert start + |head| + NextAction(records) == pos + FirstAction(records[1..]);
    }
    SlebRoundTrip(bytes, start, records[0], 4);
    SlebRoundTrip(bytes, start + |head|, NextAction(records), 4);
    hide Number;
    hide Sleb;
    hide LebLength;
    hide Holds;
    hide EncodeS;
    hide EmitChain;
  }

  // Does this record name the type? Index 0 stands for a cleanup.
  predicate Matches(record: nat, typeAt: nat -> int, t: int) {
    record > 0 && typeAt(record) == t
  }

  // 1 for the first record, and so on; 0 if no record matches.
  function FirstMatch(records: seq<nat>, typeAt: nat -> int, t: int): (r: nat)
    ensures r <= |records|
    ensures r > 0 ==> Matches(records[r - 1], typeAt, t) && forall i | 0 <= i < r - 1 :: !Matches(records[i], typeAt, t)
    ensures r == 0 ==> forall i | 0 <= i < |records| :: !Matches(records[i], typeAt, t)
  {
    if records == [] then 0
    else if Matches(records[0], typeAt, t) then 1
    else
      var r := FirstMatch(records[1..], typeAt, t);
      assert forall i | 0 < i < |records| :: records[i] == records[1..][i - 1];
      if r == 0 then 0 else r + 1
  }

  // An exception: our own, of some type, or somebody else's.
  datatype Exception = Own(id: nat, t: int) | Foreign(id: nat)

  /** Walks the chain; 0 as the action stands for no match. */
  method HandleActionValue(bytes: Bytes, typeAt: nat -> int, actionEntry: nat, e: Exception, ghost records: seq<nat>)
    returns (ret: bool, action: nat)
    requires ChainAt(bytes, actionEntry, records)
    ensures action == if e.Own? then FirstMatch(records, typeAt, e.t) else 0
    ensures ret <==> action > 0
  {
    if e.Foreign? {
      return false, 0;
    }
    hide Number;
    hide Sleb;
    hide LebLength;
    var pos: nat, i := actionEntry, 0;
    ghost var left := records;
    while true
      invariant left != [] && i + |left| == |records| && left == records[i..]
      invariant ChainAt(bytes, pos, left)
      invariant FirstMatch(records, typeAt, e.t) ==
                var r := FirstMatch(left, typeAt, e.t); if r == 0 then 0 else i + r
      decreases |left|
    {
      var typeOffset, actionOffset, ignored;
      typeOffset, pos := ReadSLEB128(bytes, pos);
      actionOffset, ignored := ReadSLEB128(bytes, pos);
      if typeOffset > 0 {
        if typeAt(typeOffset) == e.t {
          return true, i + 1;
        }
      }
      if actionOffset == 0 {
        return false, 0;
      }
      pos := pos + actionOffset;
      i := i + 1;
      left := left[1..];
    }
  }

  // ----- The personality -----

  datatype CallSite = CallSite(start: nat, length: nat, landingPad: nat, action: nat)

  datatype Reason = ContinueUnwind | HandlerFound | InstallContext(landingPad: nat, selector: nat)

  // The table of one function: call sites, the action table, and the types it names.
  datatype Lsda = Lsda(sites: seq<CallSite>, actions: Bytes, typeAt: nat -> int)

  predicate Covers(s: CallSite, pc: nat) {
    s.landingPad != 0 && s.start <= pc < s.start + s.length
  }

  // The first call site with a landing pad that covers the program counter.
  function FirstSite(sites: seq<CallSite>, pc: nat): (r: nat)
    ensures r <= |sites| && forall i | 0 <= i < r :: !Covers(sites[i], pc)
    ensures r < |sites| ==> Covers(sites[r], pc)
  {
    if sites == [] || Covers(sites[0], pc) then 0
    else
      assert forall i | 0 < i < |sites| :: sites[i] == sites[1..][i - 1];
      1 + FirstSite(sites[1..], pc)
  }

  // The chain of every call site that has one. An action is one more than where its chain starts.
  ghost predicate Readable(t: Lsda, chains: nat -> seq<nat>) {
    forall i | 0 <= i < |t.sites| ::
      t.sites[i].action > 0 ==> ChainAt(t.actions, t.sites[i].action - 1, chains(t.sites[i].action))
  }

  // What a call site selects: the first record that names the type of the exception, or 0.
  ghost function Selected(t: Lsda, chains: nat -> seq<nat>, s: CallSite, e: Exception): nat {
    if e.Own? && s.action > 0 then FirstMatch(chains(s.action), t.typeAt, e.t) else 0
  }

  /** What the personality answers: nothing without a covering call site; in the search phase
      whether a type is named; otherwise the landing pad, with the position of the record. */
  ghost function Personality(lsda: Lsda, search: bool, e: Exception, pc: nat, chains: nat -> seq<nat>): Reason {
    var k := FirstSite(lsda.sites, pc);
    if k == |lsda.sites| then ContinueUnwind
    else
      var selector := Selected(lsda, chains, lsda.sites[k], e);
      if !search then InstallContext(lsda.sites[k].landingPad, selector)
      else if selector > 0 then HandlerFound
      else ContinueUnwind
  }

  /** Both phases agree: a handler is reported exactly when the other phase installs a selector that
      is not zero, and that selector is the position of the first record that names the type. */
  lemma {:induction false} PhasesAgree(lsda: Lsda, e: Exception, pc: nat, chains: nat -> seq<nat>)
    requires Readable(lsda, chains)
    ensures var r := Personality(lsda, false, e, pc, chains);
            && (Personality(lsda, true, e, pc, chains) == HandlerFound <==> r.InstallContext? && r.selector > 0)
            && (r.InstallContext? && r.selector > 0 ==>
                  var k := FirstSite(lsda.sites, pc);
                  && k < |lsda.sites| && lsda.sites[k].action > 0 && r.landingPad == lsda.sites[k].landingPad && e.Own?
                  && var records := chains(lsda.sites[k].action);
                     r.selector <= |records| && Matches(records[r.selector - 1], lsda.typeAt, e.t)
                     && forall i | 0 <= i < r.selector - 1 :: !Matches(records[i], lsda.typeAt, e.t))
            && (r == ContinueUnwind <==> forall i | 0 <= i < |lsda.sites| :: !Covers(lsda.sites[i], pc))
  {
    var k := FirstSite(lsda.sites, pc);
    if k < |lsda.sites| {
      assert Covers(lsda.sites[k], pc);
      if e.Own? && lsda.sites[k].action > 0 {
        assert ChainAt(lsda.actions, lsda.sites[k].action - 1, chains(lsda.sites[k].action));
      }
    }
  }

  /** Outside the search phase the landing pad is that of the first call site that has one and whose
      range contains the program counter, whatever is selected; without such a call site both phases
      go on unwinding. */
  lemma {:induction false} LandsAtFirstSite(lsda: Lsda, e: Exception, pc: nat, chains: nat -> seq<nat>, i: nat)
    requires i <= |lsda.sites|
    requires forall j | 0 <= j < i :: lsda.sites[j].landingPad == 0 || pc < lsda.sites[j].start
                                      || pc >= lsda.sites[j].start + lsda.sites[j].length
    requires i < |lsda.sites| ==> lsda.sites[i].landingPad != 0 && pc >= lsda.sites[i].start
                                  && pc < lsda.sites[i].start + lsda.sites[i].length
    ensures var r := Personality(lsda, false, e, pc, chains);
            if i < |lsda.sites| then r.InstallContext? && r.landingPad == lsda.sites[i].landingPad
            else r == ContinueUnwind == Personality(lsda, true, e, pc, chains)
  {
    assert forall j | 0 <= j < i :: !Covers(lsda.sites[j], pc);
    assert i < |lsda.sites| ==> Covers(lsda.sites[i], pc);
    assert FirstSite(lsda.sites, pc) == i;
  }

  method HandleLsda(lsda: Lsda, search: bool, e: Exception, pc: nat, ghost chains: nat -> seq<nat>)
    returns (ret: Reason)
    requires Readable(lsda, chains)
    ensures ret == Personality(lsda, search, e, pc, chains)
  {
    ret := ContinueUnwind;
    var i := 0;
    while i < |lsda.sites|
      invariant i <= |lsda.sites| && ret == ContinueUnwind
      invariant forall j | 0 <= j < i :: !Covers(lsda.sites[j], pc)
      invariant i <= FirstSite(lsda.sites, pc)
    {
      var site := lsda.sites[i];
      var actionEntry := if e.Foreign? then 0 else site.action;
      i := i + 1;
      if site.landingPad == 0 {
        continue;
      }
      if site.start <= pc && pc < site.start + site.length {
        var matched, actionValue := false, 0;
        if actionEntry > 0 {
          matched, actionValue := HandleActionValue(lsda.actions, lsda.typeAt, actionEntry - 1, e, chains(actionEntry));
        }
        if !search {
          ret := InstallContext(site.landingPad, if actionEntry == 0 || !matched then 0 else actionValue);
        } else if matched {
          ret := HandlerFound;
        }
        break;
      }
    }
  }
}
