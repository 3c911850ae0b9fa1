/** The barrier that lets all threads start together (llvm/examples/ParallelJIT/ParallelJIT.cpp,
    WaitForThreads), as the steps of N workers and one releaser under one mutex. */
module ThreadBarrier {
  import opened Options

  // ----- The object -----

  // What a call does at the end of its critical section.
  datatype Outcome = Broadcast | Wait

  class WaitForThreads {
    var n: nat
    var waitFor: nat

    constructor ()
      ensures n == 0 && waitFor == 0
    {
      n, waitFor := 0, 0;
    }

    method UnblockThreads()
      modifies this
      ensures n == 0 && waitFor == 0
    {
      n := 0;
      waitFor := 0;
    }

    // block(), from the lock to the broadcast or the wait.
    method Block() returns (outcome: Outcome)
      requires BlockAsserts(n, waitFor)
      modifies this
      ensures (n, waitFor, outcome) == AfterBlock(old(n), old(waitFor))
    {
      n := n + 1;
      assert waitFor == 0 || n <= waitFor;
      if waitFor > 0 && n == waitFor {
        UnblockThreads();
        outcome := Broadcast;
      } else {
        outcome := Wait;
      }
    }

    // releaseThreads(), from the lock to the broadcast or the wait.
    method ReleaseThreads(num: nat) returns (outcome: Outcome)
      modifies this
      ensures (n, waitFor, outcome) == AfterRelease(old(n), old(waitFor), num)
    {
      if n >= num {
        UnblockThreads();
        outcome := Broadcast;
      } else {
        waitFor := num;
        outcome := Wait;
      }
    }
  }

  // The assertion in block().
  predicate BlockAsserts(n: nat, waitFor: nat) {
    waitFor == 0 || n + 1 <= waitFor
  }

  function AfterBlock(n: nat, waitFor: nat): (nat, nat, Outcome) {
    if waitFor > 0 && n + 1 == waitFor then (0, 0, Broadcast) else (n + 1, waitFor, Wait)
  }

  function AfterRelease(n: nat, waitFor: nat, num: nat): (nat, nat, Outcome) {
    if n >= num then (0, 0, Broadcast) else (n, num, Wait)
  }

  // ----- The threads -----

  // Before the lock; inside the critical section; in the condition wait; woken but without the
  // mutex; about to unlock; back from the call.
  datatype Phase = Start | Locked | Waiting | Signalled | Leaving | Done

  // Threads 0 to N - 1 are workers, thread N is the releaser.
  datatype State = State(threads: seq<Phase>, holder: Option<nat>, n: nat, waitFor: nat)

  function Initial(workers: nat): State {
    State(seq(workers + 1, _ => Start), None, 0, 0)
  }

  function WakeAll(threads: seq<Phase>): (r: seq<Phase>)
    ensures |r| == |threads|
    ensures forall t | 0 <= t < |threads| :: r[t] == if threads[t] == Waiting then Signalled else threads[t]
  {
    seq(|threads|, t requires 0 <= t < |threads| => if threads[t] == Waiting then Signalled else threads[t])
  }

  function Enter(s: State, workers: nat, t: nat): (nat, nat, Outcome) {
    if t < workers then AfterBlock(s.n, s.waitFor) else AfterRelease(s.n, s.waitFor, workers)
  }

  // Thread t runs its critical section: it wakes everybody and keeps the mutex, or waits and gives
  // the mutex up.
  function Critical(s: State, workers: nat, t: nat): State
    requires t < |s.threads|
  {
    var (n, waitFor, outcome) := Enter(s, workers, t);
    if outcome.Broadcast? then State(WakeAll(s.threads)[t := Leaving], Some(t), n, waitFor)
    else State(s.threads[t := Waiting], None, n, waitFor)
  }

  // One step of thread t, without spurious wakeups.
  predicate Moves(s: State, workers: nat, t: nat, next: State) {
    t < |s.threads|
    && match s.threads[t]
       case Start => s.holder.None? && next == s.(threads := s.threads[t := Locked], holder := Some(t))
       case Locked => s.holder == Some(t) && next == Critical(s, workers, t)
       case Waiting => false
       case Signalled => s.holder.None? && next == s.(threads := s.threads[t := Leaving], holder := Some(t))
       case Leaving => s.holder == Some(t) && next == s.(threads := s.threads[t := Done], holder := None)
       case Done => false
  }

  // Would thread t now trip the assertion in block()?
  predicate AssertionFails(s: State, workers: nat, t: nat) {
    t < |s.threads| && t < workers && s.threads[t] == Locked && s.holder == Some(t) && !BlockAsserts(s.n, s.waitFor)
  }

  // ----- The invariant -----

  // How many of the first k threads wait.
  function CountWaiting(threads: seq<Phase>, k: nat): (r: nat)
    requires k <= |threads|
    ensures r <= k
  {
    if k == 0 then 0 else CountWaiting(threads, k - 1) + if threads[k - 1] == Waiting then 1 else 0
  }

  predicate MutexIsHeld(s: State) {
    && (forall t | 0 <= t < |s.threads| :: s.threads[t] in {Locked, Leaving} ==> s.holder == Some(t))
    && (s.holder.Some? ==> s.holder.value < |s.threads| && s.threads[s.holder.value] in {Locked, Leaving})
  }

  // Nobody has been released: the counter says how many workers wait.
  predicate Before(s: State, workers: nat)
    requires |s.threads| == workers + 1
  {
    && (forall t | 0 <= t <= workers :: s.threads[t] in {Start, Locked, Waiting})
    && s.n == CountWaiting(s.threads, workers)
    && s.waitFor == (if s.threads[workers] == Waiting then workers else 0)
    && (s.threads[workers] == Waiting ==> s.n < workers)
  }

  // Everybody has been released.
  predicate After(s: State, workers: nat)
    requires |s.threads| == workers + 1
  {
    && (forall t | 0 <= t <= workers :: s.threads[t] in {Signalled, Leaving, Done})
    && s.n == 0 && s.waitFor == 0
  }

  predicate Invariant(s: State, workers: nat) {
    && workers > 0 && |s.threads| == workers + 1 && MutexIsHeld(s)
    && (Before(s, workers) || After(s, workers))
  }

  lemma {:induction false} CountAfterUpdate(threads: seq<Phase>, t: nat, p: Phase, k: nat)
    requires t < |threads| && k <= |threads|
    ensures CountWaiting(threads[t := p], k) ==
            CountWaiting(threads, k) + if t >= k then 0
                                       else (if p == Waiting then 1 else 0) - (if threads[t] == Waiting then 1 else 0)
  {
    if k > 0 {
      CountAfterUpdate(threads, t, p, k - 1);
    }
  }

  // All but t wait when the count misses t at most.
  lemma {:induction false} AllWaiting(threads: seq<Phase>, t: nat, k: nat)
    requires t < |threads| && threads[t] != Waiting && k <= |threads|
    ensures CountWaiting(threads, k) <= if t < k then k - 1 else k
    ensures CountWaiting(threads, k) == (if t < k then k - 1 else k) ==>
              forall u | 0 <= u < k :: u == t || threads[u] == Waiting
  {
    if k > 0 {
      AllWaiting(threads, t, k - 1);
    }
  }

  lemma {:induction false} NobodyWaits(threads: seq<Phase>, k: nat)
    requires k <= |threads| && forall t | 0 <= t < k :: threads[t] != Waiting
    ensures CountWaiting(threads, k) == 0
  {
    if k > 0 {
      NobodyWaits(threads, k - 1);
    }
  }

  lemma InitialInvariant(workers: nat)
    requires workers > 0
    ensures Invariant(Initial(workers), workers)
  {
    NobodyWaits(Initial(workers).threads, workers);
  }

  // The critical section of a worker or of the releaser.
  lemma CriticalKeepsInvariant(s: State, workers: nat, t: nat)
    requires Invariant(s, workers) && t <= workers && s.threads[t] == Locked && s.holder == Some(t)
    ensures Invariant(Critical(s, workers, t), workers)
    ensures t < workers ==> BlockAsserts(s.n, s.waitFor)
  {
    AllWaiting(s.threads, t, workers);
    CountAfterUpdate(s.threads, t, Waiting, workers);
  }

  lemma StepKeepsInvariant(s: State, workers: nat, t: nat, next: State)
    requires Invariant(s, workers) && Moves(s, workers, t, next)
    ensures Invariant(next, workers)
  {
    match s.threads[t]
    case Start => CountAfterUpdate(s.threads, t, Locked, workers);
    case Locked => CriticalKeepsInvariant(s, workers, t);
    case Signalled =>
    case Leaving =>
  }

  // ----- Whole runs -----

  ghost predicate CanMove(s: State, workers: nat) {
    exists t: nat, next :: Moves(s, workers, t, next)
  }

  ghost predicate StepOf(s: State, workers: nat, next: State) {
    exists t: nat :: Moves(s, workers, t, next)
  }

  // Any interleaving, from the beginning.
  ghost predicate IsRun(run: seq<State>, workers: nat) {
    && run != [] && run[0] == Initial(workers)
    && forall i, j | 0 <= i && j == i + 1 < |run| :: StepOf(run[i], workers, run[j])
  }

  lemma {:induction false} RunsKeepInvariant(run: seq<State>, workers: nat, i: nat)
    requires workers > 0 && IsRun(run, workers) && i < |run|
    ensures Invariant(run[i], workers)
  {
    if i == 0 {
      InitialInvariant(workers);
    } else {
      RunsKeepInvariant(run, workers, i - 1);
      assert StepOf(run[i - 1], workers, run[i]);
      var t: nat :| Moves(run[i - 1], workers, t, run[i]);
      StepKeepsInvariant(run[i - 1], workers, t, run[i]);
    }
  }

  /** In every state of every run: if some thread has been let go, then all workers have entered and
      the releaser has called; until then the counter is the number of waiting workers; and the
      assertion in block() does not fail. */
  lemma {:induction false} BarrierHolds(run: seq<State>, workers: nat, i: nat)
    requires workers > 0 && IsRun(run, workers) && i < |run|
    ensures var s := run[i];
            && |s.threads| == workers + 1
            && ((exists t :: 0 <= t <= workers && s.threads[t] in {Signalled, Leaving, Done}) ==>
                  forall t | 0 <= t <= workers :: s.threads[t] !in {Start, Locked})
            && s.n == CountWaiting(s.threads, workers)
            && forall t: nat :: !AssertionFails(s, workers, t)
  {
    RunsKeepInvariant(run, workers, i);
    var s := run[i];
    if After(s, workers) {
      NobodyWaits(s.threads, workers);
    }
    forall t: nat ensures !AssertionFails(s, workers, t) {
      if t < workers && s.threads[t] == Locked && s.holder == Some(t) {
        CriticalKeepsInvariant(s, workers, t);
      }
    }
  }

  function Rank(p: Phase): nat {
    match p
    case Start => 5
    case Locked => 4
    case Waiting => 3
    case Signalled => 2
    case Leaving => 1
    case Done => 0
  }

  function Effort(threads: seq<Phase>): (r: nat)
    ensures r <= 5 * |threads|
  {
    if threads == [] then 0 else Effort(threads[..|threads| - 1]) + Rank(threads[|threads| - 1])
  }

  lemma {:induction false} EffortAfterUpdate(threads: seq<Phase>, t: nat, p: Phase)
    requires t < |threads|
    ensures Effort(threads[t := p]) == Effort(threads) - Rank(threads[t]) + Rank(p)
  {
    var n := |threads| - 1;
    if t == n {
      assert threads[t := p][..n] == threads[..n];
    } else {
      assert threads[t := p][..n] == threads[..n][t := p];
      EffortAfterUpdate(threads[..n], t, p);
    }
  }

  lemma {:induction false} WakingSavesEffort(threads: seq<Phase>)
    ensures Effort(WakeAll(threads)) <= Effort(threads)
  {
    if threads != [] {
      var n := |threads| - 1;
      assert WakeAll(threads)[..n] == WakeAll(threads[..n]);
      WakingSavesEffort(threads[..n]);
    }
  }

  // Every step brings the threads closer to the end.
  lemma StepSavesEffort(s: State, workers: nat, t: nat, next: State)
    requires Moves(s, workers, t, next)
    ensures Effort(next.threads) < Effort(s.threads)
  {
    match s.threads[t]
    case Start => EffortAfterUpdate(s.threads, t, Locked);
    case Locked =>
      EffortAfterUpdate(s.threads, t, Waiting);
      WakingSavesEffort(s.threads);
      EffortAfterUpdate(WakeAll(s.threads), t, Leaving);
    case Signalled => EffortAfterUpdate(s.threads, t, Leaving);
    case Leaving => EffortAfterUpdate(s.threads, t, Done);
  }

  predicate AllDone(s: State) {
    forall t | 0 <= t < |s.threads| :: s.threads[t] == Done
  }

  lemma Witness(s: State, workers: nat, t: nat, next: State)
    requires Moves(s, workers, t, next)
    ensures CanMove(s, workers)
  {
  }

  // Somebody can move until everybody is done.
  lemma NoDeadlock(s: State, workers: nat)
    requires Invariant(s, workers) && !AllDone(s)
    ensures CanMove(s, workers)
  {
    if s.holder.Some? {
      var t := s.holder.value;
      if s.threads[t] == Locked {
        Witness(s, workers, t, Critical(s, workers, t));
      } else {
        Witness(s, workers, t, s.(threads := s.threads[t := Done], holder := None));
      }
    } else if After(s, workers) {
      var t :| 0 <= t < |s.threads| && s.threads[t] != Done;
      Witness(s, workers, t, s.(threads := s.threads[t := Leaving], holder := Some(t)));
    } else if exists t :: 0 <= t <= workers && s.threads[t] == Start {
      var t :| 0 <= t <= workers && s.threads[t] == Start;
      Witness(s, workers, t, s.(threads := s.threads[t := Locked], holder := Some(t)));
    } else {
      EverybodyWaits(s.threads, workers);
      assert false;
    }
  }

  lemma {:induction false} EverybodyWaits(threads: seq<Phase>, k: nat)
    requires k <= |threads| && forall t | 0 <= t < k :: threads[t] == Waiting
    ensures CountWaiting(threads, k) == k
  {
    if k > 0 {
      EverybodyWaits(threads, k - 1);
    }
  }

  lemma {:induction false} RunsAreShort(run: seq<State>, workers: nat, i: nat)
    requires IsRun(run, workers) && i < |run|
    ensures Effort(run[i].threads) + i <= 5 * (workers + 1)
  {
    if i > 0 {
      RunsAreShort(run, workers, i - 1);
      assert StepOf(run[i - 1], workers, run[i]);
      var t: nat :| Moves(run[i - 1], workers, t, run[i]);
      StepSavesEffort(run[i - 1], workers, t, run[i]);
    }
  }

  /** No run goes on for ever, and a run that cannot go on has released every thread. */
  lemma EveryRunReleasesAll(run: seq<State>, workers: nat)
    requires workers > 0 && IsRun(run, workers)
    ensures |run| <= 5 * (workers + 1) + 1
    ensures !CanMove(run[|run| - 1], workers) <==> AllDone(run[|run| - 1])
  {
    var last := run[|run| - 1];
    RunsAreShort(run, workers, |run| - 1);
    RunsKeepInvariant(run, workers, |run| - 1);
    if !AllDone(last) {
      NoDeadlock(last, workers);
    }
  }
}
