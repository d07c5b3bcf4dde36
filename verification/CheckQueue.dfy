/**
 The parallel check queue: one master and any number of workers share a queue under one
 mutex and two condition variables.

 Every critical section of the loop is one atomic step, evaluating one check is another,
 and the scheduler picks any enabled step; a condition variable may also wake a thread
 spuriously.  Thread 0 is the master.
 */
module CheckQueue {

  /** A verification together with what evaluating it returns. */
  datatype Check = Check(id: nat, ok: bool)

  datatype Thread =
    | Outside                                           // not inside the loop
    | Sleeping(notified: bool)                          // blocked on its condition variable
    | Working(batch: seq<Check>, next: nat, ok: bool)   // evaluating, mutex released
    | Locked                                            // holding the mutex, within one step

  /** One finished round: the checks added to it and what `Wait` returned. */
  datatype Round = Round(checks: seq<Check>, result: bool)

  datatype State = State(
    queue: seq<Check>,
    nIdle: int,
    nTotal: int,
    allOk: bool,
    nTodo: int,
    batchSize: nat,
    threads: seq<Thread>,
    added: seq<Check>,         // history: checks of the current round
    done: multiset<Check>,     // history: checks of the current round that were cleaned up
    rounds: seq<Round>)        // history: finished rounds

  datatype Step =
    | Add(checks: seq<Check>, pick: nat)
    | Enter(t: nat)
    | Wake(t: nat)
    | RunCheck(t: nat)
    | Finish(t: nat)

  function Max(a: int, b: int): int { if a >= b then a else b }
  function Min(a: int, b: int): int { if a <= b then a else b }

  // ----- the steps -----

  function Init(workers: nat, batchSize: nat): State {
    State([], 0, 0, true, 0, batchSize, seq(workers + 1, _ => Outside), [], multiset{}, [])
  }

  /** Ever smaller batches, never empty and never longer than the queue. */
  function BatchLength(s: State): (n: int)
    requires s.nTotal >= 0 && s.nIdle >= 0
    ensures s.queue != [] ==> 1 <= n <= |s.queue|
    ensures n <= Max(1, s.batchSize)
  {
    DivideAtMost(|s.queue|, s.nTotal + s.nIdle + 1);
    Max(1, Min(s.batchSize, |s.queue| / (s.nTotal + s.nIdle + 1)))
  }

  lemma DivideAtMost(a: nat, b: int)
    requires b >= 1
    ensures a / b <= a
  {
  }

  /** A batch of more than one leaves every thread its share, and unless it has the full size a longer one would not. */
  lemma BatchIsShare(s: State)
    requires s.nTotal >= 0 && s.nIdle >= 0
    ensures var n, threads := BatchLength(s), s.nTotal + s.nIdle + 1;
            (n > 1 ==> n * threads <= |s.queue|) && (n < s.batchSize ==> (n + 1) * threads > |s.queue|)
  {
    ShareIs(|s.queue|, s.nTotal + s.nIdle + 1, BatchLength(s));
  }

  lemma ShareIs(a: nat, b: int, n: int)
    requires b >= 1
    ensures n <= a / b ==> n * b <= a
    ensures n >= a / b ==> (n + 1) * b > a
  {
    var q := a / b;
    assert a == q * b + a % b;
    if n <= q {
      assert (q - n) * b >= 0;
    }
    if n >= q {
      assert (n - q) * b >= 0;
    }
  }

  /** The last `n` elements, the very last first. */
  function Popped(queue: seq<Check>, n: nat): seq<Check>
    requires n <= |queue|
  {
    seq(n, i requires 0 <= i < n => queue[|queue| - 1 - i])
  }

  lemma {:induction false} PoppedConserves(queue: seq<Check>, n: nat)
    requires n <= |queue|
    ensures multiset(Popped(queue, n)) + multiset(queue[..|queue| - n]) == multiset(queue)
  {
    if n == 0 {
      assert queue[..|queue|] == queue;
    } else {
      var k := |queue| - n;
      PoppedConserves(queue, n - 1);
      assert Popped(queue, n) == Popped(queue, n - 1) + [queue[k]];
      assert queue[..k + 1] == queue[..k] + [queue[k]];
    }
  }

  /** From the loop head to the next release of the mutex. */
  function Head(s: State, t: nat): State
    requires t < |s.threads| && s.nTotal >= 0 && s.nIdle >= 0
  {
    if s.queue == [] then
      if t == 0 && s.nTodo == 0 then
        s.(nTotal := s.nTotal - 1, allOk := true, threads := s.threads[0 := Outside],
           added := [], done := multiset{}, rounds := s.rounds + [Round(s.added, s.allOk)])
      else
        s.(nIdle := s.nIdle + 1, threads := s.threads[t := Sleeping(false)])
    else
      var n := BatchLength(s);
      s.(queue := s.queue[..|s.queue| - n],
         threads := s.threads[t := Working(Popped(s.queue, n), 0, s.allOk)])
  }

  function Entered(s: State, t: nat): State
    requires t < |s.threads|
  {
    s.(nTotal := s.nTotal + 1, threads := s.threads[t := Locked])
  }

  function Woken(s: State, t: nat): State
    requires t < |s.threads|
  {
    s.(nIdle := s.nIdle - 1, threads := s.threads[t := Locked])
  }

  /** Cleaning up after a batch; the worker that finishes the last check notifies the master. */
  function CleanedUp(s: State, t: nat): State
    requires t < |s.threads| && s.threads[t].Working?
  {
    var w := s.threads[t];
    var left := s.nTodo - |w.batch|;
    var threads := s.threads[t := Locked];
    s.(allOk := s.allOk && w.ok, nTodo := left, done := s.done + multiset(w.batch),
       threads := if left == 0 && t != 0 then Notified(threads, 0) else threads)
  }

  function Evaluated(s: State, t: nat): State
    requires t < |s.threads| && s.threads[t].Working? && s.threads[t].next < |s.threads[t].batch|
  {
    var w := s.threads[t];
    s.(threads := s.threads[t := w.(next := w.next + 1, ok := w.ok && w.batch[w.next].ok)])
  }

  function Added(s: State, checks: seq<Check>, pick: nat): State {
    s.(queue := s.queue + checks, nTodo := s.nTodo + |checks|, added := s.added + checks,
       threads := Announced(s, checks, pick))
  }

  /** Notifying a thread has an effect only if it is blocked. */
  function Notified(threads: seq<Thread>, t: nat): seq<Thread>
    requires t < |threads|
  {
    if threads[t].Sleeping? then threads[t := Sleeping(true)] else threads
  }

  predicate Blocked(s: State, t: nat) {
    t < |s.threads| && s.threads[t] == Sleeping(false)
  }

  /** Queueing checks wakes one blocked worker for a single check and all of them for more. */
  function Announced(s: State, checks: seq<Check>, pick: nat): seq<Thread> {
    if |checks| == 1 then
      if 0 < pick && Blocked(s, pick) then s.threads[pick := Sleeping(true)] else s.threads
    else if |checks| > 1 then
      seq(|s.threads|, t requires 0 <= t < |s.threads| =>
        if t != 0 && s.threads[t].Sleeping? then Sleeping(true) else s.threads[t])
    else s.threads
  }

  predicate Enabled(s: State, step: Step) {
    match step
    case Add(checks, pick) =>
      && |s.threads| > 0 && s.threads[0].Outside?
      && (|checks| == 1 && (exists t :: 0 < t < |s.threads| && Blocked(s, t)) ==> 0 < pick && Blocked(s, pick))
    case Enter(t) => t < |s.threads| && s.threads[t].Outside?
    case Wake(t) => t < |s.threads| && s.threads[t].Sleeping?
    case RunCheck(t) => t < |s.threads| && s.threads[t].Working? && s.threads[t].next < |s.threads[t].batch|
    case Finish(t) => t < |s.threads| && s.threads[t].Working? && s.threads[t].next == |s.threads[t].batch|
  }

  ghost function Next(s: State, step: Step): State
    requires Inv(s) && Enabled(s, step)
  {
    match step
    case Add(checks, pick) => Added(s, checks, pick)
    case Enter(t) => EnteredAtHead(s, t); Head(Entered(s, t), t)
    case Wake(t) => WokenAtHead(s, t); Head(Woken(s, t), t)
    case RunCheck(t) => Evaluated(s, t)
    case Finish(t) => CleanedUpAtHead(s, t); Head(CleanedUp(s, t), t)
  }

  // ----- sums over the threads -----

  function Sum(threads: seq<Thread>, f: Thread -> nat): nat {
    if threads == [] then 0 else f(threads[0]) + Sum(threads[1..], f)
  }

  function InFlight(w: Thread): nat { if w.Working? then |w.batch| else 0 }
  function Idle(w: Thread): nat { if w.Sleeping? then 1 else 0 }
  function Inside(w: Thread): nat { if w.Outside? then 0 else 1 }

  /** How often a check is in a thread's batch. */
  function Holds(c: Check): Thread -> nat {
    (w: Thread) => if w.Working? then multiset(w.batch)[c] else 0
  }

  lemma {:induction false} SumAtLeast(threads: seq<Thread>, f: Thread -> nat, t: nat)
    requires t < |threads|
    ensures f(threads[t]) <= Sum(threads, f)
  {
    if t > 0 { SumAtLeast(threads[1..], f, t - 1); }
  }

  lemma {:induction false} SumPositive(threads: seq<Thread>, f: Thread -> nat)
    requires Sum(threads, f) > 0
    ensures exists t :: 0 <= t < |threads| && f(threads[t]) > 0
  {
    if f(threads[0]) == 0 {
      SumPositive(threads[1..], f);
      var t :| 0 <= t < |threads[1..]| && f(threads[1..][t]) > 0;
      assert threads[1..][t] == threads[t + 1];
    }
  }

  lemma {:induction false} SumUpdate(threads: seq<Thread>, f: Thread -> nat, t: nat, w: Thread)
    requires t < |threads|
    ensures Sum(threads[t := w], f) == Sum(threads, f) - f(threads[t]) + f(w)
  {
    if t > 0 {
      assert threads[t := w][1..] == threads[1..][t - 1 := w];
      SumUpdate(threads[1..], f, t - 1, w);
    } else {
      assert threads[t := w][1..] == threads[1..];
    }
  }

  lemma {:induction false} SumSame(a: seq<Thread>, b: seq<Thread>, f: Thread -> nat)
    requires |a| == |b| && forall t :: 0 <= t < |a| ==> f(a[t]) == f(b[t])
    ensures Sum(a, f) == Sum(b, f)
  {
    if a != [] { SumSame(a[1..], b[1..], f); }
  }

  /** All the sums after one thread changed state. */
  lemma ThreadUpdate(threads: seq<Thread>, t: nat, w: Thread)
    requires t < |threads|
    ensures Sum(threads[t := w], Idle) == Sum(threads, Idle) - Idle(threads[t]) + Idle(w)
    ensures Sum(threads[t := w], Inside) == Sum(threads, Inside) - Inside(threads[t]) + Inside(w)
    ensures Sum(threads[t := w], InFlight) == Sum(threads, InFlight) - InFlight(threads[t]) + InFlight(w)
    ensures forall c :: Sum(threads[t := w], Holds(c)) == Sum(threads, Holds(c)) - Holds(c)(threads[t]) + Holds(c)(w)
  {
    SumUpdate(threads, Idle, t, w);
    SumUpdate(threads, Inside, t, w);
    SumUpdate(threads, InFlight, t, w);
    forall c
      ensures Sum(threads[t := w], Holds(c)) == Sum(threads, Holds(c)) - Holds(c)(threads[t]) + Holds(c)(w)
    {
      SumUpdate(threads, Holds(c), t, w);
    }
  }

  // ----- the invariant -----

  predicate AllOk(checks: seq<Check>) {
    forall c :: c in checks ==> c.ok
  }

  predicate Active(w: Thread) { w.Working? || w.Locked? || w == Sleeping(true) }

  /** What is known of one thread: it skips checks only after one of the round failed. */
  predicate ThreadOk(added: seq<Check>, w: Thread) {
    && !w.Locked?
    && (w.Working? ==>
          && 0 < |w.batch| && w.next <= |w.batch|
          && (if w.ok then AllOk(w.batch[..w.next]) else !AllOk(added)))
  }

  ghost predicate Counts(s: State) {
    && |s.threads| > 0
    && s.nIdle == Sum(s.threads, Idle)
    && s.nTotal == Sum(s.threads, Inside)
    && s.nTodo == |s.queue| + Sum(s.threads, InFlight)
    && forall c :: multiset(s.added)[c] == multiset(s.queue)[c] + Sum(s.threads, Holds(c)) + s.done[c]
  }

  predicate Verdict(s: State) {
    if s.allOk then forall c :: c in s.done ==> c.ok else !AllOk(s.added)
  }

  /** No wake-up is lost: a blocked master has nothing to take and a batch is still out;
      a queue with work in it has an active worker, if any worker entered the loop. */
  ghost predicate AwakeEnough(s: State)
    requires |s.threads| > 0
  {
    && (s.threads[0] == Sleeping(false) ==> s.queue == [] && s.nTodo > 0)
    && (s.queue != [] && (exists t :: 0 < t < |s.threads| && !s.threads[t].Outside?) ==>
          exists t :: 0 < t < |s.threads| && Active(s.threads[t]))
  }

  predicate RoundsOk(s: State) {
    forall r :: r in s.rounds ==> (r.result <==> AllOk(r.checks))
  }

  ghost predicate Shared(s: State) {
    Counts(s) && Verdict(s) && AwakeEnough(s) && RoundsOk(s)
  }

  ghost predicate Inv(s: State) {
    Shared(s) && forall t :: 0 <= t < |s.threads| ==> ThreadOk(s.added, s.threads[t])
  }

  /** Thread `t` holds the mutex and is about to look at the queue. */
  ghost predicate AtHead(s: State, t: nat) {
    && Shared(s) && t < |s.threads| && s.threads[t].Locked?
    && forall u :: 0 <= u < |s.threads| && u != t ==> ThreadOk(s.added, s.threads[u])
  }

  lemma {:induction false} InitInv(workers: nat, batchSize: nat)
    ensures Inv(Init(workers, batchSize))
  {
    var s := Init(workers, batchSize);
    SumZero(s.threads, Idle);
    SumZero(s.threads, Inside);
    SumZero(s.threads, InFlight);
    forall c
      ensures Sum(s.threads, Holds(c)) == 0
    {
      SumZero(s.threads, Holds(c));
    }
  }

  lemma {:induction false} SumZero(threads: seq<Thread>, f: Thread -> nat)
    requires forall t :: 0 <= t < |threads| ==> f(threads[t]) == 0
    ensures Sum(threads, f) == 0
  {
    if threads != [] { SumZero(threads[1..], f); }
  }

  lemma HeadSleeps(s: State, t: nat)
    requires AtHead(s, t) && s.queue == [] && !(t == 0 && s.nTodo == 0)
    ensures s.nTotal >= 0 && s.nIdle >= 0 && Inv(Head(s, t))
  {
    var s' := Head(s, t);
    ThreadUpdate(s.threads, t, Sleeping(false));
    assert forall u :: 0 <= u < |s.threads| ==> ThreadOk(s'.added, s'.threads[u]);
  }

  lemma HeadReturns(s: State)
    requires AtHead(s, 0) && s.queue == [] && s.nTodo == 0
    ensures s.nTotal >= 0 && s.nIdle >= 0 && Inv(Head(s, 0))
  {
    var s' := Head(s, 0);
    ThreadUpdate(s.threads, 0, Outside);
    forall u | 0 <= u < |s.threads|
      ensures InFlight(s.threads[u]) == 0 && ThreadOk(s'.added, s'.threads[u])
    {
      SumAtLeast(s.threads, InFlight, u);
    }
    forall c
      ensures Sum(s.threads, Holds(c)) == 0
    {
      SumZero(s.threads, Holds(c));
    }
    assert s.allOk <==> AllOk(s.added) by {
      assert forall c :: c in s.added <==> multiset(s.added)[c] > 0;
      assert forall c :: multiset(s.added)[c] == s.done[c];
    }
  }

  lemma TakenCounts(s: State, t: nat)
    requires Counts(s) && t < |s.threads| && s.threads[t].Locked? && s.queue != [] && s.nTotal >= 0 && s.nIdle >= 0
    ensures Counts(Head(s, t))
  {
    var s' := Head(s, t);
    var w := s'.threads[t];
    ThreadUpdate(s.threads, t, w);
    PoppedConserves(s.queue, |w.batch|);
    assert forall c :: (multiset(w.batch) + multiset(s'.queue))[c] == multiset(s.queue)[c];
  }

  lemma HeadTakes(s: State, t: nat)
    requires AtHead(s, t) && s.queue != []
    ensures s.nTotal >= 0 && s.nIdle >= 0 && Inv(Head(s, t))
  {
    var s' := Head(s, t);
    var w := s'.threads[t];
    TakenCounts(s, t);
    assert AwakeEnough(s') by {
      if u :| 0 < u < |s.threads| && Active(s.threads[u]) { assert Active(s'.threads[u]); }
    }
    assert w.batch[..0] == [];
  }

  lemma HeadKeepsInv(s: State, t: nat)
    requires AtHead(s, t)
    ensures s.nTotal >= 0 && s.nIdle >= 0 && Inv(Head(s, t))
  {
    if s.queue != [] { HeadTakes(s, t); }
    else if t == 0 && s.nTodo == 0 { HeadReturns(s); }
    else { HeadSleeps(s, t); }
  }

  // ----- every step keeps the invariant -----

  lemma EnteredAtHead(s: State, t: nat)
    requires Inv(s) && t < |s.threads| && s.threads[t].Outside?
    ensures AtHead(Entered(s, t), t)
    ensures Entered(s, t).nTotal >= 0 && Entered(s, t).nIdle >= 0
  {
    ThreadUpdate(s.threads, t, Locked);
    StillAwake(s, Entered(s, t), t);
  }

  lemma WokenAtHead(s: State, t: nat)
    requires Inv(s) && t < |s.threads| && s.threads[t].Sleeping?
    ensures AtHead(Woken(s, t), t)
    ensures Woken(s, t).nTotal >= 0 && Woken(s, t).nIdle >= 0
  {
    ThreadUpdate(s.threads, t, Locked);
    StillAwake(s, Woken(s, t), t);
  }

  /** A thread that becomes active takes no one's wake-up away. */
  lemma StillAwake(s: State, s1: State, t: nat)
    requires t < |s.threads| && AwakeEnough(s) && s1.queue == s.queue && s1.nTodo == s.nTodo
    requires s1.threads == s.threads[t := Locked]
    ensures AwakeEnough(s1)
  {
    if t > 0 {
      assert Active(s1.threads[t]);
    } else if u :| 0 < u < |s.threads| && Active(s.threads[u]) {
      assert Active(s1.threads[u]);
    } else {
      assert forall u :: 0 < u < |s.threads| ==> s1.threads[u] == s.threads[u];
    }
  }

  lemma CleanedUpCounts(s: State, t: nat)
    requires Counts(s) && t < |s.threads| && s.threads[t].Working?
    ensures Counts(CleanedUp(s, t))
  {
    var w, s1 := s.threads[t], CleanedUp(s, t);
    var threads := s.threads[t := Locked];
    ThreadUpdate(s.threads, t, Locked);
    ThreadUpdate(threads, 0, Sleeping(true));
    assert forall c :: s1.done[c] == s.done[c] + multiset(w.batch)[c];
  }

  lemma CleanedUpAtHead(s: State, t: nat)
    requires Inv(s) && t < |s.threads| && s.threads[t].Working? && s.threads[t].next == |s.threads[t].batch|
    ensures AtHead(CleanedUp(s, t), t)
    ensures CleanedUp(s, t).nTotal >= 0 && CleanedUp(s, t).nIdle >= 0
  {
    var w := s.threads[t];
    var s1 := CleanedUp(s, t);
    assert w.batch[..w.next] == w.batch;
    CleanedUpCounts(s, t);
    assert AwakeEnough(s1) by {
      if t > 0 { assert Active(s1.threads[t]); }
      else if u :| 0 < u < |s.threads| && Active(s.threads[u]) { assert Active(s1.threads[u]); }
    }
  }

  lemma BatchWasAdded(s: State, t: nat, c: Check)
    requires Counts(s) && t < |s.threads| && s.threads[t].Working? && c in s.threads[t].batch
    ensures c in s.added
  {
    SumAtLeast(s.threads, Holds(c), t);
    assert multiset(s.threads[t].batch)[c] > 0;
    assert multiset(s.added)[c] > 0;
  }

  lemma EvaluatedThreadOk(added: seq<Check>, w: Thread)
    requires w.Working? && ThreadOk(added, w) && w.next < |w.batch|
    requires w.ok && !w.batch[w.next].ok ==> !AllOk(added)
    ensures ThreadOk(added, w.(next := w.next + 1, ok := w.ok && w.batch[w.next].ok))
  {
    assert w.batch[..w.next + 1] == w.batch[..w.next] + [w.batch[w.next]];
  }

  lemma EvaluatedKeepsInv(s: State, t: nat)
    requires Inv(s) && Enabled(s, RunCheck(t))
    ensures Inv(Evaluated(s, t))
  {
    var s' := Evaluated(s, t);
    var w, w' := s.threads[t], s'.threads[t];
    assert Counts(s') by { ThreadUpdate(s.threads, t, w'); }
    assert ThreadOk(s'.added, w') by {
      if w.ok && !w'.ok { BatchWasAdded(s, t, w.batch[w.next]); }
      EvaluatedThreadOk(s.added, w);
    }
    assert AwakeEnough(s') by {
      if u :| 0 < u < |s.threads| && Active(s.threads[u]) { assert Active(s'.threads[u]); }
    }
  }

  /** A notification changes no sum. */
  lemma AddedCounts(s: State, checks: seq<Check>, pick: nat)
    requires Counts(s)
    ensures Counts(Added(s, checks, pick))
  {
    var s' := Added(s, checks, pick);
    SumSame(s.threads, s'.threads, Idle);
    SumSame(s.threads, s'.threads, Inside);
    SumSame(s.threads, s'.threads, InFlight);
    forall c
      ensures multiset(s'.added)[c] == multiset(s'.queue)[c] + Sum(s'.threads, Holds(c)) + s'.done[c]
    {
      SumSame(s.threads, s'.threads, Holds(c));
    }
  }

  /** Adding notifies workers only, each blocked one or, for a single check, exactly one of them. */
  lemma AddedNotifies(s: State, checks: seq<Check>, pick: nat, t: nat)
    requires Inv(s) && Enabled(s, Add(checks, pick)) && t < |s.threads|
    ensures Added(s, checks, pick).threads[t] != s.threads[t] <==>
              t > 0 && Blocked(s, t) && (|checks| > 1 || (|checks| == 1 && t == pick))
  {
    assert ThreadOk(s.added, s.threads[t]);
  }

  lemma AddedAwake(s: State, checks: seq<Check>, pick: nat)
    requires Inv(s) && Enabled(s, Add(checks, pick))
    ensures AwakeEnough(Added(s, checks, pick))
  {
    var s' := Added(s, checks, pick);
    if u :| 0 < u < |s.threads| && !s.threads[u].Outside? {
      if a :| 0 < a < |s.threads| && Active(s.threads[a]) {
        assert Active(s'.threads[a]);
      } else {
        assert Blocked(s, u) by { assert ThreadOk(s.added, s.threads[u]) && !Active(s.threads[u]); }
        if |checks| == 1 {
          assert Active(s'.threads[pick]);
        } else if |checks| > 1 {
          assert Active(s'.threads[u]);
        }
      }
    }
  }

  lemma AddedKeepsInv(s: State, checks: seq<Check>, pick: nat)
    requires Inv(s) && Enabled(s, Add(checks, pick))
    ensures Inv(Added(s, checks, pick))
  {
    var s' := Added(s, checks, pick);
    AddedCounts(s, checks, pick);
    AddedAwake(s, checks, pick);
    assert forall c :: c in s.added ==> c in s'.added;
    forall u | 0 <= u < |s'.threads|
      ensures ThreadOk(s'.added, s'.threads[u])
    {
      assert ThreadOk(s.added, s.threads[u]);
    }
  }

  lemma NextKeepsInv(s: State, step: Step)
    requires Inv(s) && Enabled(s, step)
    ensures Inv(Next(s, step))
  {
    match step
    case Add(checks, pick) => AddedKeepsInv(s, checks, pick);
    case Enter(t) => EnteredAtHead(s, t); HeadKeepsInv(Entered(s, t), t);
    case Wake(t) => WokenAtHead(s, t); HeadKeepsInv(Woken(s, t), t);
    case RunCheck(t) => EvaluatedKeepsInv(s, t);
    case Finish(t) => CleanedUpAtHead(s, t); HeadKeepsInv(CleanedUp(s, t), t);
  }

  // ----- runs -----

  ghost predicate IsRun(s: State, steps: seq<Step>)
    requires Inv(s)
    decreases |steps|
  {
    steps == [] ||
    (Enabled(s, steps[0]) && (NextKeepsInv(s, steps[0]); IsRun(Next(s, steps[0]), steps[1..])))
  }

  ghost function After(s: State, steps: seq<Step>): State
    requires Inv(s) && IsRun(s, steps)
    decreases |steps|
  {
    if steps == [] then s
    else (NextKeepsInv(s, steps[0]); After(Next(s, steps[0]), steps[1..]))
  }

  lemma {:induction false} RunKeepsInv(s: State, steps: seq<Step>)
    requires Inv(s) && IsRun(s, steps)
    ensures Inv(After(s, steps))
    decreases |steps|
  {
    if steps != [] {
      NextKeepsInv(s, steps[0]);
      RunKeepsInv(Next(s, steps[0]), steps[1..]);
    }
  }

  ghost predicate StartsRun(workers: nat, batchSize: nat, steps: seq<Step>) {
    InitInv(workers, batchSize);
    IsRun(Init(workers, batchSize), steps)
  }

  ghost function Reached(workers: nat, batchSize: nat, steps: seq<Step>): State
    requires StartsRun(workers, batchSize, steps)
  {
    InitInv(workers, batchSize);
    After(Init(workers, batchSize), steps)
  }

  /** The checks passed to the calls of `Add` in a run, in order. */
  function ChecksOf(steps: seq<Step>): seq<Check> {
    if steps == [] then [] else (if steps[0].Add? then steps[0].checks else []) + ChecksOf(steps[1..])
  }

  /** What a caller of the queue sees of a step: checks passed to `Add`, or a return of `Wait`. */
  datatype Event = Passed(checks: seq<Check>) | Returned | Silent

  /** `Wait` returns with a step of the master after which it is not in the loop. */
  ghost function EventOf(s: State, step: Step): Event
    requires Inv(s) && Enabled(s, step)
  {
    if step.Add? then Passed(step.checks)
    else if step.t == 0 && Next(s, step).threads[0].Outside? then Returned
    else Silent
  }

  ghost function Trace(s: State, steps: seq<Step>): seq<Event>
    requires Inv(s) && IsRun(s, steps)
    decreases |steps|
  {
    if steps == [] then []
    else [EventOf(s, steps[0])] + (NextKeepsInv(s, steps[0]); Trace(Next(s, steps[0]), steps[1..]))
  }

  /** The checks passed, split at the returns: one group for each return and the checks since the last one, where
      `open` were passed before. */
  function Groups(events: seq<Event>, open: seq<Check>): (groups: seq<seq<Check>>)
    ensures |groups| > 0
  {
    if events == [] then [open]
    else
      match events[0]
      case Passed(checks) => Groups(events[1..], open + checks)
      case Returned => [open] + Groups(events[1..], [])
      case Silent => Groups(events[1..], open)
  }

  function Concat(groups: seq<seq<Check>>): seq<Check> {
    if groups == [] then [] else groups[0] + Concat(groups[1..])
  }

  function PassedIn(events: seq<Event>): seq<Check> {
    if events == [] then [] else (if events[0].Passed? then events[0].checks else []) + PassedIn(events[1..])
  }

  /** Splitting loses and adds nothing. */
  lemma {:induction false} GroupsAreAll(events: seq<Event>, open: seq<Check>)
    ensures Concat(Groups(events, open)) == open + PassedIn(events)
  {
    if events != [] {
      match events[0]
      case Passed(checks) => GroupsAreAll(events[1..], open + checks);
      case Returned =>
        GroupsAreAll(events[1..], []);
        var rest := Groups(events[1..], []);
        assert ([open] + rest)[1..] == rest;
      case Silent => GroupsAreAll(events[1..], open);
    }
  }

  lemma {:induction false} TraceChecks(s: State, steps: seq<Step>)
    requires Inv(s) && IsRun(s, steps)
    ensures PassedIn(Trace(s, steps)) == ChecksOf(steps)
    decreases |steps|
  {
    if steps != [] {
      NextKeepsInv(s, steps[0]);
      TraceChecks(Next(s, steps[0]), steps[1..]);
      assert Trace(s, steps)[1..] == Trace(Next(s, steps[0]), steps[1..]);
    }
  }

  /** The history after an event. */
  predicate Records(rounds: seq<Round>, added: seq<Check>, e: Event, rounds': seq<Round>, added': seq<Check>) {
    match e
    case Passed(checks) => added' == added + checks && rounds' == rounds
    case Returned =>
      added' == [] && |rounds'| == |rounds| + 1 && rounds <= rounds' && rounds'[|rounds|].checks == added
    case Silent => added' == added && rounds' == rounds
  }

  lemma HeadRecords(s: State, t: nat)
    requires t < |s.threads| && s.nTotal >= 0 && s.nIdle >= 0
    ensures var s' := Head(s, t);
            Records(s.rounds, s.added, if t == 0 && s'.threads[0].Outside? then Returned else Silent, s'.rounds, s'.added)
  {
  }

  lemma StepRecords(s: State, step: Step)
    requires Inv(s) && Enabled(s, step)
    ensures Records(s.rounds, s.added, EventOf(s, step), Next(s, step).rounds, Next(s, step).added)
  {
    match step
    case Enter(t) => EnteredAtHead(s, t); HeadRecords(Entered(s, t), t);
    case Wake(t) => WokenAtHead(s, t); HeadRecords(Woken(s, t), t);
    case Finish(t) => CleanedUpAtHead(s, t); HeadRecords(CleanedUp(s, t), t);
    case _ =>
  }

  /** After all of `events` the new rounds are their groups. */
  predicate RecordsAll(rounds: seq<Round>, added: seq<Check>, events: seq<Event>, rounds': seq<Round>, added': seq<Check>) {
    var groups := Groups(events, added);
    && rounds <= rounds' && |rounds'| == |rounds| + |groups| - 1
    && added' == groups[|groups| - 1]
    && forall k :: 0 <= k < |groups| - 1 ==> rounds'[|rounds| + k].checks == groups[k]
  }

  lemma RecordsOneMore(rounds: seq<Round>, added: seq<Check>, events: seq<Event>, rounds1: seq<Round>,
                       added1: seq<Check>, rounds': seq<Round>, added': seq<Check>)
    requires events != [] && Records(rounds, added, events[0], rounds1, added1)
    requires RecordsAll(rounds1, added1, events[1..], rounds', added')
    ensures RecordsAll(rounds, added, events, rounds', added')
  {
    if events[0].Returned? {
      var rest := Groups(events[1..], []);
      forall k | 0 <= k < |rest| ensures rounds'[|rounds| + k].checks == ([added] + rest)[k] {
        if k > 0 { assert rounds'[|rounds1| + (k - 1)].checks == rest[k - 1]; }
      }
    }
  }

  lemma {:induction false} RunRecords(s: State, steps: seq<Step>)
    requires Inv(s) && IsRun(s, steps)
    ensures RecordsAll(s.rounds, s.added, Trace(s, steps), After(s, steps).rounds, After(s, steps).added)
    decreases |steps|
  {
    if steps != [] {
      NextKeepsInv(s, steps[0]);
      StepRecords(s, steps[0]);
      var s1 := Next(s, steps[0]);
      RunRecords(s1, steps[1..]);
      var s', events := After(s1, steps[1..]), Trace(s, steps);
      assert events[1..] == Trace(s1, steps[1..]);
      RecordsOneMore(s.rounds, s.added, events, s1.rounds, s1.added, s'.rounds, s'.added);
    }
  }

  ghost function TraceOf(workers: nat, batchSize: nat, steps: seq<Step>): seq<Event>
    requires StartsRun(workers, batchSize, steps)
  {
    InitInv(workers, batchSize);
    Trace(Init(workers, batchSize), steps)
  }

  /** The results that `Wait` returned, in order. */
  predicate ResultsAre(rounds: seq<Round>, groups: seq<seq<Check>>) {
    |groups| == |rounds| + 1 && forall k :: 0 <= k < |rounds| ==> (rounds[k].result <==> AllOk(groups[k]))
  }

  /** In every run the k-th call of `Wait` returned true exactly if every check passed to `Add` since the return of
      the call before evaluates to true, although checks are skipped once one has failed; together with those added
      since the last return these are all the checks of the run, and the counters always account for every queued and
      every in-flight check. */
  lemma WaitIsExact(workers: nat, batchSize: nat, steps: seq<Step>)
    requires StartsRun(workers, batchSize, steps)
    ensures ResultsAre(Reached(workers, batchSize, steps).rounds, Groups(TraceOf(workers, batchSize, steps), []))
    ensures Concat(Groups(TraceOf(workers, batchSize, steps), [])) == ChecksOf(steps)
    ensures Counts(Reached(workers, batchSize, steps))
  {
    InitInv(workers, batchSize);
    var s := Init(workers, batchSize);
    RunKeepsInv(s, steps);
    RunRecords(s, steps);
    TraceChecks(s, steps);
    GroupsAreAll(Trace(s, steps), []);
    RoundsAreGroups(Reached(workers, batchSize, steps), Trace(s, steps));
  }

  lemma RoundsAreGroups(s: State, events: seq<Event>)
    requires RoundsOk(s) && RecordsAll([], [], events, s.rounds, s.added)
    ensures ResultsAre(s.rounds, Groups(events, []))
  {
    var groups := Groups(events, []);
    forall k | 0 <= k < |s.rounds| ensures s.rounds[k].result <==> AllOk(groups[k]) {
      assert s.rounds[k] in s.rounds && s.rounds[0 + k].checks == groups[k];
    }
  }

  /** A master that sleeps without having been notified waits for an unfinished batch. */
  lemma NoLostWakeup(s: State)
    requires Inv(s) && s.threads[0] == Sleeping(false)
    ensures s.queue == []
    ensures exists t :: 0 < t < |s.threads| && s.threads[t].Working? && 0 < |s.threads[t].batch|
  {
    SumPositive(s.threads, InFlight);
    var t :| 0 <= t < |s.threads| && InFlight(s.threads[t]) > 0;
  }

  /** A worker's clean-up notifies a blocked master if and only if it leaves nothing to do. */
  lemma LastWorkerNotifies(s: State, t: nat)
    requires Inv(s) && Enabled(s, Finish(t)) && s.threads[0].Sleeping?
    ensures s.nTodo == |s.threads[t].batch| ==>
              Next(s, Finish(t)).threads[0] == Sleeping(true) && Next(s, Finish(t)).nTodo == 0
    ensures s.nTodo != |s.threads[t].batch| ==>
              Next(s, Finish(t)).threads[0] == s.threads[0] && Next(s, Finish(t)).nTodo > 0
  {
    CleanedUpAtHead(s, t);
    var s1 := CleanedUp(s, t);
    assert s1.nTodo == |s1.queue| + Sum(s1.threads, InFlight);
  }

  // ----- every call of Wait returns -----

  function Weight(w: Thread): nat {
    match w
    case Outside => 1
    case Sleeping(notified) => if notified then 1 else 0
    case Working(batch, next, _) => if next <= |batch| then |batch| - next + 2 else 0
    case Locked => 0
  }

  function Measure(s: State): nat {
    4 * |s.queue| + Sum(s.threads, Weight)
  }

  predicate InWait(s: State) {
    |s.threads| > 0 && !s.threads[0].Outside?
  }

  /** Every step but a spurious wake-up that goes straight back to sleep. */
  predicate Productive(s: State, step: Step) {
    step.Wake? && Blocked(s, step.t) ==> s.queue != []
  }

  lemma HeadMeasure(s: State, t: nat)
    requires AtHead(s, t) && s.nTotal >= 0 && s.nIdle >= 0
    requires InWait(Head(s, t))
    ensures Measure(Head(s, t)) <= Measure(s) - if s.queue != [] then 1 else 0
  {
    SumUpdate(s.threads, Weight, t, Head(s, t).threads[t]);
  }

  lemma CleanedUpMeasure(s: State, t: nat)
    requires |s.threads| > 0 && Enabled(s, Finish(t))
    ensures Measure(CleanedUp(s, t)) < Measure(s)
  {
    var threads := s.threads[t := Locked];
    assert Sum(threads, Weight) == Sum(s.threads, Weight) - 2 by { SumUpdate(s.threads, Weight, t, Locked); }
    assert Sum(Notified(threads, 0), Weight) <= Sum(threads, Weight) + 1 by {
      SumUpdate(threads, Weight, 0, Sleeping(true));
    }
  }

  lemma FinishMeasure(s: State, t: nat)
    requires Inv(s) && Enabled(s, Finish(t)) && InWait(s) && InWait(Next(s, Finish(t)))
    ensures Measure(Next(s, Finish(t))) < Measure(s)
  {
    CleanedUpMeasure(s, t);
    CleanedUpAtHead(s, t);
    HeadMeasure(CleanedUp(s, t), t);
  }

  lemma WakeMeasure(s: State, t: nat)
    requires Inv(s) && Enabled(s, Wake(t)) && InWait(s) && InWait(Next(s, Wake(t)))
    ensures Measure(Next(s, Wake(t))) <= Measure(s) - if Productive(s, Wake(t)) then 1 else 0
  {
    WokenAtHead(s, t);
    SumUpdate(s.threads, Weight, t, Locked);
    HeadMeasure(Woken(s, t), t);
  }

  lemma EnterMeasure(s: State, t: nat)
    requires Inv(s) && Enabled(s, Enter(t)) && InWait(s) && InWait(Next(s, Enter(t)))
    ensures Measure(Next(s, Enter(t))) < Measure(s)
  {
    EnteredAtHead(s, t);
    SumUpdate(s.threads, Weight, t, Locked);
    HeadMeasure(Entered(s, t), t);
  }

  lemma StepMeasure(s: State, step: Step)
    requires Inv(s) && Enabled(s, step) && InWait(s) && InWait(Next(s, step))
    ensures Measure(Next(s, step)) <= Measure(s) - if Productive(s, step) then 1 else 0
  {
    match step
    case Add(_, _) =>
    case Enter(t) => EnterMeasure(s, t);
    case Wake(t) => WakeMeasure(s, t);
    case RunCheck(t) => SumUpdate(s.threads, Weight, t, Evaluated(s, t).threads[t]);
    case Finish(t) => FinishMeasure(s, t);
  }

  /** While the master waits, some thread can make a productive step. */
  lemma Progress(s: State) returns (step: Step)
    requires Inv(s) && InWait(s)
    ensures Enabled(s, step) && Productive(s, step)
  {
    var t := 0;
    if s.threads[0] == Sleeping(true) {
      return Wake(0);
    } else if s.threads[0] == Sleeping(false) {
      NoLostWakeup(s);
      t :| 0 < t < |s.threads| && s.threads[t].Working?;
    }
    assert ThreadOk(s.added, s.threads[t]);
    var w := s.threads[t];
    step := if w.next < |w.batch| then RunCheck(t) else Finish(t);
  }

  ghost predicate WaitsThroughout(s: State, steps: seq<Step>)
    requires Inv(s) && IsRun(s, steps)
    decreases |steps|
  {
    InWait(s) &&
    (steps == [] || (NextKeepsInv(s, steps[0]); WaitsThroughout(Next(s, steps[0]), steps[1..])))
  }

  ghost function ProductiveSteps(s: State, steps: seq<Step>): nat
    requires Inv(s) && IsRun(s, steps)
    decreases |steps|
  {
    if steps == [] then 0
    else
      (if Productive(s, steps[0]) then 1 else 0) +
      (NextKeepsInv(s, steps[0]); ProductiveSteps(Next(s, steps[0]), steps[1..]))
  }

  /** A run in which `Wait` has not yet returned makes only boundedly many productive steps,
      and by Progress it can always make another: no schedule blocks `Wait` forever unless
      the condition variables wake threads spuriously forever. */
  lemma {:induction false} WaitIsBounded(s: State, steps: seq<Step>)
    requires Inv(s) && IsRun(s, steps) && WaitsThroughout(s, steps)
    ensures ProductiveSteps(s, steps) <= Measure(s)
    decreases |steps|
  {
    if steps != [] {
      NextKeepsInv(s, steps[0]);
      var s' := Next(s, steps[0]);
      WaitIsBounded(s', steps[1..]);
      StepMeasure(s, steps[0]);
    }
  }

  // ----- the two loops of the thread body -----

  /** Moving a batch from the back of the queue to the thread's own vector. */
  method TakeBatch(queue: seq<Check>, n: nat) returns (batch: seq<Check>, rest: seq<Check>)
    requires n <= |queue|
    ensures batch == Popped(queue, n) && rest == queue[..|queue| - n]
  {
    batch, rest := [], queue;
    for i := 0 to n
      invariant |batch| == i && rest == queue[..|queue| - i]
      invariant forall j :: 0 <= j < i ==> batch[j] == queue[|queue| - 1 - j]
    {
      batch := batch + [rest[|rest| - 1]];
      rest := rest[..|rest| - 1];
    }
  }

  /** Evaluating a batch stops calling checks at the first failure. */
  method RunBatch(batch: seq<Check>, startOk: bool) returns (ok: bool, called: nat)
    ensures ok <==> startOk && AllOk(batch)
    ensures called <= |batch| && AllOk(batch[..if called == 0 then 0 else called - 1])
    ensures !startOk ==> called == 0
    ensures ok ==> called == |batch|
  {
    ok, called := startOk, 0;
    for i := 0 to |batch|
      invariant ok <==> startOk && AllOk(batch[..i])
      invariant called <= i && (ok ==> called == i) && (!startOk ==> called == 0)
      invariant AllOk(batch[..if called == 0 then 0 else called - 1])
    {
      if ok {
        assert batch[..i + 1] == batch[..i] + [batch[i]];
        ok, called := batch[i].ok, called + 1;
      } else {
        assert forall c :: c in batch[..i] ==> c in batch[..i + 1];
      }
    }
    assert batch[..|batch|] == batch;
  }
}
