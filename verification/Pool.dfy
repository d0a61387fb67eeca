/** The connection pool under the queries of a partitioned call.

    What each partition's query will return is fixed but arbitrary; the schedule is not: partitions take
    permits and finish in any interleaving.  A finished partition leaves its result in its own slot. */
module Pool {
  import opened Wrappers

  type Outcome<+R, +E> = Result<seq<R>, E>

  datatype Job<+R, +E> = Job(outcomes: seq<Outcome<R, E>>, limit: nat)

  /** A partition's query: waiting for a permit, holding one, or finished and buffered without one. */
  datatype Slot<+R, +E> = Waiting | Running | Finished(outcome: Outcome<R, E>)

  datatype PoolEvent =
    | Acquire(i: nat)   // a waiting partition takes a permit
    | TimeOut(i: nat)   // the pool gives up on a waiting partition, whose outcome is an error
    | Complete(i: nat)  // a running partition finishes and returns its permit

  function AllWaiting<R, E>(n: nat): (slots: seq<Slot<R, E>>)
    ensures |slots| == n
  {
    seq(n, _ => Waiting)
  }

  function RunningCount<R, E>(slots: seq<Slot<R, E>>): nat {
    if slots == [] then 0
    else RunningCount(slots[..|slots| - 1]) + if slots[|slots| - 1].Running? then 1 else 0
  }

  predicate CanMove<R, E>(job: Job<R, E>, slots: seq<Slot<R, E>>, e: PoolEvent) {
    && |slots| == |job.outcomes|
    && e.i < |slots|
    && match e
       case Acquire(i) => slots[i] == Waiting && RunningCount(slots) < job.limit
       case TimeOut(i) => slots[i] == Waiting && job.outcomes[i].Err?
       case Complete(i) => slots[i] == Running
  }

  function Move<R, E>(job: Job<R, E>, slots: seq<Slot<R, E>>, e: PoolEvent): (after: seq<Slot<R, E>>)
    requires CanMove(job, slots, e)
    ensures |after| == |slots|
  {
    slots[e.i := if e.Acquire? then Running else Finished(job.outcomes[e.i])]
  }

  /** Permits are respected, and a filled slot holds its own partition's result. */
  ghost predicate PoolInvariant<R, E>(job: Job<R, E>, slots: seq<Slot<R, E>>) {
    && |slots| == |job.outcomes|
    && RunningCount(slots) <= job.limit
    && forall i :: 0 <= i < |slots| && slots[i].Finished? ==> slots[i].outcome == job.outcomes[i]
  }

  /** Permits still to be taken and returned. */
  function WorkLeft<R, E>(slots: seq<Slot<R, E>>): nat {
    if slots == [] then 0
    else
      WorkLeft(slots[..|slots| - 1])
      + match slots[|slots| - 1] case Waiting => 2 case Running => 1 case Finished(_) => 0
  }

  lemma {:induction false} NoneRunning<R, E>(n: nat)
    ensures RunningCount(AllWaiting<R, E>(n)) == 0
  {
    if n > 0 {
      NoneRunning<R, E>(n - 1);
      assert AllWaiting<R, E>(n)[..n - 1] == AllWaiting(n - 1);
    }
  }

  lemma {:induction false} Refill<R, E>(slots: seq<Slot<R, E>>, i: nat, slot: Slot<R, E>)
    requires i < |slots|
    ensures RunningCount(slots[i := slot])
            == RunningCount(slots) - (if slots[i].Running? then 1 else 0) + (if slot.Running? then 1 else 0)
    ensures (slots[i].Waiting? && !slot.Waiting?) || (slots[i].Running? && slot.Finished?) ==>
      WorkLeft(slots[i := slot]) < WorkLeft(slots)
  {
    var m := |slots| - 1;
    if i < m {
      Refill(slots[..m], i, slot);
      assert slots[i := slot][..m] == slots[..m][i := slot];
    } else {
      assert slots[i := slot][..m] == slots[..m];
    }
  }

  lemma StartKeepsPool<R, E>(job: Job<R, E>)
    ensures PoolInvariant(job, AllWaiting(|job.outcomes|))
  {
    NoneRunning<R, E>(|job.outcomes|);
  }

  lemma MoveKeepsPool<R, E>(job: Job<R, E>, slots: seq<Slot<R, E>>, e: PoolEvent)
    requires PoolInvariant(job, slots) && CanMove(job, slots, e)
    ensures PoolInvariant(job, Move(job, slots, e))
    ensures WorkLeft(Move(job, slots, e)) < WorkLeft(slots)
  {
    Refill(slots, e.i, if e.Acquire? then Running else Finished(job.outcomes[e.i]));
  }

  lemma {:induction false} SomeoneRuns<R, E>(slots: seq<Slot<R, E>>) returns (j: nat)
    requires RunningCount(slots) > 0
    ensures j < |slots| && slots[j] == Running
  {
    j := |slots| - 1;
    if !slots[j].Running? {
      j := SomeoneRuns(slots[..j]);
    }
  }

  /** While a partition is unfinished some partition can take a permit or finish, however little the
      consumer has taken: partitions that wait to be consumed hold no permit. */
  lemma WorkersNeverStall<R, E>(job: Job<R, E>, slots: seq<Slot<R, E>>, i: nat) returns (e: PoolEvent)
    requires PoolInvariant(job, slots) && job.limit > 0
    requires i < |slots| && !slots[i].Finished?
    ensures (e.Acquire? || e.Complete?) && CanMove(job, slots, e)
  {
    if slots[i] == Running {
      e := Complete(i);
    } else if RunningCount(slots) < job.limit {
      e := Acquire(i);
    } else {
      var j := SomeoneRuns(slots);
      e := Complete(j);
    }
  }

  lemma {:induction false} RunningAtMost<R, E>(slots: seq<Slot<R, E>>, i: nat)
    ensures RunningCount(slots) <= |slots|
    ensures i < |slots| && slots[i] == Waiting ==> RunningCount(slots) < |slots|
  {
    if slots != [] {
      RunningAtMost(slots[..|slots| - 1], i);
    }
  }

  /** With a permit for each partition none has to queue. */
  lemma EnoughPermits<R, E>(job: Job<R, E>, slots: seq<Slot<R, E>>, i: nat)
    requires PoolInvariant(job, slots) && |job.outcomes| <= job.limit
    requires i < |slots| && slots[i] == Waiting
    ensures CanMove(job, slots, Acquire(i))
  {
    RunningAtMost(slots, i);
  }
}
