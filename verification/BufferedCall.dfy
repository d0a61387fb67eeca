/** The buffered form of a partitioned query: join all partitions, then flatten their rows.

    The join library fails either as soon as it sees a failed partition, or, for longer lists, only when
    every partition before that one has succeeded.  `eager` says which; statements hold for both. */
module BufferedCall {
  import opened Wrappers
  import opened Bags
  import opened Pool
  import opened Executor

  /** What a pass over the slots, in partition order, has found. */
  datatype Scan<+R, +E> = Collected(results: seq<seq<R>>) | Blocked | Failed(error: E)

  function ScanNext<R, E>(sofar: Scan<R, E>, slot: Slot<R, E>, eager: bool): Scan<R, E> {
    match (sofar, slot)
    case (Collected(results), Finished(Ok(rows))) => Collected(results + [rows])
    case (Collected(_), Finished(Err(e))) => Failed(e)
    case (Collected(_), _) => Blocked
    case (Blocked, Finished(Err(e))) => if eager then Failed(e) else Blocked
    case (_, _) => sofar
  }

  function ScanSlots<R, E>(slots: seq<Slot<R, E>>, eager: bool): Scan<R, E> {
    if slots == [] then Collected([])
    else ScanNext(ScanSlots(slots[..|slots| - 1], eager), slots[|slots| - 1], eager)
  }

  /** What the call resolves to on a pass over the slots, if it does. */
  function Reply<R, E>(slots: seq<Slot<R, E>>, eager: bool): Option<Outcome<R, E>> {
    match ScanSlots(slots, eager)
    case Collected(results) => Some(Ok(Flatten(results)))
    case Blocked => None
    case Failed(e) => Some(Err(e))
  }

  /** `returned` is the result of the call; the queries are dropped once there is one. */
  datatype CallState<+R, +E> = CallState(slots: seq<Slot<R, E>>, returned: Option<Outcome<R, E>>)

  datatype CallEvent = Query(e: PoolEvent) | Return

  predicate CallEnabled<R, E>(job: Job<R, E>, eager: bool, s: CallState<R, E>, e: CallEvent) {
    && s.returned.None?
    && match e
       case Query(w) => CanMove(job, s.slots, w)
       case Return => Reply(s.slots, eager).Some?
  }

  function CallApply<R, E>(job: Job<R, E>, eager: bool, s: CallState<R, E>, e: CallEvent): CallState<R, E>
    requires CallEnabled(job, eager, s, e)
  {
    match e
    case Query(w) => s.(slots := Move(job, s.slots, w))
    case Return => s.(returned := Reply(s.slots, eager))
  }

  function RunCall<R, E>(job: Job<R, E>, eager: bool, trace: seq<CallEvent>): Option<CallState<R, E>> {
    if trace == [] then Some(CallState(AllWaiting(|job.outcomes|), None))
    else
      var before := RunCall(job, eager, trace[..|trace| - 1]);
      if before.Some? && CallEnabled(job, eager, before.value, trace[|trace| - 1])
      then Some(CallApply(job, eager, before.value, trace[|trace| - 1]))
      else None
  }

  // ----- What every run keeps ------------------------------------------------------------------

  ghost predicate CallInvariant<R, E>(job: Job<R, E>, eager: bool, s: CallState<R, E>) {
    && PoolInvariant(job, s.slots)
    && (s.returned.Some? ==> s.returned == Reply(s.slots, eager))
  }

  lemma CallStepInvariant<R, E>(job: Job<R, E>, eager: bool, s: CallState<R, E>, e: CallEvent)
    requires CallInvariant(job, eager, s) && CallEnabled(job, eager, s, e)
    ensures CallInvariant(job, eager, CallApply(job, eager, s, e))
  {
    if e.Query? {
      MoveKeepsPool(job, s.slots, e.e);
    }
  }

  lemma {:induction false} CallRunInvariant<R, E>(job: Job<R, E>, eager: bool, trace: seq<CallEvent>)
    requires RunCall(job, eager, trace).Some?
    ensures CallInvariant(job, eager, RunCall(job, eager, trace).value)
  {
    if trace == [] {
      StartKeepsPool(job);
    } else {
      var init := trace[..|trace| - 1];
      CallRunInvariant(job, eager, init);
      CallStepInvariant(job, eager, RunCall(job, eager, init).value, trace[|trace| - 1]);
    }
  }

  /** The slots agree with what the partitions return, as far as they are filled. */
  ghost predicate FilledFrom<R, E>(slots: seq<Slot<R, E>>, outcomes: seq<Outcome<R, E>>) {
    |slots| == |outcomes| && forall i :: 0 <= i < |slots| && slots[i].Finished? ==> slots[i].outcome == outcomes[i]
  }

  /** A complete pass collects one result per partition, in partition order, all of them successes. */
  lemma {:induction false} CollectedIsAll<R, E>(slots: seq<Slot<R, E>>, outcomes: seq<Outcome<R, E>>, eager: bool)
    requires FilledFrom(slots, outcomes) && ScanSlots(slots, eager).Collected?
    ensures AllOk(outcomes) && ScanSlots(slots, eager).results == RowLists(outcomes)
    ensures forall i :: 0 <= i < |slots| ==> slots[i].Finished?
  {
    if slots != [] {
      var m := |slots| - 1;
      CollectedIsAll(slots[..m], outcomes[..m], eager);
      assert RowLists(outcomes) == RowLists(outcomes[..m]) + [RowsOf(outcomes[m])];
    }
  }

  /** A failed pass met a filled slot with that error, and in order if it is not eager. */
  lemma {:induction false} FailedIsSomeones<R, E>(slots: seq<Slot<R, E>>, outcomes: seq<Outcome<R, E>>, eager: bool)
    returns (i: nat)
    requires FilledFrom(slots, outcomes) && ScanSlots(slots, eager).Failed?
    ensures i < |slots| && slots[i].Finished? && outcomes[i] == Err(ScanSlots(slots, eager).error)
    ensures !eager ==> AllOk(outcomes[..i])
  {
    var m := |slots| - 1;
    var before := ScanSlots(slots[..m], eager);
    if before.Failed? {
      i := FailedIsSomeones(slots[..m], outcomes[..m], eager);
      assert outcomes[..m][..i] == outcomes[..i];
    } else {
      i := m;
      if before.Collected? {
        CollectedIsAll(slots[..m], outcomes[..m], eager);
      }
    }
  }

  lemma {:induction false} BlockedOnSomeone<R, E>(slots: seq<Slot<R, E>>, eager: bool) returns (i: nat)
    requires ScanSlots(slots, eager).Blocked?
    ensures i < |slots| && !slots[i].Finished?
  {
    var m := |slots| - 1;
    if ScanSlots(slots[..m], eager).Blocked? {
      i := BlockedOnSomeone(slots[..m], eager);
    } else {
      i := m;
    }
  }

  lemma StreamOfSuccesses<R, E>(outcomes: seq<Outcome<R, E>>)
    requires AllOk(outcomes)
    ensures TryCollect(AllItems(outcomes)) == Ok(Flatten(RowLists(outcomes)))
  {
    SuccessesThenRest(outcomes, []);
    var rows := Flatten(RowLists(outcomes));
    assert AllItems(outcomes) + [] == AllItems(outcomes) && rows + [] == rows;
  }

  /** Under every schedule: the call succeeds just when every partition does, and then returns their rows
      in partition order, which is what the stream collects to; if it fails, it is with the error of a
      partition that has failed, and a call that is not eager fails as fail-fast consumption does. */
  lemma EveryCall<R, E>(job: Job<R, E>, eager: bool, trace: seq<CallEvent>)
    requires RunCall(job, eager, trace).Some? && RunCall(job, eager, trace).value.returned.Some?
    ensures var r := RunCall(job, eager, trace).value.returned.value;
            && (r.Ok? <==> AllOk(job.outcomes))
            && (r.Ok? ==> r == Ok(Flatten(RowLists(job.outcomes))))
            && (r.Err? ==> r in job.outcomes)
            && (r.Ok? || !eager ==> r == TryCollect(AllItems(job.outcomes)))
  {
    var s := RunCall(job, eager, trace).value;
    CallRunInvariant(job, eager, trace);
    if s.returned.value.Ok? {
      CollectedIsAll(s.slots, job.outcomes, eager);
      StreamOfSuccesses(job.outcomes);
    } else {
      var i := FailedIsSomeones(s.slots, job.outcomes, eager);
      if !eager {
        FailFastStopsAtLowest(job.outcomes, i);
      }
    }
  }

  lemma {:induction false} RowsBefore<R, E>(outcomes: seq<Outcome<R, E>>, i: nat)
    requires i <= |outcomes| && AllOk(outcomes)
    ensures |Flatten(RowLists(outcomes[..i]))| == StartOf(outcomes, i)
    ensures Flatten(RowLists(outcomes[..i])) <= Flatten(RowLists(outcomes))
    decreases |outcomes|
  {
    if i == |outcomes| {
      assert outcomes[..i] == outcomes;
    }
    if outcomes != [] {
      var m := |outcomes| - 1;
      LastOutcome(outcomes);
      StartOfPrefix(outcomes, m, if i < m then i else m);
      if i < |outcomes| {
        RowsBefore(outcomes[..m], i);
        assert outcomes[..m][..i] == outcomes[..i];
      } else {
        RowsBefore(outcomes[..m], m);
        assert outcomes[..m][..m] == outcomes[..m];
      }
    }
  }

  lemma {:induction false} StartOfPrefix<R, E>(outcomes: seq<Outcome<R, E>>, m: nat, i: nat)
    requires i <= m <= |outcomes|
    ensures StartOf(outcomes[..m], i) == StartOf(outcomes, i)
  {
    if i > 0 {
      StartOfPrefix(outcomes, m, i - 1);
    }
  }

  lemma RowAt<R, E>(outcomes: seq<Outcome<R, E>>, i: nat, j: nat)
    requires AllOk(outcomes) && i < |outcomes| && j < |outcomes[i].value|
    ensures var rows, at := Flatten(RowLists(outcomes)), StartOf(outcomes, i) + j;
            at < |rows| && rows[at] == outcomes[i].value[j]
  {
    RowsBefore(outcomes, i);
    RowsBefore(outcomes, i + 1);
    LastOutcome(outcomes[..i + 1]);
    assert outcomes[..i + 1][..i] == outcomes[..i];
  }

  /** Row by row: what a successful call returns has partition `i`'s row `j` where that partition starts,
      `j` rows on, and nothing besides. */
  lemma CallRowByRow<R, E>(job: Job<R, E>, eager: bool, trace: seq<CallEvent>)
    requires RunCall(job, eager, trace).Some?
    requires RunCall(job, eager, trace).value.returned.Some? && RunCall(job, eager, trace).value.returned.value.Ok?
    ensures var rows, outcomes := RunCall(job, eager, trace).value.returned.value.value, job.outcomes;
            && |rows| == StartOf(outcomes, |outcomes|)
            && forall i, j ::
                 0 <= i < |outcomes| && outcomes[i].Ok? && 0 <= j < |outcomes[i].value|
                 && StartOf(outcomes, i) + j < |rows|
                 ==> rows[StartOf(outcomes, i) + j] == outcomes[i].value[j]
  {
    var outcomes := job.outcomes;
    EveryCall(job, eager, trace);
    RowsBefore(outcomes, |outcomes|);
    assert outcomes[..|outcomes|] == outcomes;
    forall i, j | 0 <= i < |outcomes| && outcomes[i].Ok? && 0 <= j < |outcomes[i].value|
      ensures var rows, at := Flatten(RowLists(outcomes)), StartOf(outcomes, i) + j;
              at < |rows| && rows[at] == outcomes[i].value[j]
    {
      RowAt(outcomes, i, j);
    }
  }

  // ----- Progress ------------------------------------------------------------------------------

  /** With a permit to take, a schedule that cannot be extended has returned. */
  lemma MaximalCallsReturn<R, E>(job: Job<R, E>, eager: bool, trace: seq<CallEvent>)
    requires job.limit > 0 && RunCall(job, eager, trace).Some?
    requires forall e :: !CallEnabled(job, eager, RunCall(job, eager, trace).value, e)
    ensures RunCall(job, eager, trace).value.returned.Some?
  {
    var s := RunCall(job, eager, trace).value;
    CallRunInvariant(job, eager, trace);
    if s.returned.None? {
      assert !CallEnabled(job, eager, s, Return);
      var i := BlockedOnSomeone(s.slots, eager);
      var w := WorkersNeverStall(job, s.slots, i);
      assert CallEnabled(job, eager, s, Query(w));
    }
  }

  /** And there are such schedules: every event uses up work, so none can go on for ever. */
  lemma {:induction false} CallsAreBounded<R, E>(job: Job<R, E>, eager: bool, trace: seq<CallEvent>)
    requires RunCall(job, eager, trace).Some?
    ensures var s := RunCall(job, eager, trace).value;
            |trace| + WorkLeft(s.slots)
            <= WorkLeft(AllWaiting<R, E>(|job.outcomes|)) + if s.returned.Some? then 1 else 0
  {
    if trace != [] {
      var init, last := trace[..|trace| - 1], trace[|trace| - 1];
      CallsAreBounded(job, eager, init);
      CallRunInvariant(job, eager, init);
      if last.Query? {
        MoveKeepsPool(job, RunCall(job, eager, init).value.slots, last.e);
      }
    }
  }

  // ----- Which error ---------------------------------------------------------------------------

  ghost predicate OneError<R, E>(outcomes: seq<Outcome<R, E>>) {
    forall i, j :: 0 <= i < |outcomes| && 0 <= j < |outcomes| && outcomes[i].Err? && outcomes[j].Err?
                   ==> outcomes[i] == outcomes[j]
  }

  ghost predicate AgreesWithStream<R, E>(job: Job<R, E>, eager: bool, trace: seq<CallEvent>) {
    var end := RunCall(job, eager, trace);
    end.Some? && end.value.returned.Some? ==> end.value.returned.value == TryCollect(AllItems(job.outcomes))
  }

  lemma {:induction false} ScanWaiting<R, E>(n: nat, eager: bool)
    ensures ScanSlots(AllWaiting<R, E>(n), eager) == if n == 0 then Collected([]) else Blocked
  {
    if n > 0 {
      ScanWaiting<R, E>(n - 1, eager);
      assert AllWaiting<R, E>(n)[..n - 1] == AllWaiting(n - 1);
    }
  }

  lemma {:induction false} ScanLoneFailure<R, E>(n: nat, i: nat, e: E)
    requires i < n
    ensures ScanSlots(AllWaiting<R, E>(n)[i := Finished(Err(e))], true) == Failed(e)
  {
    var slots := AllWaiting<R, E>(n)[i := Finished(Err(e))];
    if i < n - 1 {
      ScanLoneFailure<R, E>(n - 1, i, e);
      assert slots[..n - 1] == AllWaiting<R, E>(n - 1)[i := Finished(Err(e))];
    } else {
      ScanWaiting<R, E>(n - 1, true);
      assert slots[..n - 1] == AllWaiting(n - 1);
    }
  }

  /** The schedule that runs one partition and returns what the call then resolves to. */
  function RunOne(i: nat): (trace: seq<CallEvent>) {
    [Query(Acquire(i)), Query(Complete(i)), Return]
  }

  /** An eager call can return the error of any failing partition, not only the lowest one's. */
  lemma AnyFailureCanWin<R, E>(job: Job<R, E>, i: nat)
    requires i < |job.outcomes| && job.outcomes[i].Err? && job.limit > 0
    ensures RunCall(job, true, RunOne(i)).Some?
    ensures RunCall(job, true, RunOne(i)).value.returned == Some(job.outcomes[i])
  {
    var n := |job.outcomes|;
    var start, slots := AllWaiting<R, E>(n), AllWaiting<R, E>(n)[i := Finished(job.outcomes[i])];
    NoneRunning<R, E>(n);
    ScanLoneFailure<R, E>(n, i, job.outcomes[i].error);
    var t1, t2: seq<CallEvent> := [Query(Acquire(i))], [Query(Acquire(i)), Query(Complete(i))];
    assert t1[..0] == [] && t2[..1] == t1 && RunOne(i)[..2] == t2;
    ScanWaiting<R, E>(n, true);
    assert RunCall(job, true, []) == Some(CallState(start, None));
    assert RunCall(job, true, t1) == Some(CallState(start[i := Running], None));
    assert start[i := Running][i := Finished(job.outcomes[i])] == slots;
    assert RunCall(job, true, t2) == Some(CallState(slots, None));
  }

  /** The buffered call agrees with fail-fast consumption of the stream under every schedule, errors
      included, exactly if the join is not eager or all failing partitions fail alike. */
  lemma AgreesWithStreamIff<R, E>(job: Job<R, E>, eager: bool)
    requires job.limit > 0
    ensures (forall trace :: AgreesWithStream(job, eager, trace)) <==> !eager || OneError(job.outcomes)
  {
    if forall trace :: AgreesWithStream(job, eager, trace) {
      if eager {
        forall i, j | 0 <= i < |job.outcomes| && 0 <= j < |job.outcomes| && job.outcomes[i].Err? && job.outcomes[j].Err?
          ensures job.outcomes[i] == job.outcomes[j]
        {
          AnyFailureCanWin(job, i);
          AnyFailureCanWin(job, j);
          assert AgreesWithStream(job, true, RunOne(i)) && AgreesWithStream(job, true, RunOne(j));
        }
      }
    }
    if !eager || OneError(job.outcomes) {
      forall trace
        ensures AgreesWithStream(job, eager, trace)
      {
        AgreesIfOneError(job, eager, trace);
      }
    }
  }

  lemma AgreesIfOneError<R, E>(job: Job<R, E>, eager: bool, trace: seq<CallEvent>)
    requires !eager || OneError(job.outcomes)
    ensures AgreesWithStream(job, eager, trace)
  {
    if RunCall(job, eager, trace).Some? && RunCall(job, eager, trace).value.returned.Some? {
      EveryCall(job, eager, trace);
      if !AllOk(job.outcomes) {
        var k := LowestFailure(job.outcomes);
        FailFastStopsAtLowest(job.outcomes, k);
      }
    }
  }

  // ----- The call object -----------------------------------------------------------------------

  /** `query_partitioned` as a future: the joined queries and, once it has resolved, its result. */
  class PartitionedCall<R, E> {
    const outcomes: seq<Outcome<R, E>>
    const limit: nat
    const eager: bool
    var slots: seq<Slot<R, E>>
    var returned: Option<Outcome<R, E>>

    ghost function ThisJob(): Job<R, E> {
      Job(outcomes, limit)
    }

    ghost function View(): CallState<R, E>
      reads this
    {
      CallState(slots, returned)
    }

    ghost predicate Valid()
      reads this
    {
      CallInvariant(ThisJob(), eager, View())
    }

    constructor (outcomes: seq<Outcome<R, E>>, limit: nat, eager: bool)
      ensures Valid() && View() == CallState(AllWaiting(|outcomes|), None)
      ensures this.outcomes == outcomes && this.limit == limit && this.eager == eager
    {
      this.outcomes, this.limit, this.eager := outcomes, limit, eager;
      slots, returned := seq(|outcomes|, _ => Waiting), None;
      new;
      StartKeepsPool(ThisJob());
      assert slots == AllWaiting(|outcomes|);
    }

    /** A pool event: one partition takes a permit, gives up, or finishes into its slot. */
    method Progress(e: PoolEvent)
      requires Valid() && CallEnabled(ThisJob(), eager, View(), Query(e))
      modifies this`slots
      ensures Valid() && View() == CallApply(ThisJob(), eager, old(View()), Query(e))
    {
      MoveKeepsPool(ThisJob(), slots, e);
      slots := slots[e.i := if e.Acquire? then Running else Finished(outcomes[e.i])];
    }

    /** `poll`: one pass over the slots in partition order.  It resolves exactly when the step machine
        can return, to what the machine returns, and is pending only on a partition that has not
        finished. */
    method Poll() returns (r: Option<Outcome<R, E>>)
      requires Valid() && returned == None
      modifies this`returned
      ensures Valid() && r == returned
      ensures r.Some? <==> CallEnabled(ThisJob(), eager, old(View()), Return)
      ensures r.Some? ==> View() == CallApply(ThisJob(), eager, old(View()), Return)
      ensures r.Some? && r.value.Ok? ==> r.value.value == Flatten(RowLists(outcomes))
      ensures r.None? ==> exists i :: 0 <= i < |slots| && !slots[i].Finished?
    {
      if |slots| == 0 {
        returned := Some(Ok([]));
        return returned;
      }
      var results, pending := [], false;
      for i := 0 to |slots|
        invariant returned == None
        invariant ScanSlots(slots[..i], eager) == if pending then Blocked else Collected(results)
      {
        assert slots[..i + 1][..i] == slots[..i];
        match slots[i] {
          case Finished(Ok(rows)) =>
            results := results + [rows];
          case Finished(Err(e)) =>
            if eager || !pending {
              FailureIsFinal(slots, i + 1, eager, e);
              returned := Some(Err(e));
              return returned;
            }
          case _ =>
            pending := true;
        }
      }
      assert slots[..|slots|] == slots;
      if pending {
        ghost var i := BlockedOnSomeone(slots, eager);
        return None;
      }
      CollectedIsAll(slots, outcomes, eager);
      returned := Some(Ok(Flatten(results)));
      return returned;
    }
  }

  lemma {:induction false} FailureIsFinal<R, E>(slots: seq<Slot<R, E>>, i: nat, eager: bool, e: E)
    requires i <= |slots| && ScanSlots(slots[..i], eager) == Failed(e)
    ensures ScanSlots(slots, eager) == Failed(e)
    decreases |slots|
  {
    if i == |slots| {
      assert slots[..i] == slots;
    } else {
      var m := |slots| - 1;
      assert slots[..m][..i] == slots[..i];
      FailureIsFinal(slots[..m], i, eager, e);
    }
  }
}
