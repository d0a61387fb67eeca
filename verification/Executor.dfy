/** Streaming a partitioned query: partitions run in any order and their rows come out in partition order.
    Statements quantify over all outcomes and all schedules. */
module Executor {
  import opened Wrappers
  import opened Bags
  import opened Pool

  /** One element of the row stream. */
  datatype Item<+R, +E> = Row(row: R) | Failure(error: E)

  /** `next` partitions have been released in order; `inner` is what is left of the last one. */
  datatype State<+R, +E> = State(slots: seq<Slot<R, E>>, next: nat, inner: seq<Item<R, E>>, emitted: seq<Item<R, E>>)

  datatype Event =
    | Work(e: PoolEvent)
    | Release           // the stream takes the next partition in order
    | Emit              // the consumer takes the next item

  function ItemsOf<R, E>(o: Outcome<R, E>): seq<Item<R, E>> {
    match o
    case Ok(rows) => seq(|rows|, i requires 0 <= i < |rows| => Row(rows[i]))
    case Err(e) => [Failure(e)]
  }

  function ItemLists<R, E>(outcomes: seq<Outcome<R, E>>): (lists: seq<seq<Item<R, E>>>)
    ensures |lists| == |outcomes|
  {
    seq(|outcomes|, i requires 0 <= i < |outcomes| => ItemsOf(outcomes[i]))
  }

  /** The whole stream: each partition's rows, or its one error in place, in partition order. */
  function AllItems<R, E>(outcomes: seq<Outcome<R, E>>): seq<Item<R, E>> {
    Flatten(ItemLists(outcomes))
  }

  function Initial<R, E>(n: nat): State<R, E> {
    State(AllWaiting(n), 0, [], [])
  }

  predicate Enabled<R, E>(job: Job<R, E>, s: State<R, E>, e: Event) {
    match e
    case Work(w) => CanMove(job, s.slots, w)
    case Release => |s.inner| == 0 && s.next < |s.slots| && s.slots[s.next].Finished?
    case Emit => |s.inner| > 0
  }

  function Apply<R, E>(job: Job<R, E>, s: State<R, E>, e: Event): State<R, E>
    requires Enabled(job, s, e)
  {
    match e
    case Work(w) => s.(slots := Move(job, s.slots, w))
    case Release => s.(next := s.next + 1, inner := ItemsOf(s.slots[s.next].outcome))
    case Emit => s.(inner := s.inner[1..], emitted := s.emitted + [s.inner[0]])
  }

  /** The state a schedule leads to, if every event of it was enabled when its turn came. */
  function Run<R, E>(job: Job<R, E>, s: State<R, E>, trace: seq<Event>): Option<State<R, E>> {
    if trace == [] then Some(s)
    else
      var before := Run(job, s, trace[..|trace| - 1]);
      if before.Some? && Enabled(job, before.value, trace[|trace| - 1])
      then Some(Apply(job, before.value, trace[|trace| - 1]))
      else None
  }

  lemma RunSnoc<R, E>(job: Job<R, E>, s: State<R, E>, trace: seq<Event>, t: State<R, E>, e: Event)
    requires Run(job, s, trace) == Some(t) && Enabled(job, t, e)
    ensures Run(job, s, trace + [e]) == Some(Apply(job, t, e))
  {
    assert (trace + [e])[..|trace|] == trace;
  }

  function RunFromStart<R, E>(job: Job<R, E>, trace: seq<Event>): Option<State<R, E>> {
    Run(job, Initial(|job.outcomes|), trace)
  }

  // ----- What every step keeps -----------------------------------------------------------------

  ghost predicate Invariant<R, E>(job: Job<R, E>, s: State<R, E>) {
    && PoolInvariant(job, s.slots)
    && s.next <= |s.slots|
    && (forall j :: 0 <= j < s.next ==> s.slots[j].Finished?)
    && s.emitted + s.inner == AllItems(job.outcomes[..s.next])
  }

  lemma ReleasedItems<R, E>(outcomes: seq<Outcome<R, E>>, k: nat)
    requires k < |outcomes|
    ensures AllItems(outcomes[..k + 1]) == AllItems(outcomes[..k]) + ItemsOf(outcomes[k])
  {
    assert ItemLists(outcomes[..k + 1]) == ItemLists(outcomes[..k]) + [ItemsOf(outcomes[k])];
    FlattenSnoc(ItemLists(outcomes[..k]), ItemsOf(outcomes[k]));
  }

  lemma InitialInvariant<R, E>(job: Job<R, E>)
    ensures Invariant(job, Initial(|job.outcomes|))
  {
    StartKeepsPool(job);
  }

  lemma StepInvariant<R, E>(job: Job<R, E>, s: State<R, E>, e: Event)
    requires Invariant(job, s) && Enabled(job, s, e)
    ensures Invariant(job, Apply(job, s, e))
  {
    match e
    case Work(w) => MoveKeepsPool(job, s.slots, w);
    case Release => ReleasedItems(job.outcomes, s.next);
    case Emit =>
  }

  lemma {:induction false} RunInvariant<R, E>(job: Job<R, E>, s: State<R, E>, trace: seq<Event>)
    requires Invariant(job, s) && Run(job, s, trace).Some?
    ensures Invariant(job, Run(job, s, trace).value)
  {
    if trace != [] {
      var init, last := trace[..|trace| - 1], trace[|trace| - 1];
      RunInvariant(job, s, init);
      StepInvariant(job, Run(job, s, init).value, last);
    }
  }

  lemma {:induction false} ItemsGrow<R, E>(outcomes: seq<Outcome<R, E>>, k: nat)
    requires k <= |outcomes|
    ensures AllItems(outcomes[..k]) <= AllItems(outcomes)
    decreases |outcomes| - k
  {
    if k < |outcomes| {
      ReleasedItems(outcomes, k);
      ItemsGrow(outcomes, k + 1);
    } else {
      assert outcomes[..k] == outcomes;
    }
  }

  /** Under every schedule what has been emitted is a prefix of the whole stream, no more than `limit`
      partitions hold a permit, and a drained stream has emitted everything. */
  lemma EverySchedule<R, E>(job: Job<R, E>, trace: seq<Event>)
    requires RunFromStart(job, trace).Some?
    ensures var s := RunFromStart(job, trace).value;
            && s.emitted <= AllItems(job.outcomes)
            && RunningCount(s.slots) <= job.limit
            && (s.next == |job.outcomes| && s.inner == [] ==> s.emitted == AllItems(job.outcomes))
  {
    InitialInvariant(job);
    RunInvariant(job, Initial(|job.outcomes|), trace);
    var s := RunFromStart(job, trace).value;
    ItemsGrow(job.outcomes, s.next);
    assert s.next == |job.outcomes| ==> job.outcomes[..s.next] == job.outcomes;
  }

  // ----- Progress ------------------------------------------------------------------------------

  /** Permits still to be taken and returned, partitions to be released and items to be emitted. */
  ghost function Remaining<R, E>(job: Job<R, E>, s: State<R, E>): int {
    WorkLeft(s.slots) + (|job.outcomes| - s.next) + (|AllItems(job.outcomes)| - |s.emitted|)
  }

  lemma StepDecreases<R, E>(job: Job<R, E>, s: State<R, E>, e: Event)
    requires Invariant(job, s) && Enabled(job, s, e)
    ensures 0 <= Remaining(job, Apply(job, s, e)) < Remaining(job, s)
  {
    StepInvariant(job, s, e);
    ItemsGrow(job.outcomes, Apply(job, s, e).next);
    if e.Work? {
      MoveKeepsPool(job, s.slots, e.e);
    }
  }

  /** No schedule is longer than the initial amount of work. */
  lemma {:induction false} SchedulesAreBounded<R, E>(job: Job<R, E>, s: State<R, E>, trace: seq<Event>)
    requires Invariant(job, s) && Run(job, s, trace).Some?
    ensures |trace| + Remaining(job, Run(job, s, trace).value) <= Remaining(job, s)
  {
    if trace != [] {
      var init, last := trace[..|trace| - 1], trace[|trace| - 1];
      SchedulesAreBounded(job, s, init);
      RunInvariant(job, s, init);
      StepDecreases(job, Run(job, s, init).value, last);
    }
  }

  /** The stream polls its queries only when it has nothing left to emit, so under the laziest consumer
      partitions move only then. */
  predicate PollEnabled<R, E>(job: Job<R, E>, s: State<R, E>, e: Event) {
    Enabled(job, s, e) && (e.Work? ==> s.inner == [])
  }

  /** With a permit to take, even a schedule that only polling can extend, and that it cannot, has
      emitted the whole stream. */
  lemma MaximalSchedulesDrain<R, E>(job: Job<R, E>, trace: seq<Event>)
    requires job.limit > 0 && RunFromStart(job, trace).Some?
    requires forall e :: !PollEnabled(job, RunFromStart(job, trace).value, e)
    ensures RunFromStart(job, trace).value.emitted == AllItems(job.outcomes)
  {
    var s := RunFromStart(job, trace).value;
    InitialInvariant(job);
    RunInvariant(job, Initial(|job.outcomes|), trace);
    EverySchedule(job, trace);
    assert !PollEnabled(job, s, Emit) && !PollEnabled(job, s, Release);
    if s.next < |s.slots| {
      var w := WorkersNeverStall(job, s.slots, s.next);
      assert PollEnabled(job, s, Work(w));
    }
  }

  /** Without permits a partition that would succeed is never run, and the stream never passes it. */
  lemma NoPermitsNoRows<R, E>(job: Job<R, E>, trace: seq<Event>, i: nat)
    requires job.limit == 0 && i < |job.outcomes| && job.outcomes[i].Ok?
    requires RunFromStart(job, trace).Some?
    ensures var s := RunFromStart(job, trace).value;
            i < |s.slots| && s.slots[i] == Waiting && s.next <= i
  {
    InitialInvariant(job);
    RunInvariant(job, Initial(|job.outcomes|), trace);
    StaysWaiting(job, trace, i);
  }

  lemma {:induction false} StaysWaiting<R, E>(job: Job<R, E>, trace: seq<Event>, i: nat)
    requires job.limit == 0 && i < |job.outcomes| && job.outcomes[i].Ok?
    requires RunFromStart(job, trace).Some?
    ensures |RunFromStart(job, trace).value.slots| == |job.outcomes|
    ensures RunFromStart(job, trace).value.slots[i] == Waiting
  {
    if trace != [] {
      StaysWaiting(job, trace[..|trace| - 1], i);
    }
  }

  // ----- Failing fast --------------------------------------------------------------------------

  function RowsOf<R, E>(o: Outcome<R, E>): seq<R> {
    if o.Ok? then o.value else []
  }

  function RowLists<R, E>(outcomes: seq<Outcome<R, E>>): (lists: seq<seq<R>>)
    ensures |lists| == |outcomes|
  {
    seq(|outcomes|, i requires 0 <= i < |outcomes| => RowsOf(outcomes[i]))
  }

  ghost predicate AllOk<R, E>(outcomes: seq<Outcome<R, E>>) {
    forall i :: 0 <= i < |outcomes| ==> outcomes[i].Ok?
  }

  /** Fail-fast consumption of the stream: the rows before the first failure, or that failure. */
  function RowsBeforeFailure<R, E>(items: seq<Item<R, E>>): seq<R> {
    if items == [] || items[0].Failure? then [] else [items[0].row] + RowsBeforeFailure(items[1..])
  }

  function FirstFailure<R, E>(items: seq<Item<R, E>>): Option<E> {
    if items == [] then None
    else if items[0].Failure? then Some(items[0].error)
    else FirstFailure(items[1..])
  }

  function TryCollect<R, E>(items: seq<Item<R, E>>): Outcome<R, E> {
    match FirstFailure(items)
    case Some(e) => Err(e)
    case None => Ok(RowsBeforeFailure(items))
  }

  lemma {:induction false} ConsumeRowsFirst<R, E>(rows: seq<R>, rest: seq<Item<R, E>>)
    ensures RowsBeforeFailure(ItemsOf(Ok(rows)) + rest) == rows + RowsBeforeFailure(rest)
    ensures FirstFailure(ItemsOf(Ok(rows)) + rest) == FirstFailure(rest)
  {
    var items: seq<Item<R, E>> := ItemsOf(Ok(rows)) + rest;
    if rows == [] {
      assert items == rest;
    } else {
      ConsumeRowsFirst(rows[1..], rest);
      assert items[0] == Row(rows[0]);
      assert items[1..] == ItemsOf(Ok(rows[1..])) + rest;
      var more := RowsBeforeFailure(rest);
      assert [rows[0]] + (rows[1..] + more) == rows + more;
    }
  }

  lemma {:induction false} SuccessesThenRest<R, E>(outcomes: seq<Outcome<R, E>>, rest: seq<Item<R, E>>)
    requires AllOk(outcomes)
    ensures RowsBeforeFailure(AllItems(outcomes) + rest) == Flatten(RowLists(outcomes)) + RowsBeforeFailure(rest)
    ensures FirstFailure(AllItems(outcomes) + rest) == FirstFailure(rest)
  {
    if outcomes == [] {
      assert AllItems(outcomes) + rest == rest;
    } else {
      var init, last := outcomes[..|outcomes| - 1], outcomes[|outcomes| - 1];
      SuccessesThenRest(init, ItemsOf(last) + rest);
      ConsumeRowsFirst<R, E>(last.value, rest);
      LastOutcome(outcomes);
      Regroup(AllItems(init), ItemsOf(last), rest);
      Regroup(Flatten(RowLists(init)), last.value, RowsBeforeFailure(rest));
    }
  }

  lemma Regroup<T>(a: seq<T>, b: seq<T>, c: seq<T>)
    ensures (a + b) + c == a + (b + c)
  {
  }

  lemma LastOutcome<R, E>(outcomes: seq<Outcome<R, E>>)
    requires outcomes != []
    ensures var init, last := outcomes[..|outcomes| - 1], outcomes[|outcomes| - 1];
            && AllItems(outcomes) == AllItems(init) + ItemsOf(last)
            && Flatten(RowLists(outcomes)) == Flatten(RowLists(init)) + RowsOf(last)
  {
    var init := outcomes[..|outcomes| - 1];
    assert ItemLists(outcomes)[..|init|] == ItemLists(init);
    assert RowLists(outcomes)[..|init|] == RowLists(init);
  }

  /** Stopping at the first failure means stopping at the lowest-numbered failing partition, after all
      the rows of the partitions before it. */
  lemma FailFastStopsAtLowest<R, E>(outcomes: seq<Outcome<R, E>>, k: nat)
    requires k < |outcomes| && outcomes[k].Err? && AllOk(outcomes[..k])
    ensures TryCollect(AllItems(outcomes)) == Err(outcomes[k].error)
    ensures RowsBeforeFailure(AllItems(outcomes)) == Flatten(RowLists(outcomes[..k]))
  {
    ItemsGrow(outcomes, k + 1);
    ReleasedItems(outcomes, k);
    var all, done := AllItems(outcomes), AllItems(outcomes[..k]);
    var rest := all[|done|..];
    assert all == done + rest && rest[0] == Failure(outcomes[k].error);
    SuccessesThenRest(outcomes[..k], rest);
  }

  lemma LowestFailure<R, E>(outcomes: seq<Outcome<R, E>>) returns (k: nat)
    requires !AllOk(outcomes)
    ensures k < |outcomes| && outcomes[k].Err? && AllOk(outcomes[..k])
  {
    var m := |outcomes| - 1;
    if AllOk(outcomes[..m]) {
      k := m;
    } else {
      k := LowestFailure(outcomes[..m]);
      assert outcomes[..m][..k] == outcomes[..k];
    }
  }

  lemma {:induction false} PrefixFailure<R, E>(items: seq<Item<R, E>>, prefix: seq<Item<R, E>>)
    requires prefix <= items && FirstFailure(prefix).Some?
    ensures FirstFailure(prefix) == FirstFailure(items)
    ensures RowsBeforeFailure(prefix) == RowsBeforeFailure(items)
  {
    if prefix[0].Row? {
      PrefixFailure(items[1..], prefix[1..]);
    }
  }

  lemma {:induction false} FailureNeedsFailure<R, E>(items: seq<Item<R, E>>, prefix: seq<Item<R, E>>)
    requires prefix <= items && FirstFailure(items) == None
    ensures FirstFailure(prefix) == None
  {
    if prefix != [] {
      FailureNeedsFailure(items[1..], prefix[1..]);
    }
  }

  /** At every moment of every schedule a consumer that stops at the first failure has seen none yet, or
      has seen the error of the lowest-numbered failing partition, after exactly the rows of the
      partitions before it. */
  lemma FailFastUnderEverySchedule<R, E>(job: Job<R, E>, trace: seq<Event>) returns (k: nat)
    requires RunFromStart(job, trace).Some?
    requires FirstFailure(RunFromStart(job, trace).value.emitted).Some?
    ensures k < |job.outcomes| && job.outcomes[k].Err? && AllOk(job.outcomes[..k])
    ensures var emitted := RunFromStart(job, trace).value.emitted;
            && FirstFailure(emitted) == Some(job.outcomes[k].error)
            && RowsBeforeFailure(emitted) == Flatten(RowLists(job.outcomes[..k]))
  {
    var emitted, all := RunFromStart(job, trace).value.emitted, AllItems(job.outcomes);
    EverySchedule(job, trace);
    if AllOk(job.outcomes) {
      SuccessesThenRest(job.outcomes, []);
      assert all + [] == all;
      FailureNeedsFailure(all, emitted);
    }
    k := LowestFailure(job.outcomes);
    FailFastStopsAtLowest(job.outcomes, k);
    PrefixFailure(all, emitted);
  }

  // ----- Item by item --------------------------------------------------------------------------

  /** Where in the stream partition `i` starts: after one item for each row of the partitions before it, and
      one for each of those that failed. */
  function StartOf<R, E>(outcomes: seq<Outcome<R, E>>, i: nat): nat
    requires i <= |outcomes|
  {
    if i == 0 then 0
    else StartOf(outcomes, i - 1) + if outcomes[i - 1].Ok? then |outcomes[i - 1].value| else 1
  }

  lemma {:induction false} ItemsBefore<R, E>(outcomes: seq<Outcome<R, E>>, i: nat)
    requires i <= |outcomes|
    ensures |AllItems(outcomes[..i])| == StartOf(outcomes, i)
  {
    if i > 0 {
      ItemsBefore(outcomes, i - 1);
      ReleasedItems(outcomes, i - 1);
    }
  }

  lemma ItemAt<R, E>(outcomes: seq<Outcome<R, E>>, i: nat, j: nat)
    requires i < |outcomes| && j < if outcomes[i].Ok? then |outcomes[i].value| else 1
    ensures var all, at := AllItems(outcomes), StartOf(outcomes, i) + j;
            && at < |all|
            && all[at] == if outcomes[i].Ok? then Row(outcomes[i].value[j]) else Failure(outcomes[i].error)
  {
    ItemsBefore(outcomes, i);
    ReleasedItems(outcomes, i);
    ItemsGrow(outcomes, i + 1);
  }

  function FailureCount<R, E>(outcomes: seq<Outcome<R, E>>): nat {
    if outcomes == [] then 0
    else FailureCount(outcomes[..|outcomes| - 1]) + if outcomes[|outcomes| - 1].Err? then 1 else 0
  }

  lemma {:induction false} OneItemEach<R, E>(outcomes: seq<Outcome<R, E>>)
    ensures |AllItems(outcomes)| == |Flatten(RowLists(outcomes))| + FailureCount(outcomes)
  {
    if outcomes != [] {
      OneItemEach(outcomes[..|outcomes| - 1]);
      LastOutcome(outcomes);
    }
  }

  /** At every moment of every schedule, what stands in the stream where partition `i` starts, `j` items on,
      is its row `j`, or its error if it failed; and a drained stream has one item for each row there is
      and one for each failing partition. */
  lemma StreamItemByItem<R, E>(job: Job<R, E>, trace: seq<Event>)
    requires RunFromStart(job, trace).Some?
    ensures var s, outcomes := RunFromStart(job, trace).value, job.outcomes;
            && (forall i, j ::
                  0 <= i < |outcomes| && outcomes[i].Ok? && 0 <= j < |outcomes[i].value|
                  && StartOf(outcomes, i) + j < |s.emitted|
                  ==> s.emitted[StartOf(outcomes, i) + j] == Row(outcomes[i].value[j]))
            && (forall i ::
                  0 <= i < |outcomes| && outcomes[i].Err? && StartOf(outcomes, i) < |s.emitted|
                  ==> s.emitted[StartOf(outcomes, i)] == Failure(outcomes[i].error))
            && (s.next == |outcomes| && s.inner == [] ==>
                  |s.emitted| == StartOf(outcomes, |outcomes|)
                              == |Flatten(RowLists(outcomes))| + FailureCount(outcomes))
  {
    var s, outcomes := RunFromStart(job, trace).value, job.outcomes;
    EverySchedule(job, trace);
    ItemsBefore(outcomes, |outcomes|);
    assert outcomes[..|outcomes|] == outcomes;
    OneItemEach(outcomes);
    forall i, j | 0 <= i < |outcomes| && outcomes[i].Ok? && 0 <= j < |outcomes[i].value|
                  && StartOf(outcomes, i) + j < |s.emitted|
      ensures s.emitted[StartOf(outcomes, i) + j] == Row(outcomes[i].value[j])
    {
      ItemAt(outcomes, i, j);
    }
    forall i | 0 <= i < |outcomes| && outcomes[i].Err? && StartOf(outcomes, i) < |s.emitted|
      ensures s.emitted[StartOf(outcomes, i)] == Failure(outcomes[i].error)
    {
      ItemAt(outcomes, i, 0);
    }
  }

  // ----- The stream object ---------------------------------------------------------------------

  datatype Poll<+T> = Ready(item: T) | Pending | End

  /** `query_partitioned_stream`: the ordered queue of dispatched queries and the partition being
      drained.  `emitted` records what the consumer has been given. */
  class RowStream<R, E> {
    const outcomes: seq<Outcome<R, E>>
    const limit: nat
    var slots: seq<Slot<R, E>>
    var next: nat
    var inner: seq<Item<R, E>>
    ghost var emitted: seq<Item<R, E>>

    ghost function ThisJob(): Job<R, E> {
      Job(outcomes, limit)
    }

    ghost function View(): State<R, E>
      reads this
    {
      State(slots, next, inner, emitted)
    }

    ghost predicate Valid()
      reads this
    {
      Invariant(ThisJob(), View())
    }

    constructor (outcomes: seq<Outcome<R, E>>, limit: nat)
      ensures Valid() && View() == Initial(|outcomes|)
      ensures this.outcomes == outcomes && this.limit == limit
    {
      this.outcomes, this.limit := outcomes, limit;
      slots, next, inner, emitted := [], 0, [], [];
      new;
      for i := 0 to |outcomes|
        invariant slots == AllWaiting(i) && next == 0 && inner == [] && emitted == []
        invariant this.outcomes == outcomes && this.limit == limit
      {
        slots := slots + [Waiting];
      }
      InitialInvariant(ThisJob());
    }

    /** The stream moves on to the next finished partition that has anything left to give. */
    method SkipDrained() returns (ghost trace: seq<Event>)
      requires Valid()
      modifies this`next, this`inner
      ensures Valid()
      ensures Run(ThisJob(), old(View()), trace) == Some(View())
      ensures |inner| > 0 || next == |slots| || !slots[next].Finished?
    {
      trace := [];
      ghost var job, start := ThisJob(), View();
      while |inner| == 0 && next < |slots| && slots[next].Finished?
        invariant Invariant(job, View()) && emitted == old(emitted)
        invariant Run(job, start, trace) == Some(View())
        decreases |slots| - next
      {
        RunSnoc(job, start, trace, View(), Release);
        StepInvariant(job, View(), Release);
        inner, next := ItemsOf(slots[next].outcome), next + 1;
        trace := trace + [Release];
      }
    }

    /** `poll_next`: yields the next item of the stream, or is pending because the next partition in
        order has not finished.  `trace` is the schedule it carried out. */
    method PollNext() returns (r: Poll<Item<R, E>>, ghost trace: seq<Event>)
      requires Valid()
      modifies this`next, this`inner, this`emitted
      ensures Valid()
      ensures Run(ThisJob(), old(View()), trace) == Some(View())
      ensures match r
              case Ready(item) =>
                emitted == old(emitted) + [item] && emitted <= AllItems(outcomes)
              case Pending =>
                emitted == old(emitted) && next < |slots| && !slots[next].Finished?
              case End =>
                emitted == old(emitted) == AllItems(outcomes)
    {
      ghost var job, start := ThisJob(), View();
      trace := SkipDrained();
      ItemsGrow(outcomes, next);
      assert next == |outcomes| ==> outcomes[..next] == outcomes;
      if |inner| > 0 {
        RunSnoc(job, start, trace, View(), Emit);
        StepInvariant(job, View(), Emit);
        r := Ready(inner[0]);
        inner, emitted := inner[1..], emitted + [inner[0]];
        trace := trace + [Emit];
      } else if next < |slots| {
        r := Pending;
      } else {
        r := End;
      }
    }

    /** A pool event: one partition takes a permit, gives up, or finishes into its slot. */
    method Progress(e: PoolEvent)
      requires Valid() && CanMove(ThisJob(), slots, e)
      modifies this`slots
      ensures Valid() && View() == Apply(ThisJob(), old(View()), Work(e))
    {
      StepInvariant(ThisJob(), View(), Work(e));
      slots := slots[e.i := if e.Acquire? then Running else Finished(outcomes[e.i])];
    }
  }
}
