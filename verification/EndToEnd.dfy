/** The partitioned scan against the plain query: planner, executor and scan-out put together. */
module EndToEnd {
  import opened Wrappers
  import opened Bags
  import opened Pool
  import opened Executor
  import opened BufferedCall
  import opened Strategy
  import ScanOut

  /** The partitions of a job all succeeded, each with the rows its statement returns, in whatever order
      the backend happened to produce them. */
  ghost predicate RanAgainst<R, E>(job: Job<R, E>, db: Database<R>, parts: seq<Partition>) {
    && |job.outcomes| == |parts|
    && AllOk(job.outcomes)
    && forall i :: 0 <= i < |parts| ==> multiset(job.outcomes[i].value) == multiset(Answer(db, parts[i]))
  }

  lemma CollectedAnswers<R, E>(job: Job<R, E>, db: Database<R>, parts: seq<Partition>)
    requires RanAgainst(job, db, parts)
    ensures multiset(Flatten(RowLists(job.outcomes))) == multiset(Flatten(Answers(db, parts)))
  {
    FlattenBags(RowLists(job.outcomes), Answers(db, parts));
  }

  /** For every combination of parameters, every pool and every schedule: whatever the buffered call has
      returned is a success, and its rows are the rows of the plain query if and only if the parameters
      are truthful. */
  lemma PartitionedScanIsPlainScan<R, E>(params: Params, db: Database<R>, job: Job<R, E>, eager: bool,
                                         trace: seq<CallEvent>)
    requires OrdersItsRows(db) && RanAgainst(job, db, Plan(Choose(params)))
    requires RunCall(job, eager, trace).Some? && RunCall(job, eager, trace).value.returned.Some?
    ensures var r := RunCall(job, eager, trace).value.returned.value;
            r.Ok? && (multiset(r.value) == multiset(db.rows) <==> Truthful(db, params))
  {
    EveryCall(job, eager, trace);
    CollectedAnswers(job, db, Plan(Choose(params)));
    PlanLosslessIff(db, params);
  }

  /** And over the pool `bind` asks for there is something to return: no schedule goes on for ever, and
      one that cannot be extended has returned. */
  lemma EveryScheduleYieldsResult<R, E>(params: Params, db: Database<R>, job: Job<R, E>, eager: bool,
                                        trace: seq<CallEvent>)
    requires RanAgainst(job, db, Plan(Choose(params))) && job.limit == MaxConnections(Plan(Choose(params)))
    requires RunCall(job, eager, trace).Some?
    ensures |trace| <= WorkLeft(AllWaiting<R, E>(|job.outcomes|)) + 1
    ensures (forall e :: !CallEnabled(job, eager, RunCall(job, eager, trace).value, e)) ==>
      RunCall(job, eager, trace).value.returned == Some(Ok(Flatten(RowLists(job.outcomes))))
  {
    CallsAreBounded(job, eager, trace);
    if forall e :: !CallEnabled(job, eager, RunCall(job, eager, trace).value, e) {
      MaximalCallsReturn(job, eager, trace);
      EveryCall(job, eager, trace);
    }
  }

  /** Down to what DuckDB reads: bind a partitioned query with truthful parameters and scan it out, and the
      slots are those of the plain query's rows.  If each column of the result calls for one type, the
      declared columns are also the plain query's, every slot fits its column, and the rows read back are
      the plain query's rows. */
  method BindAndScan<E>(params: Params, ghost db: Database<ScanOut.Row>, ghost job: Job<ScanOut.Row, E>,
                        ghost eager: bool, ghost trace: seq<CallEvent>, rows: seq<ScanOut.Row>,
                        show: ScanOut.Value -> string, ghost names: seq<string>)
    returns (columns: seq<(string, ScanOut.LogicalType)>, out: seq<seq<Option<ScanOut.Slot>>>)
    requires OrdersItsRows(db) && Truthful(db, params) && ScanOut.UniformColumns(db.rows, names)
    requires RanAgainst(job, db, Plan(Choose(params)))
    requires RunCall(job, eager, trace).Some? && RunCall(job, eager, trace).value.returned == Some(Ok(rows))
    requires forall s :: show(ScanOut.Text(s)) == s
    ensures multiset(out) == multiset(ScanOut.StoredRows(show, |names|, db.rows))
    ensures db.rows != [] ==> |columns| == |names| && forall c :: 0 <= c < |names| ==> columns[c].0 == names[c]
    ensures ScanOut.AllHomogeneous(db.rows) ==>
      && columns == ScanOut.Declared(db.rows)
      && ScanOut.FitsTable(columns, out)
      && multiset(ScanOut.ReadTable(columns, out)) == multiset(ScanOut.DeliveredRows(show, |names|, db.rows))
  {
    PartitionedScanIsPlainScan(params, db, job, eager, trace);
    ScanOut.SameRowsReadAlike(show, names, rows, db.rows);
    columns, out := ScanOut.BindAndRead(rows, show);
    SameMembers(rows, db.rows);
    if rows != [] {
      assert rows[0] in db.rows && db.rows[0] in db.rows;
    }
  }
}
