/** Choosing a partitioning strategy from the table function's named parameters, and what the chosen
    partitions return from a database. */
module Strategy {
  import opened MachineInts
  import opened Wrappers
  import opened Bags
  import opened Slices
  import opened IntRange
  import opened OffsetPaging
  import opened UuidKeys
  import opened UuidRange

  /** The named parameters.  A UUID bound that does not parse counts as missing. */
  datatype Params = Params(
    partitions: Option<int64>,
    partitionKey: Option<string>,
    uuidMin: Option<Uuid>,
    uuidMax: Option<Uuid>,
    min: Option<int64>,
    max: Option<int64>,
    orderBy: Option<string>,
    totalRows: Option<int64>)

  /** One statement to run against the base query. */
  datatype Partition =
    | UuidPartition(key: string, uuids: Predicate<Uuid>)
    | IntPartition(key: string, ints: Predicate<int>)
    | PagePartition(orderBy: string, page: Page)
    | Whole

  datatype Choice =
    | ByUuid(key: string, uuidMin: Uuid, uuidMax: Uuid, n: nat)
    | ByInt(key: string, min: int, max: int, n: nat)
    | ByPage(orderBy: string, total: nat, n: nat)
    | Unpartitioned

  /** The number of partitions asked for, if it is positive and survives the cast to 32 bits. */
  function Count(p: Params): nat {
    if p.partitions.Some? && p.partitions.value > 0 then TruncateToU32(p.partitions.value) as nat else 0
  }

  /** The first strategy whose parameters are all present and whose interval is not empty. */
  function Choose(p: Params): Choice {
    var n := Count(p);
    if n == 0 then Unpartitioned
    else if && p.partitionKey.Some? && p.uuidMin.Some? && p.uuidMax.Some?
            && Rank(Lexical)(p.uuidMin.value) <= Rank(Lexical)(p.uuidMax.value) then
      ByUuid(p.partitionKey.value, p.uuidMin.value, p.uuidMax.value, n)
    else if p.partitionKey.Some? && p.min.Some? && p.max.Some? && p.min.value <= p.max.value then
      ByInt(p.partitionKey.value, p.min.value as int, p.max.value as int, n)
    else if p.orderBy.Some? && p.totalRows.Some? && p.totalRows.value > 0 then
      ByPage(p.orderBy.value, p.totalRows.value as nat, n)
    else Unpartitioned
  }

  function UuidParts(key: string, slices: seq<Predicate<Uuid>>): (parts: seq<Partition>)
    ensures |parts| == |slices|
  {
    seq(|slices|, i requires 0 <= i < |slices| => UuidPartition(key, slices[i]))
  }

  function IntParts(key: string, slices: seq<Predicate<int>>): (parts: seq<Partition>)
    ensures |parts| == |slices|
  {
    seq(|slices|, i requires 0 <= i < |slices| => IntPartition(key, slices[i]))
  }

  function PageParts(orderBy: string, pages: seq<Page>): (parts: seq<Partition>)
    ensures |parts| == |pages|
  {
    seq(|pages|, i requires 0 <= i < |pages| => PagePartition(orderBy, pages[i]))
  }

  function Plan(c: Choice): seq<Partition> {
    match c
    case ByUuid(key, min, max, n) => UuidParts(key, UuidSlices(min, max, n, Lexical))
    case ByInt(key, min, max, n) => IntParts(key, IntSlices(min, max, n))
    case ByPage(orderBy, total, n) => PageParts(orderBy, OffsetPages(total, n))
    case Unpartitioned => [Whole]
  }

  lemma NoEmptyUuidPlan(min: Uuid, max: Uuid, n: nat)
    ensures UuidSlices(min, max, n, Lexical) == [] <==> n == 0 || Rank(Lexical)(min) > Rank(Lexical)(max)
  {
    if n > 0 && Rank(Lexical)(min) <= Rank(Lexical)(max) {
      UuidRangeCountAndBalance(min, max, n, Lexical, Rank(Lexical)(max) - Rank(Lexical)(min));
    }
  }

  lemma NoEmptyIntPlan(min: int, max: int, n: nat)
    ensures IntSlices(min, max, n) == [] <==> n == 0 || min > max
  {
    if n > 0 && min <= max {
      IntRangeCountAndBalance(min, max, n);
    }
  }

  lemma NoEmptyPagePlan(total: nat, n: nat)
    ensures OffsetPages(total, n) == [] <==> n == 0 || total == 0
  {
    if n > 0 && total > 0 {
      WholePages(total, n);
      WholePages(total, PageSize(total, n));
    }
  }

  /** `build_partitions`: a strategy that yields no partitions falls through to the next. */
  method BuildPartitions(p: Params) returns (parts: seq<Partition>)
    ensures parts == Plan(Choose(p))
    ensures parts != []
  {
    if p.partitionKey.Some? && p.partitions.Some? && p.uuidMin.Some? && p.uuidMax.Some? {
      if p.partitions.value > 0 {
        var n := TruncateToU32(p.partitions.value);
        var slices := ByUuidRangeOrdered(p.uuidMin.value, p.uuidMax.value, n, Lexical);
        NoEmptyUuidPlan(p.uuidMin.value, p.uuidMax.value, n as nat);
        if |slices| > 0 {
          return UuidParts(p.partitionKey.value, slices);
        }
      }
    }
    if p.partitionKey.Some? && p.partitions.Some? && p.min.Some? && p.max.Some? {
      if p.partitions.value > 0 {
        var n := TruncateToU32(p.partitions.value);
        var slices := ByIntRange(p.min.value, p.max.value, n);
        NoEmptyIntPlan(p.min.value as int, p.max.value as int, n as nat);
        if |slices| > 0 {
          return IntParts(p.partitionKey.value, slices);
        }
      }
    }
    if p.orderBy.Some? && p.partitions.Some? && p.totalRows.Some? {
      if p.partitions.value > 0 && p.totalRows.value > 0 {
        var n := TruncateToU32(p.partitions.value);
        var pages := ByOffset(p.totalRows.value as uint64, n);
        NoEmptyPagePlan(p.totalRows.value as nat, n as nat);
        if n > 0 {
          SignedTotalsNeverOverflow(p.totalRows.value as nat, n as nat);
        }
        if |pages.value| > 0 {
          return PageParts(p.orderBy.value, pages.value);
        }
      }
    }
    return [Whole];
  }

  /** The pool size `bind` asks for. */
  function MaxConnections(parts: seq<Partition>): (limit: nat)
    ensures 1 <= limit <= 32
    ensures 1 <= |parts| <= 32 ==> limit == |parts|
    ensures |parts| > 32 ==> limit == 32
  {
    if |parts| < 1 then 1 else if |parts| > 32 then 32 else |parts|
  }

  // ----- Databases -----------------------------------------------------------------------------

  /** The result of the base query, its key expressions (`None` is NULL), and the one order each
      `ORDER BY` clause puts it in.  UUIDs compare byte by byte. */
  datatype Database<!R> = Database(
    rows: seq<R>,
    intKey: (string, R) -> Option<int>,
    uuidKey: (string, R) -> Option<Uuid>,
    ordered: string -> seq<R>)

  ghost predicate OrdersItsRows<R>(db: Database<R>) {
    forall o :: multiset(db.ordered(o)) == multiset(db.rows)
  }

  function IntKeyOf<R>(db: Database<R>, key: string): R -> Option<int> {
    r => db.intKey(key, r)
  }

  function UuidKeyOf<R>(db: Database<R>, key: string): R -> Option<int> {
    r => match db.uuidKey(key, r)
         case Some(u) => Some(Rank(Lexical)(u))
         case None => None
  }

  /** The rows one partition's statement returns. */
  function Answer<R>(db: Database<R>, part: Partition): seq<R> {
    match part
    case UuidPartition(key, p) => Selected(db.rows, UuidKeyOf(db, key), Rank(Lexical), p)
    case IntPartition(key, p) => Selected(db.rows, IntKeyOf(db, key), IntOrder, p)
    case PagePartition(orderBy, page) => PageOf(db.ordered(orderBy), page)
    case Whole => db.rows
  }

  function Answers<R>(db: Database<R>, parts: seq<Partition>): (answers: seq<seq<R>>)
    ensures |answers| == |parts|
  {
    seq(|parts|, i requires 0 <= i < |parts| => Answer(db, parts[i]))
  }

  /** What a chosen strategy assumes of the data. */
  ghost predicate TruthfulChoice<R>(db: Database<R>, c: Choice) {
    match c
    case ByUuid(key, min, max, _) =>
      forall r :: r in db.rows ==> InBounds(UuidKeyOf(db, key), Rank(Lexical)(min), Rank(Lexical)(max))(r)
    case ByInt(key, min, max, _) =>
      forall r :: r in db.rows ==> InBounds(IntKeyOf(db, key), min, max)(r)
    case ByPage(_, total, _) => |db.rows| <= total
    case Unpartitioned => true
  }

  lemma UuidPlanLosslessIff<R>(db: Database<R>, key: string, min: Uuid, max: Uuid, n: nat)
    requires n > 0 && Rank(Lexical)(min) <= Rank(Lexical)(max)
    ensures multiset(Flatten(Answers(db, UuidParts(key, UuidSlices(min, max, n, Lexical))))) == multiset(db.rows)
            <==> TruthfulChoice(db, ByUuid(key, min, max, n))
  {
    var slices, lo, hi := UuidSlices(min, max, n, Lexical), Rank(Lexical)(min), Rank(Lexical)(max);
    assert Answers(db, UuidParts(key, slices)) == SelectedByEach(db.rows, UuidKeyOf(db, key), Rank(Lexical), slices);
    UuidRangeTiles(min, max, n, Lexical);
    ExactSlicesFilter(db.rows, UuidKeyOf(db, key), Rank(Lexical), slices, lo, hi);
    LosslessIff(db.rows, InBounds(UuidKeyOf(db, key), lo, hi));
  }

  lemma IntPlanLosslessIff<R>(db: Database<R>, key: string, min: int, max: int, n: nat)
    requires n > 0
    ensures multiset(Flatten(Answers(db, IntParts(key, IntSlices(min, max, n))))) == multiset(db.rows)
            <==> TruthfulChoice(db, ByInt(key, min, max, n))
  {
    var slices := IntSlices(min, max, n);
    assert Answers(db, IntParts(key, slices)) == SelectedByEach(db.rows, IntKeyOf(db, key), IntOrder, slices);
    IntRangeFilters(db.rows, IntKeyOf(db, key), min, max, n);
    LosslessIff(db.rows, InBounds(IntKeyOf(db, key), min, max));
  }

  lemma PagePlanLosslessIff<R>(db: Database<R>, orderBy: string, total: nat, n: nat)
    requires n > 0 && OrdersItsRows(db)
    ensures multiset(Flatten(Answers(db, PageParts(orderBy, OffsetPages(total, n))))) == multiset(db.rows)
            <==> TruthfulChoice(db, ByPage(orderBy, total, n))
  {
    var pages, ordered := OffsetPages(total, n), db.ordered(orderBy);
    assert Answers(db, PageParts(orderBy, pages)) == PagesOf(ordered, pages);
    OffsetPagesArePrefix(ordered, total, n);
    assert |ordered| == |multiset(ordered)| == |multiset(db.rows)| == |db.rows|;
    if total < |ordered| {
      assert |multiset(ordered[..total])| == total;
    } else {
      assert ordered[..|ordered|] == ordered;
    }
  }

  lemma WholePlanLossless<R>(db: Database<R>)
    ensures Flatten(Answers(db, [Whole])) == db.rows
  {
    var answers := Answers(db, [Whole]);
    assert answers == [db.rows] && answers[..0] == [];
  }

  // ----- In terms of the parameters alone ------------------------------------------------------

  lemma CountIs(p: Params)
    ensures Count(p) == if p.partitions.Some? && p.partitions.value > 0
                        then p.partitions.value as int % 0x1_0000_0000 else 0
  {
  }

  lemma FlattenedCount<R>(db: Database<R>, parts: seq<Partition>, r: R, kept: bool, p: R -> bool)
    requires multiset(Flatten(Answers(db, parts))) == multiset(Where(db.rows, p)) && kept == p(r)
    ensures multiset(Flatten(Answers(db, parts)))[r] == if kept then multiset(db.rows)[r] else 0
  {
    WhereCount(db.rows, p, r);
  }

  lemma UuidPlanFilters<R>(db: Database<R>, key: string, min: Uuid, max: Uuid, n: nat, r: R)
    requires n > 0 && Rank(Lexical)(min) <= Rank(Lexical)(max)
    ensures multiset(Flatten(Answers(db, UuidParts(key, UuidSlices(min, max, n, Lexical)))))[r]
            == if db.uuidKey(key, r).Some? && !LexLess(db.uuidKey(key, r).value, min)
                  && !LexLess(max, db.uuidKey(key, r).value)
               then multiset(db.rows)[r] else 0
  {
    var slices, lo, hi := UuidSlices(min, max, n, Lexical), Rank(Lexical)(min), Rank(Lexical)(max);
    assert Answers(db, UuidParts(key, slices)) == SelectedByEach(db.rows, UuidKeyOf(db, key), Rank(Lexical), slices);
    UuidRangeTiles(min, max, n, Lexical);
    ExactSlicesFilter(db.rows, UuidKeyOf(db, key), Rank(Lexical), slices, lo, hi);
    if db.uuidKey(key, r).Some? {
      KeysOrderAsBackend(db.uuidKey(key, r).value, min, Lexical);
      KeysOrderAsBackend(max, db.uuidKey(key, r).value, Lexical);
    }
    FlattenedCount(db, UuidParts(key, slices), r,
                   db.uuidKey(key, r).Some? && !LexLess(db.uuidKey(key, r).value, min)
                   && !LexLess(max, db.uuidKey(key, r).value),
                   InBounds(UuidKeyOf(db, key), lo, hi));
  }

  lemma IntPlanFilters<R>(db: Database<R>, key: string, min: int, max: int, n: nat, r: R)
    requires n > 0
    ensures multiset(Flatten(Answers(db, IntParts(key, IntSlices(min, max, n)))))[r]
            == if db.intKey(key, r).Some? && min <= db.intKey(key, r).value <= max then multiset(db.rows)[r] else 0
  {
    var slices := IntSlices(min, max, n);
    assert Answers(db, IntParts(key, slices)) == SelectedByEach(db.rows, IntKeyOf(db, key), IntOrder, slices);
    IntRangeFilters(db.rows, IntKeyOf(db, key), min, max, n);
    FlattenedCount(db, IntParts(key, slices), r,
                   db.intKey(key, r).Some? && min <= db.intKey(key, r).value <= max,
                   InBounds(IntKeyOf(db, key), min, max));
  }

  lemma PagePlanReturns<R>(db: Database<R>, orderBy: string, total: nat, n: nat)
    requires n > 0
    ensures var ordered := db.ordered(orderBy);
            Flatten(Answers(db, PageParts(orderBy, OffsetPages(total, n))))
            == if total < |ordered| then ordered[..total] else ordered
  {
    var pages, ordered := OffsetPages(total, n), db.ordered(orderBy);
    assert Answers(db, PageParts(orderBy, pages)) == PagesOf(ordered, pages);
    OffsetPagesArePrefix(ordered, total, n);
    assert ordered[..|ordered|] == ordered;
  }

  /** Which strategy the parameters select, and what its statements return together from any database.
      With a positive count in the low 32 bits: a UUID interval that is not empty returns the rows whose key
      is neither below nor above it; else an integer interval that is not empty returns the rows whose key
      is in it; else a positive total returns that many rows of the ordered result; and in all other cases
      the rows of the plain query come back. */
  lemma PlannedAnswers<R>(db: Database<R>, p: Params)
    ensures var n := if p.partitions.Some? && p.partitions.value > 0
                     then p.partitions.value as int % 0x1_0000_0000 else 0;
            var byUuid := && n > 0 && p.partitionKey.Some? && p.uuidMin.Some? && p.uuidMax.Some?
                          && !LexLess(p.uuidMax.value, p.uuidMin.value);
            var byInt := && n > 0 && p.partitionKey.Some? && p.min.Some? && p.max.Some?
                         && p.min.value <= p.max.value;
            var byPage := n > 0 && p.orderBy.Some? && p.totalRows.Some? && p.totalRows.value > 0;
            var got := Flatten(Answers(db, Plan(Choose(p))));
            && (byUuid ==>
                  forall r ::
                    var k := db.uuidKey(p.partitionKey.value, r);
                    multiset(got)[r]
                    == if k.Some? && !LexLess(k.value, p.uuidMin.value) && !LexLess(p.uuidMax.value, k.value)
                       then multiset(db.rows)[r] else 0)
            && (!byUuid && byInt ==>
                  forall r ::
                    var k := db.intKey(p.partitionKey.value, r);
                    multiset(got)[r]
                    == if k.Some? && p.min.value as int <= k.value <= p.max.value as int
                       then multiset(db.rows)[r] else 0)
            && (!byUuid && !byInt && byPage ==>
                  var ordered, total := db.ordered(p.orderBy.value), p.totalRows.value as int;
                  got == if total < |ordered| then ordered[..total] else ordered)
            && (!byUuid && !byInt && !byPage ==> got == db.rows)
  {
    CountIs(p);
    if p.uuidMin.Some? && p.uuidMax.Some? {
      KeysOrderAsBackend(p.uuidMax.value, p.uuidMin.value, Lexical);
    }
    match Choose(p)
    case ByUuid(key, min, max, n) =>
      forall r
        ensures var k := db.uuidKey(key, r);
                multiset(Flatten(Answers(db, Plan(Choose(p)))))[r]
                == if k.Some? && !LexLess(k.value, min) && !LexLess(max, k.value) then multiset(db.rows)[r] else 0
      {
        UuidPlanFilters(db, key, min, max, n, r);
      }
    case ByInt(key, min, max, n) =>
      forall r
        ensures var k := db.intKey(key, r);
                multiset(Flatten(Answers(db, Plan(Choose(p)))))[r]
                == if k.Some? && min <= k.value <= max then multiset(db.rows)[r] else 0
      {
        IntPlanFilters(db, key, min, max, n, r);
      }
    case ByPage(orderBy, total, n) => PagePlanReturns(db, orderBy, total, n);
    case Unpartitioned => WholePlanLossless(db);
  }

  /** What the statements look like: all of the selected strategy's kind, on its key or order, and as many
      as the count and the interval allow. */
  lemma PlanShape(p: Params)
    ensures var n := if p.partitions.Some? && p.partitions.value > 0
                     then p.partitions.value as int % 0x1_0000_0000 else 0;
            var byUuid := && n > 0 && p.partitionKey.Some? && p.uuidMin.Some? && p.uuidMax.Some?
                          && !LexLess(p.uuidMax.value, p.uuidMin.value);
            var byInt := && n > 0 && p.partitionKey.Some? && p.min.Some? && p.max.Some?
                         && p.min.value <= p.max.value;
            var byPage := n > 0 && p.orderBy.Some? && p.totalRows.Some? && p.totalRows.value > 0;
            var parts := Plan(Choose(p));
            && (byUuid ==>
                  && (var span := UuidToKey(p.uuidMax.value, Lexical) - UuidToKey(p.uuidMin.value, Lexical);
                      |parts| == if span == 0 then 1 else if span < n then span else n)
                  && forall part :: part in parts ==> part.UuidPartition? && part.key == p.partitionKey.value)
            && (!byUuid && byInt ==>
                  && (var width := p.max.value as int - p.min.value as int + 1;
                      |parts| == if width < n then width else n)
                  && forall part :: part in parts ==> part.IntPartition? && part.key == p.partitionKey.value)
            && (!byUuid && !byInt && byPage ==>
                  && |parts| == |OffsetPages(p.totalRows.value as int, n)|
                  && forall part :: part in parts ==> part.PagePartition? && part.orderBy == p.orderBy.value)
            && (!byUuid && !byInt && !byPage ==> parts == [Whole])
  {
    CountIs(p);
    if p.uuidMin.Some? && p.uuidMax.Some? {
      KeysOrderAsBackend(p.uuidMax.value, p.uuidMin.value, Lexical);
    }
    match Choose(p)
    case ByUuid(key, min, max, n) =>
      UuidRangeCountAndBalance(min, max, n, Lexical, Rank(Lexical)(max) - Rank(Lexical)(min));
    case ByInt(key, min, max, n) => IntRangeCountAndBalance(min, max, n);
    case ByPage(orderBy, total, n) =>
    case Unpartitioned =>
  }

  /** The parameters tell the truth about the data: every key is present and within the interval given, or
      the row count is not understated. */
  ghost predicate Truthful<R>(db: Database<R>, p: Params) {
    var n := if p.partitions.Some? && p.partitions.value > 0 then p.partitions.value as int % 0x1_0000_0000 else 0;
    if && n > 0 && p.partitionKey.Some? && p.uuidMin.Some? && p.uuidMax.Some?
       && !LexLess(p.uuidMax.value, p.uuidMin.value)
    then
      forall r :: r in db.rows ==>
        var k := db.uuidKey(p.partitionKey.value, r);
        k.Some? && !LexLess(k.value, p.uuidMin.value) && !LexLess(p.uuidMax.value, k.value)
    else if n > 0 && p.partitionKey.Some? && p.min.Some? && p.max.Some? && p.min.value <= p.max.value then
      forall r :: r in db.rows ==>
        var k := db.intKey(p.partitionKey.value, r);
        k.Some? && p.min.value as int <= k.value <= p.max.value as int
    else if n > 0 && p.orderBy.Some? && p.totalRows.Some? && p.totalRows.value > 0 then
      |db.rows| <= p.totalRows.value as int
    else true
  }

  lemma UuidTruth<R>(db: Database<R>, key: string, min: Uuid, max: Uuid, r: R)
    ensures InBounds(UuidKeyOf(db, key), Rank(Lexical)(min), Rank(Lexical)(max))(r)
            <==> var k := db.uuidKey(key, r); k.Some? && !LexLess(k.value, min) && !LexLess(max, k.value)
  {
    if db.uuidKey(key, r).Some? {
      KeysOrderAsBackend(db.uuidKey(key, r).value, min, Lexical);
      KeysOrderAsBackend(max, db.uuidKey(key, r).value, Lexical);
    }
  }

  lemma TruthOfChoice<R>(db: Database<R>, p: Params)
    ensures Truthful(db, p) <==> TruthfulChoice(db, Choose(p))
  {
    CountIs(p);
    if p.uuidMin.Some? && p.uuidMax.Some? {
      KeysOrderAsBackend(p.uuidMax.value, p.uuidMin.value, Lexical);
    }
    match Choose(p)
    case ByUuid(key, min, max, n) =>
      forall r | r in db.rows
        ensures InBounds(UuidKeyOf(db, key), Rank(Lexical)(min), Rank(Lexical)(max))(r)
                <==> var k := db.uuidKey(key, r); k.Some? && !LexLess(k.value, min) && !LexLess(max, k.value)
      {
        UuidTruth(db, key, min, max, r);
      }
    case _ =>
  }

  /** For every combination of parameters: the partitions together return exactly the rows of the plain
      query if and only if the parameters are truthful. */
  lemma PlanLosslessIff<R>(db: Database<R>, p: Params)
    requires OrdersItsRows(db)
    ensures multiset(Flatten(Answers(db, Plan(Choose(p))))) == multiset(db.rows) <==> Truthful(db, p)
  {
    TruthOfChoice(db, p);
    match Choose(p)
    case ByUuid(key, min, max, n) => UuidPlanLosslessIff(db, key, min, max, n);
    case ByInt(key, min, max, n) => IntPlanLosslessIff(db, key, min, max, n);
    case ByPage(orderBy, total, n) => PagePlanLosslessIff(db, orderBy, total, n);
    case Unpartitioned => WholePlanLossless(db);
  }
}
