/** Splitting a query over a DATE, DATETIME or TIMESTAMP key column.  A date is a day number and an
    instant a count of nanoseconds; literals are what the format strings keep of them. */
module TimeRange {
  import opened MachineInts
  import opened FloorDiv
  import opened Wrappers
  import opened Slices

  const NANOS_PER_MICRO: nat := 1000
  const NANOS_PER_SEC: nat := 1_000_000_000

  /** chrono's calendar spans less than this many seconds on either side of the epoch. */
  const INSTANT_LIMIT: int := 9_000_000_000_000 * 1_000_000_000

  type Instant = t: int | -INSTANT_LIMIT < t < INSTANT_LIMIT
  type Day = d: int | -0x8000_0000 <= d < 0x8000_0000

  datatype Literal =
    | DateLiteral(day: int)       // YYYY-MM-DD
    | DateTimeLiteral(us: int)    // YYYY-MM-DD HH:MM:SS.ffffff
    | TimestampLiteral(us: int)   // the same with +00:00

  /** What a literal compares as: a day number on a DATE column, nanoseconds elsewhere. */
  function LiteralRank(l: Literal): int {
    match l
    case DateLiteral(day) => day
    case DateTimeLiteral(us) => us * NANOS_PER_MICRO
    case TimestampLiteral(us) => us * NANOS_PER_MICRO
  }

  /** The format strings print six fractional digits and drop the rest. */
  function FormatInstant(t: int, zoned: bool): Literal {
    if zoned then TimestampLiteral(t / NANOS_PER_MICRO) else DateTimeLiteral(t / NANOS_PER_MICRO)
  }

  /** `Duration::num_microseconds`, which is `None` when the count leaves 64 bits. */
  function NumMicroseconds(span: nat): Option<int64> {
    var us := span / NANOS_PER_MICRO;
    if us < 0x8000_0000_0000_0000 then Some(us as int64) else None
  }

  /** The precision boundaries are interpolated at, in nanoseconds. */
  function Unit(span: nat): nat {
    if NumMicroseconds(span).Some? then NANOS_PER_MICRO else NANOS_PER_SEC
  }

  /** The span in those units, rounded down, and whether rounding was needed. */
  function Units(span: nat): nat {
    if NumMicroseconds(span).Some? then span / NANOS_PER_MICRO else span / NANOS_PER_SEC
  }

  predicate WholeUnits(span: nat) {
    if NumMicroseconds(span).Some? then span % NANOS_PER_MICRO == 0 else span % NANOS_PER_SEC == 0
  }

  /** How far the `i`-th of `n` boundaries lies from the first. */
  function Offset(span: nat, i: nat, n: nat): (offset: nat)
    requires n > 0
  {
    Times(Unit(span), Cut(Units(span), i, n))
  }

  lemma UnitProduct(span: nat, c: nat)
    ensures Times(Unit(span), c) == if NumMicroseconds(span).Some? then 1000 * c else 1_000_000_000 * c
    ensures c <= Units(span) ==> Times(Unit(span), c) <= span
    ensures Times(Unit(span), Units(span)) == span <==> WholeUnits(span)
  {
    TimesIsProduct(Unit(span), c);
    TimesIsProduct(Unit(span), Units(span));
  }

  /** `split_duration`: every cast to 64 bits is in range, and so is the sum with the lower bound. */
  method SplitDuration(span: nat, i: uint32, n: uint32) returns (offset: nat)
    requires span < 2 * INSTANT_LIMIT && i <= n && n != 0
    ensures offset == Offset(span, i as nat, n as nat) <= span
    ensures offset == if span < 0x8000_0000_0000_0000 * 1000
                      then 1000 * ((span / 1000 * i as nat) / n as nat)
                      else 1_000_000_000 * ((span / 1_000_000_000 * i as nat) / n as nat)
  {
    var micros := NumMicroseconds(span);
    if micros.Some? {
      var cut := ComputeCut(micros.value as uint128, i, n);
      var part := cut as int64;
      UnitProduct(span, part as nat);
      CutIsFloor(span / NANOS_PER_MICRO, i as nat, n as nat);
      offset := part as int * NANOS_PER_MICRO;
    } else {
      var seconds := (span / NANOS_PER_SEC) as int64;
      var cut := ComputeCut(seconds as uint128, i, n);
      var part := cut as int64;
      UnitProduct(span, part as nat);
      CutIsFloor(span / NANOS_PER_SEC, i as nat, n as nat);
      offset := part as int * NANOS_PER_SEC;
    }
  }

  /** `time_partitions`. */
  method TimePartitions(bounds: seq<Literal>) returns (out: seq<Predicate<Literal>>)
    ensures out == Tiles(bounds)
  {
    var n := if |bounds| > 0 then |bounds| - 1 else 0;  // saturating_sub
    out := [];
    for i := 0 to n
      invariant n > 0 ==> out == TilesUpTo(bounds, i)
      invariant n == 0 ==> out == []
    {
      var lo, hi := bounds[i], bounds[i + 1];
      var last := i + 1 == n;
      if !last && lo == hi {
        continue;
      }
      out := out + [if last then GeLe(lo, hi) else GeLt(lo, hi)];
    }
  }

  // ----- Dates ---------------------------------------------------------------------------------

  function DateBounds(min: Day, max: Day, n: nat): (bounds: seq<Literal>)
    requires n > 0 && min <= max
    ensures |bounds| == n + 1
  {
    seq(n + 1, i requires 0 <= i <= n => DateLiteral(min + Cut(max - min, i, n)))
  }

  function DateSlices(min: Day, max: Day, n: nat): seq<Predicate<Literal>> {
    if n == 0 || min > max then [] else Tiles(DateBounds(min, max, n))
  }

  /** `by_date_range`. */
  method ByDateRange(min: Day, max: Day, partitions: uint32) returns (out: seq<Predicate<Literal>>)
    ensures out == DateSlices(min, max, partitions as nat)
  {
    if partitions == 0 || min > max {
      return [];
    }
    var bounds: seq<Literal> := [];
    for i := 0 to partitions as int + 1
      invariant |bounds| == i
      invariant bounds == DateBounds(min, max, partitions as nat)[..i]
    {
      var cut := ComputeCut((max - min) as uint128, i as uint32, partitions);
      bounds := bounds + [DateLiteral(min + cut as int64 as int)];
    }
    assert bounds == DateBounds(min, max, partitions as nat);
    out := TimePartitions(bounds);
  }

  lemma DateBoundsSpaced(min: Day, max: Day, n: nat)
    requires n > 0 && min <= max
    ensures EvenlySpaced(DateBounds(min, max, n), LiteralRank, min, 1, max - min, n)
  {
    forall k | 0 <= k <= n
      ensures LiteralRank(DateBounds(min, max, n)[k]) == min + Times(1, Cut(max - min, k, n))
    {
      TimesOne(Cut(max - min, k, n));
    }
  }

  /** Every day in `[min, max]` falls in exactly one partition, and no other day in any. */
  lemma DateRangeTiles(min: Day, max: Day, n: nat)
    requires n > 0 && min <= max
    ensures SelectsExactly(DateSlices(min, max, n), LiteralRank, min, max)
  {
    DateBoundsSpaced(min, max, n);
    EvenAscending(DateBounds(min, max, n), LiteralRank, min, 1, max - min, n);
    TimesOne(max - min);
    AscendingTile(DateBounds(min, max, n), LiteralRank, min, max);
  }

  // ----- Instants ------------------------------------------------------------------------------

  function InstantBounds(min: Instant, max: Instant, n: nat, zoned: bool): (bounds: seq<Literal>)
    requires n > 0 && min <= max
    ensures |bounds| == n + 1
  {
    seq(n + 1, i requires 0 <= i <= n => FormatInstant(min + Offset(max - min, i, n), zoned))
  }

  function InstantSlices(min: Instant, max: Instant, n: nat, zoned: bool): seq<Predicate<Literal>> {
    if n == 0 || min > max then [] else Tiles(InstantBounds(min, max, n, zoned))
  }

  /** `by_datetime_range`, and with `zoned` `by_timestamp_range`. */
  method ByInstantRange(min: Instant, max: Instant, partitions: uint32, zoned: bool)
    returns (out: seq<Predicate<Literal>>)
    ensures out == InstantSlices(min, max, partitions as nat, zoned)
  {
    if partitions == 0 || min > max {
      return [];
    }
    var bounds: seq<Literal> := [];
    for i := 0 to partitions as int + 1
      invariant |bounds| == i
      invariant bounds == InstantBounds(min, max, partitions as nat, zoned)[..i]
    {
      var offset := SplitDuration(max - min, i as uint32, partitions);
      bounds := bounds + [FormatInstant(min + offset, zoned)];
    }
    assert bounds == InstantBounds(min, max, partitions as nat, zoned);
    out := TimePartitions(bounds);
  }

  /** The lowest literal, as an instant: the lower bound with its sub-microsecond part dropped. */
  function Floor(t: int): int {
    t / NANOS_PER_MICRO * NANOS_PER_MICRO
  }

  lemma FloorOfSum(t: int, offset: int, us: int)
    requires offset == 1000 * us
    ensures (t + offset) / 1000 == t / 1000 + us
  {
  }

  lemma LiteralOfBoundary(t: int, span: nat, c: nat, zoned: bool)
    ensures LiteralRank(FormatInstant(t + Times(Unit(span), c), zoned)) == Floor(t) + Times(Unit(span), c)
  {
    UnitProduct(span, c);
    FloorOfSum(t, Times(Unit(span), c), if NumMicroseconds(span).Some? then c else 1_000_000 * c);
  }

  lemma InstantBoundsSpaced(min: Instant, max: Instant, n: nat, zoned: bool)
    requires n > 0 && min <= max
    ensures EvenlySpaced(InstantBounds(min, max, n, zoned), LiteralRank,
                         Floor(min), Unit(max - min), Units(max - min), n)
  {
    var bounds := InstantBounds(min, max, n, zoned);
    forall k | 0 <= k <= n
      ensures LiteralRank(bounds[k]) == Floor(min) + Times(Unit(max - min), Cut(Units(max - min), k, n))
    {
      LiteralOfBoundary(min, max - min, Cut(Units(max - min), k, n), zoned);
    }
    forall j, k | 0 <= j <= n && 0 <= k <= n && LiteralRank(bounds[j]) == LiteralRank(bounds[k])
      ensures bounds[j] == bounds[k]
    {
      RankDeterminesLiteral(min + Offset(max - min, j, n), min + Offset(max - min, k, n), zoned);
    }
  }

  lemma RankDeterminesLiteral(s: int, t: int, zoned: bool)
    requires LiteralRank(FormatInstant(s, zoned)) == LiteralRank(FormatInstant(t, zoned))
    ensures FormatInstant(s, zoned) == FormatInstant(t, zoned)
  {
  }

  /** The last instant covered: the span rounded down to the interpolation unit, from the lower bound
      rounded down to a microsecond. */
  function LastCovered(min: int, max: int): int
    requires min <= max
  {
    Floor(min) + Times(Unit(max - min), Units(max - min))
  }

  /** The instants actually covered, each exactly once. */
  lemma InstantRangeCovers(min: Instant, max: Instant, n: nat, zoned: bool)
    requires n > 0 && min <= max
    ensures SelectsExactly(InstantSlices(min, max, n, zoned), LiteralRank, Floor(min), LastCovered(min, max))
    ensures Floor(min) == min / 1000 * 1000
    ensures LastCovered(min, max)
            == Floor(min) + if max - min < 0x8000_0000_0000_0000 * 1000 then (max - min) / 1000 * 1000
                            else (max - min) / 1_000_000_000 * 1_000_000_000
  {
    UnitProduct(max - min, Units(max - min));
    var bounds := InstantBounds(min, max, n, zoned);
    InstantBoundsSpaced(min, max, n, zoned);
    EvenAscending(bounds, LiteralRank, Floor(min), Unit(max - min), Units(max - min), n);
    AscendingTile(bounds, LiteralRank, Floor(min), LastCovered(min, max));
  }

  /** The partitions cover `[min, max]` exactly once, to the nanosecond, precisely when the lower bound and
      the span are whole microseconds, or, if the span is 2^63 microseconds or more, the span is whole
      seconds. */
  lemma InstantRangeExactIff(min: Instant, max: Instant, n: nat, zoned: bool)
    requires n > 0 && min <= max
    ensures SelectsExactly(InstantSlices(min, max, n, zoned), LiteralRank, min, max)
            <==> && min % 1000 == 0
                 && (max - min) % (if max - min < 0x8000_0000_0000_0000 * 1000 then 1000 else 1_000_000_000) == 0
  {
    var slices, lo, hi := InstantSlices(min, max, n, zoned), Floor(min), LastCovered(min, max);
    InstantRangeCovers(min, max, n, zoned);
    UnitProduct(max - min, Units(max - min));
    if SelectsExactly(slices, LiteralRank, min, max) {
      assert Hits(slices, LiteralRank, lo) == Indicator(min <= lo <= max) == Indicator(lo <= lo <= hi);
      assert Hits(slices, LiteralRank, max) == Indicator(min <= max <= max) == Indicator(lo <= max <= hi);
    }
  }

  const EARLY: Instant := -5_000_000_000_000 * 1_000_000_000
  const LATE: Instant := 5_000_000_000_000 * 1_000_000_000 + 500_000_000

  /** An upper bound a nanosecond past a microsecond, which no partition selects. */
  lemma NanosecondMissed(n: nat, zoned: bool)
    requires n > 0
    ensures Hits(InstantSlices(0, 1, n, zoned), LiteralRank, 1) == 0
  {
    InstantRangeCovers(0, 1, n, zoned);
    UnitProduct(1, Units(1));
  }

  /** In the fallback to seconds, one half a second past a second. */
  lemma HalfSecondMissed(n: nat, zoned: bool)
    requires n > 0
    ensures Hits(InstantSlices(EARLY, LATE, n, zoned), LiteralRank, LATE) == 0
  {
    InstantRangeCovers(EARLY, LATE, n, zoned);
    UnitProduct(LATE - EARLY, Units(LATE - EARLY));
  }

  lemma FloorIsGreatest(t: int, us: int)
    ensures us * NANOS_PER_MICRO <= t <==> us * NANOS_PER_MICRO <= Floor(t)
    ensures Floor(t) <= t
  {
  }

  lemma LastCoveredFloor(min: int, max: int)
    requires Floor(min) == min <= max
    ensures LastCovered(min, max) <= Floor(max)
    ensures LastCovered(min, max) == Floor(max)
            <==> NumMicroseconds(max - min).Some? || (max - min) / NANOS_PER_MICRO % 1_000_000 == 0
  {
    UnitProduct(max - min, Units(max - min));
    assert Floor(max) == min + Floor(max - min);
    DivUnique(max - min, 1_000_000_000, (max - min) / 1000 / 1_000_000);
  }

  ghost predicate SelectsEachMicrosecondOnce(ps: seq<Predicate<Literal>>, min: int, max: int) {
    forall us: int :: Hits(ps, LiteralRank, us * 1000) == Indicator(min <= us * 1000 <= max)
  }

  /** On a column that stores whole microseconds the upper bound need not be aligned, unless the span
      is too long for 64-bit microseconds. */
  lemma MicrosecondColumnExactIff(min: Instant, max: Instant, n: nat, zoned: bool)
    requires n > 0 && min <= max
    ensures SelectsEachMicrosecondOnce(InstantSlices(min, max, n, zoned), min, max)
            <==> && min % 1000 == 0
                 && (max - min < 0x8000_0000_0000_0000 * 1000 || (max - min) / 1000 % 1_000_000 == 0)
  {
    var slices, lo, hi := InstantSlices(min, max, n, zoned), Floor(min), LastCovered(min, max);
    InstantRangeCovers(min, max, n, zoned);
    if SelectsEachMicrosecondOnce(slices, min, max) {
      assert Hits(slices, LiteralRank, min / 1000 * 1000) == Indicator(lo <= lo <= hi) == 1;
      assert Hits(slices, LiteralRank, max / 1000 * 1000) == Indicator(lo <= Floor(max) <= hi);
      FloorIsGreatest(min, 0);
      FloorIsGreatest(max, min / 1000);
      assert min <= lo;
      LastCoveredFloor(min, max);
    } else if min % NANOS_PER_MICRO == 0 {
      LastCoveredFloor(min, max);
      var us: int :| Hits(slices, LiteralRank, us * 1000) != Indicator(min <= us * 1000 <= max);
      FloorIsGreatest(max, us);
    }
  }

  /** Exactly `max(1, min(n, days))` partitions, the closing one last. */
  lemma DateRangeCount(min: Day, max: Day, n: nat)
    requires n > 0 && min <= max
    ensures var slices, span := DateSlices(min, max, n), max - min;
            && |slices| == (if span == 0 then 1 else if span < n then span else n)
            && slices[|slices| - 1].GeLe?
  {
    DateBoundsSpaced(min, max, n);
    EvenCountAndBalance(DateBounds(min, max, n), LiteralRank, min, 1, max - min, n);
  }

  /** Day boundaries are balanced, and two of their literals are equal just when the slice between them is
      empty. */
  lemma DateBoundsBalanced(min: Day, max: Day, n: nat)
    requires n > 0 && min <= max
    ensures Balanced(DateBounds(min, max, n), LiteralRank, 1, max - min, n)
    ensures SkipsOnlyEmpty(DateBounds(min, max, n), max - min, n)
  {
    DateBoundsSpaced(min, max, n);
    EvenlyBalanced(DateBounds(min, max, n), LiteralRank, min, 1, max - min, n);
    EvenSkipsOnlyEmpty(DateBounds(min, max, n), LiteralRank, min, 1, max - min, n);
  }

  /** Exactly `max(1, min(n, units))` partitions with balanced boundaries; two boundary literals are equal
      just when the slice between them is empty. */
  lemma InstantRangeCountAndBalance(min: Instant, max: Instant, n: nat, zoned: bool)
    requires n > 0 && min <= max
    ensures Units(max - min) == (max - min) / if max - min < 0x8000_0000_0000_0000 * 1000 then 1000 else 1_000_000_000
    ensures var slices, span := InstantSlices(min, max, n, zoned), Units(max - min);
            && |slices| == (if span == 0 then 1 else if span < n then span else n)
            && slices[|slices| - 1].GeLe?
    ensures SkipsOnlyEmpty(InstantBounds(min, max, n, zoned), Units(max - min), n)
    ensures Balanced(InstantBounds(min, max, n, zoned), LiteralRank, Unit(max - min), Units(max - min), n)
  {
    InstantBoundsSpaced(min, max, n, zoned);
    EvenCountAndBalance(InstantBounds(min, max, n, zoned), LiteralRank, Floor(min),
                        Unit(max - min), Units(max - min), n);
  }

  // ----- The literals themselves ---------------------------------------------------------------

  lemma {:induction false} TilesUseBounds<L>(bounds: seq<L>, i: nat)
    requires i < |bounds|
    ensures forall p :: p in TilesUpTo(bounds, i) ==> p.lo in bounds && p.hi in bounds && !p.Between?
  {
    if i > 0 {
      TilesUseBounds(bounds, i - 1);
    }
  }

  predicate ForColumn(l: Literal, zoned: bool) {
    if zoned then l.TimestampLiteral? else l.DateTimeLiteral?
  }

  /** The first boundary literal is `min`, and the last is the end of what is covered, which is `max` for
      aligned bounds. */
  lemma InstantEnds(min: Instant, max: Instant, n: nat, zoned: bool)
    requires n > 0 && min <= max
    ensures var bounds, last := InstantBounds(min, max, n, zoned), LastCovered(min, max);
            && bounds[0] == (if zoned then TimestampLiteral(min / 1000) else DateTimeLiteral(min / 1000))
            && bounds[n] == (if zoned then TimestampLiteral(last / 1000) else DateTimeLiteral(last / 1000))
  {
    var span := max - min;
    CutEnds(Units(span), n);
    LiteralOfBoundary(min, span, 0, zoned);
    LiteralOfBoundary(min, span, Units(span), zoned);
  }

  /** Every predicate is half-open or closed, as `time_partitions` writes it, between literals of the
      column's own kind. */
  lemma InstantLiterals(min: Instant, max: Instant, n: nat, zoned: bool)
    requires n > 0 && min <= max
    ensures forall p :: p in InstantSlices(min, max, n, zoned) ==>
      !p.Between? && ForColumn(p.lo, zoned) && ForColumn(p.hi, zoned)
  {
    var bounds := InstantBounds(min, max, n, zoned);
    assert forall i :: 0 <= i <= n ==> ForColumn(bounds[i], zoned);
    TilesUseBounds(bounds, n);
  }

  lemma DateLiterals(min: Day, max: Day, n: nat)
    requires n > 0 && min <= max
    ensures var bounds, slices := DateBounds(min, max, n), DateSlices(min, max, n);
            && bounds[0] == DateLiteral(min) && bounds[n] == DateLiteral(max)
            && slices[|slices| - 1] == GeLe(bounds[n - 1], bounds[n])
            && forall p :: p in slices ==> !p.Between? && p.lo.DateLiteral? && p.hi.DateLiteral?
  {
    var bounds := DateBounds(min, max, n);
    DateBoundsSpaced(min, max, n);
    EvenCountAndBalance(bounds, LiteralRank, min, 1, max - min, n);
    CutEnds(max - min, n);
    TilesUseBounds(bounds, n);
  }

  /** Boundary `k` is `k/n` of the way along, in whole microseconds, or in whole seconds if the span is 2^63
      microseconds or more; and the partitions run in order through the boundaries. */
  lemma InstantSlicesRun(min: Instant, max: Instant, n: nat, zoned: bool, k: nat)
    requires n > 0 && min <= max && k <= n
    ensures var span := max - min;
            var at := min + if span < 0x8000_0000_0000_0000 * 1000 then 1000 * ((span / 1000 * k) / n)
                            else 1_000_000_000 * ((span / 1_000_000_000 * k) / n);
            InstantBounds(min, max, n, zoned)[k]
            == if zoned then TimestampLiteral(at / 1000) else DateTimeLiteral(at / 1000)
    ensures Chained(InstantSlices(min, max, n, zoned))
  {
    var span := max - min;
    CutIsFloor(Units(span), k, n);
    UnitProduct(span, Cut(Units(span), k, n));
    TilesRun(InstantBounds(min, max, n, zoned));
  }

  lemma DateSlicesRun(min: Day, max: Day, n: nat, k: nat)
    requires n > 0 && min <= max && k <= n
    ensures DateBounds(min, max, n)[k] == DateLiteral(min + (max - min) * k / n)
    ensures Chained(DateSlices(min, max, n))
  {
    CutIsFloor(max - min, k, n);
    TilesRun(DateBounds(min, max, n));
  }
}
