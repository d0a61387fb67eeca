/** Splitting a query over an integer key column. */
module IntRange {
  import opened MachineInts
  import opened FloorDiv
  import opened Wrappers
  import opened Bags
  import opened Slices

  /** Integer columns compare as integers. */
  function IntOrder(v: int): int { v }

  /** The non-empty ranges among the first `i` of the `n` slices of `width` keys from `min`. */
  function IntSlicesUpTo(min: int, width: nat, n: nat, i: nat): seq<Predicate<int>>
    requires n > 0
  {
    if i == 0 then []
    else
      var done, lo, hi := IntSlicesUpTo(min, width, n, i - 1), Cut(width, i - 1, n), Cut(width, i, n);
      if lo < hi then done + [Between(min + lo, min + hi - 1)] else done
  }

  function IntSlices(min: int, max: int, n: nat): seq<Predicate<int>> {
    if n == 0 || min > max then [] else IntSlicesUpTo(min, max - min + 1, n, n)
  }

  /** `(width * i) / n` in `i128`: the product cannot overflow even for the full 64-bit range. */
  method Boundary(width: int128, i: int128, n: int128) returns (cut: int128)
    requires 0 <= width as int <= U64_LIMIT && 0 <= i <= n <= 0xFFFF_FFFF && n != 0
    ensures cut as int == Cut(width as nat, i as nat, n as nat) <= width as int
  {
    MulMono(width as nat, i as nat, 0xFFFF_FFFF);
    CutIsFloor(width as nat, i as nat, n as nat);
    CutMonotone(width as nat, i as nat, n as nat, n as nat);
    CutEnds(width as nat, n as nat);
    cut := (width * i) / n;
  }

  /** One turn of the loop: what slice `i`, from key `lo` to key `hi`, adds. */
  lemma NextIntSlice(min: int, width: nat, n: nat, i: nat, lo: int, hi: int)
    requires n > 0 && lo == min + Cut(width, i, n) && hi == min + Cut(width, i + 1, n) - 1
    ensures IntSlicesUpTo(min, width, n, i + 1)
            == if lo <= hi then IntSlicesUpTo(min, width, n, i) + [Between(lo, hi)] else IntSlicesUpTo(min, width, n, i)
  {
  }

  /** `by_int_range`: all boundary arithmetic in `i128`, for any 64-bit bounds, with bounds that fit
      64 bits again. */
  method ByIntRange(min: int64, max: int64, partitions: uint32) returns (out: seq<Predicate<int>>)
    ensures out == IntSlices(min as int, max as int, partitions as nat)
    ensures forall p :: p in out ==> p.Between? && min as int <= p.lo <= p.hi <= max as int
  {
    out := [];
    if partitions == 0 || min > max {
      return;
    }
    var n := partitions as int128;
    var width := (max as int128) - (min as int128) + 1;
    var base := min as int128;
    var i: int128 := 0;
    while i < n
      invariant 0 <= i <= n
      invariant out == IntSlicesUpTo(min as int, width as nat, n as nat, i as nat)
      invariant forall p :: p in out ==> p.Between? && min as int <= p.lo <= p.hi <= max as int
    {
      var from := Boundary(width, i, n);
      var to := Boundary(width, i + 1, n);
      var lo := base + from;
      var hi := base + to - 1;
      NextIntSlice(min as int, width as nat, n as nat, i as nat, lo as int, hi as int);
      if lo <= hi {
        out := out + [Between(lo as int, hi as int)];
      }
      i := i + 1;
    }
  }

  // ----- What the slices mean ------------------------------------------------------------------

  lemma {:induction false} IntHitsUpTo(min: int, width: nat, n: nat, i: nat, v: int)
    requires 0 < n && i <= n
    ensures Hits(IntSlicesUpTo(min, width, n, i), IntOrder, v)
            == Indicator(min <= v < min + Cut(width, i, n))
  {
    if i == 0 {
      CutEnds(width, n);
    } else {
      IntHitsUpTo(min, width, n, i - 1, v);
      CutMonotone(width, i - 1, i, n);
      HitsSnoc(IntSlicesUpTo(min, width, n, i - 1),
               Between(min + Cut(width, i - 1, n), min + Cut(width, i, n) - 1), IntOrder, v);
    }
  }

  /** Every integer key in `[min, max]` falls in exactly one partition, and no other key in any. */
  lemma IntRangeTiles(min: int, max: int, n: nat)
    requires n > 0 && min <= max
    ensures SelectsExactly(IntSlices(min, max, n), IntOrder, min, max)
  {
    CutEnds(max - min + 1, n);
    forall v
      ensures Hits(IntSlices(min, max, n), IntOrder, v) == Indicator(min <= v <= max)
    {
      IntHitsUpTo(min, max - min + 1, n, n, v);
    }
  }

  /** The partitions together return the table filtered to the interval. */
  lemma IntRangeFilters<R>(rows: seq<R>, key: R -> Option<int>, min: int, max: int, n: nat)
    requires n > 0
    ensures multiset(Flatten(SelectedByEach(rows, key, IntOrder, IntSlices(min, max, n))))
            == multiset(Where(rows, InBounds(key, min, max)))
  {
    if min <= max {
      IntRangeTiles(min, max, n);
    } else {
      forall v
        ensures Hits(IntSlices(min, max, n), IntOrder, v) == Indicator(min <= v <= max)
      {
      }
    }
    ExactSlicesFilter(rows, key, IntOrder, IntSlices(min, max, n), min, max);
  }

  lemma {:induction false} IntCountUpTo(min: int, width: nat, n: nat, i: nat)
    requires 0 < n && i <= n
    ensures |IntSlicesUpTo(min, width, n, i)| == if width < n then Cut(width, i, n) else i
    ensures forall p :: p in IntSlicesUpTo(min, width, n, i) ==>
      p.Between? && p.hi - p.lo + 1 in {Quot(width, n), CeilQuot(width, n)} && p.lo <= p.hi
  {
    if i == 0 {
      CutEnds(width, n);
    } else {
      IntCountUpTo(min, width, n, i - 1);
      CutStep(width, i - 1, n);
    }
  }

  /** Exactly `min(n, width)` partitions, every one `floor(width/n)` or `ceil(width/n)` keys wide. */
  lemma IntRangeCountAndBalance(min: int, max: int, n: nat)
    requires n > 0 && min <= max
    ensures var width := max - min + 1;
            && |IntSlices(min, max, n)| == (if width < n then width else n)
            && forall p :: p in IntSlices(min, max, n) ==>
                 p.Between? && p.hi - p.lo + 1 in {Quot(width, n), CeilQuot(width, n)} && p.lo <= p.hi
  {
    IntCountUpTo(min, max - min + 1, n, n);
    CutEnds(max - min + 1, n);
  }

  /** Each slice starts one past the end of the one before. */
  ghost predicate Adjacent(slices: seq<Predicate<int>>) {
    forall k :: 0 < k < |slices| ==> slices[k].lo == slices[k - 1].hi + 1
  }

  lemma {:induction false} IntSlicesRunUpTo(min: int, width: nat, n: nat, i: nat)
    requires 0 < n && i <= n
    ensures var slices := IntSlicesUpTo(min, width, n, i);
            && Adjacent(slices)
            && if slices == [] then Cut(width, i, n) == 0
               else slices[0].lo == min && slices[|slices| - 1].hi == min + Cut(width, i, n) - 1
  {
    if i == 0 {
      CutEnds(width, n);
    } else {
      IntSlicesRunUpTo(min, width, n, i - 1);
      CutMonotone(width, i - 1, i, n);
    }
  }

  lemma {:induction false} SliceStays(min: int, width: nat, n: nat, k: nat, i: nat)
    requires 0 < n && k < i
    requires Cut(width, k, n) < Cut(width, k + 1, n)
    ensures Between(min + Cut(width, k, n), min + Cut(width, k + 1, n) - 1) in IntSlicesUpTo(min, width, n, i)
    decreases i
  {
    if k < i - 1 {
      SliceStays(min, width, n, k, i - 1);
    }
  }

  /** The partitions run in order from `min` to `max`, each starting one past the end of the one before. */
  lemma IntSlicesRun(min: int, max: int, n: nat)
    requires n > 0 && min <= max
    ensures var slices := IntSlices(min, max, n);
            slices != [] && slices[0].lo == min && slices[|slices| - 1].hi == max && Adjacent(slices)
  {
    CutEnds(max - min + 1, n);
    IntSlicesRunUpTo(min, max - min + 1, n, n);
  }

  /** Slice `k`, if it is not empty, is from `min + width * k / n` to `min + width * (k + 1) / n - 1`. */
  lemma IntSliceAt(min: int, max: int, n: nat, k: nat)
    requires min <= max && k < n
    ensures var width := max - min + 1;
            var lo, hi := min + width * k / n, min + width * (k + 1) / n - 1;
            lo <= hi ==> Between(lo, hi) in IntSlices(min, max, n)
  {
    var width := max - min + 1;
    CutIsFloor(width, k, n);
    CutIsFloor(width, k + 1, n);
    if Cut(width, k, n) < Cut(width, k + 1, n) {
      SliceStays(min, width, n, k, n);
    }
  }
}
