/** Slicing predicates and when a list of them selects every key exactly once. */
module Slices {
  import opened Wrappers
  import opened Bags
  import opened FloorDiv

  /** The `WHERE` clause of one partition; `L` is the type of the literals it embeds. */
  datatype Predicate<L> =
    | Between(lo: L, hi: L)  // key BETWEEN lo AND hi
    | GeLt(lo: L, hi: L)     // key >= lo AND key < hi
    | GeLe(lo: L, hi: L)     // key >= lo AND key <= hi

  /** The clause as the backend evaluates it on a key of rank `v`.  `rank` is the backend's own
      comparison order, which need not be the order the boundaries were computed in. */
  predicate Selects<L>(p: Predicate<L>, rank: L -> int, v: int) {
    match p
    case Between(lo, hi) => rank(lo) <= v <= rank(hi)
    case GeLt(lo, hi) => rank(lo) <= v < rank(hi)
    case GeLe(lo, hi) => rank(lo) <= v <= rank(hi)
  }

  function Indicator(b: bool): nat {
    if b then 1 else 0
  }

  /** In how many of the partitions a key of rank `v` turns up. */
  function Hits<L>(ps: seq<Predicate<L>>, rank: L -> int, v: int): nat {
    if ps == [] then 0
    else Hits(ps[..|ps| - 1], rank, v) + Indicator(Selects(ps[|ps| - 1], rank, v))
  }

  lemma HitsSnoc<L>(ps: seq<Predicate<L>>, p: Predicate<L>, rank: L -> int, v: int)
    ensures Hits(ps + [p], rank, v) == Hits(ps, rank, v) + Indicator(Selects(p, rank, v))
  {
    assert (ps + [p])[..|ps|] == ps;
  }

  // ----- Half-open tiles between boundary literals ---------------------------------------------

  /** The partitions built from the first `i` steps of a boundary list: half-open, skipping steps
      between equal literals, and closing the very last step on its upper literal. */
  function TilesUpTo<L(==)>(bounds: seq<L>, i: nat): seq<Predicate<L>>
    requires i < |bounds|
  {
    if i == 0 then []
    else
      var done := TilesUpTo(bounds, i - 1);
      if i == |bounds| - 1 then done + [GeLe(bounds[i - 1], bounds[i])]
      else if bounds[i - 1] == bounds[i] then done
      else done + [GeLt(bounds[i - 1], bounds[i])]
  }

  function Tiles<L(==)>(bounds: seq<L>): seq<Predicate<L>> {
    if |bounds| < 2 then [] else TilesUpTo(bounds, |bounds| - 1)
  }

  /** Each tile starts at the literal the one before it ends at. */
  ghost predicate Chained<L>(tiles: seq<Predicate<L>>) {
    forall i :: 0 < i < |tiles| ==> tiles[i - 1].hi == tiles[i].lo
  }

  lemma {:induction false} TilesChain<L>(bounds: seq<L>, i: nat)
    requires i < |bounds|
    ensures var tiles := TilesUpTo(bounds, i);
            && Chained(tiles)
            && (forall k :: 0 <= k < |tiles| ==>
                  if i == |bounds| - 1 && k == |tiles| - 1 then tiles[k].GeLe? else tiles[k].GeLt?)
            && if tiles == [] then bounds[i] == bounds[0]
               else tiles[0].lo == bounds[0] && tiles[|tiles| - 1].hi == bounds[i]
  {
    if i > 0 {
      TilesChain(bounds, i - 1);
    }
  }

  /** How often the boundary list, read in the backend's order, steps down across rank `v`. */
  function Descents<L>(bounds: seq<L>, rank: L -> int, v: int, i: nat): nat
    requires i < |bounds|
  {
    if i == 0 then 0
    else Descents(bounds, rank, v, i - 1) + Indicator(StepsDownAcross(bounds, rank, v, i))
  }

  predicate StepsDownAcross<L>(bounds: seq<L>, rank: L -> int, v: int, i: nat)
    requires 0 < i < |bounds|
  {
    if i == |bounds| - 1 then rank(bounds[i]) < v < rank(bounds[i - 1])
    else rank(bounds[i]) <= v < rank(bounds[i - 1])
  }

  lemma {:induction false} TelescopeUpTo<L>(bounds: seq<L>, rank: L -> int, v: int, i: nat)
    requires i < |bounds|
    ensures Hits(TilesUpTo(bounds, i), rank, v)
            == Indicator(rank(bounds[0]) <= v)
               - Indicator(if 0 < i == |bounds| - 1 then rank(bounds[i]) < v else rank(bounds[i]) <= v)
               + Descents(bounds, rank, v, i)
  {
    if i > 0 {
      TelescopeUpTo(bounds, rank, v, i - 1);
      var done := TilesUpTo(bounds, i - 1);
      HitsSnoc(done, GeLe(bounds[i - 1], bounds[i]), rank, v);
      HitsSnoc(done, GeLt(bounds[i - 1], bounds[i]), rank, v);
    }
  }

  /** In whatever order the backend compares, a key is selected once if it lies between the outer
      boundaries, and once more for every step down across it. */
  lemma Telescope<L>(bounds: seq<L>, rank: L -> int, v: int)
    requires |bounds| >= 2
    ensures Hits(Tiles(bounds), rank, v)
            == Indicator(rank(bounds[0]) <= v) - Indicator(rank(bounds[|bounds| - 1]) < v)
               + Descents(bounds, rank, v, |bounds| - 1)
  {
    TelescopeUpTo(bounds, rank, v, |bounds| - 1);
  }

  /** Read in the backend's order no half-open step goes down, and the closing one goes down by no more
      than the one rank it closes on. */
  ghost predicate NeverStepsDown<L>(bounds: seq<L>, rank: L -> int) {
    forall i :: 0 < i < |bounds| ==>
      rank(bounds[i - 1]) <= rank(bounds[i]) + Indicator(i == |bounds| - 1)
  }

  lemma {:induction false} NoDescents<L>(bounds: seq<L>, rank: L -> int, v: int, i: nat)
    requires i < |bounds| && NeverStepsDown(bounds, rank)
    ensures Descents(bounds, rank, v, i) == 0
  {
    if i > 0 {
      NoDescents(bounds, rank, v, i - 1);
    }
  }

  lemma {:induction false} DescentCounts<L>(bounds: seq<L>, rank: L -> int, v: int, i: nat, j: nat)
    requires 0 < i <= j < |bounds| && StepsDownAcross(bounds, rank, v, i)
    ensures Descents(bounds, rank, v, j) >= 1
    decreases j
  {
    if i < j {
      DescentCounts(bounds, rank, v, i, j - 1);
    }
  }

  lemma {:induction false} NothingCrossed<L>(bounds: seq<L>, rank: L -> int, v: int, i: nat)
    requires i < |bounds| && forall j :: 0 < j <= i ==> !StepsDownAcross(bounds, rank, v, j)
    ensures Descents(bounds, rank, v, i) == 0
  {
    if i > 0 {
      NothingCrossed(bounds, rank, v, i - 1);
    }
  }

  ghost predicate Ascending<L>(bounds: seq<L>, rank: L -> int) {
    forall i, j :: 0 <= i <= j < |bounds| ==> rank(bounds[i]) <= rank(bounds[j])
  }

  lemma AscendingFromSteps<L>(bounds: seq<L>, rank: L -> int)
    requires NeverStepsDown(bounds, rank)
    requires |bounds| >= 2 && rank(bounds[|bounds| - 2]) <= rank(bounds[|bounds| - 1])
    ensures Ascending(bounds, rank)
  {
    forall i, j | 0 <= i <= j < |bounds|
      ensures rank(bounds[i]) <= rank(bounds[j])
    {
      for k := i to j
        invariant rank(bounds[i]) <= rank(bounds[k])
      {
      }
    }
  }

  /** Boundaries that ascend in the backend's order tile the closed interval between the outer two. */
  lemma AscendingTile<L(!new)>(bounds: seq<L>, rank: L -> int, lo: int, hi: int)
    requires |bounds| >= 2 && Ascending(bounds, rank)
    requires lo == rank(bounds[0]) && hi == rank(bounds[|bounds| - 1])
    ensures SelectsExactly(Tiles(bounds), rank, lo, hi)
  {
    var n := |bounds| - 1;
    forall v
      ensures Hits(Tiles(bounds), rank, v) == Indicator(lo <= v <= hi)
    {
      Telescope(bounds, rank, v);
      NoDescents(bounds, rank, v, n);
    }
  }

  /** The tiles run in order from the first boundary to the last, all half-open but the closing one. */
  lemma TilesRun<L>(bounds: seq<L>)
    requires |bounds| >= 2
    ensures var tiles := Tiles(bounds);
            && tiles != [] && Chained(tiles)
            && tiles[0].lo == bounds[0] && tiles[|tiles| - 1].hi == bounds[|bounds| - 1]
            && tiles[|tiles| - 1].GeLe? && forall k :: 0 <= k < |tiles| - 1 ==> tiles[k].GeLt?
  {
    TilesChain(bounds, |bounds| - 1);
  }

  // ----- Evenly spaced boundaries --------------------------------------------------------------

  /** The boundary ranks are `base + unit * floor(span * k / n)`, and equal ranks mean equal literals. */
  ghost predicate EvenlySpaced<L>(bounds: seq<L>, rank: L -> int, base: int, unit: nat, span: nat, n: nat) {
    && n > 0 && unit > 0 && |bounds| == n + 1
    && (forall k :: 0 <= k <= n ==> rank(bounds[k]) == base + Times(unit, Cut(span, k, n)))
    && (forall j, k :: 0 <= j <= n && 0 <= k <= n && rank(bounds[j]) == rank(bounds[k]) ==> bounds[j] == bounds[k])
  }

  lemma EvenAscending<L>(bounds: seq<L>, rank: L -> int, base: int, unit: nat, span: nat, n: nat)
    requires EvenlySpaced(bounds, rank, base, unit, span, n)
    ensures Ascending(bounds, rank)
    ensures rank(bounds[0]) == base && rank(bounds[n]) == base + Times(unit, span)
  {
    CutEnds(span, n);
    forall i, j | 0 <= i <= j <= n
      ensures rank(bounds[i]) <= rank(bounds[j])
    {
      CutMonotone(span, i, j, n);
      TimesMono(unit, Cut(span, i, n), Cut(span, j, n));
    }
  }

  lemma EvenStepRank<L>(bounds: seq<L>, rank: L -> int, base: int, unit: nat, span: nat, n: nat, i: nat)
    requires EvenlySpaced(bounds, rank, base, unit, span, n) && i < n
    ensures Cut(span, i, n) <= Cut(span, i + 1, n)
    ensures rank(bounds[i + 1]) - rank(bounds[i]) == Times(unit, Cut(span, i + 1, n) - Cut(span, i, n))
    ensures bounds[i] == bounds[i + 1] <==> Cut(span, i, n) == Cut(span, i + 1, n)
  {
    var c, d := Cut(span, i, n), Cut(span, i + 1, n);
    CutMonotone(span, i, i + 1, n);
    TimesSplit(unit, c, d);
    TimesMono(unit, c, d);
  }

  lemma {:induction false} EvenCountUpTo<L>(bounds: seq<L>, rank: L -> int, base: int, unit: nat,
                                            span: nat, n: nat, i: nat)
    requires EvenlySpaced(bounds, rank, base, unit, span, n) && i < n
    ensures |TilesUpTo(bounds, i)| == if span < n then Cut(span, i, n) else i
  {
    if i == 0 {
      CutEnds(span, n);
    } else {
      EvenCountUpTo(bounds, rank, base, unit, span, n, i - 1);
      EvenStepRank(bounds, rank, base, unit, span, n, i - 1);
      CutStep(span, i - 1, n);
    }
  }

  /** Adjacent boundaries are `floor(span/n)` or `ceil(span/n)` units apart. */
  ghost predicate Balanced<L>(bounds: seq<L>, rank: L -> int, unit: nat, span: nat, n: nat)
    requires n > 0
  {
    forall k :: 0 < k < |bounds| ==>
      rank(bounds[k]) - rank(bounds[k - 1]) in {Times(unit, Quot(span, n)), Times(unit, CeilQuot(span, n))}
  }

  /** Exactly `max(1, min(n, span))` partitions, the closing one always among them, balanced boundaries, and
      only empty slices skipped. */
  lemma EvenCountAndBalance<L>(bounds: seq<L>, rank: L -> int, base: int, unit: nat, span: nat, n: nat)
    requires EvenlySpaced(bounds, rank, base, unit, span, n)
    ensures |Tiles(bounds)| == (if span == 0 then 1 else if span < n then span else n)
    ensures Tiles(bounds)[|Tiles(bounds)| - 1] == GeLe(bounds[n - 1], bounds[n])
    ensures Balanced(bounds, rank, unit, span, n) && SkipsOnlyEmpty(bounds, span, n)
  {
    EvenSkipsOnlyEmpty(bounds, rank, base, unit, span, n);
    EvenCountUpTo(bounds, rank, base, unit, span, n, n - 1);
    LastCutOfShortSpan(span, n);
    EvenlyBalanced(bounds, rank, base, unit, span, n);
  }

  lemma EvenlyBalanced<L>(bounds: seq<L>, rank: L -> int, base: int, unit: nat, span: nat, n: nat)
    requires EvenlySpaced(bounds, rank, base, unit, span, n)
    ensures Balanced(bounds, rank, unit, span, n)
  {
    forall k | 0 < k <= n
      ensures rank(bounds[k]) - rank(bounds[k - 1]) in {Times(unit, Quot(span, n)), Times(unit, CeilQuot(span, n))}
    {
      EvenStepRank(bounds, rank, base, unit, span, n, k - 1);
      CutStep(span, k - 1, n);
    }
  }

  /** The steps skipped for having equal literals are exactly the empty ones. */
  ghost predicate SkipsOnlyEmpty<L>(bounds: seq<L>, span: nat, n: nat)
    requires |bounds| == n + 1 && n > 0
  {
    forall k :: 0 <= k < n ==> (bounds[k] == bounds[k + 1] <==> Cut(span, k, n) == Cut(span, k + 1, n))
  }

  lemma EvenSkipsOnlyEmpty<L>(bounds: seq<L>, rank: L -> int, base: int, unit: nat, span: nat, n: nat)
    requires EvenlySpaced(bounds, rank, base, unit, span, n)
    ensures SkipsOnlyEmpty(bounds, span, n)
  {
    forall k | 0 <= k < n
      ensures bounds[k] == bounds[k + 1] <==> Cut(span, k, n) == Cut(span, k + 1, n)
    {
      EvenStepRank(bounds, rank, base, unit, span, n, k);
    }
  }

  lemma LastCutOfShortSpan(span: nat, n: nat)
    requires n > 0
    ensures span < n ==> Cut(span, n - 1, n) == if span == 0 then 0 else span - 1
  {
    CutLastStep(span, n);
    CeilQuotIs(span, n);
  }

  // ----- From predicates to result sets --------------------------------------------------------

  function Picks<R, L>(key: R -> Option<int>, rank: L -> int, p: Predicate<L>): R -> bool {
    r => key(r).Some? && Selects(p, rank, key(r).value)
  }

  /** The rows one partition returns: a row whose key is NULL satisfies no comparison. */
  function Selected<R, L>(rows: seq<R>, key: R -> Option<int>, rank: L -> int, p: Predicate<L>): seq<R> {
    Where(rows, Picks(key, rank, p))
  }

  function SelectedByEach<R, L>(rows: seq<R>, key: R -> Option<int>, rank: L -> int, ps: seq<Predicate<L>>)
    : (parts: seq<seq<R>>)
    ensures |parts| == |ps|
  {
    seq(|ps|, i requires 0 <= i < |ps| => Selected(rows, key, rank, ps[i]))
  }

  /** A row comes back from the partitions together as often as it occurs, times its key's hits. */
  lemma {:induction false} SelectedCount<R, L>(rows: seq<R>, key: R -> Option<int>, rank: L -> int,
                                               ps: seq<Predicate<L>>, r: R)
    ensures multiset(Flatten(SelectedByEach(rows, key, rank, ps)))[r]
            == if key(r).Some? then Times(multiset(rows)[r], Hits(ps, rank, key(r).value)) else 0
  {
    if ps != [] {
      var init, last := ps[..|ps| - 1], ps[|ps| - 1];
      SelectedCount(rows, key, rank, init, r);
      var parts := SelectedByEach(rows, key, rank, ps);
      assert parts[..|init|] == SelectedByEach(rows, key, rank, init);
      assert Flatten(parts) == Flatten(parts[..|init|]) + Selected(rows, key, rank, last);
      WhereCount(rows, Picks(key, rank, last), r);
    }
  }

  ghost predicate SelectsExactly<L(!new)>(ps: seq<Predicate<L>>, rank: L -> int, lo: int, hi: int) {
    forall v :: Hits(ps, rank, v) == Indicator(lo <= v <= hi)
  }

  function InBounds<R>(key: R -> Option<int>, lo: int, hi: int): R -> bool {
    r => key(r).Some? && lo <= key(r).value <= hi
  }

  /** Partitions that select the interval exactly return, put together, the rows of that interval. */
  lemma ExactSlicesFilter<R, L(!new)>(rows: seq<R>, key: R -> Option<int>, rank: L -> int,
                                ps: seq<Predicate<L>>, lo: int, hi: int)
    requires SelectsExactly(ps, rank, lo, hi)
    ensures multiset(Flatten(SelectedByEach(rows, key, rank, ps)))
            == multiset(Where(rows, InBounds(key, lo, hi)))
  {
    var got := multiset(Flatten(SelectedByEach(rows, key, rank, ps)));
    var want := multiset(Where(rows, InBounds(key, lo, hi)));
    forall r: R
      ensures got[r] == want[r]
    {
      SelectedCount(rows, key, rank, ps, r);
      WhereCount(rows, InBounds(key, lo, hi), r);
      if key(r).Some? {
        assert Hits(ps, rank, key(r).value) == Indicator(lo <= key(r).value <= hi);
      }
    }
    SameBag(got, want);
  }

  /** A filter is lossless exactly when it keeps every row there is. */
  lemma LosslessIff<R>(rows: seq<R>, p: R -> bool)
    ensures multiset(Where(rows, p)) == multiset(rows) <==> forall r :: r in rows ==> p(r)
  {
    var kept := multiset(Where(rows, p));
    forall r: R
      ensures kept[r] == if p(r) then multiset(rows)[r] else 0
    {
      WhereCount(rows, p, r);
    }
    if r: R :| r in rows && !p(r) {
      assert r in multiset(rows);
    }
  }
}
