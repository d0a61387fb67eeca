/** Tiling a key type through a sort key: boundaries are evenly spaced in the key space of the order
    that is sliced in (`key`, inverted by `unkey`) and compared by the backend's own key. */
module KeyedTiles {
  import opened FloorDiv
  import opened Slices

  ghost predicate Bijective<U(!new)>(key: U -> int, unkey: int -> U, size: nat) {
    && (forall u :: 0 <= key(u) < size && unkey(key(u)) == u)
    && (forall k :: 0 <= k < size ==> key(unkey(k)) == k)
  }

  /** The `n + 1` boundary literals between `min` and `max`. */
  function KeyedBounds<U>(min: U, max: U, n: nat, key: U -> int, unkey: int -> U): (bounds: seq<U>)
    requires n > 0 && key(min) <= key(max)
    ensures |bounds| == n + 1
  {
    seq(n + 1, k requires 0 <= k <= n => unkey(key(min) + Cut(key(max) - key(min), k, n)))
  }

  lemma BoundsSpaced<U(!new)>(min: U, max: U, n: nat, key: U -> int, unkey: int -> U, size: nat)
    requires n > 0 && key(min) <= key(max) && Bijective(key, unkey, size)
    ensures EvenlySpaced(KeyedBounds(min, max, n, key, unkey), key, key(min), 1, key(max) - key(min), n)
    ensures KeyedBounds(min, max, n, key, unkey)[0] == min && KeyedBounds(min, max, n, key, unkey)[n] == max
  {
    var bounds, span := KeyedBounds(min, max, n, key, unkey), key(max) - key(min);
    CutEnds(span, n);
    forall k | 0 <= k <= n
      ensures key(bounds[k]) == key(min) + Times(1, Cut(span, k, n)) && unkey(key(bounds[k])) == bounds[k]
    {
      TimesOne(Cut(span, k, n));
      CutMonotone(span, k, n, n);
    }
  }

  lemma StepLiterals<U(!new)>(min: U, max: U, n: nat, key: U -> int, unkey: int -> U, size: nat, i: nat)
    requires n > 0 && key(min) <= key(max) && i < n && Bijective(key, unkey, size)
    ensures Cut(key(max) - key(min), i, n) <= Cut(key(max) - key(min), i + 1, n) <= key(max) - key(min)
    ensures var bounds := KeyedBounds(min, max, n, key, unkey);
            && bounds[n] == max
            && (bounds[i] == bounds[i + 1]
                <==> Cut(key(max) - key(min), i, n) == Cut(key(max) - key(min), i + 1, n))
  {
    BoundsSpaced(min, max, n, key, unkey, size);
    EvenStepRank(KeyedBounds(min, max, n, key, unkey), key, key(min), 1, key(max) - key(min), n, i);
    CutMonotone(key(max) - key(min), i + 1, n, n);
    CutEnds(key(max) - key(min), n);
  }

  /** The `k`-th boundary, for a caller that has computed the span. */
  lemma BoundAt<U>(min: U, max: U, n: nat, key: U -> int, unkey: int -> U, k: nat, span: nat)
    requires n > 0 && key(min) <= key(max) && k <= n && span == key(max) - key(min)
    ensures KeyedBounds(min, max, n, key, unkey)[k] == unkey(key(min) + Cut(span, k, n))
  {
  }

  /** One turn of the planner's loop: what step `i`, between keys `lo` and `hi`, adds to the tiles. */
  lemma NextTile<U(!new)>(min: U, max: U, n: nat, key: U -> int, unkey: int -> U, size: nat,
                          i: nat, span: nat, lo: int, hi: int)
    requires n > 0 && key(min) <= key(max) && i < n && Bijective(key, unkey, size)
    requires span == key(max) - key(min)
    requires lo == key(min) + Cut(span, i, n) && hi == key(min) + Cut(span, i + 1, n)
    ensures 0 <= lo <= hi <= key(max)
    ensures var bounds := KeyedBounds(min, max, n, key, unkey);
            TilesUpTo(bounds, i + 1)
            == if i + 1 == n then TilesUpTo(bounds, i) + [GeLe(unkey(lo), max)]
               else if lo < hi then TilesUpTo(bounds, i) + [GeLt(unkey(lo), unkey(hi))]
               else TilesUpTo(bounds, i)
  {
    StepLiterals(min, max, n, key, unkey, size, i);
  }

  /** `max(1, min(n, span))` tiles, closing on the last boundary, between balanced boundaries. */
  ghost predicate EvenTiles<U>(tiles: seq<Predicate<U>>, bounds: seq<U>, key: U -> int, span: nat, n: nat)
    requires n > 0
  {
    && |bounds| == n + 1
    && |tiles| == (if span == 0 then 1 else if span < n then span else n)
    && tiles[|tiles| - 1] == GeLe(bounds[n - 1], bounds[n])
    && Balanced(bounds, key, 1, span, n)
  }

  lemma KeyedCountAndBalance<U(!new)>(min: U, max: U, n: nat, key: U -> int, unkey: int -> U, size: nat, span: nat)
    requires n > 0 && key(max) - key(min) == span && Bijective(key, unkey, size)
    ensures var bounds := KeyedBounds(min, max, n, key, unkey);
            EvenTiles(Tiles(bounds), bounds, key, span, n)
  {
    BoundsSpaced(min, max, n, key, unkey, size);
    EvenCountAndBalance(KeyedBounds(min, max, n, key, unkey), key, key(min), 1, span, n);
  }

  lemma SameOrderTiles<U(!new)>(min: U, max: U, n: nat, key: U -> int, unkey: int -> U, size: nat)
    requires n > 0 && key(min) <= key(max) && Bijective(key, unkey, size)
    ensures SelectsExactly(Tiles(KeyedBounds(min, max, n, key, unkey)), key, key(min), key(max))
  {
    BoundsSpaced(min, max, n, key, unkey, size);
    EvenAscending(KeyedBounds(min, max, n, key, unkey), key, key(min), 1, key(max) - key(min), n);
    AscendingTile(KeyedBounds(min, max, n, key, unkey), key, key(min), key(max));
  }

  // ----- Slicing in one order, comparing in another --------------------------------------------

  /** How often a key is selected, whatever order the backend compares in. */
  lemma MismatchCount<U(!new)>(min: U, max: U, n: nat, key: U -> int, unkey: int -> U, size: nat,
                               rank: U -> int, v: int)
    requires n > 0 && key(min) <= key(max) && Bijective(key, unkey, size)
    ensures var bounds := KeyedBounds(min, max, n, key, unkey);
            Hits(Tiles(bounds), rank, v)
            == Indicator(rank(min) <= v) - Indicator(rank(max) < v) + Descents(bounds, rank, v, n)
  {
    BoundsSpaced(min, max, n, key, unkey, size);
    Telescope(KeyedBounds(min, max, n, key, unkey), rank, v);
  }

  /** With the outer bounds in order, a key is missed just when it lies outside them and no boundary step
      goes down across it. */
  lemma MismatchDrops<U(!new)>(min: U, max: U, n: nat, key: U -> int, unkey: int -> U, size: nat,
                               rank: U -> int, v: int)
    requires n > 0 && key(min) <= key(max) && Bijective(key, unkey, size)
    requires rank(min) <= rank(max)
    ensures var bounds := KeyedBounds(min, max, n, key, unkey);
            Hits(Tiles(bounds), rank, v) == 0
            <==> && !(rank(min) <= v <= rank(max))
                 && forall i :: 0 < i <= n ==> !StepsDownAcross(bounds, rank, v, i)
  {
    var bounds := KeyedBounds(min, max, n, key, unkey);
    MismatchCount(min, max, n, key, unkey, size, rank, v);
    if i :| 0 < i <= n && StepsDownAcross(bounds, rank, v, i) {
      DescentCounts(bounds, rank, v, i, n);
    } else {
      NothingCrossed(bounds, rank, v, n);
    }
  }

  ghost predicate SelectsEachOnce<U(!new)>(ps: seq<Predicate<U>>, rank: U -> int, min: U, max: U) {
    forall u :: Hits(ps, rank, rank(u)) == Indicator(rank(min) <= rank(u) <= rank(max))
  }

  lemma StepDownSelectsTwice<U(!new)>(min: U, max: U, n: nat, key: U -> int, unkey: int -> U, size: nat,
                                      rank: U -> int, unrank: int -> U, i: nat)
    returns (u: U)
    requires n > 0 && key(min) <= key(max) && Bijective(key, unkey, size)
    requires rank(min) <= rank(max) && Bijective(rank, unrank, size)
    requires 0 < i <= n
    requires var bounds := KeyedBounds(min, max, n, key, unkey);
             rank(bounds[i - 1]) > rank(bounds[i]) + Indicator(i == n)
    ensures Hits(Tiles(KeyedBounds(min, max, n, key, unkey)), rank, rank(u))
            > Indicator(rank(min) <= rank(u) <= rank(max))
  {
    var bounds := KeyedBounds(min, max, n, key, unkey);
    var v := rank(bounds[i]) + Indicator(i == n);
    u := unrank(v);
    assert 0 <= v < size && rank(u) == v;
    DescentCounts(bounds, rank, v, i, n);
    MismatchCount(min, max, n, key, unkey, size, rank, v);
  }

  lemma MismatchExact<U(!new)>(min: U, max: U, n: nat, key: U -> int, unkey: int -> U, size: nat,
                               rank: U -> int, unrank: int -> U)
    requires n > 0 && key(min) <= key(max) && Bijective(key, unkey, size)
    requires rank(min) <= rank(max) && Bijective(rank, unrank, size)
    ensures var bounds := KeyedBounds(min, max, n, key, unkey);
            SelectsEachOnce(Tiles(bounds), rank, min, max) <==> NeverStepsDown(bounds, rank)
  {
    var bounds := KeyedBounds(min, max, n, key, unkey);
    if NeverStepsDown(bounds, rank) {
      forall u
        ensures Hits(Tiles(bounds), rank, rank(u)) == Indicator(rank(min) <= rank(u) <= rank(max))
      {
        MismatchCount(min, max, n, key, unkey, size, rank, rank(u));
        NoDescents(bounds, rank, rank(u), n);
      }
    } else {
      var i :| 0 < i <= n && rank(bounds[i - 1]) > rank(bounds[i]) + Indicator(i == n);
      var u := StepDownSelectsTwice(min, max, n, key, unkey, size, rank, unrank, i);
    }
  }

  /** When `min` and `max` are extreme in the backend's order too, every key is selected at least once,
      and all exactly once just when the boundaries ascend in that order. */
  lemma WholeSpace<U(!new)>(min: U, max: U, n: nat, key: U -> int, unkey: int -> U, size: nat,
                            rank: U -> int, unrank: int -> U)
    requires n > 0 && key(min) <= key(max) && Bijective(key, unkey, size)
    requires Bijective(rank, unrank, size) && rank(min) == 0 && rank(max) == size - 1
    ensures var bounds := KeyedBounds(min, max, n, key, unkey);
            && (forall u :: Hits(Tiles(bounds), rank, rank(u)) >= 1)
            && ((forall u :: Hits(Tiles(bounds), rank, rank(u)) == 1) <==> Ascending(bounds, rank))
  {
    var bounds := KeyedBounds(min, max, n, key, unkey);
    forall u
      ensures Hits(Tiles(bounds), rank, rank(u)) >= 1 && Indicator(rank(min) <= rank(u) <= rank(max)) == 1
    {
      MismatchCount(min, max, n, key, unkey, size, rank, rank(u));
    }
    MismatchExact(min, max, n, key, unkey, size, rank, unrank);
    BoundsSpaced(min, max, n, key, unkey, size);
    assert rank(bounds[n - 1]) <= rank(bounds[n]);
    if NeverStepsDown(bounds, rank) {
      AscendingFromSteps(bounds, rank);
    }
  }
}
