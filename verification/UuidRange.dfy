/** Splitting a query over a UUID key column, in either backend order. */
module UuidRange {
  import opened MachineInts
  import opened FloorDiv
  import opened Slices
  import opened KeyedTiles
  import opened UuidKeys

  function Rank(order: UuidOrder): Uuid -> int {
    (u: Uuid) => UuidToKey(u, order)
  }

  function Unrank(order: UuidOrder): int -> Uuid {
    key => if key < 0 then NIL else KeyToUuid(key, order)
  }

  const NIL: Uuid := seq(16, _ => 0)
  const MAX: Uuid := seq(16, _ => 255)

  lemma RankBijective(order: UuidOrder)
    ensures Bijective(Rank(order), Unrank(order), U128_LIMIT)
  {
    forall u: Uuid
      ensures 0 <= Rank(order)(u) < U128_LIMIT && Unrank(order)(Rank(order)(u)) == u
    {
      KeyOfUuidInverse(u, order);
    }
    forall k: int | 0 <= k < U128_LIMIT
      ensures Rank(order)(Unrank(order)(k)) == k
    {
      UuidOfKeyInverse(k, order);
    }
  }

  function UuidBounds(min: Uuid, max: Uuid, n: nat, order: UuidOrder): (bounds: seq<Uuid>)
    requires n > 0 && Rank(order)(min) <= Rank(order)(max)
    ensures |bounds| == n + 1
  {
    KeyedBounds(min, max, n, Rank(order), Unrank(order))
  }

  function UuidSlices(min: Uuid, max: Uuid, n: nat, order: UuidOrder): seq<Predicate<Uuid>> {
    if n == 0 || Rank(order)(min) > Rank(order)(max) then []
    else Tiles(UuidBounds(min, max, n, order))
  }

  /** The `boundary` closure; `lo_key + mul_div(..)` stays within 128 bits. */
  method Boundary(loKey: uint128, span: uint128, k: uint32, n: uint32) returns (b: uint128)
    requires k <= n && n != 0 && loKey as int + span as int < U128_LIMIT
    ensures b as int == loKey as int + Cut(span as nat, k as nat, n as nat)
  {
    var cut := ComputeCut(span, k, n);
    b := loKey + cut;
  }

  method KeyOf(u: Uuid, order: UuidOrder) returns (key: uint128)
    ensures key as int == Rank(order)(u)
  {
    key := ComputeKey(u, order);
  }

  method LiteralOf(key: uint128, order: UuidOrder) returns (u: Uuid)
    ensures u == Unrank(order)(key as int)
  {
    u := RebuildUuid(key, order);
  }

  /** `by_uuid_range_ordered`. */
  method ByUuidRangeOrdered(min: Uuid, max: Uuid, partitions: uint32, order: UuidOrder)
    returns (out: seq<Predicate<Uuid>>)
    ensures out == UuidSlices(min, max, partitions as nat, order)
  {
    var loKey := KeyOf(min, order);
    var hiKey := KeyOf(max, order);
    out := [];
    if partitions == 0 || loKey > hiKey {
      return;
    }
    var n := partitions;
    var span := hiKey - loKey;
    ghost var bounds := UuidBounds(min, max, n as nat, order);
    RankBijective(order);
    var i: uint32 := 0;
    while i < n
      invariant 0 <= i <= n
      invariant out == TilesUpTo(bounds, i as nat)
    {
      var lo := Boundary(loKey, span, i, n);
      var hi := Boundary(loKey, span, i + 1, n);
      NextTile(min, max, n as nat, Rank(order), Unrank(order), U128_LIMIT,
               i as nat, span as nat, lo as nat, hi as nat);
      var loUuid := LiteralOf(lo, order);
      if i + 1 == n {
        if lo <= hiKey {
          out := out + [GeLe(loUuid, max)];
        }
      } else if lo < hi {
        var hiUuid := LiteralOf(hi, order);
        out := out + [GeLt(loUuid, hiUuid)];
      }
      i := i + 1;
    }
  }

  /** On a backend that compares in the chosen order, every UUID between `min` and `max` satisfies
      exactly one predicate and no other UUID any. */
  lemma UuidRangeTiles(min: Uuid, max: Uuid, n: nat, order: UuidOrder)
    requires n > 0 && Rank(order)(min) <= Rank(order)(max)
    ensures SelectsExactly(UuidSlices(min, max, n, order), Rank(order), Rank(order)(min), Rank(order)(max))
  {
    RankBijective(order);
    SameOrderTiles(min, max, n, Rank(order), Unrank(order), U128_LIMIT);
  }

  /** A predicate as the backend evaluates it on a UUID, in its own order. */
  ghost predicate Holds(p: Predicate<Uuid>, order: UuidOrder, u: Uuid) {
    match p
    case Between(lo, hi) => !Less(order, u, lo) && !Less(order, hi, u)
    case GeLt(lo, hi) => !Less(order, u, lo) && Less(order, u, hi)
    case GeLe(lo, hi) => !Less(order, u, lo) && !Less(order, hi, u)
  }

  lemma HoldsIsSelects(p: Predicate<Uuid>, order: UuidOrder, u: Uuid)
    ensures Holds(p, order, u) <==> Selects(p, Rank(order), Rank(order)(u))
  {
    KeysOrderAsBackend(u, p.lo, order);
    KeysOrderAsBackend(u, p.hi, order);
    KeysOrderAsBackend(p.hi, u, order);
  }

  /** In how many of the partitions a UUID turns up. */
  ghost function HeldBy(ps: seq<Predicate<Uuid>>, order: UuidOrder, u: Uuid): nat {
    if ps == [] then 0
    else HeldBy(ps[..|ps| - 1], order, u) + if Holds(ps[|ps| - 1], order, u) then 1 else 0
  }

  lemma {:induction false} HeldByIsHits(ps: seq<Predicate<Uuid>>, order: UuidOrder, u: Uuid)
    ensures HeldBy(ps, order, u) == Hits(ps, Rank(order), Rank(order)(u))
  {
    if ps != [] {
      HeldByIsHits(ps[..|ps| - 1], order, u);
      HoldsIsSelects(ps[|ps| - 1], order, u);
    }
  }

  /** In the backend's own terms: every UUID neither below `min` nor above `max` satisfies exactly one
      predicate, no other satisfies any, and there are none if `min` is above `max`. */
  lemma UuidSlicesTile(min: Uuid, max: Uuid, n: nat, order: UuidOrder)
    requires n > 0
    ensures forall u :: HeldBy(UuidSlices(min, max, n, order), order, u)
                        == if !Less(order, u, min) && !Less(order, max, u) then 1 else 0
    ensures UuidSlices(min, max, n, order) == [] <==> Less(order, max, min)
  {
    KeysOrderAsBackend(max, min, order);
    if !Less(order, max, min) {
      UuidRangeTiles(min, max, n, order);
      UuidRangeCountAndBalance(min, max, n, order, Rank(order)(max) - Rank(order)(min));
    }
    forall u
      ensures HeldBy(UuidSlices(min, max, n, order), order, u)
              == if !Less(order, u, min) && !Less(order, max, u) then 1 else 0
    {
      HeldByIsHits(UuidSlices(min, max, n, order), order, u);
      KeysOrderAsBackend(u, min, order);
      KeysOrderAsBackend(max, u, order);
    }
  }

  /** Boundary `k` has the key `floor(span * k / n)` above that of `min`, and the partitions run in order from
      `min` to `max` through the boundaries. */
  lemma UuidSlicesRun(min: Uuid, max: Uuid, n: nat, order: UuidOrder, span: nat)
    requires n > 0 && Rank(order)(max) - Rank(order)(min) == span
    ensures var bounds, slices := UuidBounds(min, max, n, order), UuidSlices(min, max, n, order);
            && (forall k :: 0 <= k <= n ==> UuidToKey(bounds[k], order) == UuidToKey(min, order) + span * k / n)
            && slices != [] && Chained(slices)
            && slices[0].lo == min && slices[|slices| - 1] == GeLe(bounds[n - 1], max)
            && forall k :: 0 <= k < |slices| - 1 ==> slices[k].GeLt?
  {
    var bounds := UuidBounds(min, max, n, order);
    RankBijective(order);
    BoundsSpaced(min, max, n, Rank(order), Unrank(order), U128_LIMIT);
    TilesRun(bounds);
    UuidRangeCountAndBalance(min, max, n, order, span);
    forall k | 0 <= k <= n
      ensures UuidToKey(bounds[k], order) == UuidToKey(min, order) + span * k / n
    {
      BoundKey(min, max, n, order, span, k);
    }
  }

  lemma BoundKey(min: Uuid, max: Uuid, n: nat, order: UuidOrder, span: nat, k: nat)
    requires n > 0 && Rank(order)(max) - Rank(order)(min) == span && k <= n
    ensures UuidToKey(UuidBounds(min, max, n, order)[k], order) == UuidToKey(min, order) + span * k / n
  {
    BoundAt(min, max, n, Rank(order), Unrank(order), k, span);
    CutIsFloor(span, k, n);
    CutMonotone(span, k, n, n);
    CutEnds(span, n);
    UuidOfKeyInverse(UuidToKey(min, order) + Cut(span, k, n), order);
  }

  /** How many slices there are, and how evenly they are cut. */
  lemma UuidRangeCountAndBalance(min: Uuid, max: Uuid, n: nat, order: UuidOrder, span: nat)
    requires n > 0 && Rank(order)(max) - Rank(order)(min) == span
    ensures EvenTiles(UuidSlices(min, max, n, order), UuidBounds(min, max, n, order), Rank(order), span, n)
  {
    RankBijective(order);
    KeyedCountAndBalance(min, max, n, Rank(order), Unrank(order), U128_LIMIT, span);
  }

  // ----- Slicing in one order, comparing in another --------------------------------------------

  /** How often a key is selected, whatever order the backend compares in: the count of a tiling, and one
      more for every boundary step that goes down across the key.  A key between the bounds in the
      backend's own order is never lost. */
  lemma MismatchHits(min: Uuid, max: Uuid, n: nat, order: UuidOrder, backend: UuidOrder, u: Uuid)
    requires n > 0 && Rank(order)(min) <= Rank(order)(max)
    ensures var rank, bounds := Rank(backend), UuidBounds(min, max, n, order);
            var hits := Hits(UuidSlices(min, max, n, order), rank, rank(u));
            && hits == Indicator(rank(min) <= rank(u)) - Indicator(rank(max) < rank(u))
                       + Descents(bounds, rank, rank(u), n)
            && (rank(min) <= rank(u) <= rank(max) ==> hits >= 1)
  {
    RankBijective(order);
    MismatchCount(min, max, n, Rank(order), Unrank(order), U128_LIMIT, Rank(backend), Rank(backend)(u));
  }

  /** A key is lost just when it lies outside the bounds in the backend's order and no boundary step goes
      down across it, wherever it lies in the order sliced in. */
  lemma MismatchDropsIff(min: Uuid, max: Uuid, n: nat, order: UuidOrder, backend: UuidOrder, u: Uuid)
    requires n > 0 && Rank(order)(min) <= Rank(order)(max) && Rank(backend)(min) <= Rank(backend)(max)
    ensures var rank, bounds := Rank(backend), UuidBounds(min, max, n, order);
            Hits(UuidSlices(min, max, n, order), rank, rank(u)) == 0
            <==> && !(rank(min) <= rank(u) <= rank(max))
                 && forall i :: 0 < i <= n ==> !StepsDownAcross(bounds, rank, rank(u), i)
  {
    RankBijective(order);
    MismatchDrops(min, max, n, Rank(order), Unrank(order), U128_LIMIT, Rank(backend), Rank(backend)(u));
  }

  const DROPPED: Uuid := [0] + seq(15, _ => 255)
  const DROPPING_MAX: Uuid := [1] + seq(15, _ => 0)

  lemma FirstByteDecides(a: Uuid, b: Uuid)
    requires a[0] < b[0]
    ensures LexLess(a, b)
  {
    assert a[..0] == b[..0];
  }

  lemma DroppedIsBetweenLexically()
    ensures Rank(Lexical)(NIL) <= Rank(Lexical)(DROPPED) < Rank(Lexical)(DROPPING_MAX)
  {
    ExtremeKeys(Lexical);
    FirstByteDecides(DROPPED, DROPPING_MAX);
    KeysOrderBySignificance(DROPPED, DROPPING_MAX, Lexical);
  }

  lemma DroppedIsOutsideOnSqlServer()
    ensures Rank(SqlServer)(NIL) <= Rank(SqlServer)(DROPPING_MAX) < Rank(SqlServer)(DROPPED)
  {
    ExtremeKeys(SqlServer);
    OrderIsPermutation();
    var max, dropped := Significance(DROPPING_MAX, SqlServer), Significance(DROPPED, SqlServer);
    assert SQLSERVER_ORDER[0] == 10 && max[0] == DROPPING_MAX[10] == 0 && dropped[0] == DROPPED[10] == 255;
    FirstByteDecides(max, dropped);
    KeysOrderBySignificance(DROPPING_MAX, DROPPED, SqlServer);
  }

  /** One lexical slice drops a row of a `uniqueidentifier` column: 00ff..ff lies lexically between the nil
      UUID and 0100..00, which are in order on both sides, and satisfies no predicate. */
  lemma LexicalSliceDrops()
    ensures Rank(Lexical)(NIL) <= Rank(Lexical)(DROPPED) < Rank(Lexical)(DROPPING_MAX)
    ensures Rank(SqlServer)(NIL) <= Rank(SqlServer)(DROPPING_MAX)
    ensures Hits(UuidSlices(NIL, DROPPING_MAX, 1, Lexical), Rank(SqlServer), Rank(SqlServer)(DROPPED)) == 0
  {
    DroppedIsBetweenLexically();
    DroppedIsOutsideOnSqlServer();
    OneSliceDrops(NIL, DROPPING_MAX, Lexical, SqlServer, DROPPED);
  }

  /** A single slice drops whatever lies outside the bounds in the backend's order. */
  lemma OneSliceDrops(min: Uuid, max: Uuid, order: UuidOrder, backend: UuidOrder, u: Uuid)
    requires Rank(order)(min) <= Rank(order)(max)
    requires Rank(backend)(min) <= Rank(backend)(max) < Rank(backend)(u)
    ensures Hits(UuidSlices(min, max, 1, order), Rank(backend), Rank(backend)(u)) == 0
  {
    OuterBounds(min, max, 1, order);
    MismatchDropsIff(min, max, 1, order, backend, u);
  }

  lemma OuterBounds(min: Uuid, max: Uuid, n: nat, order: UuidOrder)
    requires n > 0 && Rank(order)(min) <= Rank(order)(max)
    ensures UuidBounds(min, max, n, order)[0] == min && UuidBounds(min, max, n, order)[n] == max
  {
    RankBijective(order);
    BoundsSpaced(min, max, n, Rank(order), Unrank(order), U128_LIMIT);
  }

  /** Slicing in one order for a backend that compares in another is correct exactly when the boundary
      sequence does not step down in the backend's order. */
  lemma MismatchExactIff(min: Uuid, max: Uuid, n: nat, order: UuidOrder, backend: UuidOrder)
    requires n > 0 && Rank(order)(min) <= Rank(order)(max) && Rank(backend)(min) <= Rank(backend)(max)
    ensures SelectsEachOnce(UuidSlices(min, max, n, order), Rank(backend), min, max)
            <==> NeverStepsDown(UuidBounds(min, max, n, order), Rank(backend))
  {
    RankBijective(order);
    RankBijective(backend);
    MismatchExact(min, max, n, Rank(order), Unrank(order), U128_LIMIT, Rank(backend), Unrank(backend));
  }

  lemma UniformSignificance(u: Uuid, b: Byte, order: UuidOrder)
    requires forall i :: 0 <= i < 16 ==> u[i] == b
    ensures Significance(u, order) == u
  {
    OrderIsPermutation();
  }

  lemma ExtremeKeys(order: UuidOrder)
    ensures UuidToKey(NIL, order) == 0 && UuidToKey(MAX, order) == U128_LIMIT - 1
  {
    UniformSignificance(NIL, 0, order);
    UniformSignificance(MAX, 255, order);
    UniformValue(0, 16);
    UniformValue(255, 16);
    Pow256Of16();
    assert NIL == seq(16, _ => 0) && MAX == seq(16, _ => 255);
  }

  lemma {:induction false} UniformValue(b: Byte, m: nat)
    ensures 255 * BeValue(seq(m, _ => b)) == b * (Pow256(m) - 1)
  {
    if m > 0 {
      UniformValue(b, m - 1);
      assert seq<Byte>(m, _ => b)[..m - 1] == seq(m - 1, _ => b);
      assert b * (256 * Pow256(m - 1) - 1) == 256 * (b * (Pow256(m - 1) - 1)) + 255 * b;
    }
  }

  /** Over the whole UUID space every key is selected at least once whichever order is sliced in, and
      all exactly once just when the boundaries ascend in the backend's order. */
  lemma WholeSpaceOnAnyBackend(n: nat, order: UuidOrder, backend: UuidOrder)
    requires n > 0
    ensures Rank(order)(NIL) <= Rank(order)(MAX)
    ensures forall u :: Hits(UuidSlices(NIL, MAX, n, order), Rank(backend), Rank(backend)(u)) >= 1
    ensures (forall u :: Hits(UuidSlices(NIL, MAX, n, order), Rank(backend), Rank(backend)(u)) == 1)
            <==> Ascending(UuidBounds(NIL, MAX, n, order), Rank(backend))
  {
    ExtremeKeys(order);
    ExtremeKeys(backend);
    RankBijective(order);
    RankBijective(backend);
    WholeSpace(NIL, MAX, n, Rank(order), Unrank(order), U128_LIMIT, Rank(backend), Unrank(backend));
  }

  lemma MulPow(b: nat, x: nat)
    ensures b * (256 * x) == 256 * (b * x)
  {
  }

  lemma {:induction false} LeadingByte(b: Byte, rest: seq<Byte>)
    ensures BeValue([b] + rest) == b * Pow256(|rest|) + BeValue(rest)
  {
    if rest == [] {
      assert BeValue([b]) == BeValue([]) * 256 + b;
    } else {
      var m := |rest| - 1;
      var both := [b] + rest;
      LeadingByte(b, rest[..m]);
      MulPow(b, Pow256(m));
      assert both[..|both| - 1] == [b] + rest[..m] && both[|both| - 1] == rest[m];
    }
  }

  const TAIL: seq<Byte> := seq(15, _ => 0xAA)
  const FIRST_SIXTH: Uuid := [0x2A] + TAIL
  const SECOND_SIXTH: Uuid := seq(16, _ => 0x55)

  lemma SixthKeys()
    ensures UuidToKey(FIRST_SIXTH, Lexical) == 0x2AAA_AAAA_AAAA_AAAA_AAAA_AAAA_AAAA_AAAA
    ensures UuidToKey(FIRST_SIXTH, SqlServer) == 0xAAAA_AAAA_AAAA_AAAA_AAAA_AAAA_AAAA_AA2A
    ensures forall order :: UuidToKey(SECOND_SIXTH, order) == 0x5555_5555_5555_5555_5555_5555_5555_5555
  {
    Pow256Of16();
    assert Pow256(15) * 256 == Pow256(16);
    UniformValue(0xAA, 15);
    UniformValue(0x55, 16);
    LeadingByte(0x2A, TAIL);
    assert TAIL == seq(15, _ => 0xAA);
    assert Significance(FIRST_SIXTH, SqlServer) == TAIL + [0x2A] by {
      OrderIsPermutation();
      forall i | 0 <= i < 16
        ensures FIRST_SIXTH[SQLSERVER_ORDER[i]] == (TAIL + [0x2A])[i]
      {
        assert SQLSERVER_ORDER[i] == 0 <==> i == 15;
      }
    }
    assert (TAIL + [0x2A])[..15] == TAIL;
    UniformSignificance(SECOND_SIXTH, 0x55, SqlServer);
    assert SECOND_SIXTH == seq(16, _ => 0x55);
  }

  lemma LexicalBound(k: nat, n: nat, u: Uuid)
    requires 0 < n && k <= n
    requires Rank(Lexical)(NIL) == 0 && Rank(Lexical)(MAX) == U128_LIMIT - 1
    requires Rank(Lexical)(u) == Cut(U128_LIMIT - 1, k, n)
    ensures UuidBounds(NIL, MAX, n, Lexical)[k] == u
  {
    RankBijective(Lexical);
    BoundAt(NIL, MAX, n, Rank(Lexical), Unrank(Lexical), k, U128_LIMIT - 1);
    assert Unrank(Lexical)(Rank(Lexical)(u)) == u;
  }

  /** Six lexical slices of the whole space duplicate rows of a `uniqueidentifier` column: the cuts
      2aaa..aa and 5555..55 ascend lexically and descend there. */
  lemma SixLexicalSlicesDuplicate()
    ensures exists u :: Hits(UuidSlices(NIL, MAX, 6, Lexical), Rank(SqlServer), Rank(SqlServer)(u)) >= 2
  {
    ExtremeKeys(Lexical);
    SixthKeys();
    CutIsFloor(U128_LIMIT - 1, 1, 6);
    CutIsFloor(U128_LIMIT - 1, 2, 6);
    LexicalBound(1, 6, FIRST_SIXTH);
    LexicalBound(2, 6, SECOND_SIXTH);
    WholeSpaceOnAnyBackend(6, Lexical, SqlServer);
    var bounds, rank := UuidBounds(NIL, MAX, 6, Lexical), Rank(SqlServer);
    assert rank(bounds[1]) > rank(bounds[2]);
  }
}
