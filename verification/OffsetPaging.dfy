/** Splitting a query into LIMIT/OFFSET pages. */
module OffsetPaging {
  import opened MachineInts
  import opened FloorDiv
  import opened Wrappers
  import opened Bags

  datatype Page = Page(limit: nat, offset: nat)

  function Min(a: nat, b: nat): nat {
    if a < b then a else b
  }

  /** The rows `LIMIT limit OFFSET offset` takes of an ordered result. */
  function PageOf<R>(ordered: seq<R>, p: Page): seq<R> {
    ordered[Min(p.offset, |ordered|)..Min(p.offset + p.limit, |ordered|)]
  }

  function PagesOf<R>(ordered: seq<R>, pages: seq<Page>): (parts: seq<seq<R>>)
    ensures |parts| == |pages|
  {
    seq(|pages|, i requires 0 <= i < |pages| => PageOf(ordered, pages[i]))
  }

  /** `count` consecutive pages of `size` rows, the last cut off at `total`. */
  function Pages(total: nat, size: nat, count: nat): (pages: seq<Page>)
    requires count > 0 ==> Times(size, count - 1) < total
    ensures |pages| == count
  {
    if count == 0 then []
    else
      TimesMono(size, if count > 1 then count - 2 else 0, count - 1);
      Pages(total, size, count - 1)
      + [Page(Min(size, total - Times(size, count - 1)), Times(size, count - 1))]
  }

  /** The number of rows after rounding `total` up to whole pages: where the loop's offset ends. */
  function RoundedUp(total: nat, size: nat): nat
    requires size > 0
  {
    Times(size, CeilQuot(total, size))
  }

  lemma WholePages(total: nat, size: nat)
    requires total > 0 && size > 0
    ensures var count := CeilQuot(total, size);
            && 0 < count <= total
            && Times(size, count - 1) < total <= Times(size, count) < total + size
  {
    CeilQuotIs(total, size);
    QuotRem(total, size);
    QuotSmall(total, size);
    RemOfQuot(total, size);
  }

  function OffsetPages(total: nat, n: nat): seq<Page> {
    if n == 0 || total == 0 then []
    else
      WholePages(total, n);
      var size := CeilQuot(total, n);
      WholePages(total, size);
      Pages(total, size, CeilQuot(total, size))
  }

  /** One turn of the loop: a page whose offset is still below the total. */
  lemma NextPage(total: nat, size: nat, k: nat)
    requires size > 0 && Times(size, k) < total
    ensures k < CeilQuot(total, size)
    ensures Times(size, k + 1) == Times(size, k) + size <= RoundedUp(total, size)
  {
    WholePages(total, size);
    if k >= CeilQuot(total, size) {
      TimesMono(size, CeilQuot(total, size), k);
    }
    TimesMono(size, k + 1, CeilQuot(total, size));
  }

  lemma AllPagesDone(total: nat, size: nat, k: nat)
    requires total > 0 && size > 0 && total <= Times(size, k) && k <= CeilQuot(total, size)
    ensures k == CeilQuot(total, size)
  {
    WholePages(total, size);
    if k < CeilQuot(total, size) {
      TimesMono(size, k, CeilQuot(total, size) - 1);
    }
  }

  /** `u64::div_ceil`. */
  method DivCeil(x: uint64, y: uint64) returns (q: uint64)
    requires y != 0
    ensures q as nat == CeilQuot(x as nat, y as nat)
  {
    QuotIsDivision(x as nat, y as nat);
    CeilQuotIs(x as nat, y as nat);
    QuotSmall(x as nat, y as nat);
    RemOfQuot(x as nat, y as nat);
    var d: int, r: int := x as int / y as int, x as int % y as int;
    q := (if r > 0 then d + 1 else d) as uint64;
  }

  /** `by_offset`.  The loop's `offset += page` is a checked 64-bit addition; `None` is the overflow.
      It happens for exactly the totals that rounded up to whole pages leave 64 bits. */
  method ByOffset(totalRows: uint64, partitions: uint32) returns (out: Option<seq<Page>>)
    ensures out.None? == (&& totalRows > 0
                          && partitions > 0
                          && RoundedUp(totalRows as nat, PageSize(totalRows as nat, partitions as nat)) >= U64_LIMIT)
    ensures out.Some? ==> out.value == OffsetPages(totalRows as nat, partitions as nat)
  {
    if partitions == 0 || totalRows == 0 {
      return Some([]);
    }
    ghost var total, size := totalRows as nat, PageSize(totalRows as nat, partitions as nat);
    var page := DivCeil(totalRows, partitions as uint64);
    var pages: seq<Page> := [];
    var offset: uint64 := 0;
    while offset < totalRows
      invariant |pages| <= CeilQuot(total, size)
      invariant offset as int == Times(size, |pages|) <= RoundedUp(total, size)
      invariant |pages| > 0 ==> Times(size, |pages| - 1) < total
      invariant pages == Pages(total, size, |pages|)
      decreases CeilQuot(total, size) - |pages|
    {
      NextPage(total, size, |pages|);
      var limit := if page < totalRows - offset then page else totalRows - offset;
      pages := pages + [Page(limit as nat, offset as nat)];
      if offset as int + page as int >= U64_LIMIT {
        return None;
      }
      offset := offset + page;
    }
    AllPagesDone(total, size, |pages|);
    return Some(pages);
  }

  /** Rows per page: the total divided by the number of partitions, rounded up. */
  function PageSize(total: nat, n: nat): (size: nat)
    requires total > 0 && n > 0
    ensures size > 0
  {
    WholePages(total, n);
    CeilQuot(total, n)
  }

  /** Totals a signed 64-bit parameter can express never overflow. */
  lemma SignedTotalsNeverOverflow(total: nat, n: nat)
    requires 0 < total <= 0x7FFF_FFFF_FFFF_FFFF && n > 0
    ensures RoundedUp(total, PageSize(total, n)) < U64_LIMIT
  {
    WholePages(total, n);
    WholePages(total, PageSize(total, n));
  }

  /** The largest 64-bit total in two pages does overflow. */
  lemma LargestTotalOverflows()
    ensures PageSize(0xFFFF_FFFF_FFFF_FFFF, 2) == 0x8000_0000_0000_0000
    ensures RoundedUp(0xFFFF_FFFF_FFFF_FFFF, 0x8000_0000_0000_0000) == 0x1_0000_0000_0000_0000 == U64_LIMIT
  {
    var total, half := U64_LIMIT - 1, U64_LIMIT / 2;
    QuotIsDivision(total + 2 - 1, 2);
    QuotIsDivision(total + half - 1, half);
    TimesIsProduct(half, 2);
  }

  // ----- An unchecked build --------------------------------------------------------------------

  /** The loop's offset before page `k` when `offset += page` wraps. */
  function WrappedOffset(size: nat, k: nat): nat {
    if k == 0 then 0 else (WrappedOffset(size, k - 1) + size) % U64_LIMIT
  }

  lemma {:induction false} UnwrappedOffset(size: nat, k: nat)
    requires Times(size, k) < U64_LIMIT
    ensures WrappedOffset(size, k) == Times(size, k)
  {
    if k > 0 {
      UnwrappedOffset(size, k - 1);
    }
  }

  /** The unchecked loop emits page `k` if it has not stopped by then. */
  ghost predicate UncheckedEmits(total: nat, size: nat, k: nat) {
    forall j :: 0 <= j <= k ==> WrappedOffset(size, j) < total
  }

  lemma UncheckedUntil(total: nat, size: nat, k: nat)
    requires Times(size, k) < total < U64_LIMIT
    ensures UncheckedEmits(total, size, k) && WrappedOffset(size, k) == Times(size, k)
  {
    forall j | 0 <= j <= k
      ensures WrappedOffset(size, j) == Times(size, j) < total
    {
      TimesMono(size, j, k);
      UnwrappedOffset(size, j);
    }
  }

  lemma WrapOnce(x: nat)
    requires x < 2 * U64_LIMIT
    ensures x % U64_LIMIT == if x < U64_LIMIT then x else x - U64_LIMIT
  {
  }

  lemma UncheckedBeyond(total: nat, size: nat, count: nat)
    requires 0 < count && 0 < size <= total < U64_LIMIT
    requires Times(size, count - 1) < total <= Times(size, count) < total + size
    ensures UncheckedEmits(total, size, count) <==> Times(size, count) >= U64_LIMIT
    ensures Times(size, count) >= U64_LIMIT ==> WrappedOffset(size, count) < size
  {
    UncheckedUntil(total, size, count - 1);
    var last := Times(size, count - 1);
    WrapOnce(last + size);
    assert WrappedOffset(size, count) == (last + size) % U64_LIMIT;
    assert UncheckedEmits(total, size, count) <==> WrappedOffset(size, count) < total;
  }

  /** An unchecked build emits the right pages, and stops after them exactly for the totals a checked build
      accepts.  For the others it goes on, from an offset inside the first page. */
  lemma UncheckedOverrunsIff(total: nat, n: nat)
    requires 0 < total < U64_LIMIT && n > 0
    ensures var pages, size := OffsetPages(total, n), PageSize(total, n);
            && (forall k :: 0 <= k < |pages| ==>
                  UncheckedEmits(total, size, k) && WrappedOffset(size, k) == pages[k].offset)
            && (UncheckedEmits(total, size, |pages|) <==> RoundedUp(total, size) >= U64_LIMIT)
            && (RoundedUp(total, size) >= U64_LIMIT ==> WrappedOffset(size, |pages|) < size)
  {
    var pages, size := OffsetPages(total, n), PageSize(total, n);
    WholePages(total, n);
    WholePages(total, size);
    UncheckedBeyond(total, size, CeilQuot(total, size));
    forall k | 0 <= k < |pages|
      ensures UncheckedEmits(total, size, k) && WrappedOffset(size, k) == pages[k].offset
    {
      TimesMono(size, k, |pages| - 1);
      PageLimits(total, size, |pages|, k);
      UncheckedUntil(total, size, k);
    }
  }

  // ----- What the pages mean -------------------------------------------------------------------

  lemma {:induction false} PageLimits(total: nat, size: nat, count: nat, i: nat)
    requires i < count && size > 0 && Times(size, count - 1) < total
    ensures Pages(total, size, count)[i].limit == if i < count - 1 then size else Min(size, total - Times(size, i))
    ensures Pages(total, size, count)[i].offset == Times(size, i)
  {
    TimesMono(size, if count > 1 then count - 2 else 0, count - 1);
    if i < count - 1 {
      PageLimits(total, size, count - 1, i);
    }
  }

  /** A quotient rounded up is the least number of pages that hold the total. */
  lemma CeilQuotIsLeast(total: nat, size: nat)
    requires total > 0 && size > 0
    ensures var q := CeilQuot(total, size);
            q > 0 && (q - 1) * size < total <= q * size
  {
    WholePages(total, size);
    TimesIsProduct(size, CeilQuot(total, size) - 1);
    TimesIsProduct(size, CeilQuot(total, size));
  }

  lemma PageCountAtMost(total: nat, n: nat)
    requires total > 0 && n > 0
    ensures |OffsetPages(total, n)| <= n
  {
    var size := PageSize(total, n);
    var count := CeilQuot(total, size);
    WholePages(total, n);
    WholePages(total, size);
    TimesCommutes(size, n);
    if count > n {
      TimesMono(size, n, count - 1);
    }
  }

  lemma OffsetPageAt(total: nat, n: nat, i: nat)
    requires total > 0 && n > 0 && i < |OffsetPages(total, n)|
    ensures var pages, size := OffsetPages(total, n), PageSize(total, n);
            && pages[i].offset == i * size < total
            && pages[i].limit == (if i < |pages| - 1 then size else total - i * size) > 0
  {
    var size := PageSize(total, n);
    var count := CeilQuot(total, size);
    WholePages(total, n);
    WholePages(total, size);
    PageLimits(total, size, count, i);
    TimesMono(size, i, count - 1);
    TimesIsProduct(size, i);
  }

  /** The page size is the total over `n` rounded up.  There are as few pages of that size as hold the
      total, at most `n`: page `i` starts at row `i * size`, all are full except perhaps the last, and none
      is empty. */
  lemma PageCountAndSizes(total: nat, n: nat)
    requires total > 0 && n > 0
    ensures var pages, size := OffsetPages(total, n), PageSize(total, n);
            && (size - 1) * n < total <= size * n
            && 1 <= |pages| <= n
            && (|pages| - 1) * size < total <= |pages| * size
            && forall i :: 0 <= i < |pages| ==>
                 && pages[i].offset == i * size
                 && pages[i].limit == (if i < |pages| - 1 then size else total - i * size) > 0
  {
    CeilQuotIsLeast(total, n);
    CeilQuotIsLeast(total, PageSize(total, n));
    PageCountAtMost(total, n);
    forall i | 0 <= i < |OffsetPages(total, n)|
      ensures var pages, size := OffsetPages(total, n), PageSize(total, n);
              && pages[i].offset == i * size
              && pages[i].limit == (if i < |pages| - 1 then size else total - i * size) > 0
    {
      OffsetPageAt(total, n, i);
    }
  }

  lemma PagesSnoc(total: nat, size: nat, count: nat)
    requires count > 0 && Times(size, count - 1) < total
    ensures count > 1 ==> Times(size, count - 2) < total
    ensures var done := Times(size, count - 1);
            Pages(total, size, count) == Pages(total, size, count - 1) + [Page(Min(size, total - done), done)]
  {
    TimesMono(size, if count > 1 then count - 2 else 0, count - 1);
  }

  lemma {:induction false} PagesArePrefix<R>(ordered: seq<R>, total: nat, size: nat, count: nat)
    requires count > 0 ==> Times(size, count - 1) < total
    ensures Flatten(PagesOf(ordered, Pages(total, size, count)))
            == ordered[..Min(Min(Times(size, count), total), |ordered|)]
  {
    if count > 0 {
      PagesSnoc(total, size, count);
      PagesArePrefix(ordered, total, size, count - 1);
      ExtendPrefix(ordered, Pages(total, size, count - 1), total, size, Times(size, count - 1));
    }
  }

  lemma ExtendPrefix<R>(ordered: seq<R>, pages: seq<Page>, total: nat, size: nat, done: nat)
    requires done < total && Flatten(PagesOf(ordered, pages)) == ordered[..Min(Min(done, total), |ordered|)]
    ensures Flatten(PagesOf(ordered, pages + [Page(Min(size, total - done), done)]))
            == ordered[..Min(Min(done + size, total), |ordered|)]
  {
    LastPage(ordered, pages, Page(Min(size, total - done), done));
    PageExtendsPrefix(ordered, total, size, done);
  }

  lemma LastPage<R>(ordered: seq<R>, pages: seq<Page>, last: Page)
    ensures Flatten(PagesOf(ordered, pages + [last])) == Flatten(PagesOf(ordered, pages)) + PageOf(ordered, last)
  {
    var parts := PagesOf(ordered, pages + [last]);
    assert parts[..|pages|] == PagesOf(ordered, pages);
  }

  lemma PageExtendsPrefix<R>(ordered: seq<R>, total: nat, size: nat, done: nat)
    requires done < total
    ensures ordered[..Min(done, |ordered|)] + PageOf(ordered, Page(Min(size, total - done), done))
            == ordered[..Min(Min(done + size, total), |ordered|)]
  {
  }

  /** Put together, the pages are the first `total` rows of the ordered result, in that order. */
  lemma OffsetPagesArePrefix<R>(ordered: seq<R>, total: nat, n: nat)
    requires n > 0
    ensures Flatten(PagesOf(ordered, OffsetPages(total, n))) == ordered[..Min(total, |ordered|)]
  {
    if total > 0 {
      WholePages(total, PageSize(total, n));
      PagesArePrefix(ordered, total, PageSize(total, n), CeilQuot(total, PageSize(total, n)));
    }
  }
}
