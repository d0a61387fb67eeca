/** The boundary arithmetic every range planner rests on: the point `k/n` of the way along a span,
    rounded down, and the program's overflow-avoiding way of computing it.

    Product, quotient and remainder are defined by repeated addition and subtraction, and proved equal
    to `*`, `/` and `%` once, so that no other proof is about nonlinear arithmetic. */
module FloorDiv {
  import opened MachineInts

  function Times(x: nat, k: nat): nat {
    if k == 0 then 0 else Times(x, k - 1) + x
  }

  function Quot(x: nat, n: nat): nat
    requires n > 0
    decreases x
  {
    if x < n then 0 else 1 + Quot(x - n, n)
  }

  function Rem(x: nat, n: nat): (r: nat)
    requires n > 0
    ensures r < n
    decreases x
  {
    if x < n then x else Rem(x - n, n)
  }

  function CeilQuot(x: nat, n: nat): nat
    requires n > 0
  {
    Quot(x + n - 1, n)
  }

  /** The `k`-th of `n` boundary offsets along a span. */
  function Cut(span: nat, k: nat, n: nat): nat
    requires n > 0
  {
    Quot(Times(span, k), n)
  }

  // ----- Products ------------------------------------------------------------------------------

  lemma MulAdd(a: int, b: int, n: int)
    ensures (a + b) * n == a * n + b * n == n * (a + b)
  {
  }

  lemma MulMono(c: nat, x: nat, y: nat)
    requires x <= y
    ensures c * x <= c * y
  {
  }

  lemma SmallMultiple(d: int, n: int)
    requires n > 0 && -n < d * n < n
    ensures d == 0
  {
  }

  lemma {:induction false} TimesIsProduct(x: nat, k: nat)
    ensures Times(x, k) == x * k == k * x
  {
    if k > 0 {
      TimesIsProduct(x, k - 1);
      MulAdd(k - 1, 1, x);
    }
  }

  lemma TimesCommutes(x: nat, y: nat)
    ensures Times(x, y) == Times(y, x)
  {
    TimesIsProduct(x, y);
    TimesIsProduct(y, x);
  }

  lemma {:induction false} TimesAdd(x: nat, y: nat, k: nat)
    ensures Times(x + y, k) == Times(x, k) + Times(y, k)
  {
    if k > 0 {
      TimesAdd(x, y, k - 1);
    }
  }

  lemma {:induction false} TimesSplit(x: nat, j: nat, k: nat)
    requires j <= k
    ensures Times(x, k) == Times(x, j) + Times(x, k - j)
    decreases k
  {
    if j < k {
      TimesSplit(x, j, k - 1);
    }
  }

  lemma {:induction false} TimesOne(k: nat)
    ensures Times(1, k) == k
  {
    if k > 0 {
      TimesOne(k - 1);
    }
  }

  lemma {:induction false} TimesMono(x: nat, j: nat, k: nat)
    requires j <= k
    ensures Times(x, j) <= Times(x, k)
    ensures j < k && x > 0 ==> Times(x, j) < Times(x, k)
    decreases k
  {
    if j < k {
      TimesMono(x, j, k - 1);
    }
  }

  // ----- Quotients -----------------------------------------------------------------------------

  lemma {:induction false} QuotRem(x: nat, n: nat)
    requires n > 0
    ensures x == Times(n, Quot(x, n)) + Rem(x, n)
  {
    if x >= n {
      QuotRem(x - n, n);
    }
  }

  lemma DivUnique(x: int, n: int, q: int)
    requires n > 0 && q * n <= x < q * n + n
    ensures x / n == q
  {
    MulAdd(q, x / n - q, n);
    SmallMultiple(x / n - q, n);
  }

  lemma QuotIsDivision(x: nat, n: nat)
    requires n > 0
    ensures x / n == Quot(x, n) && x % n == Rem(x, n)
  {
    QuotRem(x, n);
    TimesIsProduct(n, Quot(x, n));
    DivUnique(x, n, Quot(x, n));
  }

  lemma {:induction false} QuotAdd(x: nat, y: nat, sum: nat, n: nat)
    requires n > 0 && sum == x + y
    ensures var carry := Rem(x, n) + Rem(y, n) >= n;
            && Quot(sum, n) == Quot(x, n) + Quot(y, n) + (if carry then 1 else 0)
            && Rem(sum, n) == Rem(x, n) + Rem(y, n) - (if carry then n else 0)
    decreases x + y
  {
    if x >= n {
      QuotAdd(x - n, y, sum - n, n);
    } else if y >= n {
      QuotAdd(x, y - n, sum - n, n);
    }
  }

  lemma {:induction false} QuotOfProduct(q: nat, n: nat)
    requires n > 0
    ensures Quot(Times(n, q), n) == q && Rem(Times(n, q), n) == 0
  {
    if q > 0 {
      QuotOfProduct(q - 1, n);
    }
  }

  lemma CeilQuotIs(x: nat, n: nat)
    requires n > 0
    ensures CeilQuot(x, n) == Quot(x, n) + if Rem(x, n) == 0 then 0 else 1
  {
    QuotAdd(x, n - 1, x + n - 1, n);
  }

  lemma {:induction false} QuotSmall(x: nat, n: nat)
    requires n > 0
    ensures Quot(x, n) <= x && (Quot(x, n) == 0 <==> x < n)
  {
    if x >= n {
      QuotSmall(x - n, n);
    }
  }

  // ----- Boundaries ----------------------------------------------------------------------------

  lemma CutIsFloor(span: nat, k: nat, n: nat)
    requires n > 0
    ensures (span * k) / n == Cut(span, k, n)
  {
    TimesIsProduct(span, k);
    QuotIsDivision(Times(span, k), n);
  }

  lemma CutEnds(span: nat, n: nat)
    requires n > 0
    ensures Cut(span, 0, n) == 0
    ensures Cut(span, n, n) == span
  {
    TimesCommutes(span, n);
    QuotOfProduct(span, n);
  }

  lemma QuotStep(x: nat, span: nat, y: nat, n: nat)
    requires n > 0 && y == x + span
    ensures var step := Quot(y, n) - Quot(x, n);
            && (step == Quot(span, n) || step == CeilQuot(span, n))
            && 0 <= step <= span
            && (if span < n then step <= 1 else 1 <= step)
  {
    QuotAdd(x, span, y, n);
    CeilQuotIs(span, n);
    QuotSmall(span, n);
    RemOfQuot(span, n);
  }

  /** Adjacent boundaries are `floor(span/n)` or `ceil(span/n)` apart. */
  lemma CutStep(span: nat, k: nat, n: nat)
    requires n > 0
    ensures var step := Cut(span, k + 1, n) - Cut(span, k, n);
            && (step == Quot(span, n) || step == CeilQuot(span, n))
            && 0 <= step <= span
            && (if span < n then step <= 1 else 1 <= step)
  {
    QuotStep(Times(span, k), span, Times(span, k + 1), n);
  }

  lemma {:induction false} RemOfQuot(x: nat, n: nat)
    requires n > 0
    ensures Rem(x, n) > 0 ==> Quot(x, n) < x
  {
    QuotSmall(x, n);
    if x >= n {
      RemOfQuot(x - n, n);
    }
  }

  lemma {:induction false} CutMonotone(span: nat, j: nat, k: nat, n: nat)
    requires n > 0 && j <= k
    ensures Cut(span, j, n) <= Cut(span, k, n)
    decreases k
  {
    if j < k {
      CutMonotone(span, j, k - 1, n);
      CutStep(span, k - 1, n);
    }
  }

  /** The final step is never the short one. */
  lemma CutLastStep(span: nat, n: nat)
    requires n > 0
    ensures span - Cut(span, n - 1, n) == CeilQuot(span, n)
  {
    TimesCommutes(span, n);
    QuotOfProduct(span, n);
    QuotAdd(Times(span, n - 1), span, Times(span, n), n);
    CeilQuotIs(span, n);
  }

  // ----- mul_div ------------------------------------------------------------------------------

  function DivU128(x: uint128, y: uint128): uint128
    requires y != 0
  {
    QuotIsDivision(x as nat, y as nat);
    QuotSmall(x as nat, y as nat);
    (x as int / y as int) as uint128
  }

  function ModU128(x: uint128, y: uint128): uint128
    requires y != 0
  {
    (x as int % y as int) as uint128
  }

  function WrapMul(x: uint128, y: uint128): uint128 {
    ((x as int * y as int) % U128_LIMIT) as uint128
  }

  function WrapAdd(x: uint128, y: uint128): uint128 {
    ((x as int + y as int) % U128_LIMIT) as uint128
  }

  /** `mul_div` as an unchecked build runs it: every product and sum is taken modulo 2^128.  A zero
      divisor panics. */
  function MulDiv(a: uint128, num: uint128, den: uint128): uint128
    requires den != 0
  {
    WrapAdd(WrapMul(DivU128(a, den), num), DivU128(WrapMul(ModU128(a, den), num), den))
  }

  /** No product or sum of the formula leaves 128 bits, so a checked build does not panic either. */
  predicate MulDivFits(a: uint128, num: uint128, den: uint128)
    requires den != 0
  {
    var whole, part := DivU128(a, den) as int * num as int, ModU128(a, den) as int * num as int;
    whole < U128_LIMIT && part < U128_LIMIT && whole + part / den as int < U128_LIMIT
  }

  lemma {:induction false} SplitProduct(a: nat, num: nat, den: nat)
    requires den > 0
    ensures Quot(Times(a, num), den) == Times(Quot(a, den), num) + Quot(Times(Rem(a, den), num), den)
  {
    if a >= den {
      SplitProduct(a - den, num, den);
      TimesAdd(a - den, den, num);
      TimesAdd(Quot(a - den, den), 1, num);
      TimesIsProduct(1, num);
      QuotOfProduct(num, den);
      QuotAdd(Times(a - den, num), Times(den, num), Times(a, num), den);
    } else {
      TimesIsProduct(0, num);
    }
  }

  lemma {:induction false} QuotStrictlyBelow(x: nat, y: nat, n: nat)
    requires 0 < n && x + n <= y
    ensures Quot(x, n) < Quot(y, n)
  {
    QuotAdd(x, y - x, y, n);
    QuotSmall(y - x, n);
  }

  lemma WrappedIff(whole: nat, part: nat, den: nat)
    requires 0 < den < U128_LIMIT && whole + Quot(part, den) < U128_LIMIT
    ensures (whole % U128_LIMIT + Quot(part % U128_LIMIT, den)) % U128_LIMIT == whole + Quot(part, den)
            <==> part < U128_LIMIT
  {
    if part >= U128_LIMIT {
      QuotStrictlyBelow(part % U128_LIMIT, part, den);
    }
  }

  /** The formula in terms of quotients. */
  lemma MulDivUnfolded(a: uint128, num: uint128, den: uint128)
    requires den != 0
    ensures var whole := Times(Quot(a as nat, den as nat), num as nat);
            var part := Times(Rem(a as nat, den as nat), num as nat);
            && MulDiv(a, num, den) as int
               == (whole % U128_LIMIT + Quot(part % U128_LIMIT, den as nat)) % U128_LIMIT
            && (MulDivFits(a, num, den) <==>
                whole < U128_LIMIT && part < U128_LIMIT && whole + Quot(part, den as nat) < U128_LIMIT)
  {
    var q, r := Quot(a as nat, den as nat), Rem(a as nat, den as nat);
    QuotIsDivision(a as nat, den as nat);
    assert DivU128(a, den) as int == q && ModU128(a, den) as int == r;
    TimesIsProduct(q, num as nat);
    TimesIsProduct(r, num as nat);
    QuotIsDivision(Times(r, num as nat) % U128_LIMIT, den as nat);
    QuotIsDivision(Times(r, num as nat), den as nat);
  }

  /** `mul_div` claims to be exact whenever the quotient fits 128 bits.  It is exact, and free of
      overflow, for precisely those inputs whose remainder term also fits. */
  lemma MulDivExactIff(a: uint128, num: uint128, den: uint128)
    requires den != 0 && Cut(a as nat, num as nat, den as nat) < U128_LIMIT
    ensures MulDiv(a, num, den) as int == Cut(a as nat, num as nat, den as nat)
            <==> Times(Rem(a as nat, den as nat), num as nat) < U128_LIMIT
    ensures MulDivFits(a, num, den) <==> Times(Rem(a as nat, den as nat), num as nat) < U128_LIMIT
  {
    MulDivUnfolded(a, num, den);
    SplitProduct(a as nat, num as nat, den as nat);
    WrappedIff(Times(Quot(a as nat, den as nat), num as nat), Times(Rem(a as nat, den as nat), num as nat), den as nat);
  }

  /** An input on which the claim fails: 2^127 * 2 / (2^127 + 1) is 1, `mul_div` yields 0. */
  lemma MulDivOverclaims()
    ensures var a, num, den := 0x8000_0000_0000_0000_0000_0000_0000_0000, 2,
                               0x8000_0000_0000_0000_0000_0000_0000_0001;
            && a * num / den == 1
            && MulDiv(a as uint128, num as uint128, den as uint128) == 0
  {
  }

  lemma SmallProducts(a: nat, num: nat, den: nat)
    requires num <= den <= 0xFFFF_FFFF && 0 < den
    ensures Times(Rem(a, den), num) < U128_LIMIT
    ensures Cut(a, num, den) <= a
  {
    TimesMono(Rem(a, den), num, 0xFFFF_FFFF);
    TimesIsProduct(Rem(a, den), 0xFFFF_FFFF);
    CutMonotone(a, num, den, den);
    CutEnds(a, den);
  }

  /** For the planners' arguments no intermediate result leaves 128 bits, and the value is the exact
      boundary. */
  lemma MulDivIsCut(a: uint128, num: uint128, den: uint128)
    requires den != 0 && num <= den <= 0xFFFF_FFFF
    ensures MulDivFits(a, num, den)
    ensures MulDiv(a, num, den) as int == Cut(a as nat, num as nat, den as nat) <= a as int
  {
    SmallProducts(a as nat, num as nat, den as nat);
    MulDivExactIff(a, num, den);
  }

  /** `mul_div` as the planners call it. */
  method ComputeCut(a: uint128, num: uint32, den: uint32) returns (cut: uint128)
    requires den != 0 && num <= den
    ensures cut as int == Cut(a as nat, num as nat, den as nat) <= a as int
  {
    MulDivIsCut(a, num as uint128, den as uint128);
    cut := MulDiv(a, num as uint128, den as uint128);
  }
}
