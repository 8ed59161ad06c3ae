/**
 The conversion of a delay in microseconds into scheduler ticks, as made for
 OS20 and OS21 in 32-bit arithmetic. A divisor, chosen so that the product
 cannot overflow, is applied to both the delay and the million.
 */
module TaskDelay {
  import opened Words

  const MAX := 0xFFFF_FFFF
  const MILLION := 1_000_000

  /** What the conversion hands to the scheduler, if it does not divide by 0. */
  datatype Delay = Ticks(count: U32) | DivisionByZero

  /** The exact conversion, as another build makes it in 64 bits. */
  function ExactTicks(microsec: U32, clksPerSec: U32): int {
    (microsec * clksPerSec) / MILLION
  }

  function TaskDelayUs(microsec: U32, clksPerSec: U32): Delay {
    if clksPerSec == 0 then DivisionByZero else
    LimitPositive(clksPerSec);
    var divisor := (microsec / (MAX / clksPerSec) + 1) % WORD;
    if divisor == 0 then DivisionByZero else
    var scale := MILLION / divisor;
    if scale == 0 then DivisionByZero else
    ProductNonNegative(microsec / divisor, clksPerSec);
    QuotientInRange((microsec / divisor) * clksPerSec % WORD, scale);
    Ticks((microsec / divisor) * clksPerSec % WORD / scale)
  }

  lemma LimitPositive(clksPerSec: U32)
    requires clksPerSec >= 1
    ensures 1 <= MAX / clksPerSec <= MAX
  {
    DivShrinks(MAX, clksPerSec);
    MulOutside(clksPerSec, 1 - MAX / clksPerSec);
    Distribute(clksPerSec, MAX / clksPerSec, 1 - MAX / clksPerSec);
  }

  lemma QuotientInRange(x: U32, d: nat)
    requires d > 0
    ensures 0 <= x / d < WORD
  {
    DivShrinks(x, d);
  }

  /** The delays that fault, for a given clock: from 10^6 times the limit up. */
  lemma FaultsIff(microsec: U32, clksPerSec: U32)
    ensures TaskDelayUs(microsec, clksPerSec).DivisionByZero? <==>
            clksPerSec == 0 || microsec >= MILLION * (MAX / clksPerSec)
  {
    if clksPerSec > 0 {
      LimitPositive(clksPerSec);
      var limit := MAX / clksPerSec;
      var whole := microsec / limit;
      DivShrinks(microsec, limit);
      QuotientAtLeastIff(microsec, limit, MILLION);
      if whole < MILLION {
        QuotientAtLeastIff(MILLION, whole + 1, 1);
      } else if whole + 1 < WORD {
        QuotientUnique(MILLION, whole + 1, 0, MILLION);
      }
    }
  }

  lemma QuotientAtLeastIff(x: nat, d: int, k: int)
    requires d > 0
    ensures x / d >= k <==> x >= d * k
  {
    var q := x / d;
    Distribute(d, q - k, k);
    MulOutside(d, q - k);
  }

  /** The clock rates for which no delay faults: 1 to 999992 a second. */
  lemma NeverFaultsIff(clksPerSec: U32)
    ensures (forall microsec: U32 :: TaskDelayUs(microsec, clksPerSec).Ticks?) <==>
            1 <= clksPerSec <= 999_992
  {
    if clksPerSec > 0 {
      var limit := MAX / clksPerSec;
      LimitPositive(clksPerSec);
      QuotientAtLeastIff(MAX, clksPerSec, 4295);
      if clksPerSec <= 999_992 {
        forall microsec: U32
          ensures TaskDelayUs(microsec, clksPerSec).Ticks?
        {
          FaultsIff(microsec, clksPerSec);
        }
      } else {
        FaultsIff(MAX, clksPerSec);
      }
    } else {
      FaultsIff(0, clksPerSec);
    }
  }

  /** Divisor, reduced delay and reduced million of a delay that does not
      fault, with no reduction mod 2^32 anywhere. */
  lemma NoOverflow(microsec: U32, clksPerSec: U32)
    requires TaskDelayUs(microsec, clksPerSec).Ticks?
    ensures var limit := MAX / clksPerSec;
            limit >= 1
    ensures var divisor := microsec / (MAX / clksPerSec) + 1;
            && 1 <= divisor <= MILLION
            && MILLION / divisor >= 1
            && 0 <= (microsec / divisor) * clksPerSec <= MAX
            && TaskDelayUs(microsec, clksPerSec).count ==
               (microsec / divisor) * clksPerSec / (MILLION / divisor)
  {
    LimitPositive(clksPerSec);
    FaultsIff(microsec, clksPerSec);
    var limit := MAX / clksPerSec;
    QuotientAtLeastIff(microsec, limit, MILLION);
    DivShrinks(microsec, limit);
    QuotientAtLeastIff(MILLION, microsec / limit + 1, 1);
    ProductFits(microsec, clksPerSec, limit);
  }

  /** The divisor is large enough: it brings the delay below the limit. */
  lemma ProductFits(m: nat, c: nat, limit: nat)
    requires limit >= 1 && c * limit <= MAX
    ensures m / limit + 1 >= 1
    ensures 0 <= m / (m / limit + 1) * c <= MAX
  {
    DivShrinks(m, limit);
    var d := m / limit + 1;
    Distribute(limit, m / limit, 1);
    QuotientAtLeastIff(m, d, limit);
    DivShrinks(m, d);
    var reduced: nat := m / d;
    ProductNonNegative(reduced, c);
    ProductNonNegative(limit - reduced, c);
    Distribute(c, reduced, limit - reduced);
  }

  /** Below the limit the conversion is exact. */
  lemma ExactBelowLimit(microsec: U32, clksPerSec: U32)
    requires clksPerSec >= 1 && microsec < MAX / clksPerSec
    ensures TaskDelayUs(microsec, clksPerSec) == Ticks(ExactTicks(microsec, clksPerSec))
  {
    LimitPositive(clksPerSec);
    FaultsIff(microsec, clksPerSec);
    NoOverflow(microsec, clksPerSec);
    QuotientUnique(microsec, MAX / clksPerSec, 0, microsec);
  }

  /** Anywhere, rounding both quotients down moves the result by less than one
      divisor in the delay and one in the million. */
  lemma WithinOneDivisor(microsec: U32, clksPerSec: U32)
    requires TaskDelayUs(microsec, clksPerSec).Ticks?
    ensures MAX / clksPerSec >= 1
    ensures var divisor := microsec / (MAX / clksPerSec) + 1;
            var ticks := TaskDelayUs(microsec, clksPerSec).count;
            && ticks * (MILLION - divisor + 1) <= microsec * clksPerSec
            && (microsec - divisor + 1) * clksPerSec < (ticks + 1) * MILLION
  {
    NoOverflow(microsec, clksPerSec);
    var divisor := microsec / (MAX / clksPerSec) + 1;
    DivShrinks(microsec, divisor);
    RatioBounds(microsec, clksPerSec, divisor);
  }

  /** Scaling back a ratio of rounded quotients. */
  lemma RatioBounds(m: nat, c: nat, d: int)
    requires 1 <= d <= MILLION && MILLION / d >= 1
    requires (m / d) * c >= 0
    ensures var t := (m / d) * c / (MILLION / d);
            t * (MILLION - d + 1) <= m * c && (m - d + 1) * c < (t + 1) * MILLION
  {
    DivShrinks(m, d);
    var u: nat, v: nat := m / d, MILLION / d;
    var n: nat := u * c;
    DivShrinks(n, v);
    var t: nat := n / v;
    UpperBound(m, c, d, u, v, t);
    LowerBound(m, c, d, u, v, t);
  }

  lemma UpperBound(m: nat, c: nat, d: nat, u: nat, v: nat, t: nat)
    requires t * v <= u * c
    requires d * u <= m && MILLION - d + 1 <= d * v
    ensures t * (MILLION - d + 1) <= m * c
  {
    MulMonotone(MILLION - d + 1, d * v, t);
    MulMonotone(t * v, u * c, d);
    MulMonotone(d * u, m, c);
    MulAssociates(d, t, v);
    Associate(d, u, c);
  }

  lemma LowerBound(m: nat, c: nat, d: nat, u: nat, v: nat, t: nat)
    requires d > 0 && u * c < (t + 1) * v
    requires m - d + 1 <= d * u && d * v <= MILLION
    ensures (m - d + 1) * c < (t + 1) * MILLION
  {
    MulMonotone(d * v, MILLION, t + 1);
    MulMonotone(u * c + 1, (t + 1) * v, d);
    MulMonotone(m - d + 1, d * u, c);
    MulAssociates(d, t + 1, v);
    Associate(d, u, c);
  }

  lemma QuotientMonotone(x: nat, y: nat, d: int)
    requires d > 0 && x <= y
    ensures x / d <= y / d
  {
    QuotientAtLeastIff(y, d, x / d);
  }

  /** As long as two delays get one divisor, the longer one gets no fewer
      ticks. */
  lemma SameDivisorKeepsOrder(shorter: U32, longer: U32, clksPerSec: U32)
    requires shorter <= longer
    requires TaskDelayUs(shorter, clksPerSec).Ticks? && TaskDelayUs(longer, clksPerSec).Ticks?
    requires clksPerSec >= 1 && MAX / clksPerSec >= 1
    requires shorter / (MAX / clksPerSec) == longer / (MAX / clksPerSec)
    ensures TaskDelayUs(shorter, clksPerSec).count <= TaskDelayUs(longer, clksPerSec).count
  {
    NoOverflow(shorter, clksPerSec);
    NoOverflow(longer, clksPerSec);
    var divisor := shorter / (MAX / clksPerSec) + 1;
    QuotientMonotone(shorter, longer, divisor);
    MulMonotone(shorter / divisor, longer / divisor, clksPerSec);
    QuotientMonotone((shorter / divisor) * clksPerSec, (longer / divisor) * clksPerSec, MILLION / divisor);
  }

  /** At `k` limits the divisor goes up from `k` to `k + 1`: whether the
      reduced delay then falls further than the reduced million. */
  predicate StepsDown(k: nat, clksPerSec: U32)
    requires 1 <= k < MILLION && 1 <= clksPerSec
  {
    LimitPositive(clksPerSec);
    QuotientAtLeastIff(MILLION, k, 1);
    QuotientAtLeastIff(MILLION, k + 1, 1);
    var limit := MAX / clksPerSec;
    (k * limit) / (k + 1) * clksPerSec / (MILLION / (k + 1)) < (limit - 1) * clksPerSec / (MILLION / k)
  }

  /** The last delay with divisor `k` against the first with `k + 1`. */
  lemma FewerTicksAtStepIff(k: nat, clksPerSec: U32, microsec: U32)
    requires 1 <= k < MILLION && 1 <= clksPerSec
    requires microsec == k * (MAX / clksPerSec)
    ensures 1 <= microsec
    ensures TaskDelayUs(microsec - 1, clksPerSec).Ticks? && TaskDelayUs(microsec, clksPerSec).Ticks?
    ensures TaskDelayUs(microsec, clksPerSec).count < TaskDelayUs(microsec - 1, clksPerSec).count <==>
            StepsDown(k, clksPerSec)
  {
    LimitPositive(clksPerSec);
    AtMultiple(k, MAX / clksPerSec, microsec);
    FaultsIff(microsec - 1, clksPerSec);
    FaultsIff(microsec, clksPerSec);
    NoOverflow(microsec - 1, clksPerSec);
    NoOverflow(microsec, clksPerSec);
  }

  lemma AtMultiple(k: nat, limit: int, m: int)
    requires 1 <= k < MILLION && 1 <= limit && m == k * limit
    ensures 1 <= m < MILLION * limit
    ensures m / limit == k
    ensures (m - 1) / limit == k - 1
    ensures (m - 1) / k == limit - 1
  {
    MulMonotone(1, k, limit);
    MulMonotone(k + 1, MILLION, limit);
    Distribute(limit, k, 1);
    QuotientUnique(m, limit, k, 0);
    Distribute(limit, k, -1);
    QuotientUnique(m - 1, limit, k - 1, limit - 1);
    Distribute(k, limit, -1);
    QuotientUnique(m - 1, k, limit - 1, k - 1);
  }

  /** One microsecond more gives fewer ticks exactly at a multiple of the limit
      at which the conversion steps down. */
  lemma FewerTicksIff(microsec: U32, clksPerSec: U32)
    requires 1 <= microsec && 1 <= clksPerSec && microsec < MILLION * (MAX / clksPerSec)
    ensures TaskDelayUs(microsec - 1, clksPerSec).Ticks? && TaskDelayUs(microsec, clksPerSec).Ticks?
    ensures TaskDelayUs(microsec, clksPerSec).count < TaskDelayUs(microsec - 1, clksPerSec).count <==>
            exists k :: 1 <= k < MILLION && microsec == k * (MAX / clksPerSec) && StepsDown(k, clksPerSec)
  {
    LimitPositive(clksPerSec);
    FaultsIff(microsec - 1, clksPerSec);
    FaultsIff(microsec, clksPerSec);
    var limit := MAX / clksPerSec;
    if k :| 1 <= k < MILLION && microsec == k * limit {
      FewerTicksAtStepIff(k, clksPerSec, microsec);
      MultipleUnique(k, limit, microsec);
    } else {
      BetweenMultiples(microsec, limit);
      SameDivisorKeepsOrder(microsec - 1, microsec, clksPerSec);
    }
  }

  lemma MultipleUnique(k: int, limit: int, m: int)
    requires limit >= 1 && m == k * limit
    ensures forall j :: m == j * limit ==> j == k
  {
    forall j | m == j * limit
      ensures j == k
    {
      Distribute(limit, j, -k);
      MulOutside(limit, j - k);
    }
  }

  lemma BetweenMultiples(m: int, limit: int)
    requires limit >= 1 && 1 <= m < MILLION * limit
    requires forall k :: 1 <= k < MILLION ==> m != k * limit
    ensures (m - 1) / limit == m / limit
  {
    var k, low := m / limit, m % limit;
    QuotientAtLeastIff(m, limit, MILLION);
    DivShrinks(m, limit);
    assert m == k * limit + low;
    QuotientUnique(m - 1, limit, k, low - 1);
  }

  /** No delay that the clock can convert gets more ticks than a longer one. */
  predicate KeepsOrder(clksPerSec: U32) {
    forall shorter: U32, longer: U32 ::
      shorter <= longer && TaskDelayUs(longer, clksPerSec).Ticks? ==>
      && TaskDelayUs(shorter, clksPerSec).Ticks?
      && TaskDelayUs(shorter, clksPerSec).count <= TaskDelayUs(longer, clksPerSec).count
  }

  /** The order of delays is decided at the multiples of the limit. */
  lemma OrderIsStepwise(clksPerSec: U32)
    requires 1 <= clksPerSec
    ensures KeepsOrder(clksPerSec) <==>
            (forall k :: 1 <= k < MILLION && k * (MAX / clksPerSec) < WORD ==> !StepsDown(k, clksPerSec))
  {
    LimitPositive(clksPerSec);
    var limit := MAX / clksPerSec;
    if k :| 1 <= k < MILLION && k * limit < WORD && StepsDown(k, clksPerSec) {
      ProductNonNegative(k, limit);
      FewerTicksAtStepIff(k, clksPerSec, k * limit);
    } else {
      forall shorter: U32, longer: U32 | shorter <= longer && TaskDelayUs(longer, clksPerSec).Ticks?
        ensures TaskDelayUs(shorter, clksPerSec).Ticks?
        ensures TaskDelayUs(shorter, clksPerSec).count <= TaskDelayUs(longer, clksPerSec).count
      {
        OrderKeptUpTo(shorter, longer, clksPerSec);
      }
    }
  }

  /** Without a step down on the way, ticks never fall between two delays. */
  lemma {:induction false} OrderKeptUpTo(shorter: U32, longer: U32, clksPerSec: U32)
    requires 1 <= clksPerSec && shorter <= longer && TaskDelayUs(longer, clksPerSec).Ticks?
    requires forall k :: 1 <= k < MILLION && shorter < k * (MAX / clksPerSec) <= longer ==>
                           !StepsDown(k, clksPerSec)
    ensures TaskDelayUs(shorter, clksPerSec).Ticks?
    ensures TaskDelayUs(shorter, clksPerSec).count <= TaskDelayUs(longer, clksPerSec).count
    decreases longer
  {
    if shorter < longer {
      FaultsIff(longer, clksPerSec);
      FewerTicksIff(longer, clksPerSec);
      OrderKeptUpTo(shorter, longer - 1, clksPerSec);
    }
  }

  // ----- which clocks keep the order of delays -----

  /** The step at k, with its four quotients named. The reduced delay, in
      ticks, is within k clocks of its exact share of the whole product. */
  lemma StepsDownIff(k: nat, c: U32, product: int, reduced: int, b1: int, b2: int)
    requires 1 <= k < MILLION && 1 <= c
    requires product == c * (MAX / c) && reduced == (k * (MAX / c)) / (k + 1) * c
    requires 0 <= MILLION - k * b1 < k
    requires 0 <= MILLION - (k + 1) * b2 < k + 1
    ensures b1 >= 1 && b2 >= 1
    ensures StepsDown(k, c) <==> reduced / b2 < (product - c) / b1
    ensures MAX - c < product <= MAX
    ensures k * (product - c) <= (k + 1) * reduced <= k * product
  {
    MillionOver(k, b1);
    MillionOver(k + 1, b2);
    var limit := MAX / c;
    ReducedShare(k, c, limit, (k * limit) / (k + 1));
    LastBefore(c, limit);
    StepsDownOver(k, c, reduced, product - c, b1, b2);
  }

  lemma LastBefore(c: U32, limit: int)
    requires 1 <= c && limit == MAX / c
    ensures (limit - 1) * c == c * limit - c
    ensures MAX - c < c * limit <= MAX
  {
    Distribute(c, limit, -1);
  }

  lemma MillionOver(k: nat, b: int)
    requires 1 <= k <= MILLION && 0 <= MILLION - k * b < k
    ensures MILLION / k == b && b >= 1
  {
    QuotientUnique(MILLION, k, b, MILLION - k * b);
    QuotientAtLeastIff(MILLION, k, 1);
  }

  lemma StepsDownOver(k: nat, c: U32, reduced: int, last: int, b1: int, b2: int)
    requires 1 <= k < MILLION && 1 <= c
    requires MILLION / k == b1 >= 1 && MILLION / (k + 1) == b2 >= 1
    requires reduced == (k * (MAX / c)) / (k + 1) * c && last == (MAX / c - 1) * c
    ensures StepsDown(k, c) <==> reduced / b2 < last / b1
  {
  }

  lemma ReducedShare(k: nat, c: nat, limit: nat, u: int)
    requires u == (k * limit) / (k + 1)
    ensures k * (c * limit - c) <= (k + 1) * (u * c) <= k * (c * limit)
  {
    MulMonotone((k + 1) * u, k * limit, c);
    MulMonotone(k * limit - k, (k + 1) * u, c);
    Associate(k + 1, u, c);
    Associate(k, limit, c);
    Distribute(c, k * limit, 0 - k);
    Distribute(k, c * limit, 0 - c);
  }

  /** Ticks can only fall where the reduced million loses less to rounding
      after the step than before it. */
  lemma FallsOnlyIfCoarser(k: nat, c: U32)
    requires 1 <= k < MILLION && 1 <= c && StepsDown(k, c)
    ensures MILLION % (k + 1) < MILLION % k
  {
    if MILLION % k <= MILLION % (k + 1) {
      var product, reduced := c * (MAX / c), (k * (MAX / c)) / (k + 1) * c;
      var b1, b2 := MILLION / k, MILLION / (k + 1);
      MillionParts(k);
      MillionParts(k + 1);
      StepsDownIff(k, c, product, reduced, b1, b2);
      LimitPositive(c);
      MulMonotone(1, MAX / c, c);
      NoFall(k, product - c, reduced, b1, b2);
    }
  }

  lemma MillionParts(k: nat)
    requires 1 <= k
    ensures MILLION == k * (MILLION / k) + MILLION % k
    ensures 0 <= MILLION - k * (MILLION / k) < k
  {
  }

  lemma NoFall(k: nat, y: int, x: int, b1: int, b2: int)
    requires 1 <= k && 1 <= b1 && 1 <= b2
    requires (k + 1) * b2 <= k * b1
    requires 0 <= y && k * y <= (k + 1) * x
    ensures y / b1 <= x / b2
  {
    DivShrinks(y, b1);
    var q := y / b1;
    MulMonotone((k + 1) * b2, k * b1, q);
    MulMonotone(b1 * q, y, k);
    Associate(k + 1, b2, q);
    Associate(k, b1, q);
    CancelLess(k + 1, b2 * q, x);
    ProductNonNegative(b2, q);
    QuotientAtLeastIff(x, b2, q);
  }

  lemma CancelLess(d: int, x: int, y: int)
    requires d > 0 && d * x <= d * y
    ensures x <= y
  {
    Distribute(d, x, -y);
    MulOutside(d, x - y);
  }

  lemma FallsFrom1032(c: U32)
    requires 1032 <= c <= 4_000_000
    ensures StepsDown(1032, c)
  {
    var product, reduced := c * (MAX / c), (1032 * (MAX / c)) / 1033 * c;
    StepsDownIff(1032, c, product, reduced, 968, 968);
    assert reduced + 968 <= product - c;
  }

  lemma FallsFrom24(c: U32)
    requires 24 <= c < 1032
    ensures StepsDown(24, c)
  {
    var product, reduced := c * (MAX / c), (24 * (MAX / c)) / 25 * c;
    StepsDownIff(24, c, product, reduced, 41_666, 40_000);
    assert 25 * reduced <= 24 * product;
  }

  lemma FallsFrom15(c: U32)
    requires 15 <= c < 24
    ensures StepsDown(15, c)
  {
    var product, reduced := c * (MAX / c), (15 * (MAX / c)) / 16 * c;
    StepsDownIff(15, c, product, reduced, 66_666, 62_500);
    RoundApart(product, product - c, reduced);
  }

  lemma RoundApart(product: int, y: int, x: int)
    requires MAX - 23 < product <= MAX && product - 23 <= y && 16 * x <= 15 * product
    ensures x / 62_500 < 64_425 <= y / 66_666
  {
  }

  /** Of the steps that clocks up to 14 can reach, five are coarser; there
      both counts round to the same number. */
  lemma NoFallUpTo14(k: nat, c: U32)
    requires 1 <= k <= c <= 14
    ensures !StepsDown(k, c)
  {
    if k == 3 {
      SameRounding(3, c, 333_333, 250_000, 12_884);
    } else if k == 6 {
      SameRounding(6, c, 166_666, 142_857, 25_769);
    } else if k == 7 {
      SameRounding(7, c, 142_857, 125_000, 30_064);
    } else if k == 9 {
      SameRounding(9, c, 111_111, 100_000, 38_654);
    } else if k == 12 {
      SameRounding(12, c, 83_333, 76_923, 51_539);
    } else if StepsDown(k, c) {
      FallsOnlyIfCoarser(k, c);
      CoarserUpTo14(k);
    }
  }

  lemma CoarserUpTo14(k: nat)
    requires 1 <= k <= 14 && MILLION % (k + 1) < MILLION % k
    ensures k == 3 || k == 6 || k == 7 || k == 9 || k == 12
  {
    assert MILLION % 3 == 1 && MILLION % 6 == 4 && MILLION % 7 == 1 && MILLION % 9 == 1;
    assert MILLION % 11 == 1 && MILLION % 12 == 4 && MILLION % 13 == 1 && MILLION % 14 == 8;
  }

  /** Neither count can be on the other side of q. */
  lemma SameRounding(k: nat, c: U32, b1: int, b2: int, q: nat)
    requires 1 <= k < MILLION && 1 <= c <= 14
    requires 0 <= MILLION - k * b1 < k && 0 <= MILLION - (k + 1) * b2 < k + 1
    requires MAX < b1 * (q + 1) && (k + 1) * (b2 * q) <= k * (MAX - 28)
    ensures !StepsDown(k, c)
  {
    var product, reduced := c * (MAX / c), (k * (MAX / c)) / (k + 1) * c;
    StepsDownIff(k, c, product, reduced, b1, b2);
    BothRoundTo(k, product - c, reduced, b1, b2, q);
  }

  lemma BothRoundTo(k: nat, y: nat, x: int, b1: int, b2: int, q: nat)
    requires 1 <= b1 && 1 <= b2 && MAX - 28 <= y <= MAX && k * y <= (k + 1) * x
    requires MAX < b1 * (q + 1) && (k + 1) * (b2 * q) <= k * (MAX - 28)
    ensures y / b1 <= q <= x / b2
  {
    MulMonotone(MAX - 28, y, k);
    CancelLess(k + 1, b2 * q, x);
    ProductNonNegative(b2, q);
    QuotientAtLeastIff(x, b2, q);
    QuotientAtLeastIff(y, b1, q + 1);
  }

  /** Only as many steps as the clock has ticks are 32-bit delays. */
  lemma StepsReached(k: nat, c: U32)
    requires 1 <= c
    ensures k <= c ==> k * (MAX / c) < WORD
    ensures c <= 14 && k * (MAX / c) < WORD ==> k <= c
  {
    LimitPositive(c);
    var limit := MAX / c;
    if k <= c {
      MulMonotone(k, c, limit);
    } else if c <= 14 {
      QuotientAtLeastIff(MAX, c, 15);
      MulMonotone(c + 1, k, limit);
      Distribute(limit, c, 1);
    }
  }

  /** Of the clocks of up to 4 million ticks a second, those of up to 14 keep
      the order of delays, and no other. */
  lemma KeepsOrderIff(clksPerSec: U32)
    requires 1 <= clksPerSec <= 4_000_000
    ensures KeepsOrder(clksPerSec) <==> clksPerSec <= 14
  {
    OrderIsStepwise(clksPerSec);
    if clksPerSec <= 14 {
      forall k | 1 <= k < MILLION && k * (MAX / clksPerSec) < WORD
        ensures !StepsDown(k, clksPerSec)
      {
        StepsReached(k, clksPerSec);
        NoFallUpTo14(k, clksPerSec);
      }
    } else {
      StepsReached(15, clksPerSec);
      StepsReached(24, clksPerSec);
      StepsReached(1032, clksPerSec);
      if clksPerSec < 24 {
        FallsFrom15(clksPerSec);
      } else if clksPerSec < 1032 {
        FallsFrom24(clksPerSec);
      } else {
        FallsFrom1032(clksPerSec);
      }
    }
  }

  /** A conversion checked through its quotients. */
  lemma TicksAre(microsec: U32, c: U32, limit: int, divisor: int, reduced: int, scale: int, ticks: U32)
    requires 1 <= c && 0 <= MAX - c * limit < c
    requires 1 <= divisor < WORD && 0 <= microsec - limit * (divisor - 1) < limit
    requires 0 <= microsec - divisor * reduced < divisor
    requires 1 <= scale && 0 <= MILLION - divisor * scale < divisor
    requires 0 <= reduced * c <= MAX && 0 <= reduced * c - scale * ticks < scale
    ensures TaskDelayUs(microsec, c) == Ticks(ticks)
  {
    QuotientUnique(MAX, c, limit, MAX - c * limit);
    QuotientUnique(microsec, limit, divisor - 1, microsec - limit * (divisor - 1));
    QuotientUnique(microsec, divisor, reduced, microsec - divisor * reduced);
    QuotientUnique(MILLION, divisor, scale, MILLION - divisor * scale);
    QuotientUnique(reduced * c, scale, ticks, reduced * c - scale * ticks);
  }

  /** At 900000 ticks a second 57264 microseconds are a tick shorter than
      57263, and at 15625 one microsecond more costs 4340 ticks. */
  lemma LongerDelayFewerTicks()
    ensures TaskDelayUs(57_263, 900_000) == Ticks(51_527)
    ensures TaskDelayUs(57_264, 900_000) == Ticks(51_526)
    ensures TaskDelayUs(3_020_898_229, 15_625) == Ticks(47_721_527)
    ensures TaskDelayUs(3_020_898_230, 15_625) == Ticks(47_717_187)
    ensures StepsDown(12, 900_000) && StepsDown(10_990, 15_625)
  {
    TickLost();
    ManyTicksLost();
  }

  lemma TickLost()
    ensures TaskDelayUs(57_263, 900_000) == Ticks(51_527)
    ensures TaskDelayUs(57_264, 900_000) == Ticks(51_526)
    ensures StepsDown(12, 900_000)
  {
    TicksAre(57_263, 900_000, 4_772, 12, 4_771, 83_333, 51_527);
    TicksAre(57_264, 900_000, 4_772, 13, 4_404, 76_923, 51_526);
    FewerTicksAtStepIff(12, 900_000, 57_264);
  }

  lemma ManyTicksLost()
    ensures TaskDelayUs(3_020_898_229, 15_625) == Ticks(47_721_527)
    ensures TaskDelayUs(3_020_898_230, 15_625) == Ticks(47_717_187)
    ensures StepsDown(10_990, 15_625)
  {
    TicksAre(3_020_898_229, 15_625, 274_877, 10_990, 274_876, 90, 47_721_527);
    TicksAre(3_020_898_230, 15_625, 274_877, 10_991, 274_851, 90, 47_717_187);
    FewerTicksAtStepIff(10_990, 15_625, 3_020_898_230);
  }

  /** Clock 0 divides by 0 at once; clock 999993 first does after 71 minutes. */
  lemma FaultExample()
    ensures TaskDelayUs(1, 0) == DivisionByZero
    ensures TaskDelayUs(4_294_000_000, 999_993) == DivisionByZero
    ensures TaskDelayUs(4_293_999_999, 999_993).Ticks?
  {
    assert MAX / 999_993 == 4_294;
    FaultsIff(4_294_000_000, 999_993);
    FaultsIff(4_293_999_999, 999_993);
  }
}
