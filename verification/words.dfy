/**
 Machine words as bounded integers, powers of two, and the few facts about
 division that the 64-bit library needs. Wrap-around is always written out
 with `%`.
 */
module Words {

  const WORD := 0x1_0000_0000
  const DWORD := 0x1_0000_0000_0000_0000

  type U32 = x: int | 0 <= x < WORD

  /** Arithmetic mod 2^64. */
  function Plus(x: nat, y: nat): (s: nat)
    ensures s < DWORD
    ensures x + y < DWORD ==> s == x + y
  {
    (x + y) % DWORD
  }

  function Minus(x: nat, y: nat): (s: nat)
    ensures s < DWORD
    ensures y <= x < DWORD ==> s == x - y
  {
    (x - y) % DWORD
  }

  function Times(x: nat, y: nat): (s: nat)
    ensures s < DWORD
  {
    (x * y) % DWORD
  }

  function Pow2(n: nat): (p: nat)
    ensures p >= 1
  {
    if n == 0 then 1 else 2 * Pow2(n - 1)
  }

  /** A shift by s and a shift by 32 - s together move a whole word. */
  lemma {:induction false} Pow2Splits(m: nat, n: nat)
    ensures Pow2(m + n) == Pow2(m) * Pow2(n)
  {
    if m == 0 {
    } else {
      Pow2Splits(m - 1, n);
      assert Pow2(m + n) == 2 * Pow2(m - 1 + n);
    }
  }

  lemma Pow2OfWords()
    ensures Pow2(1) == 2
    ensures Pow2(32) == WORD
    ensures Pow2(33) == 2 * WORD
    ensures Pow2(63) == DWORD / 2
    ensures Pow2(64) == DWORD
  {
    assert Pow2(8) == 0x100;
    assert Pow2(16) == 0x1_0000 by { Pow2Splits(8, 8); }
    assert Pow2(32) == WORD by { Pow2Splits(16, 16); }
    assert Pow2(33) == 2 * Pow2(32);
    assert Pow2(64) == DWORD by { Pow2Splits(32, 32); }
    assert Pow2(64) == 2 * Pow2(63);
  }

  lemma ShiftByOne(x: int)
    ensures Pow2(1) == 2
    ensures x / Pow2(1) == x / 2
  {
    assert Pow2(1) == 2;
  }

  /** b * 2^n, by doubling. */
  function Scaled(b: nat, n: nat): nat {
    if n == 0 then b else 2 * Scaled(b, n - 1)
  }

  lemma {:induction false} ScaledIsProduct(b: nat, n: nat)
    ensures Scaled(b, n) == b * Pow2(n)
  {
    if n == 0 {
    } else {
      ScaledIsProduct(b, n - 1);
      MulAssociates(b, 2, Pow2(n - 1));
    }
  }

  lemma Pow2Monotone(m: nat, n: nat)
    requires m <= n
    ensures Pow2(m) <= Pow2(n)
  {
  }

  /** Quotient and remainder are the only pair of their kind. */
  lemma QuotientUnique(x: int, d: int, q: int, r: int)
    requires 0 <= r < d
    requires x == d * q + r
    ensures q == x / d
    ensures r == x % d
  {
    var k := q - x / d;
    assert d * k == x % d - r by {
      assert x == d * (x / d) + x % d;
    }
    MulOutside(d, k);
  }

  lemma Distribute(b: int, x: int, y: int)
    ensures b * (x + y) == b * x + b * y
  {
  }

  lemma MulOutside(d: int, k: int)
    requires d > 0
    ensures k >= 1 ==> d * k >= d
    ensures k <= -1 ==> d * k <= -d
  {
  }

  lemma ModIgnoresMultiples(x: int, k: int, d: int)
    requires d > 0
    ensures (x + d * k) % d == x % d
    ensures (x + d * k) / d == x / d + k
  {
    QuotientUnique(x + d * k, d, x / d + k, x % d);
  }

  lemma Associate(x: int, y: int, z: int)
    ensures x * (y * z) == (x * y) * z
  {
  }

  /** Dividing twice by two factors is dividing once by their product. */
  lemma DivTwice(x: nat, p: int, q: int)
    requires p > 0 && q > 0
    ensures p * q > 0
    ensures x / p / q == x / (p * q)
  {
    var y, r := x / p, x % p;
    var z, w := y / q, y % q;
    var pq, pw := p * q, p * w;
    assert x == pq * z + pw + r by {
      Distribute(p, q * z, w);
      Associate(p, q, z);
    }
    BelowProduct(p, q, w);
    QuotientUnique(x, pq, z, pw + r);
  }

  lemma BelowProduct(p: int, q: int, w: int)
    requires p > 0 && 0 <= w < q
    ensures 0 <= p * w <= p * q - p
  {
    Distribute(p, q - 1 - w, w + 1);
    Distribute(p, w, 1);
    ProductNonNegative(p, q - 1 - w);
    ProductNonNegative(p, w);
  }

  lemma DivShrinks(x: nat, d: int)
    requires d > 0
    ensures 0 <= x / d <= x
  {
    var q := x / d;
    MulOutside(d, q);
    Distribute(q, d - 1, 1);
    ProductNonNegative(q, d - 1);
  }

  lemma ProductNonNegative(x: nat, y: nat)
    ensures x * y >= 0
  {
  }

  lemma MulMonotone(x: int, y: int, k: nat)
    requires x <= y
    ensures x * k <= y * k
  {
    ProductNonNegative(y - x, k);
    Distribute(k, x, y - x);
  }

  lemma MulAssociates(x: int, y: int, z: int)
    ensures x * (y * z) == y * (x * z)
  {
  }

  lemma TimesExact(x: nat, y: nat)
    requires 0 <= x * y < DWORD
    ensures Times(x, y) == x * y
  {
    QuotientUnique(x * y, DWORD, 0, x * y);
  }

  lemma BelowPart(w: nat, p: int, q: int)
    requires p > 0 && q > 0 && w < p * q
    ensures 0 <= w / p < q
  {
    var k := w / p;
    MulOutside(p, q - k);
    Distribute(p, q - k, k);
  }
}
