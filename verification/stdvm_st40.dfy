/**
 The 64-bit library as built for the ST40, on the compiler's own signed 64-bit
 type. Overflow is taken to wrap, and a right shift to keep the sign.
 */
module StdvmST40 {
  import opened Words
  import opened Wide

  const HALF := DWORD / 2

  function Signed(v: nat): (r: int)
    requires v < DWORD
    ensures -HALF <= r < HALF
  {
    if v >= HALF then v - DWORD else v
  }

  function Wrap(x: int): (r: int)
    ensures -HALF <= r < HALF
    ensures r % DWORD == x % DWORD
  {
    var v := x % DWORD;
    SignedIsCongruent(v);
    Signed(v)
  }

  lemma SignedIsCongruent(v: nat)
    requires v < DWORD
    ensures Signed(v) % DWORD == v
  {
  }

  /** The two words joined, the high one shifted as a signed number. */
  function Load(a: U64): (r: int)
    reads a
    ensures r == Signed(a.Val())
  {
    Wrap(a.MSW * WORD) + a.LSW
  }

  method Store(val: int, value: U64)
    requires -HALF <= val < HALF
    modifies value
    ensures value.Val() == val % DWORD
  {
    JoinWords(val / WORD, val % WORD);
    value.MSW := (val / WORD) % WORD;
    value.LSW := val % WORD;
  }

  /** Division as the language does it, towards zero. */
  function Truncated(x: int, b: nat): int
    requires b > 0
  {
    if x >= 0 then x / b else -((-x) / b)
  }

  function SignedQuotient(a: nat, b: nat): nat
    requires a < DWORD && b > 0
  {
    Truncated(Signed(a), b) % DWORD
  }

  function SignedRemainder(a: nat, b: nat): nat
    requires a < DWORD && b > 0
  {
    (Signed(a) - b * Truncated(Signed(a), b)) % DWORD
  }

  function SignedShiftRight(a: nat, shift: nat): nat
    requires a < DWORD
  {
    (Signed(a) / Pow2(shift)) % DWORD
  }

  lemma SignedSum(x: nat, y: nat)
    requires x < DWORD && y < DWORD
    ensures Wrap(Signed(x) + Signed(y)) % DWORD == Plus(x, y)
    ensures Wrap(Signed(x) + y) % DWORD == Plus(x, y)
  {
    SumResidue(Signed(x), Signed(y), x, y);
    SumResidue(Signed(x), y, x, y);
  }

  lemma SumResidue(sx: int, sy: int, x: nat, y: nat)
    requires sx == x || sx == x - DWORD
    requires sy == y || sy == y - DWORD
    ensures (sx + sy) % DWORD == Plus(x, y)
  {
    var k := (if sx == x then 0 else -1) + (if sy == y then 0 else -1);
    ModIgnoresMultiples(x + y, k, DWORD);
  }

  lemma SignedProduct(x: nat, y: nat)
    requires x < DWORD && y < DWORD
    ensures Wrap(Signed(x) * Signed(y)) % DWORD == Times(x, y)
    ensures Wrap(Signed(x) * y) % DWORD == Times(x, y)
  {
    ProductResidue(Signed(x), Signed(y), x, y);
    ProductResidue(Signed(x), y, x, y);
  }

  lemma ProductResidue(sx: int, sy: int, x: nat, y: nat)
    requires sx == x || sx == x - DWORD
    requires sy == y || sy == y - DWORD
    ensures (sx * sy) % DWORD == Times(x, y)
  {
    var j, k := if sx == x then 0 else -1, if sy == y then 0 else -1;
    assert sx == x + DWORD * j && sy == y + DWORD * k;
    var n := x * k + j * sy;
    assert sx * sy == x * y + DWORD * n by {
      Distribute(sy, x, DWORD * j);
      Distribute(x, y, DWORD * k);
      MulAssociates(x, DWORD, k);
      MulAssociates(sy, DWORD, j);
      Distribute(DWORD, x * k, j * sy);
    }
    ModIgnoresMultiples(x * y, n, DWORD);
  }

  method Add(a: U64, b: U64, value: U64)
    modifies value
    ensures value.Val() == Plus(old(a.Val()), old(b.Val()))
  {
    SignedSum(a.Val(), b.Val());
    Store(Wrap(Load(a) + Load(b)), value);
  }

  method AddLit(a: U64, b: U32, value: U64)
    modifies value
    ensures value.Val() == Plus(old(a.Val()), b)
  {
    SignedSum(a.Val(), b);
    Store(Wrap(Load(a) + b), value);
  }

  method Mul(a: U64, b: U64, value: U64)
    modifies value
    ensures value.Val() == Times(old(a.Val()), old(b.Val()))
  {
    SignedProduct(a.Val(), b.Val());
    Store(Wrap(Load(a) * Load(b)), value);
  }

  method MulLit(a: U64, b: U32, value: U64)
    modifies value
    ensures value.Val() == Times(old(a.Val()), b)
  {
    SignedProduct(a.Val(), b);
    Store(Wrap(Load(a) * b), value);
  }

  method DivLit(a: U64, b: U32, value: U64)
    requires b != 0
    modifies value
    ensures value.Val() == SignedQuotient(old(a.Val()), b)
    ensures value.Val() == old(a.Val()) / b <==> old(a.Val()) < HALF || b == 1
  {
    var t1 := Load(a);
    TruncatedFits(t1, b);
    QuotientCorrectIff(a.Val(), b);
    Store(Truncated(t1, b), value);
  }

  method ModLit(a: U64, b: U32, value: U64)
    requires b != 0
    modifies value
    ensures value.Val() == SignedRemainder(old(a.Val()), b)
    ensures value.Val() == old(a.Val()) % b <==>
            old(a.Val()) < HALF || (DWORD % b == 0 && old(a.Val()) % b == 0)
  {
    var t1 := Load(a);
    TruncatedFits(t1, b);
    RemainderCorrectIff(a.Val(), b);
    Store(t1 - b * Truncated(t1, b), value);
  }

  method ShiftLeft(shift: U32, value: U64)
    requires shift < 64
    modifies value
    ensures value.Val() == Times(old(value.Val()), Pow2(shift))
  {
    Pow2OfWords();
    Pow2Monotone(shift, 63);
    SignedProduct(value.Val(), Pow2(shift));
    Store(Wrap(Load(value) * Pow2(shift)), value);
  }

  method ShiftRight(shift: U32, value: U64)
    requires shift < 64
    modifies value
    ensures value.Val() == SignedShiftRight(old(value.Val()), shift)
    ensures value.Val() == old(value.Val()) / Pow2(shift) <==> old(value.Val()) < HALF || shift == 0
  {
    var t1 := Load(value);
    FloorFits(t1, Pow2(shift));
    ShiftRightCorrectIff(value.Val(), shift);
    Store(t1 / Pow2(shift), value);
  }

  lemma FloorFits(x: int, d: int)
    requires -HALF <= x < HALF && d > 0
    ensures -HALF <= x / d < HALF
  {
    var q := x / d;
    if x >= 0 {
      DivShrinks(x, d);
    } else {
      MulOutside(d, q);
      if q < x {
        MulOutside(d, q - x);
        Distribute(d, q - x, x);
        ProductNonNegative(-x, d - 1);
        Distribute(x, d - 1, 1);
      }
    }
  }

  lemma TruncatedFits(x: int, b: nat)
    requires -HALF <= x < HALF && b > 0
    ensures -HALF <= Truncated(x, b) < HALF
    ensures -HALF <= x - b * Truncated(x, b) < HALF
  {
    var n := if x >= 0 then x else -x;
    DivShrinks(n, b);
    assert n == b * (n / b) + n % b;
    ProductNonNegative(b, n / b);
    Distribute(b, n / b, -(n / b));
  }

  /** The signed quotient is the unsigned one exactly when the dividend is a
      non-negative signed number, or is divided by 1. */
  lemma QuotientCorrectIff(a: nat, b: nat)
    requires a < DWORD && 0 < b < WORD
    ensures SignedQuotient(a, b) == a / b <==> a < HALF || b == 1
  {
    DivShrinks(a, b);
    if a >= HALF && b > 1 {
      var n := DWORD - a;
      DivShrinks(n, b);
      Halved(a, b);
      Halved(n, b);
      LargeOverWord(a, b);
    }
  }

  lemma Halved(x: nat, b: nat)
    requires b >= 2
    ensures 2 * (x / b) <= x
  {
    var q := x / b;
    ProductNonNegative(q, b - 2);
    Distribute(q, b - 2, 2);
  }

  /** A dividend of 2^63 or more over a divisor below 2^32 is at least 2^31. */
  lemma LargeOverWord(a: nat, b: nat)
    requires a >= HALF && 0 < b < WORD
    ensures a / b >= 1
  {
    MulOutside(b, -(a / b) + 1);
    Distribute(b, a / b, -(a / b) + 1);
  }

  /** From 2^63 up, the signed quotient is that of the complement, negated. */
  lemma NegativeQuotient(a: nat, b: nat)
    requires HALF <= a < DWORD && 0 < b < WORD
    ensures SignedQuotient(a, b) == if (DWORD - a) / b == 0 then 0 else DWORD - (DWORD - a) / b
  {
    var k := (DWORD - a) / b;
    DivShrinks(DWORD - a, b);
    if k > 0 {
      QuotientUnique(-k, DWORD, -1, DWORD - k);
    }
  }

  /** From 2^63 up, the signed remainder is that of the complement, negated. */
  lemma NegativeRemainder(a: nat, b: nat)
    requires HALF <= a < DWORD && 0 < b < WORD
    ensures SignedRemainder(a, b) == if (DWORD - a) % b == 0 then 0 else DWORD - (DWORD - a) % b
  {
    var t, m := Signed(a), (DWORD - a) % b;
    var k := Truncated(t, b);
    assert t - b * k == -m by {
      Distribute(b, k, -k);
    }
    if m > 0 {
      QuotientUnique(-m, DWORD, -1, DWORD - m);
    }
  }

  /** A number and its complement are both multiples of a divisor exactly when
      the divisor divides 2^64, as only a power of two does, and the number. */
  lemma ComplementMultiple(a: nat, b: nat)
    requires a < DWORD && b > 0
    ensures a % b == 0 && (DWORD - a) % b == 0 <==> DWORD % b == 0 && a % b == 0
  {
    if a % b == 0 {
      MulOutside(b, -(a / b));
      Distribute(b, a / b, -(a / b));
      ModIgnoresMultiples(DWORD, -(a / b), b);
    }
  }

  /** The signed remainder is the unsigned one exactly when the dividend is a
      non-negative signed number, or the divisor divides both it and 2^64. */
  lemma RemainderCorrectIff(a: nat, b: nat)
    requires a < DWORD && 0 < b < WORD
    ensures SignedRemainder(a, b) == a % b <==> a < HALF || (DWORD % b == 0 && a % b == 0)
  {
    if a < HALF {
      assert Signed(a) - b * Truncated(Signed(a), b) == a % b;
      QuotientUnique(a % b, DWORD, 0, a % b);
    } else {
      NegativeRemainder(a, b);
      ComplementMultiple(a, b);
    }
  }

  /** The signed shift is the unsigned one exactly when the value is a
      non-negative signed number, or is not shifted at all. */
  lemma ShiftRightCorrectIff(a: nat, shift: nat)
    requires a < DWORD && shift < 64
    ensures SignedShiftRight(a, shift) == a / Pow2(shift) <==> a < HALF || shift == 0
  {
    var p := Pow2(shift);
    DivShrinks(a, p);
    if a >= HALF && shift > 0 {
      NegativeFloor(a, p);
    }
  }

  /** A negative number rounded down stays negative, which a half of an unsigned
      one is not. */
  lemma NegativeFloor(a: nat, p: nat)
    requires HALF <= a < DWORD && p >= 2
    ensures (a - DWORD) / p % DWORD >= HALF
    ensures a / p < HALF
  {
    Halved(a, p);
    FloorFits(a - DWORD, p);
    var f := (a - DWORD) / p;
    MulOutside(p, f);
    QuotientUnique(f, DWORD, -1, f + DWORD);
  }

  /** 2^63 by 3, and moved right by one: all three come out wrong. */
  lemma NegativeExample()
    ensures SignedQuotient(HALF, 3) == DWORD - HALF / 3 && SignedQuotient(HALF, 3) != HALF / 3
    ensures SignedRemainder(HALF, 3) == DWORD - 2 && HALF % 3 == 2
    ensures SignedShiftRight(HALF, 1) == HALF + HALF / 2 && HALF / Pow2(1) == HALF / 2
  {
    NegativeQuotient(HALF, 3);
    NegativeRemainder(HALF, 3);
    ShiftByOne(HALF);
    ShiftByOne(Signed(HALF));
  }
}
