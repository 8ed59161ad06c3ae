/**
 Where the builds of the 64-bit library agree with one another, and what
 their operations undo. All statements are about the numbers that the in-place
 operations are proved to leave behind.
 */
module Agreement {
  import opened Words
  import opened Wide
  import opened Divider
  import C1 = StddefsC1
  import C2 = StddefsC2
  import StdvmST40

  const HALF := StdvmST40.HALF

  /** The C1 loop and the signed ST40 division give one quotient exactly where
      both are right; they are never wrong in the same way. */
  lemma QuotientsAgreeIff(a: nat, b: nat)
    requires a < DWORD && 0 < b < WORD
    ensures Divide(a, b).quotient == StdvmST40.SignedQuotient(a, b) <==>
            !StopsShort(a, b) && (a < HALF || b == 1)
  {
    DivideOutcome(a, b);
    StdvmST40.QuotientCorrectIff(a, b);
    if a >= HALF && b > 1 {
      NegativeQuotientFarOff(a, b);
    }
  }

  /** From 2^63 up, the signed quotient is 0 or at least 2^63. The true one, by
      2 or more, lies strictly between. */
  lemma NegativeQuotientFarOff(a: nat, b: nat)
    requires HALF <= a < DWORD && 1 < b < WORD
    ensures StdvmST40.SignedQuotient(a, b) == 0 || StdvmST40.SignedQuotient(a, b) >= HALF
    ensures 1 < a / b < HALF
  {
    StdvmST40.NegativeQuotient(a, b);
    DivShrinks(DWORD - a, b);
    StdvmST40.Halved(a, b);
    MulOutside(b, 2 - a / b);
    Distribute(b, a / b, 2 - a / b);
  }

  /** The same for remainders: agreement is joint correctness. */
  lemma RemaindersAgreeIff(a: nat, b: nat)
    requires a < DWORD && 0 < b < WORD
    ensures Divide(a, b).remainder == StdvmST40.SignedRemainder(a, b) <==>
            && !StopsShort(a, b) && (a == 0 || b <= a)
            && (a < HALF || (DWORD % b == 0 && a % b == 0))
  {
    DivideOutcome(a, b);
    StdvmST40.RemainderCorrectIff(a, b);
    if a < b {
      QuotientUnique(a, b, 0, a);
    }
    if a >= HALF {
      StdvmST40.NegativeRemainder(a, b);
      StdvmST40.ComplementMultiple(a, b);
    }
  }

  /** From 2^63 up, the signed right shift also sets the bits it vacates. */
  lemma ShiftFillsWithSign(a: nat, s: nat)
    requires HALF <= a < DWORD && 1 <= s < 64
    ensures StdvmST40.SignedShiftRight(a, s) == a / Pow2(s) + (DWORD - Pow2(64 - s))
  {
    Pow2OfWords();
    Pow2Splits(s, 64 - s);
    FilledShift(a, Pow2(s), Pow2(64 - s));
  }

  lemma FilledShift(a: nat, p: int, q: int)
    requires HALF <= a < DWORD && p > 0 && q > 0 && p * q == DWORD
    ensures (a - DWORD) / p % DWORD == a / p + (DWORD - q)
  {
    MovedDown(a, p, q);
    BelowPart(a, p, q);
    AtMostProduct(p, q);
    var n: nat := a / p;
    QuotientUnique(n - q, DWORD, -1, n - q + DWORD);
  }

  lemma MovedDown(a: nat, p: int, q: int)
    requires p > 0 && p * q == DWORD
    ensures (a - DWORD) / p == a / p - q
  {
    MulOutside(p, -q);
    Distribute(p, q, -q);
    assert a + p * (-q) == a - DWORD;
    ModIgnoresMultiples(a, -q, p);
  }

  lemma AtMostProduct(p: int, q: int)
    requires p > 0 && q > 0 && p * q == DWORD
    ensures q <= DWORD
  {
    ProductNonNegative(p - 1, q);
    Distribute(q, p - 1, 1);
  }

  /** Multiply, add a remainder, divide again. Both parts come back exactly
      when the divider does not stop short; the remainder also needs a
      dividend that is not a lone remainder. */
  lemma DivideUndoesMultiply(q: nat, b: nat, r: nat)
    requires r < b < WORD && q * b + r < DWORD
    ensures var a := Plus(Times(q, b), r);
            var short := r == 0 && q > 1 && (q - 1) % CAP == 0;
            && (Divide(a, b).quotient == q <==> !short)
            && (Divide(a, b).remainder == r <==> !short && (q >= 1 || r == 0))
  {
    ProductNonNegative(q, b);
    TimesExact(q, b);
    DivideParts(q * b + r, b, q, r);
  }

  /** Quotients from 1 to 2^33 - 1 always come back, with their remainders. */
  lemma DivideUndoesMultiplyBelowCap(q: nat, b: nat, r: nat)
    requires 1 <= q < 0x2_0000_0000 && r < b < WORD && q * b + r < DWORD
    ensures Divide(Plus(Times(q, b), r), b) == Division(q, r, 1)
  {
    ProductNonNegative(q, b);
    TimesExact(q, b);
    DivideParts(q * b + r, b, q, r);
  }

  /** The round trip on objects, in place, in the C1 build. */
  method RoundTripC1(a: U64, b: U32, r: U32, remainder: U64)
    requires a != remainder && r < b && a.Val() * b + r < DWORD
    modifies a, remainder
    ensures var q := old(a.Val());
            var short := r == 0 && q > 1 && (q - 1) % CAP == 0;
            && (a.Val() == q <==> !short)
            && (remainder.Val() == r <==> !short && (q >= 1 || r == 0))
  {
    ghost var q := a.Val();
    ghost var whole := Plus(Times(q, b), r);
    DivideUndoesMultiply(q, b, r);
    DivideOutcome(whole, b);
    ghost var rounds := C1.MulLit(a, b, a);
    C1.AddLit(a, r, a);
    ghost var passes := C1.ModLit(a, b, remainder);
    passes := C1.DivLit(a, b, a);
  }

  /** The same in the C2 build: the quotient always comes back, the remainder
      exactly in an object whose high word was 0. */
  method RoundTripC2(a: U64, b: U32, r: U32, remainder: U64)
    requires a != remainder && r < b && a.Val() * b + r < DWORD
    modifies a, remainder
    ensures a.Val() == old(a.Val())
    ensures remainder.Val() == r <==> old(remainder.MSW) == 0
  {
    PartsBack(a.Val(), b, r);
    C2.MulLit(a, b, a);
    C2.AddLit(a, r, a);
    C2.ModLit(a, b, remainder);
    C2.DivLit(a, b, a);
  }

  /** The same in the ST40 build, where the product must not be read as a
      negative number. */
  method RoundTripST40(a: U64, b: U32, r: U32, remainder: U64)
    requires a != remainder && r < b && a.Val() * b + r < DWORD
    modifies a, remainder
    ensures var whole := old(a.Val()) * b + r;
            && (a.Val() == old(a.Val()) <==> whole < HALF || b == 1)
            && (remainder.Val() == r <==> whole < HALF || (DWORD % b == 0 && r == 0))
  {
    PartsBack(a.Val(), b, r);
    StdvmST40.MulLit(a, b, a);
    StdvmST40.AddLit(a, r, a);
    StdvmST40.ModLit(a, b, remainder);
    StdvmST40.DivLit(a, b, a);
  }

  lemma PartsBack(q: nat, b: nat, r: nat)
    requires r < b < WORD && q * b + r < DWORD
    ensures Plus(Times(q, b), r) == q * b + r
    ensures (q * b + r) / b == q && (q * b + r) % b == r
  {
    ProductNonNegative(q, b);
    TimesExact(q, b);
    QuotientUnique(q * b + r, b, q, r);
  }

  lemma SubtractUndoesAdd(x: nat, y: nat)
    requires x < DWORD && y < DWORD
    ensures Minus(Plus(x, y), y) == x
    ensures Plus(Minus(x, y), y) == x
  {
    if x + y >= DWORD {
      QuotientUnique(x + y, DWORD, 1, x + y - DWORD);
      QuotientUnique(x - DWORD, DWORD, -1, x);
    }
    if x < y {
      QuotientUnique(x - y, DWORD, -1, x - y + DWORD);
      QuotientUnique(x + DWORD, DWORD, 1, x);
    }
  }

  function MovedRight(x: nat, s: nat): nat {
    DivShrinks(x, Pow2(s));
    x / Pow2(s)
  }

  /** Right after left keeps the low 64 - s bits; left after right clears the
      low s bits. */
  lemma ShiftsUndone(x: nat, s: nat)
    requires x < DWORD && 1 <= s <= 64
    ensures MovedRight(Times(x, Pow2(s)), s) == x % Pow2(64 - s)
    ensures Times(MovedRight(x, s), Pow2(s)) == x - x % Pow2(s)
  {
    Pow2OfWords();
    Pow2Splits(s, 64 - s);
    LeftThenRight(x, Pow2(s), Pow2(64 - s));
    RightThenLeft(x, Pow2(s), MovedRight(x, s));
  }

  lemma LeftThenRight(x: nat, p: int, q: int)
    requires p > 0 && q > 0 && p * q == DWORD
    ensures Times(x, p) / p == x % q
  {
    var k, low := x / q, x % q;
    var n := p * low;
    assert x * p == n + DWORD * k by {
      Distribute(p, q * k, low);
      Associate(p, q, k);
    }
    BelowProduct(p, q, low);
    QuotientUnique(x * p, DWORD, k, n);
    QuotientUnique(n, p, low, 0);
  }

  lemma RightThenLeft(x: nat, p: nat, k: nat)
    requires x < DWORD && p > 0 && k == x / p
    ensures Times(k, p) == x - x % p
  {
    assert k * p == x - x % p;
    ProductNonNegative(k, p);
    TimesExact(k, p);
  }
}
