/**
 The 64-bit integer as a pair of 32-bit words, and the operations on it that
 every processor build shares: comparison, assignment and subtraction.
 */
module Wide {
  import opened Words

  class U64 {
    var LSW: U32
    var MSW: U32

    /** A local struct: its words hold nothing in particular until assigned. */
    constructor ()
    {
    }

    /** The number that the two words stand for. */
    function Val(): (v: nat)
      reads this
      ensures v < DWORD
    {
      MSW * WORD + LSW
    }
  }

  predicate IsEqual(a: U64, b: U64)
    reads a, b
    ensures IsEqual(a, b) <==> a.Val() == b.Val()
  {
    a.LSW == b.LSW && a.MSW == b.MSW
  }

  predicate AreNotEqual(a: U64, b: U64)
    reads a, b
    ensures AreNotEqual(a, b) <==> a.Val() != b.Val()
  {
    a.LSW != b.LSW || a.MSW != b.MSW
  }

  predicate IsGreaterOrEqual(a: U64, b: U64)
    reads a, b
    ensures IsGreaterOrEqual(a, b) <==> a.Val() >= b.Val()
  {
    a.MSW > b.MSW || (a.MSW == b.MSW && a.LSW >= b.LSW)
  }

  predicate IsGreaterThan(a: U64, b: U64)
    reads a, b
    ensures IsGreaterThan(a, b) <==> a.Val() > b.Val()
  {
    a.MSW > b.MSW || (a.MSW == b.MSW && a.LSW > b.LSW)
  }

  predicate IsLessThan(a: U64, b: U64)
    reads a, b
    ensures IsLessThan(a, b) <==> a.Val() < b.Val()
  {
    a.MSW < b.MSW || (a.MSW == b.MSW && a.LSW < b.LSW)
  }

  predicate IsLessOrEqual(a: U64, b: U64)
    reads a, b
    ensures IsLessOrEqual(a, b) <==> a.Val() <= b.Val()
  {
    a.MSW < b.MSW || (a.MSW == b.MSW && a.LSW <= b.LSW)
  }

  predicate IsZero(a: U64)
    reads a
    ensures IsZero(a) <==> a.Val() == 0
  {
    a.LSW == 0 && a.MSW == 0
  }

  method SetValue(lower: U32, upper: U32, value: U64)
    modifies value
    ensures value.Val() == upper * WORD + lower
  {
    value.LSW := lower;
    value.MSW := upper;
  }

  /** value := a - b mod 2^64. The high word is stored first, and its borrow
      is taken from low words that are still untouched, so the destination
      may be either operand or both. */
  method Sub(a: U64, b: U64, value: U64)
    modifies value
    ensures value.Val() == Minus(old(a.Val()), old(b.Val()))
  {
    JoinDifference(a.MSW, a.LSW, b.MSW, b.LSW);
    value.MSW := (a.MSW - b.MSW - (if a.LSW < b.LSW then 1 else 0)) % WORD;
    value.LSW := (a.LSW - b.LSW) % WORD;
  }

  method SubLit(a: U64, b: U32, value: U64)
    modifies value
    ensures value.Val() == Minus(old(a.Val()), b)
  {
    JoinDifference(a.MSW, a.LSW, 0, b);
    value.MSW := (a.MSW - (if a.LSW < b then 1 else 0)) % WORD;
    value.LSW := (a.LSW - b) % WORD;
  }

  /** Putting a reduced high word over a low word reduces the pair mod 2^64. */
  lemma JoinWords(high: int, low: U32)
    ensures (high % WORD) * WORD + low == (high * WORD + low) % DWORD
  {
    var k := high / WORD;
    QuotientUnique(high * WORD + low, DWORD, k, (high % WORD) * WORD + low);
  }

  lemma JoinDifference(ah: U32, al: U32, bh: U32, bl: U32)
    ensures ((ah - bh - (if al < bl then 1 else 0)) % WORD) * WORD + (al - bl) % WORD ==
            Minus(ah * WORD + al, bh * WORD + bl)
  {
    var borrow := if al < bl then 1 else 0;
    QuotientUnique(al - bl, WORD, -borrow, al - bl + borrow * WORD);
    JoinWords(ah - bh - borrow, al - bl + borrow * WORD);
  }

  /** Addition of halves, with the carry that the low halves produce. */
  lemma JoinSum(ah: U32, al: U32, bh: U32, bl: U32)
    ensures ((ah + bh + (if al + bl >= WORD then 1 else 0)) % WORD) * WORD + (al + bl) % WORD ==
            Plus(ah * WORD + al, bh * WORD + bl)
    ensures al + bl >= WORD <==> (al + bl) % WORD < al
    ensures al + bl >= WORD <==> (al + bl) % WORD < bl
  {
    var carry := if al + bl >= WORD then 1 else 0;
    QuotientUnique(al + bl, WORD, carry, al + bl - carry * WORD);
    JoinWords(ah + bh + carry, al + bl - carry * WORD);
  }
}
