/**
 The 64-bit library as built for the ST20 C1 core, where every operation is
 made of 32-bit word operations. Arguments are objects, so a destination that
 is also an operand behaves as it does in the original.
 */
module StddefsC1 {
  import opened Words
  import opened Wide
  import opened Divider

  /** The machine's word shifts, for counts below the word size. */
  function Shl(count: nat, w: U32): U32
    requires count < 32
  {
    (w * Pow2(count)) % WORD
  }

  function Shr(count: nat, w: U32): (r: U32)
    requires count < 32
  {
    DivShrinks(w, Pow2(count));
    w / Pow2(count)
  }

  /** The source's guarded count, |x - y|. */
  function Distance(x: nat, y: nat): nat {
    if x - y < 0 then -(x - y) else x - y
  }

  /** What doubling an object onto itself loses: once the low word has been
      overwritten, neither comparison can see its carry. */
  function LostCarry(x: nat): nat {
    if x % WORD >= WORD / 2 then WORD else 0
  }

  function DoubledInPlace(x: nat): nat {
    (2 * x - LostCarry(x)) % DWORD
  }

  /** value := a + b mod 2^64, unless all three are one object. */
  method Add(a: U64, b: U64, value: U64)
    modifies value
    ensures !(value == a && value == b) ==> value.Val() == Plus(old(a.Val()), old(b.Val()))
    ensures value == a && value == b ==> value.Val() == DoubledInPlace(old(a.Val()))
  {
    if value == a && value == b {
      SelfSum(a.MSW, a.LSW);
    } else {
      SumOfWords(a.MSW, a.LSW, b.MSW, b.LSW);
    }
    value.LSW := (a.LSW + b.LSW) % WORD;
    value.MSW := (a.MSW + b.MSW + (if value.LSW < a.LSW || value.LSW < b.LSW then 1 else 0)) % WORD;
  }

  /** Either comparison sees the carry. */
  lemma SumOfWords(ah: U32, al: U32, bh: U32, bl: U32)
    ensures var low := (al + bl) % WORD;
            && (low < al <==> low < bl)
            && ((ah + bh + (if low < al then 1 else 0)) % WORD) * WORD + low ==
               Plus(ah * WORD + al, bh * WORD + bl)
  {
    JoinSum(ah, al, bh, bl);
  }

  lemma SelfSum(h: U32, l: U32)
    ensures ((h + h + 0) % WORD) * WORD + (l + l) % WORD == DoubledInPlace(h * WORD + l)
  {
    QuotientUnique(h * WORD + l, WORD, h, l);
    var carry := if l >= WORD / 2 then 1 else 0;
    QuotientUnique(l + l, WORD, carry, l + l - carry * WORD);
    JoinWords(h + h, l + l - carry * WORD);
  }

  /** 2^31 added to itself in place gives 0. */
  lemma LostCarryExample()
    ensures DoubledInPlace(0x8000_0000) == 0 && Plus(0x8000_0000, 0x8000_0000) == WORD
  {
  }

  /** Doubling in place is right exactly when the low word has its top bit clear. */
  lemma DoubleInPlaceCorrectIff(x: nat)
    requires x < DWORD
    ensures DoubledInPlace(x) == Plus(x, x) <==> x % WORD < WORD / 2
    ensures x % WORD >= WORD / 2 ==> DoubledInPlace(x) == Minus(Plus(x, x), WORD)
  {
    if x % WORD >= WORD / 2 {
      var k, r := (2 * x) / DWORD, (2 * x) % DWORD;
      if r >= WORD {
        QuotientUnique(2 * x - WORD, DWORD, k, r - WORD);
      } else {
        QuotientUnique(2 * x - WORD, DWORD, k - 1, r - WORD + DWORD);
      }
    }
  }

  method AddLit(a: U64, b: U32, value: U64)
    modifies value
    ensures value.Val() == Plus(old(a.Val()), b)
  {
    JoinSum(a.MSW, a.LSW, 0, b);
    value.LSW := (a.LSW + b) % WORD;
    value.MSW := (a.MSW + (if value.LSW < a.LSW || value.LSW < b then 1 else 0)) % WORD;
  }

  /** value := value * 2^shift mod 2^64. */
  method ShiftLeft(shift: U32, value: U64)
    requires shift >= 1
    modifies value
    ensures value.Val() == Times(old(value.Val()), Pow2(shift))
  {
    ghost var h, l := value.MSW, value.LSW;
    if shift >= 64 {
      ShiftedOut(value.Val(), shift);
      value.MSW := 0;
      value.LSW := value.MSW;
    } else if shift > 32 {
      value.MSW := value.LSW;
      value.LSW := 0;
      value.MSW := Shl(Distance(shift, 32), value.MSW);
      ShiftLeftFar(h, l, shift);
    } else if shift == 32 {
      value.MSW := value.LSW;
      value.LSW := 0;
      ShiftLeftWord(h, l, shift);
    } else {
      var tempLSW := value.LSW;
      value.LSW := Shl(shift, value.LSW);
      tempLSW := Shr(Distance(32, shift), tempLSW);
      value.MSW := Shl(shift, value.MSW);
      value.MSW := (value.MSW + tempLSW) % WORD;
      ShiftLeftNear(h, l, shift);
    }
  }

  /** value := value / 2^shift, rounded down. */
  method ShiftRight(shift: U32, value: U64)
    requires shift >= 1
    modifies value
    ensures value.Val() == old(value.Val()) / Pow2(shift)
  {
    ghost var h, l := value.MSW, value.LSW;
    if shift >= 64 {
      ShiftedOut(value.Val(), shift);
      value.MSW := 0;
      value.LSW := value.MSW;
    } else if shift > 32 {
      value.LSW := value.MSW;
      value.MSW := 0;
      value.LSW := Shr(Distance(shift, 32), value.LSW);
      ShiftRightFar(h, l, shift);
    } else if shift == 32 {
      value.LSW := value.MSW;
      value.MSW := 0;
      Pow2OfWords();
      QuotientUnique(h * WORD + l, WORD, h, l);
    } else {
      var tempMSW := value.MSW;
      value.MSW := Shr(shift, value.MSW);
      tempMSW := Shl(Distance(32, shift), tempMSW);
      value.LSW := Shr(shift, value.LSW);
      value.LSW := (value.LSW + tempMSW) % WORD;
      ShiftRightNear(h, l, shift);
    }
  }

  /** 64 places or more push every bit out, either way. */
  lemma ShiftedOut(v: nat, shift: nat)
    requires v < DWORD && shift >= 64
    ensures v / Pow2(shift) == 0
    ensures Times(v, Pow2(shift)) == 0
  {
    Pow2OfWords();
    Pow2Monotone(64, shift);
    QuotientUnique(v, Pow2(shift), 0, v);
    Pow2Splits(64, shift - 64);
    MulAssociates(v, DWORD, Pow2(shift - 64));
    ModIgnoresMultiples(0, v * Pow2(shift - 64), DWORD);
  }

  lemma ShiftLeftWord(h: U32, l: U32, shift: nat)
    requires shift == 32
    ensures l * WORD == Times(h * WORD + l, Pow2(shift))
  {
    Pow2OfWords();
    OneWordUp(h * WORD + l, h, l);
  }

  lemma OneWordUp(v: nat, h: nat, l: U32)
    requires v == h * WORD + l
    ensures l * WORD == Times(v, WORD)
  {
    QuotientUnique(v * WORD, DWORD, h, l * WORD);
  }

  lemma ShiftLeftFar(h: U32, l: U32, shift: nat)
    requires 32 < shift < 64
    ensures Shl(shift - 32, l) * WORD == Times(h * WORD + l, Pow2(shift))
  {
    Pow2OfWords();
    Pow2Splits(32, shift - 32);
    FarParts(h, l, Pow2(shift - 32));
  }

  lemma FarParts(h: U32, l: U32, p: nat)
    ensures ((l * p) % WORD) * WORD == Times(h * WORD + l, WORD * p)
  {
    var v := h * WORD + l;
    var vp, lp, hp := v * p, l * p, h * p;
    assert vp == lp + WORD * hp by {
      Distribute(p, h * WORD, l);
      MulAssociates(p, h, WORD);
    }
    ModIgnoresMultiples(lp, hp, WORD);
    JoinWords(vp, 0);
    assert v * (WORD * p) == WORD * vp by {
      MulAssociates(v, WORD, p);
    }
  }

  lemma ShiftRightFar(h: U32, l: U32, shift: nat)
    requires 32 < shift < 64
    ensures Shr(shift - 32, h) == (h * WORD + l) / Pow2(shift)
  {
    Pow2OfWords();
    Pow2Splits(32, shift - 32);
    DivTwice(h * WORD + l, WORD, Pow2(shift - 32));
    QuotientUnique(h * WORD + l, WORD, h, l);
  }

  /** The two powers that a near shift splits a word into. */
  lemma SplitWord(shift: nat)
    requires 1 <= shift < 32
    ensures Pow2(shift) * Pow2(32 - shift) == WORD
  {
    Pow2OfWords();
    Pow2Splits(shift, 32 - shift);
  }

  /** w * p reduced mod p * q keeps the low part of w, moved up by p. */
  lemma KeepLow(w: nat, p: int, q: int)
    requires p > 0 && q > 0
    ensures p * q > 0
    ensures (w * p) % (p * q) == p * (w % q)
    ensures 0 <= p * (w % q) <= p * q - p
  {
    MulOutside(p, q);
    var r := w % q;
    assert w * p == (p * q) * (w / q) + p * r by {
      assert w == q * (w / q) + r;
      assert (q * (w / q) + r) * p == (p * q) * (w / q) + p * r;
    }
    Distribute(p, q - 1 - r, r + 1);
    Distribute(p, r, 1);
    assert p * (q - 1 - r) >= 0;
    QuotientUnique(w * p, p * q, w / q, p * r);
  }

  /** Joining the two halves with + after a near shift left never carries. */
  lemma ShiftLeftNear(h: U32, l: U32, shift: nat)
    requires 1 <= shift < 32
    ensures Shl(shift, h) + Shr(32 - shift, l) < WORD
    ensures ((Shl(shift, h) + Shr(32 - shift, l)) % WORD) * WORD + Shl(shift, l) ==
            Times(h * WORD + l, Pow2(shift))
  {
    var p, q := Pow2(shift), Pow2(32 - shift);
    SplitWord(shift);
    KeepLow(h, p, q);
    KeepLow(l, p, q);
    assert q * p == WORD;
    BelowPart(l, q, p);
    QuotientUnique(Shl(shift, h) + Shr(32 - shift, l), WORD, 0, Shl(shift, h) + Shr(32 - shift, l));
    LeftParts(h, l, p, q);
    assert Shl(shift, h) + Shr(32 - shift, l) == p * (h % q) + l / q;
  }

  lemma LeftParts(h: U32, l: U32, p: int, q: int)
    requires p > 0 && q > 0 && p * q == WORD
    requires 0 <= p * (h % q) + l / q < WORD && 0 <= p * (l % q) < WORD
    ensures (p * (h % q) + l / q) * WORD + p * (l % q) == Times(h * WORD + l, p)
  {
    var hh, hl := h / q, h % q;
    var lh, ll := l / q, l % q;
    assert h == q * hh + hl && l == q * lh + ll;
    assert h * p == WORD * hh + p * hl by {
      assert (q * hh + hl) * p == (p * q) * hh + p * hl;
    }
    assert l * p == WORD * lh + p * ll by {
      assert (q * lh + ll) * p == (p * q) * lh + p * ll;
    }
    assert (h * WORD + l) * p == (h * p) * WORD + l * p;
    QuotientUnique((h * WORD + l) * p, DWORD, hh, (p * hl + lh) * WORD + p * ll);
  }

  /** Joining the two halves with + after a near shift right never carries. */
  lemma ShiftRightNear(h: U32, l: U32, shift: nat)
    requires 1 <= shift < 32
    ensures Shr(shift, l) + Shl(32 - shift, h) < WORD
    ensures Shr(shift, h) * WORD + (Shr(shift, l) + Shl(32 - shift, h)) % WORD ==
            (h * WORD + l) / Pow2(shift)
  {
    var p, q := Pow2(shift), Pow2(32 - shift);
    SplitWord(shift);
    assert q * p == WORD;
    KeepLow(h, q, p);
    BelowPart(l, p, q);
    QuotientUnique(Shr(shift, l) + Shl(32 - shift, h), WORD, 0, Shr(shift, l) + Shl(32 - shift, h));
    RightParts(h, l, p, q);
  }

  lemma RightParts(h: U32, l: U32, p: int, q: int)
    requires p > 0 && q > 0 && p * q == WORD
    ensures (h / p) * WORD + (l / p + q * (h % p)) == (h * WORD + l) / p
  {
    var hh, hl := h / p, h % p;
    var moved := hh * WORD + q * hl;
    assert h * WORD == p * moved by {
      Distribute(p, hh * WORD, q * hl);
      MulAssociates(p, hh, WORD);
      MulAssociates(p, hl, q);
      Distribute(WORD, p * hh, hl);
    }
    ModIgnoresMultiples(l, moved, p);
  }

  datatype Product = Product(value: nat, rounds: nat)

  /** Shift-and-add on plain numbers, a round at a time. */
  function ShiftAndAdd(multiplier: nat, multiplicand: nat, result: nat): Product
    decreases multiplier
  {
    var sum := if multiplier % 2 == 1 then Plus(result, multiplicand) else result;
    if multiplier / 2 > 0 then
      var rest := ShiftAndAdd(multiplier / 2, Times(multiplicand, 2), sum);
      Product(rest.value, 1 + rest.rounds)
    else
      Product(sum, 1)
  }

  /** rounds is the length of m in binary, counting 1 for m == 0. */
  ghost predicate IsBitLength(rounds: nat, m: nat) {
    rounds >= 1 && m < Pow2(rounds) && (rounds > 1 ==> Pow2(rounds - 1) <= m)
  }

  /** Shift-and-add is multiplication mod 2^64, one round a multiplier bit. */
  lemma {:induction false} ShiftAndAddMultiplies(multiplier: nat, multiplicand: nat, result: nat)
    requires result < DWORD
    ensures ShiftAndAdd(multiplier, multiplicand, result).value == Plus(result, multiplier * multiplicand)
    ensures IsBitLength(ShiftAndAdd(multiplier, multiplicand, result).rounds, multiplier)
    decreases multiplier
  {
    var sum := if multiplier % 2 == 1 then Plus(result, multiplicand) else result;
    MulRound(result, multiplier, multiplicand);
    if multiplier / 2 > 0 {
      ShiftAndAddMultiplies(multiplier / 2, Times(multiplicand, 2), sum);
    }
  }

  /** One round keeps result + multiplier * multiplicand mod 2^64. */
  lemma MulRound(result: nat, multiplier: nat, multiplicand: nat)
    requires result < DWORD
    ensures var sum := if multiplier % 2 == 1 then Plus(result, multiplicand) else result;
            Plus(sum, (multiplier / 2) * Times(multiplicand, 2)) ==
            Plus(result, multiplier * multiplicand)
  {
    var half, low := multiplier / 2, multiplier % 2;
    var added := if low == 1 then multiplicand else 0;
    assert multiplier * multiplicand == half * (2 * multiplicand) + added by {
      Distribute(multiplicand, half * 2, low);
      Associate(half, 2, multiplicand);
    }
    SumOfReduced(result + added, half, 2 * multiplicand);
  }

  /** Both sides of a sum, and one factor, may be reduced first. */
  lemma SumOfReduced(x: nat, n: nat, y: nat)
    ensures (x % DWORD + n * (y % DWORD)) % DWORD == (x + n * y) % DWORD
  {
    var z, k, j := y % DWORD, y / DWORD, x / DWORD;
    var nz, nk := n * z, n * k;
    assert n * y == nz + DWORD * nk by {
      Distribute(n, z, DWORD * k);
      MulAssociates(n, DWORD, k);
    }
    ModIgnoresMultiples(x % DWORD + nz, j + nk, DWORD);
  }

  lemma ProductOutcome(m: nat, c: nat)
    requires m < DWORD
    ensures ShiftAndAdd(m, c, 0).value == Times(c, m)
    ensures IsBitLength(ShiftAndAdd(m, c, 0).rounds, m)
    ensures ShiftAndAdd(m, c, 0).rounds <= if m < WORD then 32 else 64
  {
    ShiftAndAddMultiplies(m, c, 0);
    Pow2OfWords();
    BitLengthBounded(ShiftAndAdd(m, c, 0).rounds, m, if m < WORD then 32 else 64);
  }

  lemma BitLengthBounded(rounds: nat, m: nat, bits: nat)
    requires IsBitLength(rounds, m) && m < Pow2(bits) && bits >= 1
    ensures rounds <= bits
  {
    if rounds > bits {
      Pow2Monotone(bits, rounds - 1);
    }
  }

  predicate IsOdd(x: U64)
    reads x
    ensures IsOdd(x) <==> x.Val() % 2 == 1
  {
    ModIgnoresMultiples(x.LSW, x.MSW * (WORD / 2), 2);
    x.LSW % 2 == 1
  }

  /** target := source, word by word. */
  method Assign(source: U64, target: U64)
    modifies target
    ensures target.Val() == old(source.Val())
  {
    target.MSW := source.MSW;
    target.LSW := source.LSW;
  }

  /** The body of the shift-and-add loop. */
  method MulRoundInPlace(odd: bool, multiplicand: U64, result: U64, ghost c: nat, ghost r: nat)
    requires multiplicand != result
    requires multiplicand.Val() == c && result.Val() == r
    modifies multiplicand, result
    ensures result.Val() == if odd then Plus(r, c) else r
    ensures multiplicand.Val() == Times(c, 2)
  {
    if odd {
      Add(result, multiplicand, result);
    }
    ShiftByOne(c);
    ShiftLeft(1, multiplicand);
  }

  /** value := a * b mod 2^64. The operands are copied before anything is
      stored, so value may be a, b or both. */
  method Mul(a: U64, b: U64, value: U64) returns (ghost rounds: nat)
    modifies value
    ensures value.Val() == Times(old(a.Val()), old(b.Val()))
    ensures IsBitLength(rounds, old(b.Val())) && rounds <= 64
  {
    ghost var m, c, r := b.Val(), a.Val(), 0;
    ghost var whole := ShiftAndAdd(m, c, r);
    ProductOutcome(m, c);
    var multiplier := new U64();
    var multiplicand := new U64();
    var result := new U64();
    var zero := new U64();
    Assign(b, multiplier);
    Assign(a, multiplicand);
    SetValue(0, 0, result);
    SetValue(0, 0, zero);
    rounds := 0;
    var more := true;
    while more
      invariant zero.Val() == 0
      invariant multiplier.Val() == m && multiplicand.Val() == c && result.Val() == r
      invariant more ==> whole == Product(ShiftAndAdd(m, c, r).value, rounds + ShiftAndAdd(m, c, r).rounds)
      invariant !more ==> whole == Product(r, rounds)
      decreases more, m
    {
      MulRoundInPlace(IsOdd(multiplier), multiplicand, result, c, r);
      ShiftByOne(m);
      ShiftRight(1, multiplier);
      m, c, r := m / 2, Times(c, 2), if m % 2 == 1 then Plus(r, c) else r;
      rounds := rounds + 1;
      more := IsGreaterThan(multiplier, zero);
    }
    Assign(result, value);
  }

  /** value := a * b mod 2^64 for a 32-bit b. */
  method MulLit(a: U64, b: U32, value: U64) returns (ghost rounds: nat)
    modifies value
    ensures value.Val() == Times(old(a.Val()), b)
    ensures IsBitLength(rounds, b) && rounds <= 32
  {
    ghost var c, r := a.Val(), 0;
    ghost var whole := ShiftAndAdd(b, c, r);
    ProductOutcome(b, c);
    var multiplicand := new U64();
    var result := new U64();
    var multiplier := b;
    Assign(a, multiplicand);
    SetValue(0, 0, result);
    rounds := 0;
    var more := true;
    while more
      invariant multiplicand.Val() == c && result.Val() == r
      invariant more ==> whole == Product(ShiftAndAdd(multiplier, c, r).value,
                                          rounds + ShiftAndAdd(multiplier, c, r).rounds)
      invariant !more ==> whole == Product(r, rounds)
      decreases more, multiplier
    {
      MulRoundInPlace(multiplier % 2 == 1, multiplicand, result, c, r);
      ShiftByOne(multiplier);
      c, r := Times(c, 2), if multiplier % 2 == 1 then Plus(r, c) else r;
      multiplier := Shr(1, multiplier);
      rounds := rounds + 1;
      more := multiplier > 0;
    }
    Assign(result, value);
  }

  /** One trial subtraction, with the divisor and the weight moved down after. */
  method TrialSubtraction(d1: U64, tempd2: U64, r5: U64, tempresult: U64, thingtoadd: U64,
                          ghost d: nat, ghost tried: nat, ghost q: nat, ghost weight: nat)
    requires d1 != tempd2 && d1 != r5 && d1 != tempresult && d1 != thingtoadd
    requires tempd2 != r5 && tempd2 != tempresult && tempd2 != thingtoadd
    requires r5 != tempresult && r5 != thingtoadd && tempresult != thingtoadd
    requires d1.Val() == d && tempd2.Val() == tried
    requires tempresult.Val() == q && thingtoadd.Val() == weight
    requires q + weight < DWORD
    modifies d1, tempd2, r5, tempresult, thingtoadd
    ensures tempd2.Val() == tried / 2 && thingtoadd.Val() == weight / 2
    ensures if d >= tried then
              d1.Val() == d - tried && r5.Val() == d - tried && tempresult.Val() == q + weight
            else
              d1.Val() == d && r5.Val() == old(r5.Val()) && tempresult.Val() == q
  {
    if IsGreaterOrEqual(d1, tempd2) {
      Sub(d1, tempd2, r5);
      Add(tempresult, thingtoadd, tempresult);
      Assign(r5, d1);
    }
    ShiftByOne(weight);
    ShiftByOne(tried);
    ShiftRight(1, thingtoadd);
    ShiftRight(1, tempd2);
  }

  lemma StartOfPass(b: nat, left: nat)
    requires left == STEPS
    ensures Scaled(b, left - 1) == b * WORD
    ensures Pow2(left - 1) == WORD && Pow2(left) == 2 * WORD
  {
    Pow2OfWords();
    ScaledIsProduct(b, left - 1);
  }

  /** What one step contributes to a pass, and what the next starts from. */
  lemma StepOfPass(d: nat, b: nat, left: nat, weight: nat, tried: nat)
    requires left > 0 && weight == Pow2(left - 1) && tried == Scaled(b, left - 1)
    ensures Pow2(left) == 2 * weight
    ensures left > 1 ==> weight / 2 == Pow2(left - 2) && tried / 2 == Scaled(b, left - 2)
    ensures d >= tried ==>
            RunPass(d, b, left) == Pass(weight + RunPass(d - tried, b, left - 1).quotient,
                                        RunPass(d - tried, b, left - 1).remainder)
    ensures d < tried ==> RunPass(d, b, left) == RunPass(d, b, left - 1)
  {
  }

  /** One pass of the divider: 33 trial subtractions from d1, with the divisor
      starting 32 places up. r5 receives each difference; tempresult counts
      the copies taken. */
  method PassInPlace(d1: U64, tempd2: U64, r5: U64, tempresult: U64, thingtoadd: U64, ghost b: nat)
    requires d1 != tempd2 && d1 != r5 && d1 != tempresult && d1 != thingtoadd
    requires tempd2 != r5 && tempd2 != tempresult && tempd2 != thingtoadd
    requires r5 != tempresult && r5 != thingtoadd && tempresult != thingtoadd
    requires b < WORD && tempd2.Val() == b * WORD
    requires r5.Val() == 0 && tempresult.Val() == 0 && thingtoadd.Val() == WORD
    modifies d1, tempd2, r5, tempresult, thingtoadd
    ensures tempresult.Val() == RunPass(old(d1.Val()), b, STEPS).quotient
    ensures r5.Val() == Kept(old(d1.Val()), b)
  {
    ghost var d, q := d1.Val(), 0;
    // The step count as a variable: as a literal, every function of it would be
    // unfolded 33 times.
    ghost var left: nat :| left == STEPS;
    ghost var whole := RunPass(d, b, left);
    StartOfPass(b, left);
    for loopctrl := 0 to STEPS
      invariant left == STEPS - loopctrl
      invariant left > 0 ==> tempd2.Val() == Scaled(b, left - 1) && thingtoadd.Val() == Pow2(left - 1)
      invariant d1.Val() == d && tempresult.Val() == q
      invariant q + Pow2(left) <= 2 * WORD
      invariant whole == Pass(q + RunPass(d, b, left).quotient, RunPass(d, b, left).remainder)
      invariant r5.Val() == if q == 0 then 0 else d
    {
      ghost var weight, tried := Pow2(left - 1), Scaled(b, left - 1);
      StepOfPass(d, b, left, weight, tried);
      TrialSubtraction(d1, tempd2, r5, tempresult, thingtoadd, d, tried, q, weight);
      if d >= tried {
        d, q := d - tried, q + weight;
      }
      left := left - 1;
    }
  }

  /** The registers of a pass, as each pass sets them up. */
  method PreparePass(remnd: U64, d2: U64, ghost b: U32)
    returns (d1: U64, tempd2: U64, r5: U64, tempresult: U64, thingtoadd: U64)
    requires d2.Val() == b
    ensures fresh({d1, tempd2, r5, tempresult, thingtoadd})
    ensures d1 != tempd2 && d1 != r5 && d1 != tempresult && d1 != thingtoadd
    ensures tempd2 != r5 && tempd2 != tempresult && tempd2 != thingtoadd
    ensures r5 != tempresult && r5 != thingtoadd && tempresult != thingtoadd
    ensures d1.Val() == remnd.Val() && tempd2.Val() == b
    ensures r5.Val() == 0 && tempresult.Val() == 0 && thingtoadd.Val() == WORD
  {
    thingtoadd := new U64();
    tempresult := new U64();
    r5 := new U64();
    d1 := new U64();
    tempd2 := new U64();
    thingtoadd.LSW, tempresult.MSW, tempresult.LSW, r5.MSW, r5.LSW := 0, 0, 0, 0, 0;
    thingtoadd.MSW := 1;
    d1.MSW, d1.LSW := remnd.MSW, remnd.LSW;
    tempd2.MSW, tempd2.LSW := d2.MSW, d2.LSW;
  }

  /** A round of the outer loop: a pass is run, its last difference becomes
      the remainder and its count is added to the result. */
  method DividePass(remnd: U64, d2: U64, result: U64, ghost b: U32, ghost r: nat, ghost q: nat)
    requires remnd != d2 && remnd != result && d2 != result
    requires d2.Val() == b && remnd.Val() == r && result.Val() == q
    requires q + RunPass(r, b, STEPS).quotient < DWORD
    modifies remnd, result
    ensures remnd.Val() == Kept(r, b)
    ensures result.Val() == q + RunPass(r, b, STEPS).quotient
  {
    var d1, tempd2, r5, tempresult, thingtoadd := PreparePass(remnd, d2, b);
    MovedUp(b);
    ShiftLeft(32, tempd2);
    PassInPlace(d1, tempd2, r5, tempresult, thingtoadd, b);
    Assign(r5, remnd);
    Add(result, tempresult, result);
  }

  /** The loop that DivLit and ModLit share: passes from a until the divisor
      is no longer below the remainder, which for divisor 0 takes dividend 0.
      The sum of the partial quotients and the last difference are left in two
      new objects. */
  method DivideInPlace(a: U64, b: U32) returns (result: U64, remnd: U64, ghost passes: nat)
    requires b != 0 || a.Val() == 0
    ensures fresh(result) && fresh(remnd) && result != remnd
    ensures Divide(old(a.Val()), b) == Division(result.Val(), remnd.Val(), passes)
  {
    ghost var q, r := 0, a.Val();
    ghost var whole := Divide(r, b);
    QuotientFits(r, b);
    remnd := new U64();
    result := new U64();
    var d2 := new U64();
    Assign(a, remnd);
    SetValue(b, 0, d2);
    SetValue(0, 0, result);
    passes := 0;
    var more := true;
    while more
      invariant d2.Val() == b && (b != 0 || r == 0)
      invariant remnd.Val() == r && result.Val() == q
      invariant more ==> whole == Division(q + Divide(r, b).quotient, Divide(r, b).remainder,
                                           passes + Divide(r, b).passes)
      invariant !more ==> whole == Division(q, r, passes)
      decreases more, r
    {
      DividePass(remnd, d2, result, b, r, q);
      PassShrinks(r, b);
      q, r := q + RunPass(r, b, STEPS).quotient, Kept(r, b);
      passes := passes + 1;
      more := IsLessThan(d2, remnd);
    }
  }

  lemma MovedUp(b: U32)
    ensures Times(b, Pow2(32)) == b * WORD
  {
    Pow2OfWords();
    QuotientUnique(b * WORD, DWORD, 0, b * WORD);
  }

  lemma QuotientFits(a: nat, b: nat)
    requires (b > 0 || a == 0) && a < DWORD
    ensures Divide(a, b).quotient < DWORD
  {
    if b > 0 {
      DivideOutcome(a, b);
      DivShrinks(a, b);
    } else {
      ZeroByZero();
    }
  }

  /** value := a / b, one less where the divider stops short; 2^33 - 1 for 0
      by 0. No other division by 0 ends. */
  method DivLit(a: U64, b: U32, value: U64) returns (ghost passes: nat)
    requires b != 0 || a.Val() == 0
    modifies value
    ensures b == 0 ==> value.Val() == CAP
    ensures b != 0 ==> value.Val() == old(a.Val()) / b - (if StopsShort(old(a.Val()), b) then 1 else 0)
    ensures passes == Divide(old(a.Val()), b).passes
  {
    if b != 0 {
      DivideOutcome(a.Val(), b);
    } else {
      ZeroByZero();
    }
    var result, remnd;
    result, remnd, passes := DivideInPlace(a, b);
    Assign(result, value);
  }

  /** value := a % b, but 0 where a is below b, and b where the divider stops
      short; 0 for 0 by 0. */
  method ModLit(a: U64, b: U32, value: U64) returns (ghost passes: nat)
    requires b != 0 || a.Val() == 0
    modifies value
    ensures value.Val() ==
            if b == 0 || old(a.Val()) < b then 0
            else if StopsShort(old(a.Val()), b) then b
            else old(a.Val()) % b
    ensures passes == Divide(old(a.Val()), b).passes
  {
    if b != 0 {
      DivideOutcome(a.Val(), b);
    } else {
      ZeroByZero();
    }
    var result, remnd;
    result, remnd, passes := DivideInPlace(a, b);
    Assign(remnd, value);
  }
}
