/**
 What the shift-and-subtract divider computes, on plain numbers.

 One pass tries the 33 weights 2^32 .. 2^0 in turn, so it can take at most
 2^33 - 1 copies of the divisor away. Passes repeat while the divisor is
 strictly below the remainder.
 */
module Divider {
  import opened Words

  const STEPS := 33
  /** The most copies of the divisor that one pass subtracts: 2^33 - 1. */
  const CAP := 0x1_FFFF_FFFF

  datatype Pass = Pass(quotient: nat, remainder: nat)

  /** The last `steps` trial subtractions of a pass, weights 2^(steps-1) .. 1. */
  function RunPass(r: nat, b: nat, steps: nat): Pass
  {
    if steps == 0 then
      Pass(0, r)
    else
      var weight, tried := Pow2(steps - 1), Scaled(b, steps - 1);
      if r >= tried then
        var rest := RunPass(r - tried, b, steps - 1);
        Pass(weight + rest.quotient, rest.remainder)
      else
        RunPass(r, b, steps - 1)
  }

  function Min(x: int, y: int): int {
    if x < y then x else y
  }

  /** A pass takes whole copies of b away until less than b is left or the
      weights run out. */
  lemma {:induction false} PassIsGreedy(r: nat, b: nat, steps: nat)
    requires b > 0
    ensures var p := RunPass(r, b, steps);
            && p.quotient <= Pow2(steps) - 1
            && r == b * p.quotient + p.remainder
            && (p.remainder < b || p.quotient == Pow2(steps) - 1)
  {
    if steps == 0 {
    } else {
      var weight := Pow2(steps - 1);
      var tried := Scaled(b, steps - 1);
      ScaledIsProduct(b, steps - 1);
      if r >= tried {
        PassIsGreedy(r - tried, b, steps - 1);
        Distribute(b, weight, RunPass(r - tried, b, steps - 1).quotient);
      } else {
        PassIsGreedy(r, b, steps - 1);
        Distribute(b, weight, -1);
      }
    }
  }

  /** A pass is division with the quotient capped at 2^steps - 1. */
  lemma PassIsCappedDivision(r: nat, b: nat, steps: nat)
    requires b > 0
    ensures RunPass(r, b, steps).quotient == Min(r / b, Pow2(steps) - 1)
    ensures r == b * RunPass(r, b, steps).quotient + RunPass(r, b, steps).remainder
  {
    PassIsGreedy(r, b, steps);
    var p := RunPass(r, b, steps);
    ModIgnoresMultiples(p.remainder, p.quotient, b);
    if p.remainder < b {
      QuotientUnique(p.remainder, b, 0, p.remainder);
    } else {
      DivShrinks(p.remainder, b);
    }
  }

  /** With divisor 0 every trial subtraction succeeds and takes nothing away:
      a pass keeps its input. */
  lemma {:induction false} PassByZeroKeepsAll(r: nat, steps: nat)
    ensures RunPass(r, 0, steps) == Pass(Pow2(steps) - 1, r)
  {
    if steps == 0 {
    } else {
      PassByZeroKeepsAll(r, steps - 1);
      ScaledIsProduct(0, steps - 1);
    }
  }

  /** What is left after a pass. The difference register is cleared when the
      pass starts and only written by a subtraction, so a pass that subtracts
      nothing leaves 0 rather than its input. */
  function Kept(r: nat, b: nat): nat {
    var pass := RunPass(r, b, STEPS);
    if pass.quotient == 0 then 0 else pass.remainder
  }

  /** The dividend left after n passes with divisor 0, as the loop would run
      them, whatever its test says. */
  function KeptByZero(r: nat, passes: nat): nat
    decreases passes
  {
    if passes == 0 then r else KeptByZero(Kept(r, 0), passes - 1)
  }

  /** With divisor 0 every pass counts 2^33 - 1 and leaves its dividend, so the
      loop test holds after any number of passes, unless the dividend is 0:
      then it fails after one pass, with quotient 2^33 - 1 and remainder 0. */
  lemma {:induction false} DivisionByZeroEndsIff(r: nat, passes: nat)
    ensures RunPass(r, 0, STEPS).quotient == CAP && Kept(r, 0) == r
    ensures KeptByZero(r, passes) == r
    ensures !(0 < KeptByZero(r, passes)) <==> r == 0
  {
    PassByZeroKeepsAll(r, STEPS);
    Pow2OfWords();
    if passes > 0 {
      DivisionByZeroEndsIff(r, passes - 1);
    }
  }

  lemma PassOutcome(r: nat, b: nat)
    requires b > 0
    ensures RunPass(r, b, STEPS).quotient == Min(r / b, CAP)
    ensures r < b ==> Kept(r, b) == 0
    ensures b <= r ==> Kept(r, b) == r - b * Min(r / b, CAP) <= r - b
  {
    PassIsCappedDivision(r, b, STEPS);
    Pow2OfWords();
    if b <= r {
      QuotientPositive(r, b);
      MulOutside(b, Min(r / b, CAP));
    } else {
      QuotientUnique(r, b, 0, r);
    }
  }

  lemma QuotientPositive(r: nat, b: nat)
    requires 0 < b <= r
    ensures r / b >= 1
  {
    ModIgnoresMultiples(r - b, 1, b);
    assert (r - b) / b >= 0;
  }

  lemma PassShrinks(r: nat, b: nat)
    requires b > 0 || r == 0
    ensures Kept(r, b) == 0 || Kept(r, b) <= r - b
    ensures b < Kept(r, b) ==> b > 0 && Kept(r, b) < r
  {
    if b > 0 {
      PassOutcome(r, b);
    } else {
      DivisionByZeroEndsIff(r, 1);
    }
  }

  datatype Division = Division(quotient: nat, remainder: nat, passes: nat)

  /** The whole divider: passes until the remainder no longer exceeds b. Defined
      wherever the loop ends. */
  function Divide(r: nat, b: nat): Division
    requires b > 0 || r == 0
    decreases r
  {
    PassShrinks(r, b);
    var q := RunPass(r, b, STEPS).quotient;
    var kept := Kept(r, b);
    if b < kept then
      var rest := Divide(kept, b);
      Division(q + rest.quotient, rest.remainder, 1 + rest.passes)
    else
      Division(q, kept, 1)
  }

  /** The inputs on which the divider stops one subtraction short: an exact
      division whose quotient is 1 more than a positive multiple of 2^33 - 1. */
  predicate StopsShort(a: nat, b: nat)
    requires b > 0
  {
    a % b == 0 && a / b > 1 && (a / b - 1) % CAP == 0
  }

  /** The same, for a dividend given as b * q + r with r below b: each pass
      lowers q by 2^33 - 1 and leaves r alone. */
  lemma {:induction false} DivideParts(a: nat, b: nat, q: nat, r: nat)
    requires r < b && a == b * q + r
    ensures var short := r == 0 && q > 1 && (q - 1) % CAP == 0;
            Divide(a, b) ==
            if q == 0 then Division(0, 0, 1)
            else if short then Division(q - 1, b, (q - 1) / CAP)
            else Division(q, r, (q + CAP - 1) / CAP)
    decreases q
  {
    PassOutcome(a, b);
    QuotientUnique(a, b, q, r);
    if q > CAP {
      FullPass(b, q - CAP, r);
      if q - CAP > 1 || r > 0 {
        DivideParts(b * (q - CAP) + r, b, q - CAP, r);
      }
    }
  }

  /** What a full pass leaves, and when another follows. */
  lemma FullPass(b: nat, rest: nat, r: nat)
    requires r < b && rest >= 1
    ensures b * (rest + CAP) == b * rest + b * CAP
    ensures b < b * rest + r <==> rest > 1 || r > 0
    ensures b * rest + r >= b
  {
    Distribute(b, rest, CAP);
    Distribute(b, rest - 1, 1);
    MulOutside(b, rest - 1);
  }

  /** For every dividend and every divisor but 0: the quotient, the remainder
      and the number of passes. */
  lemma DivideOutcome(a: nat, b: nat)
    requires b > 0
    ensures Divide(a, b).quotient == a / b - (if StopsShort(a, b) then 1 else 0)
    ensures Divide(a, b).remainder ==
            if a < b then 0 else if StopsShort(a, b) then b else a % b
    ensures Divide(a, b).passes ==
            if a < b then 1 else if StopsShort(a, b) then (a / b - 1) / CAP else (a / b + CAP - 1) / CAP
  {
    DivideParts(a, b, a / b, a % b);
    if a < b {
      QuotientUnique(a, b, 0, a);
    } else {
      QuotientPositive(a, b);
    }
  }

  /** The divider's quotient is the quotient, exactly when it does not stop
      short; quotients below 2^33 are always right and take one pass. */
  lemma QuotientCorrectIff(a: nat, b: nat)
    requires b > 0
    ensures Divide(a, b).quotient == a / b <==> !StopsShort(a, b)
    ensures a / b < 0x2_0000_0000 ==> !StopsShort(a, b) && Divide(a, b).passes == 1
  {
    DivideOutcome(a, b);
    if a / b < 0x2_0000_0000 && a >= b {
      QuotientPositive(a, b);
    }
  }

  /** The divider's remainder is the remainder, exactly when it does not stop
      short and the dividend is either 0 or at least the divisor. */
  lemma RemainderCorrectIff(a: nat, b: nat)
    requires b > 0
    ensures Divide(a, b).remainder == a % b <==> !StopsShort(a, b) && (a == 0 || b <= a)
  {
    DivideOutcome(a, b);
    if a < b {
      QuotientUnique(a, b, 0, a);
    }
  }

  lemma PassBound(q: nat)
    ensures (q + CAP - 1) / CAP <= q / CAP + 1
    ensures q >= 1 ==> (q - 1) / CAP <= q / CAP
  {
  }

  /** Nothing is lost on the way: from b up, quotient and remainder always
      rebuild the dividend, even where the quotient is one short. */
  lemma DividePreservesValue(a: nat, b: nat)
    requires 0 < b <= a
    ensures a == b * Divide(a, b).quotient + Divide(a, b).remainder
    ensures Divide(a, b).remainder <= b
    ensures Divide(a, b).passes <= a / b / CAP + 1
  {
    DivideParts(a, b, a / b, a % b);
    QuotientPositive(a, b);
    Distribute(b, a / b, -1);
    PassBound(a / b);
  }

  /** 0 divided by 0, the one division by 0 that ends. */
  lemma ZeroByZero()
    ensures Divide(0, 0) == Division(CAP, 0, 1)
  {
    DivisionByZeroEndsIff(0, 1);
  }

  /** The smallest dividend on which the divider stops short, for divisor 1. */
  lemma StopsShortExample()
    ensures StopsShort(0x2_0000_0000, 1)
    ensures Divide(0x2_0000_0000, 1) == Division(CAP, 1, 1)
  {
    DivideOutcome(0x2_0000_0000, 1);
  }

  /** A dividend below its divisor: the remainder comes out as 0. */
  lemma SmallDividendExample()
    ensures Divide(5, 7) == Division(0, 0, 1)
  {
    DivideOutcome(5, 7);
  }
}
