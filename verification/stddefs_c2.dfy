/**
 The 64-bit library as built for the ST20 C2 core, on the three-register
 evaluation stack of that machine. Only the defined registers are kept, so a
 sequence that read an undefined one would not verify.
 */
module StddefsC2 {
  import opened Words
  import opened Wide

  /** The defined registers, from the top. */
  datatype Stack =
    | One(a: U32)
    | Two(a: U32, b: U32)
    | Three(a: U32, b: U32, c: U32)

  function Ld(x: U32, s: Stack): Stack {
    if s.One? then Two(x, s.a) else Three(x, s.a, s.b)
  }

  function Ldab(x: U32, y: U32, s: Stack): Stack {
    Three(x, y, s.a)
  }

  function Ldabc(x: U32, y: U32, z: U32): Stack {
    Three(x, y, z)
  }

  function Pop(s: Stack): Stack
    requires !s.One?
  {
    if s.Two? then One(s.b) else Two(s.b, s.c)
  }

  /** Long sum: the two top registers and the carry bit in the third. */
  function Lsum(s: Stack): Stack
    requires s.Three?
  {
    var sum: int := s.a + s.b + s.c % 2;
    Two(sum % WORD, sum / WORD)
  }

  /** Byte subscript: a plain 32-bit sum of the two top registers. */
  function Bsub(s: Stack): Stack
    requires !s.One?
  {
    var sum: int := s.a + s.b;
    if s.Two? then One(sum % WORD) else Two(sum % WORD, s.c)
  }

  /** Long multiply: product plus the third register, low word on top. */
  function Lmul(s: Stack): Stack
    requires s.Three?
  {
    LongProductFits(s.a, s.b, s.c);
    Two((s.a * s.b + s.c) % WORD, (s.a * s.b + s.c) / WORD)
  }

  /** Long divide: the third and second registers, as a 64-bit number, by the
      top; quotient over remainder. It traps unless the quotient fits. */
  function Ldiv(s: Stack): Stack
    requires s.Three?
    requires s.c < s.a
  {
    LongQuotientFits(s.c, s.b, s.a);
    Two((s.c * WORD + s.b) / s.a, (s.c * WORD + s.b) % s.a)
  }

  lemma LongProductFits(x: U32, y: U32, z: U32)
    ensures 0 <= (x * y + z) / WORD < WORD
  {
    ProductNonNegative(x, y);
    BelowProduct(WORD, WORD, x);
    ProductNonNegative(x, WORD - 1 - y);
    Distribute(x, y, WORD - 1 - y);
  }

  lemma LongQuotientFits(h: nat, l: U32, d: U32)
    requires h < d
    ensures 0 <= (h * WORD + l) / d < WORD
  {
    var n := h * WORD + l;
    var q := n / d;
    MulOutside(d, q);
    MulOutside(d, WORD - q);
    Distribute(d, WORD - q, q);
  }

  lemma CarryOf(x: U32, y: U32)
    ensures (x + y) / WORD == (x + y) / WORD % 2 == if x + y >= WORD then 1 else 0
  {
  }

  /** The carry that a low sum leaves on the stack completes the high sum. */
  lemma CarriedSum(ah: U32, al: U32, bh: U32, bl: U32)
    ensures var low := Lsum(Ldabc(al, bl, 0));
            var high := Lsum(Ldab(ah, bh, Pop(low)));
            high.a * WORD + low.a == Plus(ah * WORD + al, bh * WORD + bl)
  {
    CarryOf(al, bl);
    JoinSum(ah, al, bh, bl);
  }

  /** value := a + b mod 2^64, whichever objects coincide: all four words are
      read before any is stored. */
  method Add(a: U64, b: U64, value: U64)
    modifies value
    ensures value.Val() == Plus(old(a.Val()), old(b.Val()))
  {
    CarriedSum(a.MSW, a.LSW, b.MSW, b.LSW);
    var am, bm := a.MSW, b.MSW;
    var s := Lsum(Ldabc(a.LSW, b.LSW, 0));
    var l := s.a;
    s := Lsum(Ldab(am, bm, Pop(s)));
    value.MSW := s.a;
    value.LSW := l;
  }

  lemma CarriedIncrement(ah: U32, al: U32, b: U32)
    ensures var low := Lsum(Ldabc(al, b, 0));
            var high := Bsub(Ld(ah, Pop(low)));
            high.a * WORD + low.a == Plus(ah * WORD + al, b)
  {
    CarryOf(al, b);
    JoinSum(ah, al, 0, b);
  }

  method AddLit(a: U64, b: U32, value: U64)
    modifies value
    ensures value.Val() == Plus(old(a.Val()), b)
  {
    CarriedIncrement(a.MSW, a.LSW, b);
    var am := a.MSW;
    var s := Lsum(Ldabc(a.LSW, b, 0));
    var l := s.a;
    s := Bsub(Ld(am, Pop(s)));
    value.MSW := s.a;
    value.LSW := l;
  }

  /** value := a / b, for every a and every b but 0. */
  method DivLit(a: U64, b: U32, value: U64)
    requires b != 0
    modifies value
    ensures value.Val() == old(a.Val()) / b
  {
    LongDivision(a.MSW, a.LSW, b);
    var al := a.LSW;
    var s := Ldiv(Ldabc(b, a.MSW, 0));
    var m := s.a;
    s := Ldiv(Ldab(b, al, Pop(s)));
    value.LSW := s.a;
    value.MSW := m;
  }

  /** Only the low word is stored: the remainder comes out right exactly when
      the destination's high word was already 0. */
  method ModLit(a: U64, b: U32, value: U64)
    requires b != 0
    modifies value
    ensures value.Val() == old(value.MSW) * WORD + old(a.Val()) % b
    ensures value.Val() == old(a.Val()) % b <==> old(value.MSW) == 0
  {
    LongDivision(a.MSW, a.LSW, b);
    var al := a.LSW;
    var s := Ldiv(Ldabc(b, a.MSW, 0));
    s := Ldiv(Ldab(b, al, Pop(s)));
    s := Pop(s);
    value.LSW := s.a;
  }

  /** Schoolbook division, a word at a time. */
  lemma LongDivision(h: U32, l: U32, b: U32)
    requires b != 0
    ensures (h * WORD + l) / b == (h / b) * WORD + ((h % b) * WORD + l) / b
    ensures (h * WORD + l) % b == ((h % b) * WORD + l) % b
  {
    var k, m := h / b, h % b;
    var kw := k * WORD;
    assert h * WORD == m * WORD + b * kw by {
      Distribute(WORD, b * k, m);
      Associate(b, k, WORD);
    }
    ModIgnoresMultiples(m * WORD + l, kw, b);
  }

  /** The three partial products, each with what the one before left. */
  lemma CarriedProduct(ah: U32, al: U32, bh: U32, bl: U32)
    ensures var low := Lmul(Ldabc(al, bl, 0));
            var cross := Lmul(Ldab(ah, bl, Pop(low)));
            var high := Lmul(Ldab(al, bh, cross));
            high.a * WORD + low.a == Times(ah * WORD + al, bh * WORD + bl)
  {
    LongMultiplication(ah, al, bh, bl);
  }

  /** value := a * b mod 2^64, for every pair and every aliasing. */
  method Mul(a: U64, b: U64, value: U64)
    modifies value
    ensures value.Val() == Times(old(a.Val()), old(b.Val()))
  {
    CarriedProduct(a.MSW, a.LSW, b.MSW, b.LSW);
    var al, am, bl, bm := a.LSW, a.MSW, b.LSW, b.MSW;
    var s := Lmul(Ldabc(al, bl, 0));
    var l := s.a;
    s := Lmul(Ldab(am, bl, Pop(s)));
    s := Lmul(Ldab(al, bm, s));
    value.MSW := s.a;
    value.LSW := l;
  }

  method MulLit(a: U64, b: U32, value: U64)
    modifies value
    ensures value.Val() == Times(old(a.Val()), b)
  {
    LongMultiplicationByWord(a.MSW, a.LSW, b);
    var am := a.MSW;
    var s := Lmul(Ldabc(b, a.LSW, 0));
    var l := s.a;
    s := Lmul(Ldab(b, am, Pop(s)));
    value.MSW := s.a;
    value.LSW := l;
  }

  /** Schoolbook multiplication mod 2^64: the high words' own product is lost. */
  lemma LongMultiplication(ah: U32, al: U32, bh: U32, bl: U32)
    ensures var low := al * bl;
            var cross := (ah * bl + low / WORD) % WORD;
            Times(ah * WORD + al, bh * WORD + bl) == ((al * bh + cross) % WORD) * WORD + low % WORD
  {
    var low := al * bl;
    var x, y := ah * bl, al * bh;
    var z := ah * bh;
    PartialProducts(ah, al, bh, bl, z, x, y, low);
    var carry := low / WORD;
    ModIgnoresMultiples(WORD * (x + y) + low, z, DWORD);
    JoinWords(x + y + carry, low % WORD);
    ModIgnoresMultiples(y + (x + carry) % WORD, (x + carry) / WORD, WORD);
  }

  lemma PartialProducts(ah: U32, al: U32, bh: U32, bl: U32, z: int, x: int, y: int, low: int)
    requires z == ah * bh && x == ah * bl && y == al * bh && low == al * bl
    ensures (ah * WORD + al) * (bh * WORD + bl) == DWORD * z + WORD * (x + y) + low
  {
    var a := ah * WORD + al;
    assert a * bl == x * WORD + low by {
      Distribute(bl, ah * WORD, al);
      MulAssociates(bl, ah, WORD);
    }
    assert a * bh == z * WORD + y by {
      Distribute(bh, ah * WORD, al);
      MulAssociates(bh, ah, WORD);
    }
    Distribute(a, bh * WORD, bl);
    Associate(a, bh, WORD);
  }

  lemma LongMultiplicationByWord(ah: U32, al: U32, b: U32)
    ensures var low := b * al + 0;
            Times(ah * WORD + al, b) == ((b * ah + low / WORD) % WORD) * WORD + low % WORD
  {
    var low, high := b * al, b * ah;
    assert (ah * WORD + al) * b == high * WORD + low by {
      Distribute(b, ah * WORD, al);
      Associate(b, ah, WORD);
    }
    JoinWords(high + low / WORD, low % WORD);
  }
}
