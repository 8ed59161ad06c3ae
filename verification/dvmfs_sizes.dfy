/**
 The file-size computations that the video recorder's file layer makes with
 the 64-bit library, mostly in place: a result overwrites an operand. Its
 headers select the signed ST40 build.
 */
module DvmfsSizes {
  import opened Words
  import opened Wide
  import opened StdvmST40

  const PACKET := 188
  /** The recorder's chunk: 4096 packets. */
  const CHUNK := 4096 * PACKET

  /** A stream of full sub-files and a last one: its size. */
  method StreamSize(subFileSize: U32, nbOfFiles: U32, lastFileSize: U32, size: U64)
    modifies size
    ensures size.Val() == subFileSize * ((nbOfFiles - 1) % WORD) + lastFileSize
  {
    var fullFiles := (nbOfFiles - 1) % WORD;
    LongSizeFits(subFileSize, fullFiles, lastFileSize);
    TimesExact(subFileSize, fullFiles);
    SetValue(subFileSize, 0, size);
    MulLit(size, fullFiles, size);
    AddLit(size, lastFileSize, size);
  }

  lemma LongSizeFits(x: U32, y: U32, z: U32)
    ensures 0 <= x * y <= DWORD - WORD - z
  {
    ProductNonNegative(x, y);
    var gap := WORD - 1 - y;
    ProductNonNegative(x, gap);
    Distribute(x, y, gap);
    assert x * y <= x * (WORD - 1);
  }

  /** Divide by the chunk size and multiply back. Below 2^63 the size loses its
      odd bytes. From 2^63 up it gains instead what its complement has over a
      whole number of chunks, so the two agree only where there are no odd
      bytes on either side. */
  method RoundDownToChunk(size: U64, chunk: U32)
    requires chunk != 0
    modifies size
    ensures var a := old(size.Val());
            size.Val() == if a < HALF then a - a % chunk else Plus(a, (DWORD - a) % chunk)
    ensures var a := old(size.Val());
            size.Val() == a - a % chunk <==> a < HALF || (DWORD % chunk == 0 && a % chunk == 0)
  {
    MultiplyBack(size.Val(), chunk);
    RoundingCorrectIff(size.Val(), chunk);
    DivLit(size, chunk, size);
    MulLit(size, chunk, size);
  }

  lemma MultiplyBack(a: nat, b: nat)
    requires a < DWORD && 0 < b < WORD
    ensures Times(SignedQuotient(a, b), b) ==
            if a < HALF then a - a % b else Plus(a, (DWORD - a) % b)
  {
    if a < HALF {
      BelowHalfExact(a, b);
    } else {
      var n := DWORD - a;
      NegativeQuotient(a, b);
      DivShrinks(n, b);
      FromHalfUp(n, b, n / b, n % b);
    }
  }

  lemma BelowHalfExact(a: nat, b: nat)
    requires a < HALF && 0 < b < WORD
    ensures Times(SignedQuotient(a, b), b) == a - a % b
  {
    DivShrinks(a, b);
    var q: nat := a / b;
    QuotientUnique(q, DWORD, 0, q);
    ProductNonNegative(q, b);
    TimesExact(q, b);
  }

  /** A negated number of chunks, multiplied back, is past the size by what
      its complement n has over. */
  lemma FromHalfUp(n: int, b: int, k: int, r: int)
    requires 0 <= k <= n <= HALF && n == b * k + r && 0 < b && 0 <= r
    ensures Times(if k == 0 then 0 else DWORD - k, b) == Plus(DWORD - n, r)
  {
    if k > 0 {
      assert (DWORD - k) * b == DWORD - n + r + DWORD * (b - 1) by {
        Distribute(b, DWORD, -k);
      }
      ModIgnoresMultiples(DWORD - n + r, b - 1, DWORD);
    }
  }

  lemma RoundingCorrectIff(a: nat, b: nat)
    requires a < DWORD && 0 < b < WORD
    ensures Times(SignedQuotient(a, b), b) == a - a % b <==>
            a < HALF || (DWORD % b == 0 && a % b == 0)
  {
    MultiplyBack(a, b);
    if a >= HALF {
      ComplementMultiple(a, b);
      DivShrinks(DWORD - a, b);
      RemainderAtMost(DWORD - a, b);
    }
  }

  /** From 2^63 up, whole chunks are left alone only where a chunk divides 2^64:
      here a size of exactly 2^63 comes out larger. */
  lemma RoundingExample()
    ensures Times(SignedQuotient(HALF, CHUNK), CHUNK) > HALF
    ensures HALF % CHUNK != 0
  {
    MultiplyBack(HALF, CHUNK);
  }

  lemma RemainderAtMost(n: nat, b: nat)
    requires b > 0
    ensures n % b <= n
  {
    DivShrinks(n, b);
    ProductNonNegative(b, n / b);
  }

  /** The permitted stream size, from a number of packets: whole chunks of 4096
      packets, exactly when the packets have fewer than 2^63 bytes. */
  method MaxStreamSize(packets: U64, size: U64)
    modifies size
    ensures var a := Times(old(packets.Val()), PACKET);
            size.Val() == if a < HALF then a - a % CHUNK else Plus(a, (DWORD - a) % CHUNK)
    ensures size.Val() == old(packets.Val()) / 4096 * 770_048 <==>
            old(packets.Val()) * 188 < 0x8000_0000_0000_0000
  {
    PacketsInChunks(packets.Val());
    RoundingCorrectIff(Times(packets.Val(), PACKET), CHUNK);
    MulLit(packets, PACKET, size);
    RoundDownToChunk(size, CHUNK);
  }

  /** Rounding packets and rounding their bytes is the same; a chunk does not
      divide 2^64, and a size that wraps is lost for good. */
  lemma PacketsInChunks(packets: nat)
    requires packets < DWORD
    ensures var bytes, rounded := Times(packets, PACKET), packets / 4096 * CHUNK;
            && (packets * PACKET < HALF ==> bytes < HALF && rounded == bytes - bytes % CHUNK)
            && (HALF <= packets * PACKET < DWORD ==> HALF <= bytes && rounded == bytes - bytes % CHUNK)
            && (DWORD <= packets * PACKET ==> rounded > DWORD - CHUNK)
    ensures DWORD % CHUNK != 0
  {
    var k, low := packets / 4096, packets % 4096;
    assert packets * PACKET == CHUNK * k + low * PACKET;
    QuotientUnique(packets * PACKET, CHUNK, k, low * PACKET);
    if packets * PACKET < DWORD {
      TimesExact(packets, PACKET);
    }
  }

  /** The least number of sub-files of `b` bytes that hold `a` bytes. */
  predicate Fewest(n: nat, a: nat, b: nat) {
    n * b >= a && (n > 0 ==> (n - 1) * b < a)
  }

  /** Sub-files needed for a part: rounded up. The caller keeps the low word
      alone. For the sub-file sizes that the recorder can have, up to
      0x7FFFFFFF, that is the number exactly for parts of at most 2^32 - 1
      sub-files. */
  method SubFilesNeeded(part: U64, subFileSize: U32, files: U64)
    requires subFileSize != 0
    modifies files
    ensures files.Val() == SignedQuotient(Plus(old(part.Val()), subFileSize - 1), subFileSize)
    ensures Fewest(files.Val(), old(part.Val()), subFileSize) <==>
            old(part.Val()) + subFileSize - 1 < HALF || subFileSize == 1
    ensures subFileSize <= 0x7FFF_FFFF ==>
            (Fewest(files.LSW, old(part.Val()), subFileSize) <==>
             old(part.Val()) <= (WORD - 1) * subFileSize)
  {
    ghost var size := part.Val();
    AddLit(part, subFileSize - 1, files);
    DivLit(files, subFileSize, files);
    WordsOf(files);
    FilesCorrectIff(size, subFileSize);
    if subFileSize <= 0x7FFF_FFFF {
      LowWordIff(size, subFileSize);
    }
  }

  lemma WordsOf(a: U64)
    ensures a.LSW == a.Val() % WORD
  {
  }

  lemma FewestUnique(m: nat, n: nat, a: nat, b: nat)
    requires Fewest(m, a, b) && Fewest(n, a, b)
    ensures m == n
  {
    if m < n {
      MulMonotone(m, n - 1, b);
    } else if n < m {
      MulMonotone(n, m - 1, b);
    }
  }

  lemma RoundedUpIsFewest(a: nat, b: nat)
    requires b > 0
    ensures Fewest((a + b - 1) / b, a, b)
  {
    var n := (a + b - 1) / b;
    DivShrinks(a + b - 1, b);
    Distribute(b, n, -1);
  }

  lemma FilesCorrectIff(a: nat, b: nat)
    requires a < DWORD && 0 < b < WORD
    ensures Fewest(SignedQuotient(Plus(a, b - 1), b), a, b) <==> a + b - 1 < HALF || b == 1
  {
    var files := SignedQuotient(Plus(a, b - 1), b);
    var n := (a + b - 1) / b;
    RoundedUpIsFewest(a, b);
    if a + b - 1 < DWORD {
      QuotientCorrectIff(a + b - 1, b);
    } else {
      var padded := a + b - 1 - DWORD;
      QuotientUnique(a + b - 1, DWORD, 1, padded);
      QuotientUnique(padded, b, 0, padded);
      QuotientCorrectIff(padded, b);
    }
    if Fewest(files, a, b) {
      FewestUnique(files, n, a, b);
    }
  }

  /** Whether the low word alone is the number. */
  lemma LowWordIff(a: nat, b: nat)
    requires a < DWORD && 0 < b <= 0x7FFF_FFFF
    ensures Fewest(SignedQuotient(Plus(a, b - 1), b) % WORD, a, b) <==> a <= (WORD - 1) * b
  {
    var files := SignedQuotient(Plus(a, b - 1), b);
    Distribute(b, WORD, -1);
    if a <= (WORD - 1) * b {
      FilesCorrectIff(a, b);
      if files >= WORD {
        MulMonotone(WORD - 1, files - 1, b);
      }
    } else {
      MulMonotone(files % WORD, WORD - 1, b);
    }
  }
}
