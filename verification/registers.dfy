/**
 Register access in a fixed byte order. The accessors exist in four builds,
 one for each CPU byte order with and without wide accesses; all four must
 leave, and read, the same bytes.
 */
module Registers {
  import opened Memories

  datatype Build = Build(bigEndianCpu: bool, noOptimization: bool)

  // ----- bytes and numbers -----

  function Cut8(v: bv32): bv8 {
    (v & 0xFF) as bv8
  }

  function Cut16(v: bv32): bv16 {
    (v & 0xFFFF) as bv16
  }

  /** Byte k of v, counting from the least significant. */
  function ByteOf(v: bv32, k: int): bv8 {
    if k == 0 then Cut8(v) else if k == 1 then Cut8(v >> 8) else if k == 2 then Cut8(v >> 16) else Cut8(v >> 24)
  }

  /** The width low bytes of v in memory order. */
  function Layout(order: Order, width: nat, v: bv32): (bytes: seq<bv8>)
    ensures |bytes| == width
  {
    seq(width, i => ByteOf(v, if order == LE then i else width - 1 - i))
  }

  function Join(b3: bv8, b2: bv8, b1: bv8, b0: bv8): bv32 {
    (b3 as bv32 << 24) | (b2 as bv32 << 16) | (b1 as bv32 << 8) | b0 as bv32
  }

  /** The byte of significance k of a number held in memory order; 0 beyond. */
  function Digit(order: Order, bytes: seq<bv8>, k: nat): bv8 {
    if k >= |bytes| then 0 else bytes[if order == LE then k else |bytes| - 1 - k]
  }

  /** The number that up to four bytes in memory order stand for. */
  function Number(order: Order, bytes: seq<bv8>): bv32 {
    Join(Digit(order, bytes, 3), Digit(order, bytes, 2), Digit(order, bytes, 1), Digit(order, bytes, 0))
  }

  /** v mod 2^(8 * width). */
  function Cut(width: nat, v: bv32): bv32 {
    if width == 2 then v & 0xFFFF else if width == 3 then v & 0xFF_FFFF else v
  }

  lemma JoinTwo(v: bv32)
    ensures Join(0, 0, ByteOf(v, 1), ByteOf(v, 0)) == v & 0xFFFF
  {
  }

  lemma JoinThree(v: bv32)
    ensures Join(0, ByteOf(v, 2), ByteOf(v, 1), ByteOf(v, 0)) == v & 0xFF_FFFF
  {
  }

  lemma JoinFour(v: bv32)
    ensures Join(ByteOf(v, 3), ByteOf(v, 2), ByteOf(v, 1), ByteOf(v, 0)) == v & 0xFFFF_FFFF
  {
  }

  lemma DigitsOfLayout(order: Order, width: nat, v: bv32, k: nat)
    ensures Digit(order, Layout(order, width, v), k) == if k < width then ByteOf(v, k) else 0
  {
  }

  lemma NumberOfDigits(order: Order, bytes: seq<bv8>, b3: bv8, b2: bv8, b1: bv8, b0: bv8)
    requires Digit(order, bytes, 3) == b3 && Digit(order, bytes, 2) == b2
    requires Digit(order, bytes, 1) == b1 && Digit(order, bytes, 0) == b0
    ensures Number(order, bytes) == Join(b3, b2, b1, b0)
  {
  }

  lemma NumberOfLayoutTwo(order: Order, v: bv32)
    ensures Number(order, Layout(order, 2, v)) == Cut(2, v)
  {
    DigitsOfLayout(order, 2, v, 0);
    DigitsOfLayout(order, 2, v, 1);
    DigitsOfLayout(order, 2, v, 2);
    DigitsOfLayout(order, 2, v, 3);
    NumberOfDigits(order, Layout(order, 2, v), 0, 0, ByteOf(v, 1), ByteOf(v, 0));
    JoinTwo(v);
  }

  lemma NumberOfLayoutThree(order: Order, v: bv32)
    ensures Number(order, Layout(order, 3, v)) == Cut(3, v)
  {
    DigitsOfLayout(order, 3, v, 0);
    DigitsOfLayout(order, 3, v, 1);
    DigitsOfLayout(order, 3, v, 2);
    DigitsOfLayout(order, 3, v, 3);
    NumberOfDigits(order, Layout(order, 3, v), 0, ByteOf(v, 2), ByteOf(v, 1), ByteOf(v, 0));
    JoinThree(v);
  }

  lemma NumberOfLayoutFour(order: Order, v: bv32)
    ensures Number(order, Layout(order, 4, v)) == Cut(4, v)
  {
    DigitsOfLayout(order, 4, v, 0);
    DigitsOfLayout(order, 4, v, 1);
    DigitsOfLayout(order, 4, v, 2);
    DigitsOfLayout(order, 4, v, 3);
    NumberOfDigits(order, Layout(order, 4, v), ByteOf(v, 3), ByteOf(v, 2), ByteOf(v, 1), ByteOf(v, 0));
    JoinFour(v);
  }

  /** A value laid out and read back in one order is the value, cut to width. */
  lemma NumberOfLayout(order: Order, width: nat, v: bv32)
    requires 2 <= width <= 4
    ensures Number(order, Layout(order, width, v)) == Cut(width, v)
  {
    if width == 2 {
      NumberOfLayoutTwo(order, v);
    } else if width == 3 {
      NumberOfLayoutThree(order, v);
    } else {
      NumberOfLayoutFour(order, v);
    }
  }

  // ----- what the CPU does with a pointer of each width -----

  function Native(build: Build): Order {
    if build.bigEndianCpu then BE else LE
  }

  function LoadHalf(build: Build, m: Memory, p: nat): bv32
    requires p + 2 <= |m|
  {
    if build.bigEndianCpu then Join(0, 0, m[p], m[p + 1]) else Join(0, 0, m[p + 1], m[p])
  }

  function LoadWord(build: Build, m: Memory, p: nat): bv32
    requires p + 4 <= |m|
  {
    if build.bigEndianCpu then Join(m[p], m[p + 1], m[p + 2], m[p + 3])
    else Join(m[p + 3], m[p + 2], m[p + 1], m[p])
  }

  method StoreHalf(build: Build, mem: array<bv8>, p: nat, v: bv16, ghost bytes: seq<bv8>)
    requires p + 2 <= mem.Length
    requires bytes == Layout(Native(build), 2, v as bv32)
    modifies mem
    ensures mem[..] == Put(old(mem[..]), p, bytes)
  {
    var b0, b1 := ByteOf(v as bv32, 0), ByteOf(v as bv32, 1);
    if build.bigEndianCpu {
      mem[p], mem[p + 1] := b1, b0;
    } else {
      mem[p], mem[p + 1] := b0, b1;
    }
  }

  method StoreWord(build: Build, mem: array<bv8>, p: nat, v: bv32)
    requires p + 4 <= mem.Length
    modifies mem
    ensures mem[..] == Put(old(mem[..]), p, Layout(Native(build), 4, v))
  {
    LayoutFour(v);
    if build.bigEndianCpu {
      StoreFour(mem, p, Cut8(v >> 24), Cut8(v >> 16), Cut8(v >> 8), Cut8(v));
    } else {
      StoreFour(mem, p, Cut8(v), Cut8(v >> 8), Cut8(v >> 16), Cut8(v >> 24));
    }
  }

  // ----- the read accessors -----

  lemma NumberOfPair(m: Memory, p: nat)
    requires p + 2 <= |m|
    ensures Number(BE, m[p..p + 2]) == Join(0, 0, m[p], m[p + 1])
    ensures Number(LE, m[p..p + 2]) == Join(0, 0, m[p + 1], m[p])
  {
    NumberOfDigits(BE, m[p..p + 2], 0, 0, m[p], m[p + 1]);
    NumberOfDigits(LE, m[p..p + 2], 0, 0, m[p + 1], m[p]);
  }

  lemma NumberOfTriple(m: Memory, p: nat)
    requires p + 3 <= |m|
    ensures Number(BE, m[p..p + 3]) == Join(0, m[p], m[p + 1], m[p + 2])
    ensures Number(LE, m[p..p + 3]) == Join(0, m[p + 2], m[p + 1], m[p])
  {
    NumberOfDigits(BE, m[p..p + 3], 0, m[p], m[p + 1], m[p + 2]);
    NumberOfDigits(LE, m[p..p + 3], 0, m[p + 2], m[p + 1], m[p]);
  }

  lemma NumberOfQuad(m: Memory, p: nat)
    requires p + 4 <= |m|
    ensures Number(BE, m[p..p + 4]) == Join(m[p], m[p + 1], m[p + 2], m[p + 3])
    ensures Number(LE, m[p..p + 4]) == Join(m[p + 3], m[p + 2], m[p + 1], m[p])
  {
    NumberOfDigits(BE, m[p..p + 4], m[p], m[p + 1], m[p + 2], m[p + 3]);
    NumberOfDigits(LE, m[p..p + 4], m[p + 3], m[p + 2], m[p + 1], m[p]);
  }

  lemma JoinTwoBytes(b1: bv8, b0: bv8)
    ensures Join(0, 0, b1, b0) == (b1 as bv32 << 8) | b0 as bv32
  {
  }

  lemma JoinByteAndHalf(b2: bv8, b1: bv8, b0: bv8)
    ensures Join(0, b2, b1, b0) == (b2 as bv32 << 16) | Join(0, 0, b1, b0)
  {
  }

  lemma JoinThreeBytes(b2: bv8, b1: bv8, b0: bv8)
    ensures Join(0, b2, b1, b0) == (b2 as bv32 << 16) | (b1 as bv32 << 8) | b0 as bv32
  {
  }

  lemma JoinReversed(b3: bv8, b2: bv8, b1: bv8, b0: bv8)
    ensures (b0 as bv32) | (b1 as bv32 << 8) | (b2 as bv32 << 16) | (b3 as bv32 << 24) == Join(b3, b2, b1, b0)
  {
  }

  lemma JoinThreeReversed(b2: bv8, b1: bv8, b0: bv8)
    ensures (b0 as bv32) | (b1 as bv32 << 8) | (b2 as bv32 << 16) == Join(0, b2, b1, b0)
  {
  }

  lemma JoinTwoReversed(b1: bv8, b0: bv8)
    ensures (b0 as bv32) | (b1 as bv32 << 8) == Join(0, 0, b1, b0)
  {
  }

  function ReadRegDev16BE(build: Build, m: Memory, p: nat): (r: bv32)
    requires p + 2 <= |m|
    ensures r == Number(BE, m[p..p + 2])
  {
    NumberOfPair(m, p);
    JoinTwoBytes(m[p], m[p + 1]);
    if !build.bigEndianCpu || build.noOptimization then
      (m[p] as bv32 << 8) | m[p + 1] as bv32
    else
      LoadHalf(build, m, p)
  }

  function ReadRegDev16LE(build: Build, m: Memory, p: nat): (r: bv32)
    requires p + 2 <= |m|
    ensures r == Number(LE, m[p..p + 2])
  {
    NumberOfPair(m, p);
    JoinTwoReversed(m[p + 1], m[p]);
    if build.bigEndianCpu || build.noOptimization then
      m[p] as bv32 | (m[p + 1] as bv32 << 8)
    else
      LoadHalf(build, m, p)
  }

  /** The wide big-endian form reads its half word two bytes in, not one: it
      sees the fourth byte and skips the second. */
  predicate SkipsAByte(build: Build) {
    build.bigEndianCpu && !build.noOptimization
  }

  function ReadRegDev24BE(build: Build, m: Memory, p: nat): (r: bv32)
    requires p + 3 <= |m| && (build.bigEndianCpu && !build.noOptimization ==> p + 4 <= |m|)
    ensures !build.bigEndianCpu || build.noOptimization ==> r == Number(BE, m[p..p + 3])
    ensures build.bigEndianCpu && !build.noOptimization ==> r == Number(BE, [m[p], m[p + 2], m[p + 3]])
  {
    if !build.bigEndianCpu || build.noOptimization then
      NumberOfTriple(m, p);
      JoinThreeBytes(m[p], m[p + 1], m[p + 2]);
      (m[p] as bv32 << 16) | (m[p + 1] as bv32 << 8) | m[p + 2] as bv32
    else
      SkippingTriple(build, m, p, m[p], m[p + 2], m[p + 3]);
      (m[p] as bv32 << 16) | LoadHalf(build, m, p + 2)
  }

  lemma SkippingTriple(build: Build, m: Memory, p: nat, b2: bv8, b1: bv8, b0: bv8)
    requires p + 4 <= |m| && build.bigEndianCpu && m[p] == b2 && m[p + 2] == b1 && m[p + 3] == b0
    ensures (b2 as bv32 << 16) | LoadHalf(build, m, p + 2) == Number(BE, [b2, b1, b0])
  {
    var half := LoadHalf(build, m, p + 2);
    assert half == Join(0, 0, b1, b0);
    JoinByteAndHalf(b2, b1, b0);
    NumberOfDigits(BE, [b2, b1, b0], 0, b2, b1, b0);
  }

  lemma BytesOfTriple(m: Memory, p: nat)
    requires p + 3 <= |m|
    ensures m[p] as bv32 | (m[p + 1] as bv32 << 8) | (m[p + 2] as bv32 << 16) == Number(LE, m[p..p + 3])
  {
    NumberOfTriple(m, p);
    JoinThreeReversed(m[p + 2], m[p + 1], m[p]);
  }

  lemma HalfAndByteOfTriple(build: Build, m: Memory, p: nat)
    requires p + 3 <= |m| && !build.bigEndianCpu
    ensures (m[p + 2] as bv32 << 16) | LoadHalf(build, m, p) == Number(LE, m[p..p + 3])
  {
    NumberOfTriple(m, p);
    JoinByteAndHalf(m[p + 2], m[p + 1], m[p]);
  }

  function ReadRegDev24LE(build: Build, m: Memory, p: nat): (r: bv32)
    requires p + 3 <= |m|
    ensures r == Number(LE, m[p..p + 3])
  {
    if build.bigEndianCpu || build.noOptimization then
      BytesOfTriple(m, p);
      m[p] as bv32 | (m[p + 1] as bv32 << 8) | (m[p + 2] as bv32 << 16)
    else
      HalfAndByteOfTriple(build, m, p);
      (m[p + 2] as bv32 << 16) | LoadHalf(build, m, p)
  }

  function ReadRegDev32BE(build: Build, m: Memory, p: nat): (r: bv32)
    requires p + 4 <= |m|
    ensures r == Number(BE, m[p..p + 4])
  {
    NumberOfQuad(m, p);
    if !build.bigEndianCpu || build.noOptimization then
      (m[p] as bv32 << 24) | (m[p + 1] as bv32 << 16) | (m[p + 2] as bv32 << 8) | m[p + 3] as bv32
    else
      LoadWord(build, m, p)
  }

  function ReadRegDev32LE(build: Build, m: Memory, p: nat): (r: bv32)
    requires p + 4 <= |m|
    ensures r == Number(LE, m[p..p + 4])
  {
    NumberOfQuad(m, p);
    JoinReversed(m[p + 3], m[p + 2], m[p + 1], m[p]);
    if build.bigEndianCpu || build.noOptimization then
      m[p] as bv32 | (m[p + 1] as bv32 << 8) | (m[p + 2] as bv32 << 16) | (m[p + 3] as bv32 << 24)
    else
      LoadWord(build, m, p)
  }

  // ----- the write accessors -----

  /** The half-word swap of the wide forms. */
  function SwapHalf(v: bv32): bv16 {
    Cut16(((v & 0xFF00) >> 8) | ((v & 0x00FF) << 8))
  }

  function SwapWord(v: bv32): bv32 {
    ((v & 0xFF00_0000) >> 24) | ((v & 0x00FF_0000) >> 8) | ((v & 0x0000_FF00) << 8) | ((v & 0x0000_00FF) << 24)
  }

  lemma SwapHalfLow(v: bv32)
    ensures ByteOf(SwapHalf(v) as bv32, 0) == ByteOf(v, 1)
  {
  }

  lemma SwapHalfHigh(v: bv32)
    ensures ByteOf(SwapHalf(v) as bv32, 1) == ByteOf(v, 0)
  {
  }

  lemma CutHalfLow(v: bv32)
    ensures ByteOf(Cut16(v) as bv32, 0) == ByteOf(v, 0)
  {
  }

  lemma CutHalfHigh(v: bv32)
    ensures ByteOf(Cut16(v) as bv32, 1) == ByteOf(v, 1)
  {
  }

  lemma SwapWordByte0(v: bv32)
    ensures ByteOf(SwapWord(v), 0) == ByteOf(v, 3)
  {
  }

  lemma SwapWordByte1(v: bv32)
    ensures ByteOf(SwapWord(v), 1) == ByteOf(v, 2)
  {
  }

  lemma SwapWordByte2(v: bv32)
    ensures ByteOf(SwapWord(v), 2) == ByteOf(v, 1)
  {
  }

  lemma SwapWordByte3(v: bv32)
    ensures ByteOf(SwapWord(v), 3) == ByteOf(v, 0)
  {
  }

  /** Swapping before a store in one order is storing in the other. */
  lemma SwappedHalf(stored: Order, wanted: Order, v: bv32)
    requires stored != wanted
    ensures Layout(stored, 2, SwapHalf(v) as bv32) == Layout(wanted, 2, v)
  {
    SwapHalfLow(v);
    SwapHalfHigh(v);
  }

  lemma CutHalf(order: Order, v: bv32)
    ensures Layout(order, 2, Cut16(v) as bv32) == Layout(order, 2, v)
  {
    CutHalfLow(v);
    CutHalfHigh(v);
  }

  lemma SwappedWord(v: bv32)
    ensures Layout(LE, 4, SwapWord(v)) == Layout(BE, 4, v)
    ensures Layout(BE, 4, SwapWord(v)) == Layout(LE, 4, v)
  {
    SwapWordByte0(v);
    SwapWordByte1(v);
    SwapWordByte2(v);
    SwapWordByte3(v);
  }

  /** Byte stores in sequence, as the forms without wide accesses make them. */
  method StoreTwo(mem: array<bv8>, p: nat, b0: bv8, b1: bv8)
    requires p + 2 <= mem.Length
    modifies mem
    ensures mem[..] == Put(old(mem[..]), p, [b0, b1])
  {
    mem[p] := b0;
    mem[p + 1] := b1;
  }

  method StoreThree(mem: array<bv8>, p: nat, b0: bv8, b1: bv8, b2: bv8)
    requires p + 3 <= mem.Length
    modifies mem
    ensures mem[..] == Put(old(mem[..]), p, [b0, b1, b2])
  {
    mem[p] := b0;
    mem[p + 1] := b1;
    mem[p + 2] := b2;
  }

  method StoreFour(mem: array<bv8>, p: nat, b0: bv8, b1: bv8, b2: bv8, b3: bv8)
    requires p + 4 <= mem.Length
    modifies mem
    ensures mem[..] == Put(old(mem[..]), p, [b0, b1, b2, b3])
  {
    mem[p] := b0;
    mem[p + 1] := b1;
    mem[p + 2] := b2;
    mem[p + 3] := b3;
  }

  lemma LayoutTwo(v: bv32)
    ensures Layout(BE, 2, v) == [Cut8(v >> 8), Cut8(v)]
    ensures Layout(LE, 2, v) == [Cut8(v), Cut8(v >> 8)]
  {
  }

  lemma LayoutThree(v: bv32)
    ensures Layout(BE, 3, v) == [Cut8(v >> 16), Cut8(v >> 8), Cut8(v)]
    ensures Layout(LE, 3, v) == [Cut8(v), Cut8(v >> 8), Cut8(v >> 16)]
  {
  }

  lemma LayoutFour(v: bv32)
    ensures Layout(BE, 4, v) == [Cut8(v >> 24), Cut8(v >> 16), Cut8(v >> 8), Cut8(v)]
    ensures Layout(LE, 4, v) == [Cut8(v), Cut8(v >> 8), Cut8(v >> 16), Cut8(v >> 24)]
  {
  }

  /** One half-word store on a CPU of the wanted order. */
  method WriteNative16(build: Build, mem: array<bv8>, p: nat, value: bv32)
    requires p + 2 <= mem.Length
    modifies mem
    ensures mem[..] == Put(old(mem[..]), p, Layout(Native(build), 2, value))
  {
    CutHalf(Native(build), value);
    StoreHalf(build, mem, p, Cut16(value), Layout(Native(build), 2, value));
  }

  /** The swapped half word, known by the bytes it will leave. */
  method SwappedFor(build: Build, value: bv32, ghost order: Order) returns (half: bv16)
    requires order != Native(build)
    ensures Layout(Native(build), 2, half as bv32) == Layout(order, 2, value)
  {
    SwappedHalf(Native(build), order, value);
    half := SwapHalf(value);
  }

  /** One half-word store on a CPU of the other order, after a swap. */
  method WriteSwapped16(build: Build, mem: array<bv8>, p: nat, value: bv32, ghost order: Order)
    requires p + 2 <= mem.Length
    requires order != Native(build)
    modifies mem
    ensures mem[..] == Put(old(mem[..]), p, Layout(order, 2, value))
  {
    var half := SwappedFor(build, value, order);
    StoreHalf(build, mem, p, half, Layout(order, 2, value));
  }

  method WriteRegDev16BE(build: Build, mem: array<bv8>, p: nat, value: bv32)
    requires p + 2 <= mem.Length
    modifies mem
    ensures mem[..] == Put(old(mem[..]), p, Layout(BE, 2, value))
  {
    if !build.noOptimization {
      if !build.bigEndianCpu {
        WriteSwapped16(build, mem, p, value, BE);
      } else {
        WriteNative16(build, mem, p, value);
      }
    } else {
      LayoutTwo(value);
      StoreTwo(mem, p, Cut8(value >> 8), Cut8(value));
    }
  }

  method WriteRegDev16LE(build: Build, mem: array<bv8>, p: nat, value: bv32)
    requires p + 2 <= mem.Length
    modifies mem
    ensures mem[..] == Put(old(mem[..]), p, Layout(LE, 2, value))
  {
    if !build.noOptimization {
      if !build.bigEndianCpu {
        WriteNative16(build, mem, p, value);
      } else {
        WriteSwapped16(build, mem, p, value, LE);
      }
    } else {
      LayoutTwo(value);
      StoreTwo(mem, p, Cut8(value), Cut8(value >> 8));
    }
  }

  /** The two high bytes of a 24-bit value, swapped for a little-endian store. */
  function HighHalfSwapped(v: bv32): bv16 {
    Cut16(((v & 0xFF_0000) >> 16) | (v & 0x00_FF00))
  }

  function HighHalf(v: bv32): bv16 {
    Cut16(v >> 8)
  }

  lemma HighHalfSwappedLow(v: bv32)
    ensures ByteOf(HighHalfSwapped(v) as bv32, 0) == ByteOf(v, 2)
  {
  }

  lemma HighHalfSwappedHigh(v: bv32)
    ensures ByteOf(HighHalfSwapped(v) as bv32, 1) == ByteOf(v, 1)
  {
  }

  lemma HighHalfLow(v: bv32)
    ensures ByteOf(HighHalf(v) as bv32, 0) == ByteOf(v, 1)
  {
  }

  lemma HighHalfHigh(v: bv32)
    ensures ByteOf(HighHalf(v) as bv32, 1) == ByteOf(v, 2)
  {
  }

  /** A 24-bit layout is a half-word store and one byte after it. */
  lemma TripleBEOnBig(v: bv32)
    ensures Layout(BE, 2, HighHalf(v) as bv32) + [Cut8(v)] == Layout(BE, 3, v)
  {
    HighHalfLow(v);
    HighHalfHigh(v);
  }

  lemma TripleBEOnLittle(v: bv32)
    ensures Layout(LE, 2, HighHalfSwapped(v) as bv32) + [Cut8(v)] == Layout(BE, 3, v)
  {
    HighHalfSwappedLow(v);
    HighHalfSwappedHigh(v);
  }

  lemma TripleLEOnLittle(v: bv32)
    ensures Layout(LE, 2, Cut16(v) as bv32) + [Cut8(v >> 16)] == Layout(LE, 3, v)
  {
    CutHalfLow(v);
    CutHalfHigh(v);
  }

  lemma TripleLEOnBig(v: bv32)
    ensures Layout(BE, 2, SwapHalf(v) as bv32) + [Cut8(v >> 16)] == Layout(LE, 3, v)
  {
    SwapHalfLow(v);
    SwapHalfHigh(v);
  }

  /** A half-word store at p and a byte store at p + 2. */
  method StoreHalfThenByte(build: Build, mem: array<bv8>, p: nat, half: bv16, last: bv8, ghost bytes: seq<bv8>)
    requires p + 3 <= mem.Length
    requires bytes == Layout(Native(build), 2, half as bv32) + [last]
    modifies mem
    ensures mem[..] == Put(old(mem[..]), p, bytes)
  {
    StoreHalf(build, mem, p, half, Layout(Native(build), 2, half as bv32));
    mem[p + 2] := last;
  }

  /** The wide big-endian 24-bit stores, one for each CPU order. */
  method WriteBE24OnLittle(build: Build, mem: array<bv8>, p: nat, value: bv32)
    requires p + 3 <= mem.Length && !build.bigEndianCpu
    modifies mem
    ensures mem[..] == Put(old(mem[..]), p, Layout(BE, 3, value))
  {
    TripleBEOnLittle(value);
    StoreHalfThenByte(build, mem, p, HighHalfSwapped(value), Cut8(value), Layout(BE, 3, value));
  }

  method WriteBE24OnBig(build: Build, mem: array<bv8>, p: nat, value: bv32)
    requires p + 3 <= mem.Length && build.bigEndianCpu
    modifies mem
    ensures mem[..] == Put(old(mem[..]), p, Layout(BE, 3, value))
  {
    TripleBEOnBig(value);
    StoreHalfThenByte(build, mem, p, HighHalf(value), Cut8(value), Layout(BE, 3, value));
  }

  method WriteRegDev24BE(build: Build, mem: array<bv8>, p: nat, value: bv32)
    requires p + 3 <= mem.Length
    modifies mem
    ensures mem[..] == Put(old(mem[..]), p, Layout(BE, 3, value))
  {
    if !build.noOptimization {
      if !build.bigEndianCpu {
        WriteBE24OnLittle(build, mem, p, value);
      } else {
        WriteBE24OnBig(build, mem, p, value);
      }
    } else {
      LayoutThree(value);
      StoreThree(mem, p, Cut8(value >> 16), Cut8(value >> 8), Cut8(value));
    }
  }

  /** The wide little-endian 24-bit stores, one for each CPU order. */
  method WriteLE24OnLittle(build: Build, mem: array<bv8>, p: nat, value: bv32)
    requires p + 3 <= mem.Length && !build.bigEndianCpu
    modifies mem
    ensures mem[..] == Put(old(mem[..]), p, Layout(LE, 3, value))
  {
    TripleLEOnLittle(value);
    StoreHalfThenByte(build, mem, p, Cut16(value), Cut8(value >> 16), Layout(LE, 3, value));
  }

  method WriteLE24OnBig(build: Build, mem: array<bv8>, p: nat, value: bv32)
    requires p + 3 <= mem.Length && build.bigEndianCpu
    modifies mem
    ensures mem[..] == Put(old(mem[..]), p, Layout(LE, 3, value))
  {
    TripleLEOnBig(value);
    StoreHalfThenByte(build, mem, p, SwapHalf(value), Cut8(value >> 16), Layout(LE, 3, value));
  }

  method WriteRegDev24LE(build: Build, mem: array<bv8>, p: nat, value: bv32)
    requires p + 3 <= mem.Length
    modifies mem
    ensures mem[..] == Put(old(mem[..]), p, Layout(LE, 3, value))
  {
    if !build.noOptimization {
      if !build.bigEndianCpu {
        WriteLE24OnLittle(build, mem, p, value);
      } else {
        WriteLE24OnBig(build, mem, p, value);
      }
    } else {
      LayoutThree(value);
      StoreThree(mem, p, Cut8(value), Cut8(value >> 8), Cut8(value >> 16));
    }
  }

  method WriteRegDev32BE(build: Build, mem: array<bv8>, p: nat, value: bv32)
    requires p + 4 <= mem.Length
    modifies mem
    ensures mem[..] == Put(old(mem[..]), p, Layout(BE, 4, value))
  {
    SwappedWord(value);
    if !build.noOptimization {
      if !build.bigEndianCpu {
        StoreWord(build, mem, p, SwapWord(value));
      } else {
        StoreWord(build, mem, p, value);
      }
    } else {
      LayoutFour(value);
      StoreFour(mem, p, Cut8(value >> 24), Cut8(value >> 16), Cut8(value >> 8), Cut8(value));
    }
  }

  method WriteRegDev32LE(build: Build, mem: array<bv8>, p: nat, value: bv32)
    requires p + 4 <= mem.Length
    modifies mem
    ensures mem[..] == Put(old(mem[..]), p, Layout(LE, 4, value))
  {
    SwappedWord(value);
    if !build.noOptimization {
      if !build.bigEndianCpu {
        StoreWord(build, mem, p, value);
      } else {
        StoreWord(build, mem, p, SwapWord(value));
      }
    } else {
      LayoutFour(value);
      StoreFour(mem, p, Cut8(value), Cut8(value >> 8), Cut8(value >> 16), Cut8(value >> 24));
    }
  }

  // ----- what the accessors promise together -----

  lemma ThirdDigitsDiffer(a: bv8, b: bv8, c: bv8, d: bv8)
    requires Join(0, a, c, d) == Join(0, a, b, c)
    ensures c == b && d == c
  {
    LowDigit(0, a, c, d);
    LowDigit(0, a, b, c);
    SecondDigit(0, a, c, d);
    SecondDigit(0, a, b, c);
  }

  lemma LowDigit(b3: bv8, b2: bv8, b1: bv8, b0: bv8)
    ensures Cut8(Join(b3, b2, b1, b0)) == b0
  {
  }

  lemma SecondDigit(b3: bv8, b2: bv8, b1: bv8, b0: bv8)
    ensures Cut8(Join(b3, b2, b1, b0) >> 8) == b1
  {
  }

  /** The read that skips a byte is right exactly on four bytes whose last
      three are equal. */
  lemma SkippedByteHarmlessIff(build: Build, m: Memory, p: nat)
    requires SkipsAByte(build) && p + 4 <= |m|
    ensures ReadRegDev24BE(build, m, p) == Number(BE, m[p..p + 3]) <==>
            m[p + 1] == m[p + 2] == m[p + 3]
  {
    var seen := [m[p], m[p + 2], m[p + 3]];
    NumberOfDigits(BE, seen, 0, m[p], m[p + 2], m[p + 3]);
    NumberOfTriple(m, p);
    if ReadRegDev24BE(build, m, p) == Number(BE, m[p..p + 3]) {
      ThirdDigitsDiffer(m[p], m[p + 1], m[p + 2], m[p + 3]);
    }
  }

  /** A driver's accesses, as it lists them. */
  datatype Access =
    | Write(order: Order, width: nat, at: nat, value: bv32)
    | Read(order: Order, width: nat, at: nat)

  /** In range; and not the one read that depends on the build. */
  predicate Legal(build: Build, a: Access, size: nat) {
    && 2 <= a.width <= 4
    && a.at + a.width <= size
    && (a.Read? && a.order == BE && a.width == 3 ==> !SkipsAByte(build))
  }

  /** The builds that skip no byte may make every access in range, and the one
      that does may make all but the big-endian 24-bit read. */
  lemma LegalIff(build: Build, a: Access, size: nat)
    requires 2 <= a.width <= 4 && a.at + a.width <= size
    ensures Legal(build, a, size) <==>
            build != Build(true, false) || a.Write? || a.order == LE || a.width != 3
  {
  }

  predicate Legals(build: Build, trace: seq<Access>, size: nat) {
    forall i :: 0 <= i < |trace| ==> Legal(build, trace[i], size)
  }

  /** What one access does, with no build in sight. */
  function EffectOf(a: Access): (e: Effect)
    ensures e.at == a.at && Width(e) == a.width
  {
    match a
    case Write(order, width, at, value) => Store(at, Layout(order, width, value))
    case Read(order, width, at) => Fetch(order, at, width)
  }

  function EffectsOf(trace: seq<Access>): (run: seq<Effect>)
    ensures |run| == |trace|
    ensures forall i :: 0 <= i < |trace| ==> run[i] == EffectOf(trace[i])
  {
    seq(|trace|, i requires 0 <= i < |trace| => EffectOf(trace[i]))
  }

  /** The values read, from the bytes found. */
  function Numbers(found: seq<Found>): (values: seq<bv32>)
    ensures |values| == |found|
    ensures forall k :: 0 <= k < |found| ==> values[k] == Number(found[k].order, found[k].bytes)
  {
    seq(|found|, k requires 0 <= k < |found| => Number(found[k].order, found[k].bytes))
  }

  method PerformWrite(build: Build, mem: array<bv8>, order: Order, width: nat, at: nat, value: bv32)
    requires 2 <= width <= 4 && at + width <= mem.Length
    modifies mem
    ensures mem[..] == Put(old(mem[..]), at, Layout(order, width, value))
  {
    if order == BE {
      if width == 2 {
        WriteRegDev16BE(build, mem, at, value);
      } else if width == 3 {
        WriteRegDev24BE(build, mem, at, value);
      } else {
        WriteRegDev32BE(build, mem, at, value);
      }
    } else {
      if width == 2 {
        WriteRegDev16LE(build, mem, at, value);
      } else if width == 3 {
        WriteRegDev24LE(build, mem, at, value);
      } else {
        WriteRegDev32LE(build, mem, at, value);
      }
    }
  }

  method Perform(build: Build, mem: array<bv8>, a: Access) returns (seen: seq<bv32>)
    requires Legal(build, a, mem.Length)
    modifies mem
    ensures mem[..] == Apply(EffectOf(a), old(mem[..])).memory
    ensures seen == Numbers(Apply(EffectOf(a), old(mem[..])).found)
  {
    match a
    case Write(order, width, at, value) =>
      PerformWrite(build, mem, order, width, at, value);
      seen := [];
    case Read(order, width, at) =>
      seen := [ReadAny(build, order, width, mem[..], at)];
  }

  function ReadAny(build: Build, order: Order, width: nat, m: Memory, p: nat): (r: bv32)
    requires Legal(build, Read(order, width, p), |m|)
    ensures r == Number(order, m[p..p + width])
  {
    if order == BE then ReadBE(build, width, m, p) else ReadLE(build, width, m, p)
  }

  function ReadBE(build: Build, width: nat, m: Memory, p: nat): (r: bv32)
    requires Legal(build, Read(BE, width, p), |m|)
    ensures r == Number(BE, m[p..p + width])
  {
    if width == 2 then ReadRegDev16BE(build, m, p)
    else if width == 3 then ReadRegDev24BE(build, m, p)
    else ReadRegDev32BE(build, m, p)
  }

  function ReadLE(build: Build, width: nat, m: Memory, p: nat): (r: bv32)
    requires Legal(build, Read(LE, width, p), |m|)
    ensures r == Number(LE, m[p..p + width])
  {
    if width == 2 then ReadRegDev16LE(build, m, p)
    else if width == 3 then ReadRegDev24LE(build, m, p)
    else ReadRegDev32LE(build, m, p)
  }

  /** How many of the first n accesses are reads. */
  function Reads(trace: seq<Access>, n: nat): nat
    requires n <= |trace|
  {
    Fetches(EffectsOf(trace), n)
  }

  /** Access j reads what access i wrote, and what is between spares it. */
  predicate ReadsBack(trace: seq<Access>, i: nat, j: nat) {
    && i < j < |trace|
    && trace[i].Write? && trace[j] == Read(trace[i].order, trace[i].width, trace[i].at)
    && (forall k :: i < k < j ==> WritesElsewhere(trace[k], trace[i].at, trace[i].width))
  }

  /** Access j reads bytes that no access before it has written. */
  predicate ReadsOriginal(trace: seq<Access>, j: nat) {
    && j < |trace| && trace[j].Read?
    && (forall k :: 0 <= k < j ==> WritesElsewhere(trace[k], trace[j].at, trace[j].width))
  }

  lemma OriginalSeen(trace: seq<Access>, m: Memory, j: nat)
    requires Fit(EffectsOf(trace), |m|) && ReadsOriginal(trace, j)
    requires trace[j].at + trace[j].width <= |m|
    ensures var found := Run(EffectsOf(trace), m).found;
            && Reads(trace, j) < |found|
            && found[Reads(trace, j)] ==
               Found(trace[j].order, m[trace[j].at..trace[j].at + trace[j].width])
  {
    OriginalFound(EffectsOf(trace), m, j);
  }

  lemma WrittenSeen(trace: seq<Access>, m: Memory, i: nat, j: nat)
    requires Fit(EffectsOf(trace), |m|) && ReadsBack(trace, i, j) && 2 <= trace[i].width <= 4
    ensures var found := Run(EffectsOf(trace), m).found;
            && Reads(trace, j) < |found|
            && Number(found[Reads(trace, j)].order, found[Reads(trace, j)].bytes) ==
               Cut(trace[i].width, trace[i].value)
  {
    StoredFound(EffectsOf(trace), m, i, j);
    NumberOfLayout(trace[i].order, trace[i].width, trace[i].value);
  }

  lemma RunSees(trace: seq<Access>, m: Memory, seen: seq<bv32>)
    requires Fit(EffectsOf(trace), |m|)
    requires forall i :: 0 <= i < |trace| ==> 2 <= trace[i].width <= 4 && trace[i].at + trace[i].width <= |m|
    requires seen == Numbers(Run(EffectsOf(trace), m).found)
    ensures |seen| == Reads(trace, |trace|)
    ensures forall j: nat :: ReadsOriginal(trace, j) ==>
              && Reads(trace, j) < |seen|
              && seen[Reads(trace, j)] ==
                 Number(trace[j].order, m[trace[j].at..trace[j].at + trace[j].width])
    ensures forall i: nat, j: nat :: ReadsBack(trace, i, j) ==>
              Reads(trace, j) < |seen| && seen[Reads(trace, j)] == Cut(trace[i].width, trace[i].value)
  {
    AllFetchesFound(EffectsOf(trace), m);
    forall j: nat | ReadsOriginal(trace, j)
      ensures Reads(trace, j) < |seen|
      ensures seen[Reads(trace, j)] == Number(trace[j].order, m[trace[j].at..trace[j].at + trace[j].width])
    {
      OriginalSeen(trace, m, j);
    }
    forall i: nat, j: nat | ReadsBack(trace, i, j)
      ensures Reads(trace, j) < |seen|
      ensures seen[Reads(trace, j)] == Cut(trace[i].width, trace[i].value)
    {
      WrittenSeen(trace, m, i, j);
    }
  }

  /** Every build performs every list of accesses with the same effect on
      memory and the same values read: one value a read, the value last
      written there or the number of the bytes that were there at first. */
  method Replay(build: Build, mem: array<bv8>, trace: seq<Access>) returns (seen: seq<bv32>)
    requires Legals(build, trace, mem.Length)
    modifies mem
    ensures mem[..] == Run(EffectsOf(trace), old(mem[..])).memory
    ensures seen == Numbers(Run(EffectsOf(trace), old(mem[..])).found)
    ensures |seen| == Reads(trace, |trace|)
    ensures forall j: nat :: ReadsOriginal(trace, j) ==>
              && Reads(trace, j) < |seen|
              && seen[Reads(trace, j)] ==
                 Number(trace[j].order, old(mem[..])[trace[j].at..trace[j].at + trace[j].width])
    ensures forall i: nat, j: nat :: ReadsBack(trace, i, j) ==>
              Reads(trace, j) < |seen| && seen[Reads(trace, j)] == Cut(trace[i].width, trace[i].value)
  {
    seen := PerformAll(build, mem, trace);
    RunSees(trace, old(mem[..]), seen);
  }

  method PerformAll(build: Build, mem: array<bv8>, trace: seq<Access>) returns (seen: seq<bv32>)
    requires Legals(build, trace, mem.Length)
    modifies mem
    ensures mem[..] == Run(EffectsOf(trace), old(mem[..])).memory
    ensures seen == Numbers(Run(EffectsOf(trace), old(mem[..])).found)
  {
    seen := [];
    ghost var m, rest, found := mem[..], EffectsOf(trace), [];
    ghost var whole := Run(rest, m);
    for i := 0 to |trace|
      invariant mem[..] == m && rest == EffectsOf(trace)[i..] && Fit(rest, |m|)
      invariant whole == Result(Run(rest, m).memory, found + Run(rest, m).found)
      invariant seen == Numbers(found)
    {
      ghost var next := Apply(rest[0], m);
      RunStep(rest, m, found, Run(rest[1..], next.memory).found);
      var now := Perform(build, mem, trace[i]);
      NumbersJoin(found, next.found);
      m, rest, found, seen := next.memory, rest[1..], found + next.found, seen + now;
    }
  }

  lemma NumbersJoin(x: seq<Found>, y: seq<Found>)
    ensures Numbers(x + y) == Numbers(x) + Numbers(y)
  {
  }

  /** An access that writes nothing between p and p + n. */
  predicate WritesElsewhere(a: Access, p: nat, n: nat) {
    a.Write? ==> a.at + a.width <= p || p + n <= a.at
  }

  /** Bytes laid out by any build are read back as the value by every build. */
  lemma ReadsLayout(build: Build, order: Order, width: nat, v: bv32, m: Memory, p: nat)
    requires Legal(build, Read(order, width, p), |m|)
    requires m[p..p + width] == Layout(order, width, v)
    ensures ReadAny(build, order, width, m, p) == Cut(width, v)
  {
    NumberOfLayout(order, width, v);
  }

  /** One read, of bytes that hold a value. */
  method ReadBack(build: Build, mem: array<bv8>, order: Order, width: nat, at: nat, ghost value: bv32)
    returns (seen: bv32)
    requires Legal(build, Read(order, width, at), mem.Length)
    requires mem[..][at..at + width] == Layout(order, width, value)
    modifies mem
    ensures seen == Cut(width, value) && mem[..] == old(mem[..])
  {
    NumberOfLayout(order, width, value);
    var values := Perform(build, mem, Read(order, width, at));
    seen := values[0];
  }

  /** A driver writes a value, any accesses that spare it follow, and the value
      is read: it comes back, cut to its width, whatever builds did the three. */
  method WriteRunRead(writer: Build, runner: Build, reader: Build, mem: array<bv8>,
                      order: Order, width: nat, at: nat, value: bv32, later: seq<Access>)
    returns (seen: bv32)
    requires Legal(writer, Write(order, width, at, value), mem.Length)
    requires Legals(runner, later, mem.Length)
    requires Legal(reader, Read(order, width, at), mem.Length)
    requires forall i :: 0 <= i < |later| ==> WritesElsewhere(later[i], at, width)
    modifies mem
    ensures seen == Cut(width, value)
  {
    LastStoreSurvives(mem[..], at, Layout(order, width, value), EffectsOf(later));
    var nothing := Perform(writer, mem, Write(order, width, at, value));
    var between := PerformAll(runner, mem, later);
    seen := ReadBack(reader, mem, order, width, at, value);
  }

  /** The 24-bit read of the bytes 1, 2, 3, 4 in every build: the big-endian
      one with wide accesses, and no other, skips the second. */
  lemma SkippedByteExample(build: Build)
    ensures ReadRegDev24BE(build, [1, 2, 3, 4], 0) ==
            if build == Build(true, false) then 0x01_0304 else 0x01_0203
  {
    var m: Memory := [1, 2, 3, 4];
    assert m[0..3] == [1, 2, 3];
    NumberOfDigits(BE, [1, 2, 3], 0, 1, 2, 3);
    NumberOfDigits(BE, [1, 3, 4], 0, 1, 3, 4);
    assert Join(0, 1, 2, 3) == 0x01_0203 && Join(0, 1, 3, 4) == 0x01_0304;
  }

  /** What big and little endian mean, on the bytes 1, 2, 3, 4. */
  lemma OrderExamples(build: Build)
    ensures ReadRegDev16BE(build, [1, 2, 3, 4], 0) == 0x0102
    ensures ReadRegDev16LE(build, [1, 2, 3, 4], 0) == 0x0201
    ensures ReadRegDev24LE(build, [1, 2, 3, 4], 0) == 0x03_0201
    ensures ReadRegDev32BE(build, [1, 2, 3, 4], 0) == 0x0102_0304
    ensures ReadRegDev32LE(build, [1, 2, 3, 4], 0) == 0x0403_0201
  {
    var m: Memory := [1, 2, 3, 4];
    assert m[0..2] == [1, 2] && m[0..3] == [1, 2, 3] && m[0..4] == m;
    NumberOfPair(m, 0);
    NumberOfTriple(m, 0);
    NumberOfQuad(m, 0);
    JoinExamples();
  }

  lemma JoinExamples()
    ensures Join(0, 0, 1, 2) == 0x0102 && Join(0, 0, 2, 1) == 0x0201
    ensures Join(0, 3, 2, 1) == 0x03_0201
    ensures Join(1, 2, 3, 4) == 0x0102_0304 && Join(4, 3, 2, 1) == 0x0403_0201
  {
  }

  /** What a write leaves: the bytes of 0x01020304 from its least on. */
  lemma LayoutExamples()
    ensures Layout(BE, 2, 0x0102_0304) == [3, 4] && Layout(LE, 2, 0x0102_0304) == [4, 3]
    ensures Layout(BE, 3, 0x0102_0304) == [2, 3, 4] && Layout(LE, 3, 0x0102_0304) == [4, 3, 2]
    ensures Layout(BE, 4, 0x0102_0304) == [1, 2, 3, 4] && Layout(LE, 4, 0x0102_0304) == [4, 3, 2, 1]
  {
    var v: bv32 := 0x0102_0304;
    assert ByteOf(v, 0) == 4 && ByteOf(v, 1) == 3 && ByteOf(v, 2) == 2 && ByteOf(v, 3) == 1;
  }
}
