# Verified model of the set-top-box support library

The ST20/ST40 driver headers of this repository carry a small amount of real
logic as macros: a 64-bit integer library built from 32-bit words, a
microsecond-to-tick conversion, and byte-order register accessors. A flash-image
tool adds a text search over command output. This project models those pieces in
Dafny and proves what they compute, for every input.

| file | what it holds |
|---|---|
| `words.dfy` | 32-bit words, arithmetic mod 2^64, powers of two, division facts |
| `wide.dfy` | the `U64` object (two words) and the operations all builds share |
| `divider.dfy` | the shift-and-subtract divider on numbers, and its theorems |
| `stddefs_c1.dfy` | the ST20 C1 build: loops over words, in place |
| `stddefs_c2.dfy` | the ST20 C2 build: instruction sequences on a register stack |
| `stdvm_st40.dfy` | the ST40 build: signed 64-bit arithmetic |
| `agreement.dfy` | where the builds agree, and what undoes what |
| `dvmfs_sizes.dfy` | the recorder's size computations, in the ST40 build that its headers select |
| `dvmfs_seek.dfy` | the recorder's search for a stream position among sub-files |
| `task_delay.dfy` | microseconds to scheduler ticks |
| `memory.dfy` | byte memory, and what a run of stores and fetches finds |
| `registers.dfy` | register accessors in the four builds, and runs of accesses |
| `fields.dfy` | the field search over command output |

`U64` is a class with the fields `LSW` and `MSW`; every operation is a method
that stores the two words in the order the macro does, so a destination that is
also an operand is covered by each contract. The C1 division and remainder
macros contain the same loop twice; the model has it once (`DivideInPlace`), cut
into a pass (`PassInPlace`) and a step (`TrialSubtraction`). Ghost results count
loop rounds.

What the proofs found:

- The C1 divider stops one subtraction short exactly when the division is exact
  and the quotient is 1 more than a positive multiple of 2^33 - 1, because the
  loop test is strict. The quotient is then 1 too small and the remainder equals
  the divisor.
- The C1 remainder of a dividend below its divisor is 0, because the difference
  register is only written by a subtraction.
- With divisor 0 the C1 loop ends exactly for dividend 0, with quotient 2^33 - 1
  and remainder 0; otherwise its test holds for ever.
- The C1 addition of an object to itself, in place, loses the carry exactly when
  the low word's top bit is set. The C2 and ST40 additions do not.
- The C2 remainder stores only the low word.
- The ST40 quotient, remainder and right shift treat the value as signed; the
  exact sets on which they are right are stated. For the remainder this is below
  2^63, or where the divisor divides both 2^64 and the value.
- The recorder's rounding down to a whole number of chunks holds below 2^63. From
  2^63 up it adds bytes instead of removing them, since a chunk of 770048 bytes
  does not divide 2^64.
- The tick conversion never divides by 0, whatever the delay, exactly for clock
  rates from 1 to 999992 a second. The comment beside it calls the loss of
  accuracy acceptable; it is large enough for a longer delay to give fewer ticks.
  Ticks can only fall where the delay is k times 0xFFFFFFFF / clock, for a k with
  10^6 mod (k + 1) < 10^6 mod k. Of the clocks of up to 4 million ticks a second,
  those of at most 14 keep the order of delays; every other one gets it wrong.
- The recorder's seek in a wrapped circular stream means to take the position modulo the
  stream size. It does except at the positive multiples of the size, where the
  position of the first byte is not found: the seek fails if the last sub-file is
  full, and otherwise stops behind the last byte.
- The optimised big-endian 24-bit read skips the second byte; it is right exactly
  when the last three of four bytes are equal.
- The field search sees whole lines exactly when every line, newline included,
  has at most 255 characters.

## Model

| member | source | states |
|---|---|---|
| Wide.IsEqual | apilib/include/stddefs.h:125 | equality of the two words is equality of the 64-bit values |
| Wide.AreNotEqual | apilib/include/stddefs.h:151 | the same for inequality |
| Wide.IsGreaterOrEqual | apilib/include/stddefs.h:130-131 | the word-by-word comparison is the unsigned order on 64-bit values |
| Wide.IsGreaterThan | apilib/include/stddefs.h:134-135 | the strict unsigned order |
| Wide.IsLessThan | apilib/include/stddefs.h:138-139 | the strict unsigned order, reversed |
| Wide.IsLessOrEqual | apilib/include/stddefs.h:142-143 | the unsigned order, reversed |
| Wide.IsZero | apilib/include/stddefs.h:148 | true exactly for the value 0 |
| Wide.SetValue | apilib/include/stddefs.h:153 | the destination holds upper * 2^32 + lower |
| Wide.Sub | apilib/include/stddefs.h:156-157 | subtraction mod 2^64, with the destination equal to either operand or both |
| Wide.SubLit | apilib/include/stddefs.h:160-161 | subtraction of a 32-bit number mod 2^64, also in place |
| Divider.PassIsGreedy | apilib/include/stddefs.h:288-298 | the trial subtractions take whole copies of the divisor until less than one is left or every weight is used, and lose nothing |
| Divider.PassIsCappedDivision | apilib/include/stddefs.h:288-298 | a pass of n steps yields min(r / b, 2^n - 1) and conserves r |
| Divider.PassByZeroKeepsAll | apilib/include/stddefs.h:288-298 | with divisor 0 a pass counts every weight and keeps its dividend |
| Divider.DivisionByZeroEndsIff | apilib/include/stddefs.h:282-302 | with divisor 0 every pass keeps the dividend, so the loop test fails, after any number of passes, exactly for dividend 0 |
| Divider.ZeroByZero | apilib/include/stddefs.h:278-304 | 0 by 0 ends after one pass with quotient 2^33 - 1 and remainder 0 |
| Divider.PassOutcome | apilib/include/stddefs.h:283-299 | a 33-step pass yields min(r / b, 2^33 - 1); what it keeps is 0 below the divisor and otherwise at least b smaller |
| Divider.DivideParts | apilib/include/stddefs.h:282-302 | quotient, remainder and number of passes of the whole loop from b * q + r, including the set on which it stops short |
| Divider.DivideOutcome | apilib/include/stddefs.h:278-304 | the same in terms of a / b and a % b, for every a and every b but 0 |
| Divider.QuotientCorrectIff | apilib/include/stddefs.h:277-304 | the quotient is a / b exactly outside the exceptional set; below 2^33 it always is, in one pass |
| Divider.RemainderCorrectIff | apilib/include/stddefs.h:306-333 | the remainder is a % b exactly outside the exceptional set and when a is 0 or at least b |
| Divider.DividePreservesValue | apilib/include/stddefs.h:282-302 | from b up, a == b * quotient + remainder whatever happens; the remainder is at most b; at most (a / b) / (2^33 - 1) + 1 passes |
| Divider.StopsShortExample | apilib/include/stddefs.h:302 | 2^33 divided by 1 gives 2^33 - 1, remainder 1 |
| Divider.SmallDividendExample | apilib/include/stddefs.h:312 | 5 by 7 leaves remainder 0 |
| StddefsC1.Add | apilib/include/stddefs.h:113-115 | addition mod 2^64 unless all three arguments are one object; then the value doubled less the lost carry |
| StddefsC1.LostCarryExample | apilib/include/stddefs.h:113-115 | 2^31 added to itself in place gives 0 |
| StddefsC1.DoubleInPlaceCorrectIff | apilib/include/stddefs.h:113-115 | doubling in place is addition exactly when the low word is below 2^31; otherwise it is 2^32 less |
| StddefsC1.AddLit | apilib/include/stddefs.h:118-120 | addition of a 32-bit number mod 2^64, also in place |
| StddefsC1.ShiftLeft | apilib/include/stddefs.h:226-249 | multiplication by 2^shift mod 2^64, for every shift from 1 |
| StddefsC1.ShiftLeftNear | apilib/include/stddefs.h:237-247 | below 32 places, joining the halves with + never carries and gives the shifted value |
| StddefsC1.ShiftRight | apilib/include/stddefs.h:252-275 | division by 2^shift rounded down, for every shift from 1 |
| StddefsC1.ShiftRightNear | apilib/include/stddefs.h:263-273 | the same no-carry argument for the right shift |
| StddefsC1.ShiftedOut | apilib/include/stddefs.h:226-227 | from 64 places on, both shifts give 0 |
| StddefsC1.ShiftAndAddMultiplies | apilib/include/stddefs.h:339-347 | the shift-and-add rounds compute result + multiplier * multiplicand mod 2^64, in as many rounds as the multiplier has bits |
| StddefsC1.MulRound | apilib/include/stddefs.h:340-345 | one round keeps result + multiplier * multiplicand mod 2^64 |
| StddefsC1.Mul | apilib/include/stddefs.h:336-349 | multiplication mod 2^64 under every aliasing, in at most 64 rounds, one per bit of b |
| StddefsC1.MulLit | apilib/include/stddefs.h:352-365 | multiplication by a 32-bit number mod 2^64 under every aliasing, in at most 32 rounds |
| StddefsC1.TrialSubtraction | apilib/include/stddefs.h:290-297 | one step: subtract and count if the moved-up divisor fits, then halve divisor and weight |
| StddefsC1.PassInPlace | apilib/include/stddefs.h:288-298 | the 33-step loop refines a pass on numbers, never wraps, and leaves the last difference in r5 |
| StddefsC1.PreparePass | apilib/include/stddefs.h:283-286 | the pass registers as each pass sets them, r5 cleared |
| StddefsC1.DividePass | apilib/include/stddefs.h:283-300 | one round of the outer loop: the difference becomes the remainder, the count is added to the result without wrap |
| StddefsC1.DivideInPlace | apilib/include/stddefs.h:279-302 | the do-while loop on objects refines the divider on numbers and terminates, for every divisor but 0 and for 0 by 0 |
| StddefsC1.DivLit | apilib/include/stddefs.h:278-304 | a / b, or 1 less on the exceptional set, also in place; 2^33 - 1 for 0 by 0; number of passes |
| StddefsC1.ModLit | apilib/include/stddefs.h:307-333 | a % b, but 0 below the divisor and for 0 by 0, and b on the exceptional set |
| StddefsC2.CarriedSum | apilib/include/stddefs.h:84-93 | two chained long sums add two word pairs mod 2^64 |
| StddefsC2.Add | apilib/include/stddefs.h:84-93 | addition mod 2^64 under every aliasing |
| StddefsC2.AddLit | apilib/include/stddefs.h:97-106 | addition of a 32-bit number mod 2^64 |
| StddefsC2.LongDivision | apilib/include/stddefs.h:167-172 | dividing a word at a time, remainder carried down, is dividing the whole |
| StddefsC2.DivLit | apilib/include/stddefs.h:167-172 | a / b for every a and every b but 0; the divide instruction never traps |
| StddefsC2.ModLit | apilib/include/stddefs.h:175-180 | only the low word is stored, so the remainder is right exactly when the old high word was 0 |
| StddefsC2.LongMultiplication | apilib/include/stddefs.h:183-190 | three partial products with their carries are the product mod 2^64 |
| StddefsC2.Mul | apilib/include/stddefs.h:183-190 | multiplication mod 2^64 under every aliasing, as C1 computes it |
| StddefsC2.MulLit | apilib/include/stddefs.h:193-198 | multiplication by a 32-bit number mod 2^64 |
| StdvmST40.Load | apilib/include/stdvm.h:79 | joining the words gives the value read as a signed number |
| StdvmST40.Store | apilib/include/stdvm.h:82-83 | splitting a signed number stores it mod 2^64 |
| StdvmST40.Add | apilib/include/stdvm.h:78-84 | addition mod 2^64 under every aliasing |
| StdvmST40.AddLit | apilib/include/stdvm.h:87-92 | addition of a 32-bit number mod 2^64 |
| StdvmST40.Mul | apilib/include/stdvm.h:150-156 | multiplication mod 2^64 under every aliasing |
| StdvmST40.MulLit | apilib/include/stdvm.h:159-164 | multiplication by a 32-bit number mod 2^64 |
| StdvmST40.DivLit | apilib/include/stdvm.h:134-139 | the signed truncated quotient; right exactly when a < 2^63 or b is 1 |
| StdvmST40.ModLit | apilib/include/stdvm.h:142-147 | the signed truncated remainder; right exactly when a < 2^63 or b divides both 2^64 and a |
| StdvmST40.ShiftLeft | apilib/include/stdvm.h:167-172 | multiplication by 2^shift mod 2^64 below 64 places |
| StdvmST40.ShiftRight | apilib/include/stdvm.h:175-180 | the sign-keeping shift; right exactly when the value is below 2^63 or shift is 0 |
| StdvmST40.QuotientCorrectIff | apilib/include/stdvm.h:134-139 | a signed quotient is the unsigned one exactly when a < 2^63 or b is 1 |
| StdvmST40.RemainderCorrectIff | apilib/include/stdvm.h:142-147 | a signed remainder is the unsigned one exactly when a < 2^63 or b divides both 2^64 and a |
| StdvmST40.NegativeQuotient | apilib/include/stdvm.h:134-139 | from 2^63 up the signed quotient is the negated quotient of 2^64 - a |
| StdvmST40.NegativeRemainder | apilib/include/stdvm.h:142-147 | from 2^63 up the signed remainder is the negated remainder of 2^64 - a |
| StdvmST40.NegativeExample | apilib/include/stdvm.h:134-180 | 2^63 by 3, and 2^63 moved right by one: quotient, remainder and shift are all wrong |
| StdvmST40.ShiftRightCorrectIff | apilib/include/stdvm.h:175-180 | a signed right shift is the unsigned one exactly when a < 2^63 or nothing is shifted |
| Agreement.QuotientsAgreeIff | apilib/include/stdvm.h:134-139 | the C1 and ST40 quotients are equal exactly where both are right |
| Agreement.RemaindersAgreeIff | apilib/include/stdvm.h:142-147 | the C1 and ST40 remainders are equal exactly where both are right |
| Agreement.NegativeQuotientFarOff | apilib/include/stdvm.h:134-139 | from 2^63 up and for divisors above 1 the signed quotient is 0 or at least 2^63, and the true one strictly between |
| Agreement.ShiftFillsWithSign | apilib/include/stdvm.h:175-180 | from 2^63 up the signed right shift sets the s bits it vacates |
| Agreement.DivideUndoesMultiply | apilib/include/stddefs.h:278-365 | multiply, add a remainder and divide again: quotient and remainder come back exactly outside the exceptional set |
| Agreement.DivideUndoesMultiplyBelowCap | apilib/include/stddefs.h:278-365 | quotients from 1 to 2^33 - 1 come back with their remainders, in one pass |
| Agreement.RoundTripC1 | apilib/include/stddefs.h:278-365 | the four C1 operations in place: multiply, add a remainder, take remainder and quotient; each comes back exactly outside its failing set |
| Agreement.RoundTripC2 | apilib/include/stddefs.h:167-198 | the same in C2: the quotient always comes back, the remainder exactly in an object with high word 0 |
| Agreement.RoundTripST40 | apilib/include/stdvm.h:134-164 | the same on the ST40: the quotient exactly when the product is below 2^63 or b is 1, the remainder exactly when it is below 2^63 or b divides 2^64 and r is 0 |
| Agreement.SubtractUndoesAdd | apilib/include/stddefs.h:113-157 | addition and subtraction mod 2^64 undo each other |
| Agreement.ShiftsUndone | apilib/include/stddefs.h:226-275 | right after left keeps the low 64 - s bits; left after right clears the low s bits |
| DvmfsSizes.StreamSize | apilib/src/stdvm/dvmfs.c:152-154 | the stream size in place: full sub-files and the last one, never wrapping |
| DvmfsSizes.RoundDownToChunk | apilib/src/stdvm/dvmfs.c:280-281 | divide and multiply back in place: size - size % chunk below 2^63, size plus (2^64 - size) % chunk mod 2^64 from there up; rounded down exactly when size < 2^63 or the chunk divides both 2^64 and the size |
| DvmfsSizes.MultiplyBack | apilib/src/stdvm/dvmfs.c:280-281 | the signed quotient times the divisor, on both sides of 2^63 |
| DvmfsSizes.RoundingCorrectIff | apilib/src/stdvm/dvmfs.c:280-281 | the exact set of sizes and chunks that are rounded down |
| DvmfsSizes.RoundingExample | apilib/src/stdvm/dvmfs.c:280-281 | a size of 2^63 comes out larger for the recorder's chunk |
| DvmfsSizes.MaxStreamSize | apilib/src/stdvm/dvmfs.c:278-281 | the permitted size of a number of packets: (packets / 4096) whole chunks exactly when packets * 188 < 2^63 |
| DvmfsSizes.SubFilesNeeded | apilib/src/stdvm/dvmfs.c:163-164 | the signed quotient of the padded size; the least number of sub-files that hold the part exactly when part + sub-file - 1 < 2^63 or sub-files have one byte; for sub-files of up to 0x7FFFFFFF bytes the low word alone is that number exactly for parts of at most 2^32 - 1 sub-files |
| DvmfsSizes.FilesCorrectIff | apilib/src/stdvm/dvmfs.c:163-164 | the exact set of parts and sub-file sizes for which the rounded-up quotient is the least number of sub-files |
| DvmfsSizes.LowWordIff | apilib/src/stdvm/dvmfs.c:163-173 | the exact set of parts for which the low word is that number |
| DvmfsSeek.WrapPosition | apilib/src/stdvm/dvmfs.c:1858-1861 | the subtract-while-larger loop leaves (p - 1) % size + 1, and 0 for 0; it ends exactly for a size other than 0 or position 0 |
| DvmfsSeek.WrappedIsRemainderIff | apilib/src/stdvm/dvmfs.c:1857-1861 | that is the announced remainder exactly when p is 0 or no multiple of the size; at positive multiples the size is left |
| DvmfsSeek.FindFile | apilib/src/stdvm/dvmfs.c:1900-1914 | the word-wise search ends at file start + p / sub with offset p % sub exactly when the stream has that file |
| DvmfsSeek.SeekInCircular | apilib/src/stdvm/dvmfs.c:1840-1922 | the whole seek in a circular stream, in place: before it has wrapped, a position up to the size gives the file and offset that make it up, if there is that file, and none beyond; afterwards a position up to the end gives those of p % size, or of the size at its positive multiples, and none beyond |
| DvmfsSeek.SpotUnwrapped | apilib/src/stdvm/dvmfs.c:1843-1922 | the first half of that, for any number of files |
| DvmfsSeek.SpotWrapped | apilib/src/stdvm/dvmfs.c:1843-1922 | the second half, for any number of files |
| DvmfsSeek.CircularSeekIff | apilib/src/stdvm/dvmfs.c:1840-1922 | in a wrapped stream with just the sub-files that its size needs, the seek finds the byte p % size exactly when p is 0 or no multiple of the size; what happens otherwise |
| TaskDelay.FaultsIff | apilib/include/stos.h:460-470 | the conversion divides by 0 exactly for clock 0 or a delay of 10^6 limits or more |
| TaskDelay.NeverFaultsIff | apilib/include/stos.h:460-470 | no 32-bit delay divides by 0 exactly for clock rates 1 to 999992 |
| TaskDelay.NoOverflow | apilib/include/stos.h:463-470 | whenever nothing faults, the divisor is at most 10^6 and the product stays within 32 bits |
| TaskDelay.ProductFits | apilib/include/stos.h:465-467 | the divisor brings (delay / divisor) * clock within 32 bits |
| TaskDelay.ExactBelowLimit | apilib/include/stos.h:463-468 | below 0xFFFFFFFF / clock the ticks are exactly delay * clock / 10^6 |
| TaskDelay.WithinOneDivisor | apilib/include/stos.h:470 | everywhere: (m - D + 1) * C < (ticks + 1) * 10^6 and ticks * (10^6 - D + 1) <= m * C |
| TaskDelay.FaultExample | apilib/include/stos.h:460-470 | clock 0 faults; clock 999993 first faults at 4294000000 microseconds |
| TaskDelay.SameDivisorKeepsOrder | apilib/include/stos.h:463-470 | of two delays with one divisor the longer never gets fewer ticks |
| TaskDelay.FallsOnlyIfCoarser | apilib/include/stos.h:463-470 | where the divisor goes from k to k + 1, ticks can only fall if 10^6 mod (k + 1) < 10^6 mod k |
| TaskDelay.FewerTicksIff | apilib/include/stos.h:460-470 | one microsecond more gives fewer ticks exactly at a multiple of the limit that meets that condition |
| TaskDelay.KeepsOrderIff | apilib/include/stos.h:460-470 | for clocks of 1 to 4000000 ticks a second: no longer delay gets fewer ticks exactly for clocks of at most 14 |
| TaskDelay.LongerDelayFewerTicks | apilib/include/stos.h:469-470 | two falls: at 900000 ticks a second 57264 microseconds give a tick fewer than 57263, at 15625 one microsecond more gives 4340 fewer |
| Registers.NumberOfLayout | apilib/include/stsys.h:104-342 | laying a value out and reading it in the same order gives it cut to the width |
| Registers.ReadRegDev16BE | apilib/include/stsys.h:101-109 | every build reads the big-endian number of two bytes |
| Registers.ReadRegDev16LE | apilib/include/stsys.h:114-122 | every build reads the little-endian number of two bytes |
| Registers.ReadRegDev24BE | apilib/include/stsys.h:176-186 | a little-endian CPU and the form without wide accesses read the big-endian number of three bytes; a big-endian CPU with wide accesses reads bytes 0, 2 and 3 |
| Registers.SkippedByteHarmlessIff | apilib/include/stsys.h:183-185 | the skipping read is right exactly when bytes 1, 2 and 3 are equal |
| Registers.SkippedByteExample | apilib/include/stsys.h:176-186 | on the bytes 1, 2, 3, 4 the big-endian build with wide accesses reads 0x010304, and every other 0x010203 |
| Registers.OrderExamples | apilib/include/stsys.h:101-286 | the other five reads on the bytes 1, 2, 3, 4, in every build |
| Registers.ReadRegDev24LE | apilib/include/stsys.h:191-201 | every build reads the little-endian number of three bytes |
| Registers.ReadRegDev32BE | apilib/include/stsys.h:261-271 | every build reads the big-endian number of four bytes |
| Registers.ReadRegDev32LE | apilib/include/stsys.h:276-286 | every build reads the little-endian number of four bytes |
| Registers.WriteRegDev16BE | apilib/include/stsys.h:127-146 | every build leaves the two big-endian bytes and touches nothing else |
| Registers.WriteRegDev16LE | apilib/include/stsys.h:151-170 | every build leaves the two little-endian bytes and touches nothing else |
| Registers.WriteRegDev24BE | apilib/include/stsys.h:207-229 | every build leaves the three big-endian bytes and touches nothing else |
| Registers.WriteRegDev24LE | apilib/include/stsys.h:234-256 | every build leaves the three little-endian bytes and touches nothing else |
| Registers.WriteRegDev32BE | apilib/include/stsys.h:291-314 | every build leaves the four big-endian bytes and touches nothing else |
| Registers.WriteRegDev32LE | apilib/include/stsys.h:319-342 | every build leaves the four little-endian bytes and touches nothing else |
| Registers.SwappedHalf | apilib/include/stsys.h:129-133 | the mask-and-shift swap before a store in one order is a store in the other |
| Registers.SwappedWord | apilib/include/stsys.h:293-299 | the same for four bytes |
| Registers.Replay | apilib/include/stsys.h:101-342 | every build performs every list of accesses (the skipping read excepted) with the same memory and one value seen a read: the value last written there, cut to its width, if nothing between wrote over it; the number of the bytes there at first, if nothing before wrote over them |
| Registers.RunSees | apilib/include/stsys.h:101-342 | the same of the values alone, for any list of accesses in range |
| Memories.SparedBytesSurvive | apilib/include/stsys.h:101-342 | bytes that no step of a run stores over are the same after the run |
| Memories.LastStoreSurvives | apilib/include/stsys.h:101-342 | stored bytes outlive any later run that spares them |
| Memories.OriginalFound | apilib/include/stsys.h:101-342 | a fetch of bytes not stored over so far finds those from before the run |
| Memories.StoredFound | apilib/include/stsys.h:101-342 | a fetch of bytes left as a store put them finds the bytes stored |
| Registers.LayoutExamples | apilib/include/stsys.h:127-342 | the bytes that writes of 0x01020304 leave, in both orders and every width |
| Registers.ReadsLayout | apilib/include/stsys.h:101-342 | bytes laid out by any build are read back as the value, cut to width, by every build |
| Registers.WriteRunRead | apilib/include/stsys.h:101-342 | a value written by one build, left alone by a run of any accesses in a second, is read back by a third as the value cut to its width |
| Fields.Pipe.Fgets | bin/sh4outbin.c:60-62 | one read takes at most 255 characters, none but the last a newline, and stops only at a newline, after 255 or at the end, which it notices only by running into it |
| Fields.ChunkEnds | bin/sh4outbin.c:60-62 | where a read stops, for any limit |
| Fields.ChunksBreakAtNewlines | bin/sh4outbin.c:60-62 | the successive buffers: at most 255 characters each, a newline only at the end, and there unless the buffer is the last or full |
| Fields.Strtok | bin/sh4outbin.c:65-68 | the next token is cut off in place and the rest of the tokens stay readable behind it |
| Fields.DelimitersIff | bin/sh4outbin.c:65-68 | a character occurs in no token, and splits a from b, exactly when it is a blank, tab, newline or carriage return |
| Fields.SplitFields | bin/sh4outbin.c:65-69 | the table points at the first sixteen tokens, all still intact when the loop ends |
| Fields.SearchBuffer | bin/sh4outbin.c:65-76 | one buffer replaces the answer exactly when it has both fields and the key field matches |
| Fields.GetField | bin/sh4outbin.c:36-87 | the whole search returns the answer field of the last matching buffer, for any output, of the last matching line when every line fits in 255 characters, and of the last answering row when the output is a table; nothing for a pipe that does not open |
| Fields.SearchOfTable | bin/sh4outbin.c:36-87 | over rows of fields set in blanks, one to a line of at most 255 characters: the answer field of the last row whose key field is the wanted one, both among the first sixteen, and nothing if there is no such row |
| Fields.KeyAtLineEnd | bin/sh4outbin.c:60-76 | a key at the end of its line, just before the newline, is found |
| Fields.LastMatchIff | bin/sh4outbin.c:70-76 | no answer exactly when no buffer matches; otherwise the answer of the last that does |
| Fields.NoFieldPastSixteen | bin/sh4outbin.c:65-70 | a field number past sixteen never yields an answer |
| Fields.TokensOfWeave | bin/sh4outbin.c:65-69 | tokens set in any delimiters come back unchanged |
| Fields.WeaveOfTokens | bin/sh4outbin.c:65-69 | every line is its tokens set in the delimiters that tokenising drops |
| Fields.LinesBreakAtNewline | bin/sh4outbin.c:60-62 | a line ends at its newline and the lines after it are those of the rest |
| Fields.LinesBreakAtNewlines | bin/sh4outbin.c:60-62 | a line has a newline only at its end, and there unless it is the last |
| Fields.ChunksCoverInput | bin/sh4outbin.c:60-62 | the buffers, put end to end, are the command's output |
| Fields.ChunksAreLinesIff | bin/sh4outbin.c:38-62 | the buffers are the lines exactly when every line fits in 255 characters |
| Fields.LongLineExample | bin/sh4outbin.c:60-76 | a line of 256 characters whose key and value fall into two buffers: the line has an answer, the search none |

## Left out

- StddefsC1.ShiftLeft: requires a shift of at least 1, because a shift by 0 makes the source shift a word by 32, which C leaves undefined; a count passed as a negative number is taken as its unsigned value.
- StddefsC1.ShiftRight: requires a shift of at least 1, for the same reason.
- StdvmST40.ShiftLeft: requires a shift below 64, because C leaves longer shifts of a 64-bit number undefined.
- StdvmST40.ShiftRight: requires a shift below 64, for the same reason.
- Divisor 0: the C1 loop ends for dividend 0 only, which the model covers; DivLit and ModLit require that no other dividend comes with divisor 0. What the other builds do then is not in the source; the model assumes that they fault and requires another divisor.
- The C2 shifts are one long-shift instruction each and would restate it; the sign test of a 64-bit value and the word getter are one-line reads.
- Macro effects of evaluating an argument twice or of a name clash with a macro's own locals.
- Signed overflow and right shift of negative numbers on the ST40: C leaves the first undefined and the second to the compiler; the model assumes that the first wraps and the second keeps the sign.
- The memory-region register accessors have the same text as the device ones modelled here, apart from a volatile qualifier's name; the uncached ones only change the address by a mask or an offset.
- Alignment traps of the wide register forms, and effects of device registers that are not memory.
- Address translation between virtual and physical, cached and uncached: one mask expression each.
- The Linux and Windows CE forms of the delay, except that the latter's formula is the exact one the ticks are compared with.
- The main program of the flash tool, the command it runs, and read errors on the pipe; field numbers are taken from 1, as its callers give them.
- Fields.GetField: the match string is a C string, so it has no NUL inside; memory exhaustion in the copy of the answer is not modelled.
- DvmfsSizes.SubFilesNeeded: the low word alone is characterised for sub-files of up to 0x7FFFFFFF bytes, the largest the recorder can have; above that the whole 64-bit number still is.
- DvmfsSeek.SeekInCircular: requires a stream size other than 0, because for size 0 the wrap loop of a wrapped stream never ends.
- TaskDelay.KeepsOrderIff: stated for clocks of up to 4 million ticks a second, four times those that never divide by 0; for faster clocks the model has the step-by-step form OrderIsStepwise only.
- The rest of the recorder's file layer: argument checks of the seek, the seek in a stream with a circular and a linear part (the same loops and sub-file count), positions while reading and writing, the index size, and file I/O.
- All other driver headers: declarations only.
