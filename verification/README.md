# Verification of the RISC-V tools

Dafny models of three parts of the RISC-V tool chain, with proofs of what they promise.
`Machine` has the words, bytes and error numbers they share, `Powers` the arithmetic.

**Double-precision SoftFloat** (`Rounding`, `Sticky`, `Words`, `Shifts`, `Arith128`,
`RoundPack`, `Kernel`, `Multiply`, `Divide`, `Sum`, `Convert`, `FusedMulAdd`, `Remainder`).
The specification is one function: the exact real value of the operation, rounded once to a
64-bit encoding by the mode, with the flags that belong to it. `Rounding` defines it on the
ordered encodings and shows that it is what section 4.3 of IEEE 754-2008 means: nearest,
directed, monotone, and the identity on representable values. The routines work on 64- and
128-bit words with shifts that keep only a sticky bit. `Sticky` has the one relation that
connects the two: a significand is `Near` an exact value at a grain if it equals it, or both
lie inside the same cell of the grid. Words are integers below 2^64 with their wrap-around
written out. The global mode, tininess and flags are fields of `FloatState`. The routines
that pack a result take the exact value as a ghost argument.

**The proxy kernel's virtual memory** (`PageTable`, `Mappings`, `AddressSpace`, `EveryRun`,
`Isolation`, `Search`, `Effects`, `Protection`, `Vm`, `Usage`).
`RadixTable` is the Sv39 page table (section 4.6 of the RISC-V privileged architecture, draft
1.7), kept as pages of 512 entries, and refines a flat map from virtual pages to entries.
`Mappings` describes reference-counted records, lazy pages and their contents on the flat map;
`AddressSpace` proves what operations in the user range keep, `EveryRun` what holds over runs
with mappings anywhere, `Isolation` which pages the user program can reach, and `Search` what
the search for free pages comes to. `Effects` and `Protection` say page by page, down to the
bits of an entry and the bytes of a page, what each operation changes. `Manager` has the
kernel's own loops and is proved against all this for every argument: its `Ready` is what all
operations need and keep, its `Valid` adds that every page belongs to its mapping and every
record is counted right. `Usage` follows a call by an access to one of its pages.

**The host-target interface** (`Htif`, `Exchange`, `Delivery`, `DeviceQueue`, `Ipi`, `Memif`,
`Coroutine`, `Packet`). The protocol between a hart and a polling host, interprocessor
interrupts and the coroutine hand-off are systems of atomic steps, and their properties hold in
every interleaving.
The linked message queues, the chunked memory access over a sparse store of rows, and packet
framing are imperative code proved against sequences and flat arrays.

Where the code does less than its documentation suggests, the model keeps the code and states
the exact condition:

- the subtracting variant of fused multiply-add drops the negation of the addend when the
  product is zero or the addend infinite;
- four shifts misbehave for a count of zero;
- the address search wraps around for requests longer than the address limit, and may return
  addresses above it, or never return;
- a mapping past the last page of the table leaves entries outside the range of their record;
- a growth of the heap beyond the address limit, which the ceiling of the break allows to a
  32-bit program with more than 2 GiB, halts the kernel;
- a message record sent again while it is in a queue destroys the queue;
- a mapping whose end wraps around succeeds without mapping anything, and leaks its record
  unless its page count is a multiple of 2^32;
- a protection change is not confined to user pages, and grants the user program read access
  to any page the kernel has mapped;
- a chunk of several rows for the hex writer stores its first row in all of them;
- an answer that is the zero word never reaches the hart, but no device of the front end gives
  one.

Assumptions taken as given: a write to a host interface register is accepted only while it is
zero and returns the old value; a device answers a command at most once; machine-mode calls are
not interrupted, and the supervisor clears its interrupt bit through them only; in `Exchange` it
submits a message record only while it is in neither queue; the contents of an open file do not
change; memory is page-aligned and below 2^39 bytes; a condition variable may wake a thread without a
signal.

## Model

| member | source | states |
|---|---|---|
| `Rounding.RoundRepresentable` | riscv-tools/riscv-isa-sim/softfloat/internals.h:180-186 | the rounding that all routines are measured against returns every representable magnitude unchanged, in every mode, with no flag |
| `Rounding.RoundIsNearest` | riscv-tools/riscv-isa-sim/softfloat/s_roundPackToF64.c:20-21 | in the two nearest modes no representable magnitude is closer to the exact value than the rounded one |
| `Rounding.RoundIsDirected` | riscv-tools/riscv-isa-sim/softfloat/s_roundPackToF64.c:22-32 | in the three directed modes the result lies on the side the mode and the sign ask for, and no representable magnitude lies between |
| `Rounding.RoundTie` | riscv-tools/riscv-isa-sim/softfloat/s_roundPackToF64.c:57-59 | a value halfway between two neighbours goes to the even one, or in the other nearest mode to the larger one |
| `Rounding.FlagsMean` | riscv-tools/riscv-isa-sim/softfloat/s_roundPackToF64.c:33-60 | inexact exactly when the result is not the value or the value out of range; overflow exactly when value or result is out of range, and then inexact; underflow only for a tiny inexact value, and for every one when tininess is detected before rounding; no other flag |
| `Rounding.RoundMonotone` | riscv-tools/riscv-isa-sim/softfloat/s_roundPackToF64.c:57-60 | a larger exact magnitude never rounds to a smaller result |
| `Rounding.BelowUnique` | riscv-tools/riscv-isa-sim/softfloat/internals.h:160-169 | the encoding of the largest representable magnitude not above a value is unique, so the order of encodings is the order of values |
| `Sticky.NearCoarser` | riscv-tools/riscv-isa-sim/softfloat/primitives.h:172-179 | a significand that is exact or lies in the same open cell as the exact value at a fine grain does so at every coarser one |
| `Sticky.NearJamRight` | riscv-tools/riscv-isa-sim/softfloat/s_shift64RightJam.c:9-12 | a jammed shift keeps the exact value in its cell: replacing the tail by any nonzero tail is invisible above it |
| `Sticky.RoundSigCorrect` | riscv-tools/riscv-isa-sim/softfloat/s_roundPackToF64.c:57-59 | add increment, drop ten bits, clear the tie bit: equal to rounding the exact value behind a jammed significand to an integer, in every mode |
| `Sticky.NearPosition` | riscv-tools/riscv-isa-sim/softfloat/s_roundPackToF64.c:33 | the low ten bits of a jammed significand tell exactly whether the exact value is on, below, at or above the halfway point |
| `Words.OrDisjoint` | riscv-tools/riscv-isa-sim/softfloat/s_shortShift128Left.c:11 | an or of words with no common bits is their sum, bit by bit |
| `Shifts.Shift64RightJamCorrect` | riscv-tools/riscv-isa-sim/softfloat/s_shift64RightJam.c:9-12 | for every positive count, however large, the result is the quotient with a sticky bit for any lost remainder |
| `Shifts.Shift64RightJamZero` | riscv-tools/riscv-isa-sim/softfloat/s_shift64RightJam.c:9-12 | with count 0 the code jams the low bit of a nonzero word; it is correct exactly for zero and odd words |
| `Shifts.ShortShift64RightJamCorrect` | riscv-tools/riscv-isa-sim/softfloat/s_shortShift64RightJam.c:9 | quotient with sticky bit for counts below 64 |
| `Shifts.Shift128RightJamCorrect` | riscv-tools/riscv-isa-sim/softfloat/s_shift128RightJam.c:12-28 | for every positive count the two-word result is the 128-bit quotient with a sticky bit |
| `Shifts.Shift128RightJamZero` | riscv-tools/riscv-isa-sim/softfloat/s_shift128RightJam.c:12-17 | with count 0 the code folds the high word into the low one; it returns its argument exactly when the low word already has those bits and is zero or odd |
| `Shifts.ShortShift128LeftValue` | riscv-tools/riscv-isa-sim/softfloat/s_shortShift128Left.c:11-13 | for every positive count and all words the product modulo 2^128: only the bits shifted off the top are lost |
| `Shifts.ShortShift128LeftZero` | riscv-tools/riscv-isa-sim/softfloat/s_shortShift128Left.c:11-13 | with count 0 the argument comes back if and only if the high word already has every bit of the low one |
| `Convert.Shift64ExtraCorrect` | riscv-tools/riscv-isa-sim/softfloat/s_shift64ExtraRightJam.c:12-20 | a value given by its integer part and a word placing its fraction against zero and one half: the shifted pair does the same for the exact quotient, for every positive count and any incoming fraction |
| `Convert.Shift64ExtraZero` | riscv-tools/riscv-isa-sim/softfloat/s_shift64ExtraRightJam.c:12-20 | with count 0 the word itself becomes the fraction, which is right if and only if it lies where the fraction did; without a fraction, exactly for the word 0 |
| `Arith128.CountLeadingZeros64` | riscv-tools/riscv-isa-sim/softfloat/s_countLeadingZeros64.c:11-29 | 64 for zero, otherwise the unique shift that brings the top set bit to bit 63 |
| `Arith128.Add128Value` | riscv-tools/riscv-isa-sim/softfloat/s_add128.c:11-14 | the carry makes the two words the 128-bit sum modulo 2^128 |
| `Arith128.Sub128Value` | riscv-tools/riscv-isa-sim/softfloat/s_sub128.c:11-14 | the borrow makes the two words the 128-bit difference modulo 2^128 |
| `Arith128.Mul64To128` | riscv-tools/riscv-isa-sim/softfloat/s_mul64To128.c:12-25 | four 32-bit products accumulated with their carries are the exact 128-bit product |
| `Arith128.SignRead` | riscv-tools/riscv-isa-sim/softfloat/s_estimateDiv128To64.c:19 | a 128-bit remainder of small magnitude has its top bit set exactly when it is negative, so it is never misread |
| `Arith128.FirstDigit` | riscv-tools/riscv-isa-sim/softfloat/s_estimateDiv128To64.c:14-18 | the first 32-bit digit leaves a remainder above -2^96 and below 2^32 times the divisor |
| `Arith128.EstimateDiv128To64` | riscv-tools/riscv-isa-sim/softfloat/s_estimateDiv128To64.c:13-25 | for every divisor from 2^63 up and every dividend: between the exact quotient and two more; all ones if the quotient is too wide; the correction runs at most twice |
| `RoundPack.PackExact` | riscv-tools/riscv-isa-sim/softfloat/internals.h:160-169 | adding the three fields, with the carry of the significand into the exponent, gives the encoding of the value |
| `RoundPack.PackedIsRounded` | riscv-tools/riscv-isa-sim/softfloat/s_roundPackToF64.c:33-60 | over the whole exponent range the packed result and the flags are the rounding of the exact value behind the significand, with the hand-off at the subnormal and overflow boundaries exact |
| `RoundPack.RoundInRange` | riscv-tools/riscv-isa-sim/softfloat/s_roundPackToF64.c:57-60 | the normal case: significand rounded in place is the rounded magnitude |
| `RoundPack.RoundSubnormal` | riscv-tools/riscv-isa-sim/softfloat/s_roundPackToF64.c:35-43 | the subnormal case: jammed shift, then the same rounding, is the rounded magnitude |
| `RoundPack.RoundOverflow` | riscv-tools/riscv-isa-sim/softfloat/s_roundPackToF64.c:47-55 | infinity or the largest finite magnitude, by mode and sign, exactly when the rounding overflows |
| `RoundPack.SubnormalFlags` | riscv-tools/riscv-isa-sim/softfloat/s_roundPackToF64.c:36-46 | underflow exactly when the value is tiny in the chosen sense and the result inexact |
| `RoundPack.RoundPackToF64` | riscv-tools/riscv-isa-sim/softfloat/s_roundPackToF64.c:19-63 | the encoding of the correctly rounded value with exactly its flags added, for every mode, sign, exponent and jammed significand that the routine's written contract admits |
| `Kernel.NormSubnormalF64Sig` | riscv-tools/riscv-isa-sim/softfloat/s_normSubnormalF64Sig.c:12-15 | the normalized significand and exponent denote the subnormal's value |
| `Kernel.NormRoundPackToF64` | riscv-tools/riscv-isa-sim/softfloat/s_normRoundPackToF64.c:14-21 | the exact fast path and the rounding path both give the correctly rounded value and its flags |
| `Kernel.DecodeNormal` | riscv-tools/riscv-isa-sim/softfloat/internals.h:150-158 | fields and hidden bit denote the value of a normal number |
| `Kernel.DecodeSubnormal` | riscv-tools/riscv-isa-sim/softfloat/s_normSubnormalF64Sig.c:12-15 | a subnormal's fields denote its value after normalization |
| `Kernel.PropagateNaNF64UI` | riscv-tools/riscv-isa-sim/softfloat/s_propagateNaNF64UI.c:20-23 | the default NaN, with invalid exactly for a signaling argument |
| `Kernel.Classes` | riscv-tools/riscv-isa-sim/softfloat/internals.h:146-158 | NaNs, infinities, finite numbers and zeros by the magnitude bits, signaling NaNs by bit 51, the sign by bit 63; the default NaN is a quiet NaN |
| `Kernel.Anchors` | riscv-tools/riscv-isa-sim/softfloat/internals.h:150-158 | the words that stand for 1 and for -3 |
| `Kernel.RoundedRightly` | riscv-tools/riscv-isa-sim/softfloat/s_roundPackToF64.c:19-63 | for signed values and a finite result: no finite number is closer in the nearest modes, and in the directed modes none lies between value and result on the side asked for |
| `Kernel.Representable` | riscv-tools/riscv-isa-sim/softfloat/internals.h:160-169 | a small integer times a power of two in range is the value of an encoding |
| `Multiply.MulNonzero` | riscv-tools/riscv-isa-sim/softfloat/f64_mul.c:63-72 | the product of two nonzero finite magnitudes rounded once, although only the jammed high word is kept |
| `Multiply.F64Mul` | riscv-tools/riscv-isa-sim/softfloat/f64_mul.c:30-88 | all inputs: the exact product rounded once with exact flags for finite operands; NaN, infinity and zero cases |
| `Divide.QuotientSig` | riscv-tools/riscv-isa-sim/softfloat/f64_div.c:76-85 | the quotient significand rounds like the exact quotient even though it is corrected only when its low nine bits are at most 2 |
| `Divide.CorrectQuotient` | riscv-tools/riscv-isa-sim/softfloat/f64_div.c:78-84 | the correction loop ends at the truncated quotient, jammed with the remainder |
| `Divide.UncorrectedNear` | riscv-tools/riscv-isa-sim/softfloat/f64_div.c:77 | an estimate two too large lies in the same rounding cell unless its low nine bits are at most 2 |
| `Divide.DivNonzero` | riscv-tools/riscv-isa-sim/softfloat/f64_div.c:69-86 | the quotient of two nonzero finite magnitudes rounded once |
| `Divide.F64Div` | riscv-tools/riscv-isa-sim/softfloat/f64_div.c:30-101 | all inputs: correctly rounded quotient with exact flags; division by zero, infinities, NaNs |
| `Sum.UnequalSum` | riscv-tools/riscv-isa-sim/softfloat/s_addMagsF64.c:44-67 | aligning with a jammed tail and adding keeps the rounding of the exact sum |
| `Sum.UnequalDifference` | riscv-tools/riscv-isa-sim/softfloat/s_subMagsF64.c:52-71 | aligning with a jammed tail and subtracting keeps the rounding of the exact difference, whatever cancels |
| `Sum.SubnormalSum` | riscv-tools/riscv-isa-sim/softfloat/s_addMagsF64.c:35-40 | two subnormals are added exactly as integers, into the normal range if need be |
| `Sum.AddMagsF64` | riscv-tools/riscv-isa-sim/softfloat/s_addMagsF64.c:22-74 | sum of magnitudes, rounded once, with exact flags; infinities and NaNs |
| `Sum.SubMagsF64` | riscv-tools/riscv-isa-sim/softfloat/s_subMagsF64.c:23-78 | difference of magnitudes, rounded once, with the sign of an exact zero by mode; infinities and NaNs |
| `Sum.F64Add` | riscv-tools/riscv-isa-sim/softfloat/f64_add.c:18-26 | all inputs: correctly rounded sum with exact flags and sign of zero |
| `Sum.F64Sub` | riscv-tools/riscv-isa-sim/softfloat/f64_sub.c:18-26 | all inputs: correctly rounded difference with exact flags and sign of zero |
| `Convert.IncrementCorrect` | riscv-tools/riscv-isa-sim/softfloat/s_roundPackToI64.c:21-39 | the increment rule on integer part and sticky fraction is integer rounding of the exact value in every mode |
| `Convert.RoundToIntIs` | riscv-tools/riscv-isa-sim/softfloat/s_roundPackToI64.c:21-39 | the integer is the nearest to the signed value, a tie going to the even one or away from zero, or the next on the side asked for |
| `Convert.SignedIs` | riscv-tools/riscv-isa-sim/softfloat/s_roundPackToI64.c:40-42 | a result whose sign comes out wrong is exactly one that does not fit in 64 bits |
| `Convert.RoundPackToI64` | riscv-tools/riscv-isa-sim/softfloat/s_roundPackToI64.c:21-49 | rounded integer if it fits, otherwise saturation with invalid; inexact only on request and exactly when a fraction was lost |
| `Convert.F64ToI64` | riscv-tools/riscv-isa-sim/softfloat/f64_to_i64.c:19-41 | every double: the mode's integer rounding, or saturation with invalid |
| `Convert.I64ToF64` | riscv-tools/riscv-isa-sim/softfloat/i64_to_f64.c:13-18 | every 64-bit integer: correctly rounded with exact flags |
| `Convert.IntegerRoundTrip` | riscv-tools/riscv-isa-sim/softfloat/f64_to_i64.c:19-41 | conversion to double and back is the identity without flags up to 2^53 in magnitude, in every mode |
| `FusedMulAdd.ProductOf` | riscv-tools/riscv-isa-sim/softfloat/s_mulAddF64.c:76-83 | the normalized 128-bit significand is the exact product |
| `FusedMulAdd.SumAtAddend` | riscv-tools/riscv-isa-sim/softfloat/s_mulAddF64.c:98-104 | product shifted under a larger addend, jammed: still the exact sum for rounding |
| `FusedMulAdd.SumAtProduct` | riscv-tools/riscv-isa-sim/softfloat/s_mulAddF64.c:105-112 | addend shifted under a larger product, jammed: still the exact sum for rounding |
| `FusedMulAdd.DifferenceAtAddend` | riscv-tools/riscv-isa-sim/softfloat/s_mulAddF64.c:119-125 | product shifted under a larger addend and subtracted: exact unless nearly all bits are significant, and then in its cell |
| `FusedMulAdd.DifferenceAtProduct` | riscv-tools/riscv-isa-sim/softfloat/s_mulAddF64.c:134-140 | addend shifted under a larger product and subtracted: likewise |
| `FusedMulAdd.DifferenceEqual` | riscv-tools/riscv-isa-sim/softfloat/s_mulAddF64.c:126-133 | equal exponents: the difference is exact, with its sign read from the top bit |
| `FusedMulAdd.AddAligned` | riscv-tools/riscv-isa-sim/softfloat/s_mulAddF64.c:97-116 | same signs: normalized significand that rounds like the exact sum; no shift is called with count 0 |
| `FusedMulAdd.SubAligned` | riscv-tools/riscv-isa-sim/softfloat/s_mulAddF64.c:117-157 | opposite signs: complete cancellation detected, otherwise sign and normalized significand that round like the exact difference; no shift is called with count 0 and a nonzero low word |
| `FusedMulAdd.NormalizeDifference` | riscv-tools/riscv-isa-sim/softfloat/s_mulAddF64.c:141-156 | normalizing by up to 127 places, or one place down, keeps the rounding |
| `FusedMulAdd.MulAddNonzero` | riscv-tools/riscv-isa-sim/softfloat/s_mulAddF64.c:76-159 | nonzero product: the exact value of product plus addend is rounded once |
| `FusedMulAdd.ZeroProductExit` | riscv-tools/riscv-isa-sim/softfloat/s_mulAddF64.c:176-182 | zero product: the result is right exactly when no requested negation of the addend is dropped |
| `FusedMulAdd.InfiniteAddend` | riscv-tools/riscv-isa-sim/softfloat/s_mulAddF64.c:56-62 | infinite addend: returning it unchanged is right exactly when no requested negation is dropped |
| `FusedMulAdd.NegationLost` | riscv-tools/riscv-isa-sim/softfloat/s_mulAddF64.c:56-182 | two inputs of the subtracting variant: 0 * 1 - 1 returns 1, and 1 * 1 - infinity returns plus infinity |
| `FusedMulAdd.F64MulAdd` | riscv-tools/riscv-isa-sim/softfloat/s_mulAddF64.c:36-185 | all inputs and all three variants: one rounding of the exact value with exact flags if and only if no negation is lost, the addend itself otherwise; the same condition for an infinite addend; NaN and the other infinity cases |
| `Remainder.ReduceStep` | riscv-tools/riscv-isa-sim/softfloat/f64_rem.c:70-75 | a backed-off digit of 62 bits keeps the significand below the divisor and congruent to the true remainder although only low words are kept |
| `Remainder.LastStep` | riscv-tools/riscv-isa-sim/softfloat/f64_rem.c:77-86 | the last partial digit leaves less than three divisors |
| `Remainder.NearestRemainder` | riscv-tools/riscv-isa-sim/softfloat/f64_rem.c:87-100 | the final loop and the mean test pick the remainder of least magnitude, the even multiple in a tie |
| `Remainder.Reduce` | riscv-tools/riscv-isa-sim/softfloat/f64_rem.c:67-100 | for every exponent difference: an integer multiple of the divisor away, at most half of it in magnitude, even in a tie |
| `Remainder.NearestQuotient` | riscv-tools/riscv-isa-sim/softfloat/f64_rem.c:92-98 | a remainder of at most half the divisor, even multiple in a tie, belongs to the nearest-even quotient |
| `Remainder.RemNonzero` | riscv-tools/riscv-isa-sim/softfloat/f64_rem.c:60-101 | the encoding of exactly a minus the nearest-even multiple of b, with no flag |
| `Remainder.F64Rem` | riscv-tools/riscv-isa-sim/softfloat/f64_rem.c:30-110 | all inputs: the exact IEEE remainder without flags, zero results with the sign of a; invalid and NaN cases |
| `PageTable.PtIdxInjective` | riscv-tools/riscv-pk/pk/vm.c:114-118 | the three nine-bit indices determine the page |
| `PageTable.PtIdxBits` | riscv-tools/riscv-pk/pk/vm.c:114-118 | the indices are bits 18 to 26, 9 to 17 and 0 to 8 of the page number, and put together give it back |
| `PageTable.HardwareAgrees` | riscv-tools/riscv-pk/pk/vm.c:129-151 | a walk of the tree finds the entry that the hardware walk, written out with its bit fields, finds |
| `PageTable.AddTableLeaf` | riscv-tools/riscv-pk/pk/vm.c:139-145 | creating a table on one page's path changes the leaf entry seen at no page |
| `PageTable.WriteLeaf` | riscv-tools/riscv-pk/pk/vm.c:129-151 | a write to the slot of one page is seen at that page and at no other |
| `PageTable.DistinctSlots` | riscv-tools/riscv-pk/pk/vm.c:114-151 | distinct pages have distinct leaf slots |
| `PageTable.RadixTable.PageAlloc` | riscv-tools/riscv-pk/pk/vm.c:26-32 | hands out the next page of its region, zeroed and never one in use, and fails exactly when none is left |
| `PageTable.RadixTable.MaybeCreateRoot` | riscv-tools/riscv-pk/pk/vm.c:120-127 | an empty root refines the empty map |
| `PageTable.RadixTable.CreateTable` | riscv-tools/riscv-pk/pk/vm.c:139-145 | the new table extends the path and leaves the flat map and all complete paths alone |
| `PageTable.RadixTable.Walk` | riscv-tools/riscv-pk/pk/vm.c:129-161 | finds exactly the leaf slot of the page, or none only when the flat map has none; with creation it changes no entry of the flat map, without it no page at all |
| `PageTable.RadixTable.HardwareSees` | riscv-tools/riscv-pk/pk/vm.c:129-151 | in every valid state the hardware walk from the root finds the flat map's entry, and zero where it has none |
| `PageTable.RadixTable.Load` | riscv-tools/riscv-pk/pk/vm.c:163-167 | the entry read is the flat map's entry |
| `PageTable.RadixTable.Store` | riscv-tools/riscv-pk/pk/vm.c:250 | the flat map changes at the page and nowhere else |
| `Mappings.PteCreated` | riscv-tools/riscv-pk/pk/vm.c:79-107 | a created entry is valid and carries its page number |
| `Mappings.PageContentsIsImage` | riscv-tools/riscv-pk/pk/vm.c:209-218 | population fills a page with the right slice of the file, clipped to the mapping and zero-padded, and halts exactly when the file has no byte there |
| `Mappings.PageBytes` | riscv-tools/riscv-pk/pk/vm.c:209-218 | byte k of the page is the byte of the file at the mapping's offset plus the page's distance from the mapping's address plus k, up to the end of mapping and file, and zero beyond; the kernel halts exactly when the file ends at or before offset plus distance |
| `Mappings.AddressBits` | riscv-tools/riscv-pk/pk/vm.c:114-118 | the walk's indices are bits 30 to 38, 21 to 29 and 12 to 20 of the address |
| `Mappings.LoopVisits` | riscv-tools/riscv-pk/pk/vm.c:270 | a loop over the page addresses of any range, in 64-bit arithmetic, visits each page once and stops, visits none when its end wraps around, or never stops when its end lies in the last page |
| `Mappings.UnmapCounted` | riscv-tools/riscv-pk/pk/vm.c:60-67 | dropping a reference, in 32-bit arithmetic, together with the entry that held it keeps every record's count equal to the entries that point at it plus those it is still owed |
| `Mappings.MapRangeCounts` | riscv-tools/riscv-pk/pk/vm.c:270-279 | the mapping loop pays one reference for each page it visits, wherever the range lies and however often it comes round to the same slot |
| `Mappings.FreeUnused` | riscv-tools/riscv-pk/pk/vm.c:44-46 | no entry points at a record whose count is zero, so it may be taken |
| `Mappings.UnmapPageKeeps` | riscv-tools/riscv-pk/pk/vm.c:241-251 | unmapping a page keeps the invariant, reference counts included |
| `Mappings.MapPageKeeps` | riscv-tools/riscv-pk/pk/vm.c:270-279 | pointing a page at a record pays one of the references the record is owed |
| `Mappings.PopulatePageKeeps` | riscv-tools/riscv-pk/pk/vm.c:202-221 | populating drops one reference, installs the image and keeps the invariant |
| `Mappings.TakeRecordKeeps` | riscv-tools/riscv-pk/pk/vm.c:44-57 | a free record taken for a mapping is owed one entry per page |
| `Mappings.MapRangeKeeps` | riscv-tools/riscv-pk/pk/vm.c:266-279 | after the mapping loop nothing is owed |
| `AddressSpace.MmapKeeps` | riscv-tools/riscv-pk/pk/vm.c:255-286 | a mapping keeps the invariant and covers its pages; it fails exactly when no record is free and halts exactly when it must populate a page without a byte of the file |
| `AddressSpace.FaultKeeps` | riscv-tools/riscv-pk/pk/vm.c:193-229 | a page fault keeps the invariant and every page's mapping |
| `AddressSpace.ProtectKeeps` | riscv-tools/riscv-pk/pk/vm.c:364-386 | changing protection never fails on a bad entry and keeps the invariant |
| `AddressSpace.PopulateRangeKeeps` | riscv-tools/riscv-pk/pk/vm.c:281-283 | eager population installs every image, or halts exactly when one page has no byte of the file |
| `AddressSpace.StepKeeps` | riscv-tools/riscv-pk/pk/vm.c:193-391 | every operation keeps the invariant, mappings outside the user range excepted |
| `AddressSpace.MmapCounts` | riscv-tools/riscv-pk/pk/vm.c:266-279 | a mapping at any page address and of any length keeps the counts if and only if it does not take a record for pages that its wrapped loop never visits |
| `AddressSpace.CountsEveryCall` | riscv-tools/riscv-pk/pk/vm.c:34-67 | over every run, whatever ranges are mapped: the counts are the numbers of entries in all its states if and only if no mapping leaks its record |
| `AddressSpace.WholeSpace` | riscv-tools/riscv-pk/pk/vm.c:257-279 | a length of 2^64 - 1: the 32-bit count is zero, the loop visits no page, and the call succeeds with nothing mapped and the record still free |
| `AddressSpace.LeakedRecord` | riscv-tools/riscv-pk/pk/vm.c:257-279 | a length of 2^64 - 4096: the record keeps a count of 2^32 - 1 with no entry pointing at it |
| `EveryRun.StepSafe` | riscv-tools/riscv-pk/pk/vm.c:34-67 | every operation, with whatever arguments, leaves each record counted exactly or with no entry pointing at it |
| `EveryRun.ReferenceCounts` | riscv-tools/riscv-pk/pk/vm.c:34-67 | in every reachable state, whatever ranges were mapped: an entry is a valid one or the address of exactly one record, and a record that entries point at has exactly their number as its count; all counts are exact without a leak, and all records cover their pages without a stray mapping |
| `EveryRun.MmapCovers` | riscv-tools/riscv-pk/pk/vm.c:266-279 | a mapping keeps every record's range covering the pages that point at it if and only if it does not pass the last page of the table |
| `EveryRun.CoverageEveryCall` | riscv-tools/riscv-pk/pk/vm.c:34-67 | over every run: records cover their pages in all its states if and only if no mapping passes the last page of the table |
| `EveryRun.StrayMapping` | riscv-tools/riscv-pk/pk/vm.c:266-279 | one page beyond the last page of the table: a slot points at a record that lies elsewhere |
| `EveryRun.RunPageOf` | riscv-tools/riscv-pk/pk/vm.c:193-391 | over every run that does not map, unmap or write a page it keeps its mapping's image, or the address of a record of that mapping |
| `EveryRun.LazyRefinesEager` | riscv-tools/riscv-pk/pk/vm.c:193-221 | over every run, whatever happens to other pages and whatever ranges are mapped, a lazily mapped page holds, once populated, what populating at once would have installed |
| `Isolation.UserReadable` | riscv-tools/riscv-pk/pk/vm.c:79-107 | an entry made for the user is readable by it exactly when some protection is asked for; a kernel entry never is |
| `Isolation.ProtectCloses` | riscv-tools/riscv-pk/pk/vm.c:378-386 | a protection change keeps kernel pages closed to the user program unless it asks for exactly read access to a valid page outside the user range, which nothing refuses |
| `Isolation.StepCloses` | riscv-tools/riscv-pk/pk/vm.c:193-391 | an operation keeps kernel pages closed, and user pages on their own frames, if and only if it is not such a protection change |
| `Isolation.KernelStaysClosed` | riscv-tools/riscv-pk/pk/vm.c:193-391 | over every run: in all its states no entry outside the user range has a user permission, if and only if the run has no such protection change |
| `Isolation.ReadableKernelPage` | riscv-tools/riscv-pk/pk/vm.c:355-386 | the input: read access asked for on a kernel page is granted and leaves a user-readable entry for its frame |
| `Effects.PermitsBits` | riscv-tools/riscv-pk/pk/vm.c:223-225 | the fault handler accepts an entry exactly if it is valid and has the bits for user access, writing and execution as asked for |
| `Effects.OwnRights` | riscv-tools/riscv-pk/pk/vm.c:79-107 | an entry made with a protection allows exactly what the protection allows; every entry with a right is readable, and asking for nothing is granted only without rights |
| `Effects.UnmapEffect` | riscv-tools/riscv-pk/pk/vm.c:239-253 | after unmapping a range, from any state, no page of it has an entry, an origin or a written mark; every other page keeps entry, bytes, origin and mark |
| `Effects.StaysUnmapped` | riscv-tools/riscv-pk/pk/vm.c:193-253 | over every run that does not map the page again it stays unmapped, and a fault there returns -1 and changes nothing |
| `Effects.FaultEffect` | riscv-tools/riscv-pk/pk/vm.c:193-229 | what a fault does: refused off the user pages; decided by the bits of a populated entry; otherwise the page gets its bytes, its own frame and the rights of its record, which loses one reference, and no other page changes |
| `Effects.FirstTouch` | riscv-tools/riscv-pk/pk/vm.c:202-228 | the first touch of a page of a mapping halts exactly if the file ends at or before it, and otherwise gives the mapping's bytes and exactly the rights of its record |
| `Effects.MmapEffect` | riscv-tools/riscv-pk/pk/vm.c:255-286 | a mapping of a user range that succeeds: every page from its first to its last byte belongs to it, lazily through a record with the mapping and protection, or populated with its bytes and rights; every other page is as before |
| `Effects.ProtectEffect` | riscv-tools/riscv-pk/pk/vm.c:364-386 | one page: -ENOMEM without an entry; -EACCES exactly if write or execute is asked of an entry without it, or any right that the record lacks; otherwise the same frame with exactly the new rights, or the record's protection alone changed |
| `Protection.ProtectRangeEffect` | riscv-tools/riscv-pk/pk/vm.c:362-387 | every range: the pages up to the first that is missing or refuses have the protection, that page says why, no other page changes, and no record but those of these pages |
| `Vm.Manager.constructor` | riscv-tools/riscv-pk/pk/vm.c:424-432 | a table of kernel pages alone is a valid address space; the ceiling of the break is the top of the user memory |
| `Vm.Manager.UnmapOne` | riscv-tools/riscv-pk/pk/vm.c:243-250 | the entry of the page goes, with its origin; one reference of the record it named is dropped, in 32-bit arithmetic; every other page is as before |
| `Vm.Manager.Munmap` | riscv-tools/riscv-pk/pk/vm.c:239-253 | the loop over the radix table leaves no page of the range and changes no other page's entry, bytes or origin |
| `Vm.Manager.PopulateOne` | riscv-tools/riscv-pk/pk/vm.c:202-221 | both writes of the entry, the fill and the dropped reference refine population |
| `Vm.Manager.PageFault` | riscv-tools/riscv-pk/pk/vm.c:193-229 | any faulting address: result and new state are those of the specification; a page of a mapping gets the bytes of the file from the mapping's offset on, or the kernel halts exactly when the file ends at or before it; the result is 0 exactly if the entry grants what is asked for |
| `Vm.Manager.VmrAlloc` | riscv-tools/riscv-pk/pk/vm.c:34-58 | the lowest free record, the record page allocated on first use |
| `Vm.Manager.MapOne` | riscv-tools/riscv-pk/pk/vm.c:272-278 | the loop body of a mapping refines the mapping of one page |
| `Vm.Manager.MapPages` | riscv-tools/riscv-pk/pk/vm.c:270-279 | the mapping loop refines the mapping of the range, at page numbers that come round to the same slots too |
| `Vm.Manager.PopulatePages` | riscv-tools/riscv-pk/pk/vm.c:281-283 | the population loop refines eager population |
| `Vm.Manager.MapAt` | riscv-tools/riscv-pk/pk/vm.c:266-285 | any page address and any length: record, mapping and population refine the specified mapping, and do not return only for want of pages or when the specification halts or loops for ever |
| `Vm.Manager.VaAvail` | riscv-tools/riscv-pk/pk/vm.c:163-167 | free exactly when the flat map has no entry at the page's slot |
| `Vm.Manager.Scan` | riscv-tools/riscv-pk/pk/vm.c:172-182 | one lap of the search ends beyond the bound, at the page that the specified lap finds, or with a step past the last page address |
| `Vm.Manager.RunBack` | riscv-tools/riscv-pk/pk/vm.c:176-178 | the inner loop stops at the highest page of the run that is taken, or at its first page |
| `Vm.Manager.VmAlloc` | riscv-tools/riscv-pk/pk/vm.c:169-184 | any page count: the search never stops if and only if its lap from zero steps past the last page address after the first lap did, and otherwise returns what the specified search comes to; for a request that fits below the limit, the lowest run of free pages between break and limit, and 0 only if there is none |
| `Search.ChosenIsLoop` | riscv-tools/riscv-pk/pk/vm.c:169-184 | the outcome in laps is that of the loop turn by turn, in 64-bit arithmetic: it fails, stops with a page or runs for ever exactly when the loop does |
| `Search.PassFinds` | riscv-tools/riscv-pk/pk/vm.c:172-182 | although the lap jumps forward, no free run lies before the page it finds, and none in its reach if it finds nothing |
| `Search.NeverNeeds` | riscv-tools/riscv-pk/pk/vm.c:171-180 | the search can run for ever only for a request longer than the limit and with the last slot of the table taken |
| `Search.HangingRequest` | riscv-tools/riscv-pk/pk/vm.c:171-180 | an input for which it does: the pages below p taken, p free, the last slot taken, and 2^52 - p pages asked for |
| `Search.FittingSearch` | riscv-tools/riscv-pk/pk/vm.c:169-184 | a request that fits below the limit gets the lowest free run there, or there is none |
| `Search.SearchBound` | riscv-tools/riscv-pk/pk/vm.c:169-184 | what the search returns is a free run below the limit if and only if the request is no longer than the limit |
| `Vm.SearchPastLimit` | riscv-tools/riscv-pk/pk/vm.c:169-184 | a call for one page more than the limit, with only the allocator's pages mapped above it and anything below: the mapping begins at the top of memory, wholly above the limit |
| `Vm.SearchHangs` | riscv-tools/riscv-pk/pk/vm.c:169-184 | a call that never returns: p is the lowest free page and not below the break, the last slot is taken, and the pages from p to the last page address are asked for |
| `Search.WholeSearch` | riscv-tools/riscv-pk/pk/vm.c:171-181 | a search for 2^52 pages takes the lowest free page from the break up and always stops |
| `Vm.MapWholeSpace` | riscv-tools/riscv-pk/pk/vm.c:255-318 | the call with length 2^64 - 1 from any valid state: it returns the page below the lowest free one, changes no entry, page or count, and fails only without a free record or such a page |
| `Vm.Manager.MmapAnywhere` | riscv-tools/riscv-pk/pk/vm.c:255-286 | fixed addresses are accepted exactly when aligned and in range, others are what the search returns, and the call hangs in the search exactly when that does; then the specified mapping; the address space stays valid when the range is a user range, as it is for every fixed address and every length that fits below the limit |
| `Vm.Manager.DoMmap` | riscv-tools/riscv-pk/pk/vm.c:300-318 | every length: argument errors, bad files, the mapping at the fixed address or where the search stopped, and the lowered ceiling of the break; exactly when the search never returns, when else the call does not, and when the address space stays valid; the pages of a user range belong to the given file from the given offset, or to no file with the anonymous flag, with the protection given |
| `Vm.Manager.DoMunmap` | riscv-tools/riscv-pk/pk/vm.c:288-298 | an aligned user range is unmapped, anything else refused, with no wrap-around accepted; then no page of the range is mapped, has an origin or is marked as written, and every page outside keeps entry, bytes and origin |
| `Vm.Manager.Brk` | riscv-tools/riscv-pk/pk/vm.c:320-339 | the address asked for, raised to the lower bound or cut at the ceiling; the end of the heap is the first page boundary not below it; pages between old and new end are unmapped or mapped as anonymous memory with all rights; it halts on every growth beyond the address limit or without a free record, and else only for want of pages |
| `Vm.Manager.ProtectOne` | riscv-tools/riscv-pk/pk/vm.c:364-386 | the entry gets exactly the rights asked for on its own frame, or the whole record the protection; -ENOMEM and -EACCES exactly as the bits say |
| `Vm.Manager.DoMprotect` | riscv-tools/riscv-pk/pk/vm.c:355-391 | every range: page by page up to the first refusal; no effect and success when the end wraps around; with the end in the last page it stops only at a refusal |
| `Protection.RoundAgain` | riscv-tools/riscv-pk/pk/vm.c:362-387 | once the loop has passed every slot it passes every further page without effect, and so for ever |
| `Vm.Manager.UserPagesMissTables` | riscv-tools/riscv-pk/pk/vm.c:204-220 | while kernel pages are closed, every entry with a user permission is a user page's, maps its own frame, and that frame holds no page table |
| `Vm.MapKernelRange` | riscv-tools/riscv-pk/pk/vm.c:393-402 | exactly the range is mapped, each page to the frame at the same distance |
| `Vm.MapStack` | riscv-tools/riscv-pk/pk/vm.c:491-494 | the stack is mapped just below the limit or the kernel halts |
| `Vm.PkVmInit` | riscv-tools/riscv-pk/pk/vm.c:482-498 | start-up ends in a valid address space, closed to the user program, whose only user pages are the stack's; it halts only for want of pages or when the stack does not fit; the cap for 32-bit programs lowers the address limit and not the ceiling of the break |
| `Vm.KernelTable` | riscv-tools/riscv-pk/pk/vm.c:482-490 | exactly the pages below the user range and the allocator's own are mapped, each to its own frame and closed to the user program |
| `Vm.MemoryShares` | riscv-tools/riscv-pk/pk/vm.c:424-491 | how much of k MiB the allocator, the user pages and the stack get |
| `Usage.UnmapThenTouch` | riscv-tools/riscv-pk/pk/vm.c:193-298 | an access to an unmapped address fails, whatever was there before |
| `Usage.MapThenTouch` | riscv-tools/riscv-pk/pk/vm.c:193-318 | a fixed mapping and the first access to it: the bytes of the page written out as bytes of the file, the access allowed exactly as the call's protection says, the kernel halted exactly if the file ends before, nothing changed outside the range |
| `Usage.ProtectThenTouch` | riscv-tools/riscv-pk/pk/vm.c:193-391 | after a successful change of protection every user page of the range, populated or not, is open to exactly what the new protection allows |
| `Usage.GrowThenTouch` | riscv-tools/riscv-pk/pk/vm.c:193-339 | an access to a page by which the heap has grown finds zeros and is allowed, and never halts the kernel |
| `Htif.PackUnpack` | riscv-tools/riscv-pk/pk/frontend.h:9-18 | device, command and payload packed into a word are read back |
| `Htif.UnpackPack` | riscv-tools/riscv-pk/pk/frontend.h:16-18 | every word is the packing of its parts |
| `Htif.RespondKey` | riscv-tools/riscv-fesvr/fesvr/device.h:23 | an answer keeps device and command and carries the low 48 bits of the response |
| `Exchange.AnswerHasRecord` | riscv-tools/riscv-pk/pk/mtrap.c:66-110 | an answer the hart is not polling for has a waiting record of its device and command |
| `Exchange.InterruptKeeps` | riscv-tools/riscv-pk/pk/mtrap.c:64-110 | the interrupt handler keeps the invariant and does not panic |
| `Exchange.SendKeeps` | riscv-tools/riscv-pk/pk/mtrap.c:147-148 | a word accepted by the register stands for the record still to be linked |
| `Exchange.LinkKeeps` | riscv-tools/riscv-pk/pk/mtrap.c:150-152 | linking the record keeps the balance |
| `Exchange.PollKeeps` | riscv-tools/riscv-pk/pk/mtrap.c:119-129 | the console poll takes one console answer and hands all others to the handler, without disturbing the balance |
| `Exchange.ReceiveKeeps` | riscv-tools/riscv-pk/pk/mtrap.c:161-166 | a record handed back leaves the response queue once |
| `Exchange.HostTakeKeeps` | riscv-tools/riscv-fesvr/fesvr/htif.cc:300-304 | taking a command empties the register into the host |
| `Exchange.HostReplyKeeps` | riscv-tools/riscv-fesvr/fesvr/device.h:23 | an answer replaces its command |
| `Exchange.HostDeliverKeeps` | riscv-tools/riscv-fesvr/fesvr/htif.cc:308-310 | delivery moves the oldest answer into an empty register; it disappears exactly when it is the zero word |
| `Exchange.ExactlyOnce` | riscv-tools/riscv-pk/pk/mtrap.c:64-177 | over every interleaving of hart and host: no panic; waiting records and polls equal the exchanges under way or silent, per device and command; every answer is in exactly one place; each landed in a record of its device and command with its payload |
| `Exchange.ZeroAnswer` | riscv-tools/riscv-fesvr/fesvr/device.h:23 | an answer is the zero word exactly for device 0, command 0 and a zero payload |
| `Exchange.ZeroAnswerLost` | riscv-tools/riscv-fesvr/fesvr/htif.cc:308-310 | a run in which such an answer is given and never arrives |
| `Exchange.NothingVanishes` | riscv-tools/riscv-fesvr/fesvr/htif.cc:89-92 | with the front end's devices, whose system call proxy and identity queries answer one, over every interleaving no answer vanishes: each is in the queue, the register, a record or at the console |
| `Delivery.InOrder` | riscv-tools/riscv-fesvr/fesvr/htif.cc:300-310 | over every interleaving the answers arrive in the order given: those given are those arrived, the one in the register, and those queued, zero words aside |
| `Delivery.EveryAnswerArrives` | riscv-tools/riscv-fesvr/fesvr/htif.cc:300-310 | from every reachable state what is under way can be completed, and then exactly the answers given have arrived, in order, zero words aside |
| `Delivery.RequestAnswered` | riscv-tools/riscv-pk/pk/mtrap.c:137-177 | there and back: a record goes out as the word with its device, command and data in their bit fields and comes back with the low 48 bits of the answer |
| `Delivery.CharacterPut` | riscv-tools/riscv-pk/pk/mtrap.c:117-132 | there and back: a character goes out in the low bits of a word of device 1, command 1, and the poll ends with the answer |
| `DeviceQueue.Hart.constructor` | riscv-tools/riscv-pk/pk/mtrap.h:223-226 | both queues empty |
| `DeviceQueue.Hart.LinkRequest` | riscv-tools/riscv-pk/pk/mtrap.c:150-152 | the record becomes the head of the request list; the queues stay lists if and only if it was in neither, and a record already in the requests leaves no list at all |
| `DeviceQueue.Hart.Unlink` | riscv-tools/riscv-pk/pk/mtrap.c:85-90 | relinking in place removes exactly that record from the request list |
| `DeviceQueue.Hart.Enqueue` | riscv-tools/riscv-pk/pk/mtrap.c:91-101 | the record becomes the tail of the response list and the supervisor is signalled |
| `DeviceQueue.Hart.HtifInterrupt` | riscv-tools/riscv-pk/pk/mtrap.c:64-110 | the first record of the answer's device and command gets the payload and moves to the responses; panic exactly if there is none or, outside machine mode, a record up to it lies out of the supervisor's reach |
| `DeviceQueue.Hart.DevReq` | riscv-tools/riscv-pk/pk/mtrap.c:137-155 | an address out of the supervisor's reach and fields too wide are refused; otherwise the word with the record's device, command and data is offered until the register is free, and only then is the record linked; the queues stay lists if and only if it was in neither |
| `DeviceQueue.Hart.DevResp` | riscv-tools/riscv-pk/pk/mtrap.c:157-177 | the oldest response is handed back and leaves the list; the requests lose at most the record that an arriving answer completes; the signal is unchanged without a response and otherwise stays exactly for further responses or a pending interrupt |
| `Ipi.StepKeeps` | riscv-tools/riscv-pk/pk/mtrap.c:157-201 | every atomic step of senders and receiver keeps the invariant |
| `Ipi.NoneLost` | riscv-tools/riscv-pk/pk/mtrap.c:179-201 | in every interleaving the pending flag is set exactly when the last send came after the last clearing; a pending interrupt shows in the supervisor's bit, is under way, or the receiver is about to look again; finishing what is in progress always ends with the bit set or the flag taken; a nonempty response queue always shows |
| `Memif.PatchJoin` | riscv-tools/riscv-fesvr/fesvr/memif.cc:103-106 | adjacent writes, in either order, are one write |
| `Memif.HexWriter.constructor` | riscv-tools/riscv-fesvr/fesvr/htif_hexwriter.cc:7-10 | an empty store reads as zeros |
| `Memif.HexWriter.ReadChunk` | riscv-tools/riscv-fesvr/fesvr/htif_hexwriter.cc:12-31 | the rows read are the bytes of the flat array from the row of the address on, and rows made on the way change none of them |
| `Memif.HexWriter.WriteChunk` | riscv-tools/riscv-fesvr/fesvr/htif_hexwriter.cc:33-51 | every row of the range receives the chunk's first row; the chunk is stored as it is if and only if its rows are all equal |
| `Memif.RepeatedIsSource` | riscv-tools/riscv-fesvr/fesvr/htif_hexwriter.cc:39-50 | repeating the first row gives the chunk back if and only if every row equals the first |
| `Memif.SecondRowLost` | riscv-tools/riscv-fesvr/fesvr/htif_hexwriter.cc:39-50 | the chunk [7, 9] written to two rows of one byte leaves [7, 7] |
| `Memif.Target.ChunkIsRow` | riscv-tools/riscv-fesvr/fesvr/htif_hexwriter.h:24-25 | a chunk that satisfies the assertions is one row when alignment and maximum are the width |
| `Memif.Target.ReadChunk` | riscv-tools/riscv-fesvr/fesvr/htif.cc:224-236 | an aligned chunk up to the maximum reads as from a flat array, from plain memory and from the hex writer |
| `Memif.Target.WriteChunk` | riscv-tools/riscv-fesvr/fesvr/htif.cc:238-255 | an aligned chunk up to the maximum changes exactly its bytes, in plain memory and in the hex writer |
| `Memif.MaskIsRemainder` | riscv-tools/riscv-fesvr/fesvr/memif.cc:43 | the mask of a power of two takes the remainder |
| `Memif.Boundaries` | riscv-tools/riscv-fesvr/fesvr/memif.cc:43-48 | the two masks give the distance from the last boundary and that boundary |
| `Memif.ReadAligned` | riscv-tools/riscv-fesvr/fesvr/memif.cc:68-70 | chunked reading of an aligned range, every chunk aligned and no longer than the maximum |
| `Memif.ReadHead` | riscv-tools/riscv-fesvr/fesvr/memif.cc:43-54 | the unaligned start, through one chunk |
| `Memif.ReadTail` | riscv-tools/riscv-fesvr/fesvr/memif.cc:56-66 | the unaligned end, through one chunk |
| `Memif.Read` | riscv-tools/riscv-fesvr/fesvr/memif.cc:40-71 | any range reads as from a flat byte array |
| `Memif.WriteOne` | riscv-tools/riscv-fesvr/fesvr/memif.cc:81-83 | read, modify and write of one chunk changes only the bytes meant |
| `Memif.WriteHead` | riscv-tools/riscv-fesvr/fesvr/memif.cc:76-88 | the unaligned start is written and nothing around it |
| `Memif.WriteTail` | riscv-tools/riscv-fesvr/fesvr/memif.cc:90-101 | the unaligned end is written and nothing around it |
| `Memif.WriteAligned` | riscv-tools/riscv-fesvr/fesvr/memif.cc:103-106 | chunked writing of an aligned range |
| `Memif.Write` | riscv-tools/riscv-fesvr/fesvr/memif.cc:73-107 | any range is written as into a flat byte array, nothing else changes |
| `Memif.RunAccesses` | riscv-tools/riscv-fesvr/fesvr/memif.cc:40-107 | any sequence of unaligned reads and writes returns and leaves what a flat byte array would and sends only chunks that satisfy the assertions, for every power-of-two alignment and every multiple of it as chunk maximum on plain memory, and for the hex writer with its one row |
| `Coroutine.ActToken` | riscv-tools/riscv-fesvr/fesvr/context.cc:67-85 | every step of the hand-off keeps exactly one holder of the right to run |
| `Coroutine.ActMutex` | riscv-tools/riscv-fesvr/fesvr/context.cc:77-83 | each mutex is held by at most the thread the code says |
| `Coroutine.ActSignal` | riscv-tools/riscv-fesvr/fesvr/context.cc:75-82 | a holder that has tested its flag and is about to wait, or waits, keeps a signal to come |
| `Coroutine.NotSignalled` | riscv-tools/riscv-fesvr/fesvr/context.cc:77-83 | nobody signals a context between its test of the flag and its wait, because the mutex excludes it |
| `Coroutine.OneRuns` | riscv-tools/riscv-fesvr/fesvr/context.cc:49-85 | in every run, spurious wake-ups included, at most one context is in user code, and a context about to wait or waiting with its flag set has a signal to come |
| `Coroutine.HandsOver` | riscv-tools/riscv-fesvr/fesvr/context.cc:77-83 | when no step of a hand-off is possible the holder is in user code, has finished or has no thread |
| `Coroutine.ActDecreases` | riscv-tools/riscv-fesvr/fesvr/context.cc:67-85 | every step of a hand-off brings its end nearer |
| `Coroutine.NoLostWakeUp` | riscv-tools/riscv-fesvr/fesvr/context.cc:25-85 | from every reachable state the hand-off under way can be finished, and then the holder is in user code, has finished or has no thread |
| `Coroutine.SwitchHandsOver` | riscv-tools/riscv-fesvr/fesvr/context.cc:67-85 | a switch from any reachable state, however its steps are taken: when none is left the other context has the flag and runs, if it has a thread, this one waits without the flag, and nobody else runs |
| `Coroutine.CreateReturns` | riscv-tools/riscv-fesvr/fesvr/context.cc:25-58 | the creation of a context likewise: when no step is left the creator has the flag and runs, and the new context waits |
| `Coroutine.HandOffEnds` | riscv-tools/riscv-fesvr/fesvr/context.cc:25-85 | from every reachable state a switch or creation can be finished |
| `Packet.MakeHeader` | riscv-tools/riscv-fesvr/fesvr/packet.h:29-39 | each field is in range and differs from its value by a multiple of the range; all are kept if and only if all fit |
| `Packet.EncodeDecodeHeader` | riscv-tools/riscv-fesvr/fesvr/packet.h:29-43 | a header survives being written as eight bytes and read back |
| `Packet.HeaderBytes` | riscv-tools/riscv-fesvr/fesvr/packet.h:29-34 | each byte of a header: command and low half of the size, rest of the size, sequence number, five bytes of address, lowest first |
| `Packet.PayloadBytes` | riscv-tools/riscv-fesvr/fesvr/packet.h:44-49 | no payload for commands 0 and 2, otherwise eight bytes for each unit of the size field, read from the bytes |
| `Packet.DecodeEncodeHeader` | riscv-tools/riscv-fesvr/fesvr/packet.h:40-43 | eight bytes survive being read as a header and written back |
| `Packet.ParseEncode` | riscv-tools/riscv-fesvr/fesvr/packet.cc:12-43 | parsing the bytes of a packet gives the packet, whatever follows |
| `Packet.WriteRequestArrives` | riscv-tools/riscv-fesvr/fesvr/htif.cc:249-252 | a write request can be made exactly for whole words below 32 KiB; the receiver reads the bytes back, and the address exactly if it is a word's and fits its field |
| `Packet.EncodeParse` | riscv-tools/riscv-fesvr/fesvr/packet.cc:12-43 | building the parsed packet gives its bytes back |
| `Packet.ParsePrefix` | riscv-tools/riscv-fesvr/fesvr/htif.cc:105-110 | the first packet depends only on the bytes it takes |
| `Packet.Link.ReadPacket` | riscv-tools/riscv-fesvr/fesvr/htif.cc:101-132 | however the transport splits the stream, the result is that of the whole stream and exactly the packet's bytes are consumed; the low half of the first byte decides: 4 is accepted, 5 refused as such, any other as illegal; failures and starvation |
| `Packet.Link.ReadPackets` | riscv-tools/riscv-fesvr/fesvr/htif.cc:101-132 | on a stream of acknowledgements the k-th read returns the k-th packet and the rest stays unconsumed |
| `Packet.WritePacket` | riscv-tools/riscv-fesvr/fesvr/htif.cc:134-143 | whatever the transport accepts at a time, the bytes sent are a prefix of the packet and all of it on success |

## Left out

- PkVmInit: memory that holds the kernel and the allocator's pages and has fewer than 2^27 pages is a precondition, and so is the start of the heap, which the loader sets.
- DoMmap: what the kernel does once a mapping has replaced its own low pages is not modelled; the new entries are.
- F64MulAdd: NaN results are the default NaN of this specialization; payloads are not modelled.
- HexWriter: an access outside the store, on which the source's assertions stop the program, is a precondition.
- IntegerRoundTrip: no claim beyond 2^53, where the conversion rounds.
- WritePacket: a transport that accepts nothing for ever is cut off after the given counts.
- Single precision, the 16-bit and 32-bit conversions, comparisons, classification and round-to-integer: the same techniques again, or finite case splits.
- Square root: its estimate is table-driven, and the remainder update of its correction loop is not the identity its comment suggests.
- Reference counts of open files, and the locks and TLB flushes of the memory manager.
- Per-page precision of protection changes: a page not yet populated changes the protection of its whole record, as in the source.
- The brk ceiling after mappings below it: only the clamping and the pages moved are stated.
- Elision of zero chunks before start-up: the flag that enables it is always false here.
- The sequence number of packets, which the reader receives and never compares.
- Instruction emulation, trap entry, timers and shutdown: control registers and assembly.
- Sockets, ELF loading, devices, terminal, option parsing, printing and the other front ends: input and output.
