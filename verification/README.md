# Verified models of the proxy kernel, its SoftFloat and its drivers

A Dafny project that models the parts of this repository whose correctness is
decided by their own arithmetic and state, and proves what they are for.
`dafny verify dfyconfig.toml` checks all of it.

**The virtual memory manager** (`PageTable`, `FlatVm`, `VmRuns`, `Entries`,
`Vm`, `DemandPaging`, `Mprotect`, `Permissions`, `Access`, `Break`, `Sv39`,
`StartUp`, `TablePages`). The class `PageTable.Table` holds the Sv39 radix tree
as an array of words and refines it to a map from page number to leaf word. The
class `Vm.VirtualMemory` holds the page table, the table of reference-counted
lazy regions, the user frames, the break and the lock, and each of its methods
is proved equal to an operation of the pure module `FlatVm`, which knows
neither tables nor counts. Over the flat meaning come the results in the
process's own terms, addresses, bytes and faults (`Access`, `Break`), and what
the processor's own walk finds in the tables (`Sv39`), and the results about
whole runs: translation agreement, exactly when demand paging is transparent,
what `mprotect` may and may not change, first fit. The methods say exactly when
the allocator runs out of table pages; `TablePages` shows that with 16 MiB of
memory it does not; and `StartUp` draws the results together for a process from
start-up through loading to any run.

**SoftFloat** (`Words`, `Rounding`, `Binary128`, `Jamming`, `RoundPack`,
`Normalize`, `Recurrence`, `Remainder`, `F128Rem`, `ExtF80Rem`, `WordArray`,
`F128MRem`, `F128MRemFull`, `Division`, `F128Div`, `ExtF80Div`, `Extended80`,
`ExtF80Full`, `Overflow`, `RoundToInt`, `F128RoundToInt`, `F128MRoundToInt`,
`ExtF80RoundToInt`, with lemmas in `Arith`). Remainder, division and
round-to-integral, of binary128 and of the 80-bit format with its unnormalised
encodings, are proved on all bit patterns against IEEE 754-2008: the definition
of the remainder, correct rounding in every mode with its exceptions, and the
integer each mode selects. A NaN result is the default NaN, as
`pk/softfloat/s_propagateNaNF128UI.c` makes it, and tininess is detected after
rounding, as `pk/softfloat/softfloat.h` fixes it. The error analysis of the
approximate-reciprocal digits is done once, in `Recurrence`, for a divisor of
any width, and used by the 128-bit, 64-bit and word-array forms.

**The flattened device tree** (`FdtTree`, `FdtScan`, `FdtFilter`, `FdtTrace`,
`FdtCompat`). The scanner runs over an array of tokens that its callbacks
delete from while it runs; it is proved against a scan of the tree the tokens
encode, and `filter_compat` against pruning.

**The ELF loader** (`ElfImage`, `ElfFits`, `ElfProgram`, `Elf`) as a client of
the memory manager, and three small components: the file table (`Files`), the
number printer and parser (`Printing`) and the SHA-256 feed (`Sha256`).

Several statements hold only under a condition, and the models keep the code as
it is and give the condition:

- `filter_compat` marks "no node" with depth 999; it prunes the compatible
  subtrees if and only if no node at that depth is met that is not compatible
  (`FdtFilter.PruneExact`).
- The SHA-256 padding is right if and only if the length is not 56 modulo 64,
  and the blocks fed are right if and only if it is at most 55 modulo 64,
  because the second block is written in the processor's byte order
  (`Sha256.PaddingExact`, `Sha256.FedRight`).
- The word form of round-to-integral clears its result before it has read all
  of its operand; in place, below one, it is right exactly on
  `F128MRoundToInt.InPlaceSafe`.
- `mprotect` on a lazy page rewrites the protection of its whole region;
  it is confined to its range exactly when `Mprotect.MprotectLocal` says.
- A lazy process can be refused a mapping that an eager one gets, when the
  region table is full, and gets one that stops the eager kernel, when the
  pages do not fit below mmap_max; demand paging is transparent to a run if and
  only if neither happens in it (`DemandPaging.TransparentExact`,
  `StartUp.StartedOverlong`).
- The bound of the address search wraps when more pages are asked for than
  there is room for below mmap_max; the search then returns a range that ends
  above it, and it is the first fit exactly when there is room
  (`FlatVm.SearchPast`, `FlatVm.SearchExact`).
- The fault handler grants stores to a page that may be written but not read,
  and the processor refuses every access to such a page; they agree on every
  other protection (`Sv39.HardwareAgrees`).
- A failed open closes the host descriptor number that the free file last had
  (`Files.FileTable.OpenAt`).

## Model

| member | source | states |
|---|---|---|
| Words.Add128 | pk/softfloat/primitives.h:478-496 | the two-word sum with its carry is the sum modulo 2^128 |
| Words.Sub128 | pk/softfloat/primitives.h:513-532 | the two-word difference with its borrow is the difference modulo 2^128 |
| Words.Le128 | pk/softfloat/primitives.h:232-243 | the word-wise comparison is the comparison of the values |
| Words.Lt128 | pk/softfloat/primitives.h:247-258 | the same for strict order |
| Words.ShortShiftLeft128 | pk/softfloat/primitives.h:262-279 | for shifts of 1 to 63 the pair of shifted words is multiplication by a power of two modulo 2^128 |
| Words.Mul128By32 | pk/softfloat/primitives.h:576-596 | the three partial products with their carry make the product modulo 2^128 |
| Words.Mul64ByShifted32To128 | pk/softfloat/primitives.h:550-565 | the exact product by a 32-bit number, 32 bits up |
| Recurrence.ApproxRecip32 | pk/softfloat/primitives.h:166-181 | the reciprocal fits 32 bits and is the floor of (2^63 - 1) / a |
| Recurrence.EstimateFrom | pk/softfloat/f128_rem.c:127-130 | the two leading words the code reads make a valid digit estimate, which stays below 2^63 |
| Recurrence.EstimateHigh | pk/softfloat/f128_rem.c:130-130 | for a divisor of any width the 64-bit estimate exceeds the true digit by less than one half |
| Recurrence.EstimateLow | pk/softfloat/f128_rem.c:130-130 | and falls short of it by less than one and a half |
| Recurrence.RoundedDigit | pk/softfloat/f128_rem.c:132-138 | a rounded 29-bit digit leaves a partial remainder above -b and below 2b, so one addition restores it |
| Recurrence.TruncatedDigit | pk/softfloat/f128_rem.c:144-151 | the truncated last digit of any length leaves a remainder above -b/2 and below 5b/2 |
| Rounding.RoundIntMeets | pk/softfloat/s_roundPackToF128.c:61-69 | the increment rule gives, in each of the five modes, the integer sections 4.3.1 and 4.3.2 of IEEE 754-2008 ask for |
| Binary128.RoundF128Meets | pk/softfloat/s_roundPackToF128.c:44-170 | what correctly rounded means: the selected multiple of the grid spacing, on the finest grid with at most 113 bits, subnormals included |
| Binary128.TinyMeets | pk/softfloat/softfloat.h:58-64 | tininess after rounding: the value rounded to 113 bits as though exponents had no lower limit is below the least normal one |
| Binary128.RoundF128Exact | pk/softfloat/s_roundPackToF128.c:44-170 | a value with at most 113 significant bits in range is kept, with no flag |
| Overflow.OverflowMeets | pk/softfloat/s_roundPackToF128.c:106-133 | in each mode, from which value on the result overflows, from which on it is infinity, and that any other overflowing result is the largest finite number (section 7.4 of IEEE 754-2008) |
| Overflow.LargestFinite | pk/softfloat/s_roundPackToF128.c:127-131 | that number is at least as large as every finite one |
| Overflow.InexactMeets | pk/softfloat/s_roundPackToF128.c:86-100 | without overflow inexact means that the value is not the exact one, and underflow that it is tiny as well |
| Overflow.Classes | pk/softfloat/specialize.h:260-260 | by magnitude: infinity, the quiet and the signaling NaNs above it, the finite numbers below, and zeros as the operands of value 0 |
| Overflow.Specials | pk/softfloat/f128_div.c:176-196 | what is returned as infinity, zero or default NaN is an infinity, a zero with that sign, a quiet NaN, and the invalid flag stands alone |
| Jamming.ShiftRightJamIs | pk/softfloat/s_shiftRightJam128Extra.c:44-74 | for every distance the shifted pair is the floor, and the extra word stands exactly where the discarded part does relative to one half |
| RoundPack.RoundPackToF128 | pk/softfloat/s_roundPackToF128.c:44-170 | if significand and extra word represent n/d, the packed bits, inexact, overflow and underflow are those of n/d * 2^exp correctly rounded, normal, subnormal and overflowing |
| RoundPack.PackSubnormal | pk/softfloat/s_roundPackToF128.c:73-105 | the branch for negative exponents rounds once although it shifts first, and raises underflow exactly when the result is tiny and inexact |
| RoundPack.TinyIff | pk/softfloat/s_roundPackToF128.c:76-86 | the test on the significand before the shift is true exactly when the value is tiny after rounding |
| RoundPack.OverflowIff | pk/softfloat/s_roundPackToF128.c:106-116 | the overflow test on the unrounded significand is true exactly when the rounded bits reach infinity |
| Normalize.CountLeadingZeros64 | pk/softfloat/primitives.h:155-160 | the shift that puts the leading one at the top, 64 for zero |
| Normalize.NormSubnormalF128Sig | pk/softfloat/s_normSubnormalF128Sig.c:42-64 | the significand is scaled to 113 bits by the power of two the exponent records, in each of its three shift cases |
| Normalize.NormRoundPackToF128 | pk/softfloat/s_normRoundPackToF128.c:43-80 | for every 128-bit significand the bits are sig * 2^exp correctly rounded, whichever way it shifts |
| Remainder.IeeeRemMeets | pk/softfloat/f128_rem.c:155-167 | the specification: x less n times y, n nearest to x/y and even on a tie |
| Remainder.RemainderUnique | pk/softfloat/f128_rem.c:155-167 | that definition of section 5.3.1 of IEEE 754-2008 has exactly one solution |
| Remainder.F128RemStep | pk/softfloat/f128_rem.c:132-138 | one round modulo 2^128 is exact: rem * 2^29 less an integer multiple of the divisor, below twice the divisor again |
| Remainder.F128RemLast | pk/softfloat/f128_rem.c:141-167 | from any loop exit the short digit and the selection end with the IEEE remainder |
| Remainder.SelectRem | pk/softfloat/f128_rem.c:155-167 | the subtraction loop ends and, with the selection, gives the IEEE remainder |
| Remainder.ChooseRem | pk/softfloat/f128_rem.c:160-167 | the sign of the mean and the parity of q choose the nearest candidate, even on a tie |
| Remainder.F128RemDigits | pk/softfloat/f128_rem.c:126-167 | for every exponent difference of at least 1 the digit loop computes the IEEE remainder of sigA * 2^expDiff by sigB |
| Remainder.F128RemSig | pk/softfloat/f128_rem.c:110-167 | the same for differences 0 and -1, the latter with the divisor doubled |
| F128Rem.ExactBits | pk/softfloat/f128_rem.c:168-173 | packing the magnitude of a remainder never rounds and never overflows |
| F128Rem.PackRemainder | pk/softfloat/f128_rem.c:168-173 | the sign flips exactly for a negative remainder, and the packed magnitude is exact |
| F128Rem.F128Rem | pk/softfloat/f128_rem.c:67-187 | on all bit patterns: NaN and invalid cases, an infinite divisor, and otherwise the value is exactly the IEEE remainder of the operand values, zero with the sign of a, and no flag is raised |
| ExtF80Rem.F80RemStep | pk/softfloat/extF80_rem.c:146-154 | one round of the 64-bit form is exact and bounded |
| ExtF80Rem.F80RemSig | pk/softfloat/extF80_rem.c:123-187 | for all normalised significands and every difference from -1 up, the loop and selection end with the IEEE remainder, 32 bits up |
| WordArray.AddM | pk/softfloat/s_addM.c:44-67 | the word loop adds modulo 2^128, also when the result is an operand |
| WordArray.SubM | pk/softfloat/s_subM.c:44-67 | the word loop subtracts modulo 2^128, also in place |
| WordArray.NegXM | pk/softfloat/s_negXM.c:43-60 | negation in place modulo 2^128 |
| WordArray.RemStepMBy32 | pk/softfloat/s_remStepMBy32.c:44-83 | shift, multiply and subtract in one pass over the words, exact modulo 2^128, also in place |
| F128MRem.LessEqual | pk/softfloat/s_compare128M.c:43-59 | comparing words from the top is comparing values |
| F128MRem.LastSharp | pk/softfloat/f128M_rem.c:130-136 | the last partial remainder stays below 2^127 although the divisor has 126 bits, so its sign word is right |
| F128MRem.RemDigitM | pk/softfloat/f128M_rem.c:120-124 | one round on word arrays is exact and bounded |
| F128MRem.SelectRemM | pk/softfloat/f128M_rem.c:140-147 | the loop over swapped buffers ends with the two candidates in the two buffers |
| F128MRem.ChooseRemM | pk/softfloat/f128M_rem.c:148-161 | the chosen buffer holds the magnitude of the IEEE remainder, and the sign is flipped exactly when it is negative |
| F128MRem.F128MRemSig | pk/softfloat/f128M_rem.c:99-161 | the word-array form, for every difference from -1 up, ends with the IEEE remainder in one of its buffers |
| F128MRem.FormsScale | pk/softfloat/f128M_rem.c:91-94 | with significands 13 bits further up its remainder is that of the 64-bit form, 13 bits further up |
| F128MRemFull.ShortShiftLeftM | pk/softfloat/s_shortShiftLeftM.c:43-67 | each word is the low bits of its own and the high bits of the one below, over any number of words |
| F128MRemFull.ShiftLeftM | pk/softfloat/s_shiftLeftM.c:45-88 | any distance from 1 to 127 is multiplication by a power of two modulo 2^128, by whole words and within words |
| F128MRemFull.ShiftNormSig | pk/softfloat/s_shiftNormSigF128M.c:41-77 | -128 exactly for zeros; otherwise exponent and significand of the operand, normal or subnormal, 13 bits up |
| F128MRemFull.FarBelowIs | pk/softfloat/f128M_rem.c:88-88 | the early return, decided by the exponent fields alone, is right for subnormals too |
| F128MRemFull.PackM | pk/softfloat/f128M_rem.c:162-164 | the magnitude 13 bits up is packed exactly, with no flag |
| F128MRemFull.Remainder128M | pk/softfloat/f128M_rem.c:56-179 | the word-array operation on all bit patterns, the result possibly in place: what f128_rem promises |
| F128MRemFull.OneRemainder | pk/softfloat/f128_rem.c:67-187 | remainder and sign of zero determine the bits |
| F128MRemFull.RemFormsAgree | pk/softfloat/f128M_rem.c:46-179 | the word form and the 64-bit form give the same bits and flags on every pair of operands |
| Division.OutsideWindow | pk/softfloat/f128_div.c:147-147 | an uncorrected last digit outside the window lies in the same open half-ulp cell as the exact quotient |
| Division.InsideWindow | pk/softfloat/f128_div.c:148-158 | inside it the floor with a sticky bit is on a boundary only when the quotient is |
| Division.StickyRepresents | pk/softfloat/f128_div.c:162-168 | such a digit splits into a significand and an extra word that stand for the exact quotient |
| Division.DivStep | pk/softfloat/f128_div.c:132-143 | one round gives a true 29-bit digit and the exact partial remainder |
| Division.CorrectDigit | pk/softfloat/f128_div.c:148-157 | one correction in either direction gives quotient and remainder of the exact division |
| Division.F128DivSig | pk/softfloat/f128_div.c:124-168 | three digits and a last one assemble into a significand and extra word that represent the exact quotient |
| F128Div.F128Div | pk/softfloat/f128_div.c:72-196 | on all bit patterns: NaN, invalid, infinity, division by zero and zero cases, and otherwise the exact quotient correctly rounded with inexact, overflow and underflow |
| ExtF80Div.DivStep80 | pk/softfloat/extF80_div.c:136-147 | one round of the 64-bit form, with its one-sided correction |
| ExtF80Div.LastDigitOf80 | pk/softfloat/extF80_div.c:151-164 | after the window test the last digit is on the right side of every half-ulp boundary |
| ExtF80Div.F80DivSig | pk/softfloat/extF80_div.c:125-168 | the significand and extra word handed to rounding represent the exact quotient, for all normalised significands |
| Extended80.RoundF80Meets | pk/softfloat/s_roundPackToExtF80.c:144-253 | what correctly rounded means with a 64-bit significand: the selected multiple of the grid spacing, on the finest grid with at most 64 bits, subnormals included |
| Extended80.Jam64As128 | pk/softfloat/s_shiftRightJam64Extra.c:44-59 | for every distance the shifted word and its extra word are those of the 128-bit shift |
| Extended80.RoundPack80 | pk/softfloat/s_roundPackToExtF80.c:144-253 | if significand and extra word represent n/d, the encoding, inexact, overflow and underflow are those of n/d * 2^(exp-1) correctly rounded, normal, subnormal and overflowing |
| Extended80.TinyIff80 | pk/softfloat/s_roundPackToExtF80.c:158-163 | the test before the shift is true exactly when the value is tiny after rounding |
| Overflow.OverflowMeets80 | pk/softfloat/s_roundPackToExtF80.c:203-226 | the same exact overflow conditions and results for 64-bit significands |
| Overflow.InexactMeets80 | pk/softfloat/s_roundPackToExtF80.c:170-173 | inexact and underflow in values |
| Overflow.TinyMeets80 | pk/softfloat/softfloat.h:58-64 | tininess after rounding to 64 bits as though exponents had no lower limit |
| Overflow.Classes80 | pk/softfloat/specialize.h:195-195 | infinities and NaNs whatever the integer bit, and which NaNs are signaling |
| Overflow.Specials80 | pk/softfloat/specialize.h:186-187 | what is returned as infinity, zero or default NaN is one |
| Extended80.NormRoundPack80 | pk/softfloat/s_normRoundPackToExtF80.c:43-70 | the same for a significand that need not be normalised, whichever word its leading bit is in |
| ExtF80Full.NormalOperand80 | pk/softfloat/extF80_rem.c:104-120 | any finite nonzero encoding, denormal or unnormal too, is its value with a normalised significand |
| ExtF80Full.Canonical80 | pk/softfloat/extF80_rem.c:212-218 | the operand that is returned keeps sign and value, in canonical form |
| ExtF80Full.ExactBits80 | pk/softfloat/extF80_rem.c:193-195 | packing the magnitude of a remainder never rounds and never overflows |
| ExtF80Full.PackRemainder80 | pk/softfloat/extF80_rem.c:188-195 | the sign flips exactly for a negative remainder, and the packed magnitude is exact |
| ExtF80Full.F80Rem | pk/softfloat/extF80_rem.c:71-222 | on all 80-bit patterns: NaN and invalid cases, an infinite divisor, and otherwise the value is exactly the IEEE remainder of the operand values, zero with the sign of a, and no flag is raised; an infinite divisor without its integer bit counts as zero |
| ExtF80Full.F80Div | pk/softfloat/extF80_div.c:76-200 | on all 80-bit patterns: NaN, invalid, infinity, division by zero and zero cases, and otherwise the exact quotient correctly rounded to 64 bits with inexact, overflow and underflow |
| RoundToInt.RoundedMeans | pk/softfloat/f128_roundToInt.c:64-166 | rounding the bit pattern, exponent field included, yields the integer value section 5.9 of IEEE 754-2008 asks for, and changes the bits exactly when the value was not integral |
| RoundToInt.MaskedIs | pk/softfloat/f128_roundToInt.c:137-155 | the add-and-mask idiom with a sticky low word is integer rounding in every mode |
| F128RoundToInt.RoundLow | pk/softfloat/f128_roundToInt.c:76-106 | the point in the low word or just above it, where the bit to add is the top bit of the low word |
| F128RoundToInt.RoundHigh | pk/softfloat/f128_roundToInt.c:137-156 | the point in the high word, the low word being sticky |
| F128RoundToInt.RoundSmall | pk/softfloat/f128_roundToInt.c:110-134 | magnitudes below one, zeros included |
| F128RoundToInt.F128RoundToInt | pk/softfloat/f128_roundToInt.c:58-169 | all bit patterns: NaN, infinity, and for finite operands the rounded bits and inexact exactly when asked for and the bits change |
| F128RoundToInt.RoundedToMeans | pk/softfloat/f128_roundToInt.c:58-169 | the result in values: the integer the mode selects, with the sign of the operand |
| F128MRoundToInt.SkipWords | pk/softfloat/f128M_roundToInt.c:151-161 | the search loop stops at the word with the point, having cleared the lower words and remembered whether one was not zero |
| F128MRoundToInt.RoundNearWord | pk/softfloat/f128M_roundToInt.c:162-184 | nearest modes on the word, with its carry out, also where the bit shifts out to 0 |
| F128MRoundToInt.RoundDirectedWord | pk/softfloat/f128M_roundToInt.c:185-206 | directed modes on the word |
| F128MRoundToInt.PropagateCarry | pk/softfloat/f128M_roundToInt.c:207-213 | the carry loop completes the sum over the upper words |
| F128MRoundToInt.RoundWords | pk/softfloat/f128M_roundToInt.c:144-214 | the word loop rounds the whole pattern to a multiple of 2^k and raises inexact exactly when bits are lost |
| F128MRoundToInt.F128MRoundToInt | pk/softfloat/f128M_roundToInt.c:61-220 | all bit patterns, in place or not: the rounding of the operand as the code reads it |
| F128MRoundToInt.InPlaceExact | pk/softfloat/f128M_roundToInt.c:93-101 | in place and below one, the low words are read after they are cleared; the result is right if and only if InPlaceSafe |
| F128MRoundToInt.OneRounding | pk/softfloat/f128_roundToInt.c:58-169 | a finite operand has one correct result, bits and flag |
| F128MRoundToInt.FormsAgree | pk/softfloat/f128M_roundToInt.c:46-220 | run on the same words, the word form and the 64-bit form agree on bits and flags for every bit pattern, mode and `exact` if and only if it is not in place, or not below one, or InPlaceSafe |
| ExtF80RoundToInt.RoundMiddle80 | pk/softfloat/extF80_roundToInt.c:121-147 | the middle exponents, where the significand may overflow into the exponent |
| ExtF80RoundToInt.RoundSmall80 | pk/softfloat/extF80_roundToInt.c:94-120 | magnitudes below one, also given denormal or unnormal |
| ExtF80RoundToInt.ExtF80RoundToInt | pk/softfloat/extF80_roundToInt.c:60-151 | all 80-bit patterns: NaN, infinity, and for finite ones, normalised or not, the integer the mode selects with the right inexact flag |
| PageTable.PtIdxFields | pk/pk/mmap.c:89-93 | the shifted and masked index at each level is a digit of the page number base 512 |
| PageTable.PtdRoundTrip | pk/pk/mmap.c:79-82 | a directory entry points back at its page, and a zero word is invalid |
| PageTable.Table.PageAlloc | pk/pk/mmap.c:32-38 | a fresh zeroed page, all older pages untouched; it halts exactly when no page is left |
| PageTable.Table.Descend | pk/pk/mmap.c:103-113 | the walk ends at the leaf slot of the page, or at the first missing entry on the way, whichever the tree holds |
| PageTable.Table.Walk | pk/pk/mmap.c:115-118 | it returns null only for pages with no entry |
| PageTable.Table.LinkTable | pk/pk/mmap.c:97-100 | linking a fresh page keeps the tree and leaves one level less to create |
| PageTable.Table.WalkCreate | pk/pk/mmap.c:97-123 | the mutual recursion ends by the number of missing levels, keeps every entry and returns the slot of the page; it halts exactly when fewer pages are left than tables are missing |
| PageTable.GrowTwice | pk/pk/mmap.c:97-123 | walks to many pages take one page for each table missing at the start, in any order, and more pages never take less |
| PageTable.Table.SlotsDistinct | pk/pk/mmap.c:103-113 | two pages never share a leaf slot |
| PageTable.Table.Store | pk/pk/mmap.c:187-187 | storing through a slot changes exactly that page's entry in the flat map |
| Entries.EntryBits | pk/pk/mmap.c:148-157 | a valid entry is read back bit by bit: frame and all permissions |
| Entries.EncodeKinds | pk/pk/mmap.c:182-187 | free, lazy and valid words are told apart, and a lazy word gives back its region |
| FlatVm.FirstFit | pk/pk/mmap.c:131-146 | the specification of the search is the least page-aligned start of n free pages ending by mmap_max, 0 only if there is none |
| FlatVm.SkipBlocked | pk/pk/mmap.c:138-142 | resuming after the page that blocked a window misses no candidate |
| FlatVm.SearchFits | pk/pk/mmap.c:133-134 | with room for the pages below mmap_max the search with its 64-bit bound is the first fit |
| FlatVm.SearchPast | pk/pk/mmap.c:133-134 | without it nothing fits, but the wrapped bound admits the first free window, which ends above mmap_max |
| FlatVm.Searched | pk/pk/mmap.c:131-146 | what the search returns is a free window, below mmap_max when the pages fit there and ending above it when they do not |
| FlatVm.LowInSpace | pk/pk/mmap.c:131-146 | while no page above the kernel is in use, every request that fits between the kernel and the end of the 39-bit space is answered before the search comes to its last page |
| FlatVm.SearchExact | pk/pk/mmap.c:133-145 | so with a nonzero break the search is the first fit if and only if the pages asked for fit below mmap_max |
| FlatVm.MmapAddr | pk/pk/mmap.c:238-248 | a fixed mapping fails exactly on a bad range or when every region is in use |
| FlatVm.FillingNext | pk/pk/mmap.c:261-263 | faulting in the next page of a fresh mapping that starts below mmap_max cannot fail its kassert |
| Vm.VirtualMemory.VaAvail | pk/pk/mmap.c:125-129 | a page is available exactly when the flat map has no entry for it |
| Vm.VirtualMemory.VmAlloc | pk/pk/mmap.c:131-146 | the nested loops, with their wrapping bound, end with what the search looks for, which is the first fit when there is room |
| Vm.VirtualMemory.EnsureVmrs | pk/pk/mmap.c:43-52 | the region table exists afterwards, unless it needed the page that was not left, and the lock is never taken by a hart that holds it |
| Vm.VirtualMemory.VmrAlloc | pk/pk/mmap.c:40-68 | the slot is the first that no entry refers to, null exactly when there is none, and nothing else visible changes |
| Vm.VirtualMemory.VmrDecref | pk/pk/mmap.c:70-77 | one count goes down, without wrapping |
| Vm.VirtualMemory.PageFault | pk/pk/mmap.c:173-209 | a lazy page becomes a zeroed frame at its fixed offset under its region's protection, and the verdict is the permission test on the new entry |
| Vm.VirtualMemory.HandlePageFault | pk/pk/mmap.c:211-217 | the same under the lock, keeping the invariant |
| Vm.VirtualMemory.Unmap | pk/pk/mmap.c:219-233 | exactly the pages of the range lose their entries, and counts follow |
| Vm.VirtualMemory.ReservePages | pk/pk/mmap.c:250-259 | every page of the range, and no other, ends as a lazy reference, replaced entries being released; it halts exactly when table pages are lacking |
| Vm.VirtualMemory.Mmap | pk/pk/mmap.c:235-266 | fixed and searched, lazy, populated or eager, past mmap_max too: the state and result are those of the flat operation; the kassert fails exactly when pages past user memory are to be faulted in, and otherwise it returns if and only if the allocator has the table pages the range lacks |
| Vm.VirtualMemory.DoMunmap | pk/pk/mmap.c:268-278 | error cases, lock and new state |
| Vm.VirtualMemory.DoMmap | pk/pk/mmap.c:280-298 | error cases, lock, the lowered brk_max and the new state, and exactly when it returns |
| Vm.VirtualMemory.Brk | pk/pk/mmap.c:300-328 | growth, shrinking and clamping between brk_min and brk_max; it returns if and only if the growth can be mapped and the table pages are there |
| Vm.VirtualMemory.ProtectPage | pk/pk/mmap.c:344-368 | one page: missing, denied or changed, the entry being rebuilt with its frame |
| Vm.VirtualMemory.Mprotect | pk/pk/mmap.c:335-374 | the whole loop, stopping at the first page that is missing or denied |
| Vm.NoWrap | pk/pk/mmap.c:342-342 | the running address of a loop over mapped pages never wraps |
| Vm.VirtualMemory.MapKernelRange | pk/pk/mmap.c:376-386 | exactly the pages of the range are mapped at the offset with kernel permissions |
| Vm.PkVmInit | pk/pk/mmap.c:400-427 | start-up ends in exactly one state, kernel range and stack, with exactly their tables, that satisfies the invariant, and succeeds if and only if the stack fits at a page end and the allocator has the table pages |
| StartUp.StartUpFits | pk/pk/mmap.c:403-425 | with a kernel image of at most 504 pages it has them, for every memory size |
| StartUp.Layout | pk/pk/mmap.c:400-419 | how memory is laid out, each size as the least or greatest with its property: pages for the allocator, user memory with a frame for every byte, the stack |
| StartUp.Started | pk/pk/mmap.c:400-427 | once started, lazily as always, the kernel looks the same whether or not the option then turns demand paging off; the eager one has a region to spare, and each grants the stack and nothing else |
| StartUp.StartedSees | pk/pk/mmap.c:411-420 | page by page: the kernel range mapped to itself without user access, the stack below mmap_max, fresh, and nothing else |
| StartUp.StackAccess | pk/pk/mmap.c:418-420 | the stack reads as zeros and can be written and executed from the start |
| StartUp.StartedTransparent | pk/pk/mmap.c:131-328 | from start-up a run has the outcomes of the eager kernel if and only if every mapping it makes finds a region free and, unless it is filled at once, fits in user memory |
| StartUp.StartedSized | pk/pk/mmap.c:131-328 | so it has them for at most 101 requests, none larger than user memory |
| StartUp.StartedOverlong | pk/pk/mmap.c:261-263 | but not for one request of a page more than user memory: the lazy kernel returns an address, the eager one stops at its kassert |
| StartUp.StartedGranted | pk/pk/mmap.c:173-374 | from start-up every store or fetch that goes through was granted by the stack or a later mmap or brk |
| StartUp.StartedTranslates | pk/pk/mmap.c:173-201 | from start-up translation is the fixed offset within memory, after any run |
| StartUp.ProgramLoads | pk/pk/elf.c:86-112 | after start-up a program of at most 100 headers loads if and only if its segments end below mmap_max, in the lazy kernel as in the eager one, and then looks the same |
| StartUp.ProcessTransparent | pk/pk/elf.c:86-112 | a process cannot tell the lazy kernel from the eager one, from start-up through loading to any such run, if and only if the run is plain in that sense |
| StartUp.ProcessSized | pk/pk/elf.c:86-112 | in particular when headers and requests together are at most 101 and no request is larger than user memory |
| TablePages.WalksUser | pk/pk/mmap.c:97-123 | an operation without an oversized request completes walks to pages of user memory only |
| TablePages.RunWithin | pk/pk/mmap.c:97-123 | so a run takes no more table pages than mapping all user pages would |
| TablePages.AllUserPages | pk/pk/mmap.c:403-411 | with 16 MiB of memory and a kernel image of at most 504 pages that many are set aside |
| TablePages.NeverExhausted | pk/pk/mmap.c:32-38 | then from start-up, through loading a program that fits, to any run without oversized requests, the allocator never lacks a page |
| Vm.VirtualMemory.RefcountConserved | pk/pk/mmap.c:40-77 | between operations every region's count is the number of non-valid leaf entries that hold its address |
| Sv39.WalkIs | pk/pk/mmap.c:103-113 | walking the words in memory as the processor does, from the root, by the 9-bit fields of the address and the page numbers in the entries, comes to the leaf word of the page, or to nothing for a page without one |
| Sv39.HardwareWalk | pk/pk/mmap.c:148-157 | for every address below 2^39: the frame and each permission bit of a resident page, and a refusal for free and lazy pages and for those that may be written but not read |
| Sv39.HardwareAgrees | pk/pk/mmap.c:203-208 | under a protection the processor allows what the fault handler grants, except that it allows nothing when the protection is to write without reading |
| Access.FaultExact | pk/pk/mmap.c:203-208 | the verdict field by field: the page has an entry, starts below mmap_max and shows u and r, a for reading, w, d for writing, x, a for execution |
| Access.ProtBits | pk/pk/mmap.c:148-157 | the protections are the three low bits |
| Access.GrantExact | pk/pk/mmap.c:148-157 | a page under a protection permits exactly the kinds of access in it |
| Access.LoadSees | pk/pk/mmap.c:173-209 | a load gives the byte seen there, or faults |
| Access.StoreLoad | pk/pk/mmap.c:173-209 | after a store that goes through, a load gives the byte stored there and elsewhere what it gave before |
| Access.MapSees | pk/pk/mmap.c:280-298 | an mmap that returns an address makes the pages that meet its range fresh and leaves every other as it was |
| Access.MapAccess | pk/pk/mmap.c:235-266 | then each byte of the range reads as 0, and loads, fetches and stores go through if and only if the protection says so, lazy or eager |
| Access.FixedExact | pk/pk/mmap.c:238-248 | a fixed request is refused exactly for an address that is no page start, an end above mmap_max, or no free region |
| Access.SearchedPlace | pk/pk/mmap.c:131-146 | a searched one that fits in user memory goes to the least free place from the break up |
| Access.SearchedExact | pk/pk/mmap.c:131-146 | and is refused exactly when no such place or no region is free |
| Access.InvalidExact | pk/pk/mmap.c:282-283 | requests that are not private, empty or at an uneven offset, and only those, give -EINVAL; no refused request changes anything |
| Access.MunmapExact | pk/pk/mmap.c:268-278 | munmap takes away exactly the pages that meet its range, or gives -EINVAL and changes nothing |
| Access.MunmapAccess | pk/pk/mmap.c:219-233 | after it the range faults |
| Access.ProtectAccess | pk/pk/mmap.c:335-374 | after a successful mprotect accesses to its range go through exactly as its protection says |
| Access.ProtectFresh | pk/pk/mmap.c:350-367 | what mprotect may ask of pages freshly mapped: a subset of the bits when they are lazy; when they are filled, the kinds of access of the mapping, and to read one that allows neither writing nor execution |
| Access.ProtectFails | pk/pk/mmap.c:345-367 | a failing mprotect returns -ENOMEM or -EACCES as the first bad page is missing or denied, and has changed the pages before it |
| Break.BrkExact | pk/pk/mmap.c:300-318 | the break goes to the allowed address nearest to the one asked for, which is that one if it is allowed, and stands at the next page end; the kassert fails exactly when the growth does not fit below mmap_max or no region is free |
| Break.BrkSees | pk/pk/mmap.c:312-316 | the pages between the old and the new break are fresh under all permissions when it grows and without entry when it shrinks; every other page is seen as before |
| Break.HeapAccess | pk/pk/mmap.c:315-315 | the new part of the heap reads as zeros and can be written and executed |
| Break.MappingKept | pk/pk/mmap.c:291-292 | what lowering brk_max is for: no later move of the break, after any run, changes a page of a mapping made above the break, or above that |
| Vm.VirtualMemory.LoadByte | pk/pk/mmap.c:173-217 | a user read or fetch, faulting when its entry does not allow it, gives the outcome of the flat step |
| Vm.VirtualMemory.StoreByte | pk/pk/mmap.c:173-217 | a user write likewise, changing one byte of one frame |
| VmRuns.StepInv | pk/pk/mmap.c:173-374 | every operation and access keeps the invariant, mappings past user memory included |
| VmRuns.StepConstants | pk/pk/mmap.c:400-427 | none changes what start-up fixed |
| VmRuns.TranslationAgrees | pk/pk/mmap.c:173-201 | after any run valid user pages translate by the fixed offset, frames are distinct and lie between the kernel's pages and the end of memory, and the kernel range is unchanged |
| DemandPaging.MappingSees | pk/pk/mmap.c:246-263 | reserved or filled, a mapping shows zeros under its protection and changes no other page |
| DemandPaging.FaultSees | pk/pk/mmap.c:173-209 | the verdict of a fault depends only on what the process sees |
| DemandPaging.StepSame | pk/pk/mmap.c:173-328 | one operation other than mprotect, from states that look alike, gives the same outcome and states that look alike, if its mapping finds a region and fits or is filled at once |
| DemandPaging.StepDiffers | pk/pk/mmap.c:246-263 | otherwise the outcomes differ: without a region the lazy kernel alone is refused; past user memory it returns the searched address and the eager one stops |
| DemandPaging.StepExact | pk/pk/mmap.c:173-328 | so an operation other than mprotect has the same outcome in a lazy and an eager kernel if and only if that condition holds |
| DemandPaging.Transparent | pk/pk/mmap.c:131-328 | any run from such states that meets it in both gives the same results, bytes and faults, whichever pages are resident |
| DemandPaging.TransparentExact | pk/pk/mmap.c:131-328 | a lazy run shows the outcomes of an eager one from a state that looks alike if and only if each of its operations meets the condition where it comes |
| DemandPaging.FewRequests | pk/pk/mmap.c:54-67 | it does when there is a region for each request and no request is larger than user memory |
| DemandPaging.EagerSized | pk/pk/mmap.c:261-263 | an eager run does whenever no request is larger than user memory, however many there are |
| DemandPaging.EagerFollowed | pk/pk/mmap.c:131-146 | and requests that fit above the kernel never take its searches to the end of the 39-bit space |
| Mprotect.ProtectsRange | pk/pk/mmap.c:342-369 | the loop succeeds if and only if every page of the range is present and allows the protection in the first state |
| Mprotect.MprotectSees | pk/pk/mmap.c:335-374 | on success exactly the pages of the range and the lazy pages of regions with a lazy page there get the protection, keeping address and bytes |
| Mprotect.MprotectLocal | pk/pk/mmap.c:350-357 | it is confined to its range if and only if no lazy page outside belongs to such a region, unless the protection means the same there |
| Mprotect.MprotectShows | pk/pk/mmap.c:350-357 | so mprotect tells lazy from resident pages, which is why transparency leaves it out |
| Permissions.MprotectBounded | pk/pk/mmap.c:335-374 | mprotect, also one that fails half way, never gives a page a write or execute permission its mapping was not granted |
| Permissions.StepBounded | pk/pk/mmap.c:173-374 | neither does any other operation, slot reuse included |
| Permissions.RunBounded | pk/pk/mmap.c:173-374 | nor any run |
| Permissions.AccessWasGranted | pk/pk/mmap.c:199-208 | a store or fetch that goes through after a run was granted by the mmap or brk that made the current mapping |
| ElfImage.GetProtBits | pk/pk/elf.c:17-24 | each protection bit comes from its own flag |
| ElfImage.ProtectFrom | pk/pk/elf.c:104-106 | taking back the write permission the copy needed always succeeds on every page |
| ElfImage.SegmentSees | pk/pk/elf.c:90-111 | one segment: its pages read as padding, file bytes and zeros under its own protection, every other page is as before |
| ElfImage.LoadedPage | pk/pk/elf.c:86-112 | for any program, overlapping or not: a page belongs to the first header that covers it, and pages of no segment are untouched |
| ElfImage.LoadedImage | pk/pk/elf.c:86-112 | with disjoint page ranges every segment is in memory whole |
| ElfImage.LoadedByte | pk/pk/elf.c:86-112 | by address: byte k of a segment is its file byte, or 0 from filesz to memsz |
| Elf.BrkIsMaximum | pk/pk/elf.c:92-94 | brk_min ends as the greatest segment end, or what it was |
| Elf.CopyOut | pk/pk/elf.c:102-103 | the copy changes exactly the bytes of its range in the frames |
| Elf.LoadText | pk/pk/elf.c:98-106 | map, copy, clear the padding and protect, or panic |
| Elf.LoadSegment | pk/pk/elf.c:90-111 | the same with the zero pages after the file bytes |
| ElfFits.TextFits | pk/pk/elf.c:98-106 | the part with file bytes loads if and only if it ends below mmap_max and a region is free, which it gives back |
| ElfFits.SegmentFits | pk/pk/elf.c:90-111 | with a region to spare a segment loads if and only if its mappings end below mmap_max |
| ElfFits.LoadFits | pk/pk/elf.c:86-112 | with a region to spare for each header the program loads if and only if every segment fits and none asks for a dynamic linker |
| ElfFits.LoadAlike | pk/pk/elf.c:86-112 | loading a program into states that look alike gives states that look alike |
| ElfFits.LoadLow | pk/pk/elf.c:86-112 | loading maps no page above the kernel |
| ElfProgram.ProgramByte | pk/pk/elf.c:86-112 | when no two segments share a page, each byte of each segment is loaded from the file or 0, and loads, fetches and stores go through exactly as the flags of its header say |
| ElfProgram.ProgramRest | pk/pk/elf.c:86-112 | pages that no segment has a byte on are seen as before |
| Elf.LoadElf | pk/pk/elf.c:26-119 | the loop over headers from the last to the first: panics, entry, image and brk_min; it returns if and only if the header checks pass, every segment loads and the table pages are there; a program of type 3 is found one page above the addresses in its headers, entry included, with page 0 left alone, and any other at those addresses |
| FdtTree.Decodes | pk/machine/fdt.c:46-86 | well-formed tokens with a terminator determine the tree |
| FdtTree.Reparse | pk/machine/fdt.c:46-86 | reading a block again gives back the tree |
| FdtScan.NameWords | pk/machine/fdt.c:70-71 | strlen of the name over four finds the first token after the padded name |
| FdtCompat.NameHolds | pk/machine/fdt.c:70-71 | the words of a string with its NUL are a name: the first word with a NUL byte is its last, after strlen over four others |
| FdtScan.Erase | pk/machine/fdt.c:72-73 | the deleted node is all NOP and no token after it is touched |
| FdtScan.ScanNode | pk/machine/fdt.c:63-76 | a node: its children scanned in place, then overwritten if the callback asks |
| FdtScan.ScanHelper | pk/machine/fdt.c:30-87 | for any callbacks the scanner ends one past the matching END_NODE, with the state and the tokens of the scan of the tree, touching nothing outside |
| FdtTrace.Traced | pk/machine/fdt.c:46-86 | each node gets open, its properties, exactly one done before any child opens, its children, and close, whatever is deleted on the way |
| FdtTrace.StrLen | pk/machine/fdt.c:142-142 | the length of a terminated string |
| FdtTrace.StringListIndex | pk/machine/fdt.c:134-145 | the first string equal to the one asked for, -1 exactly when none is |
| FdtCompat.Unpacked | pk/machine/fdt.c:134-145 | a value that ends in NUL is its strings packed, and the strings are read back |
| FdtCompat.BytesAre | pk/machine/fdt.c:134-145 | the bytes of a value are those of its words, the most significant first |
| FdtCompat.CompatibleExact | pk/machine/fdt.c:508-511 | a property whose words hold the strings of a list, each with its NUL, passes if and only if it is named "compatible" and the string is in the list |
| FdtCompat.CompatProperty | pk/machine/fdt.c:508-511 | strcmp and the list search decide whether the property is named "compatible" and lists the string |
| FdtCompat.HitMeans | pk/machine/fdt.c:508-514 | a node is compatible exactly when one of its own properties passes |
| FdtFilter.CompatScans | pk/machine/fdt.c:495-525 | depth and mark delete exactly the doomed nodes, and inside a doomed node nothing further |
| FdtFilter.FilterCompat | pk/machine/fdt.c:527-542 | headers that are not understood leave the block alone; otherwise it becomes the filtered tree, of the same length, in place |
| FdtFilter.PruneExact | pk/machine/fdt.c:516-525 | without its NOPs the filtered tree is the original minus its maximal compatible subtrees, if and only if the depth mark 999 is not met |
| FdtFilter.FewLevels | pk/machine/fdt.c:540-540 | trees of fewer than 999 levels never meet it |
| FdtFilter.FilterPrunes | pk/machine/fdt.c:527-542 | whatever tree the filtered words are read back as is that pruned tree |
| FdtFilter.FilteredShape | pk/machine/fdt.c:72-73 | the filtered tree is well formed, and as compatible at its root as before |
| FdtFilter.FilterTwice | pk/machine/fdt.c:527-542 | the filter is idempotent at any depth |
| FdtCompat.ReadBack | pk/machine/fdt.c:46-86 | words that lie at one place in memory are read back as one tree |
| FdtCompat.FilterCompatible | pk/machine/fdt.c:527-542 | for a string: any tree the block is read back as is the original minus the maximal subtrees whose root lists the string, if and only if the mark 999 is not met |
| Files.ReferredIsLive | pk/pk/file.c:17-33 | every file that a slot or a held handle names is live |
| Files.FileTable.GetFree | pk/pk/file.c:35-41 | the first file of count 0, so one no slot and no handle names, and null exactly when every file is in use |
| Files.FileTable.OpenAt | pk/pk/file.c:101-119 | the new file with the host's descriptor; a failed open changes no file but closes the descriptor number the free file last had |
| Files.FileTable.Init | pk/pk/file.c:70-78 | descriptors 0, 1 and 2 name files with host descriptors 0, 1 and 2, each with a handle that is kept |
| Files.FileTable.Incref | pk/pk/file.c:17-21 | one count goes up; its kassert holds for what is referred to |
| Files.FileTable.Dup | pk/pk/file.c:43-54 | the first empty slot gets the file, -1 exactly when none is empty, counts conserved |
| Files.FileTable.Dup3 | pk/pk/file.c:56-68 | the given slot if it is in range and empty, nothing otherwise |
| Files.FileTable.Get | pk/pk/file.c:80-94 | a handle on exactly the file of the slot |
| Files.FileTable.Decref | pk/pk/file.c:23-33 | the file is freed and its host descriptor closed exactly when this was the last reference |
| Files.FileTable.Close | pk/pk/file.c:121-132 | the slot is emptied and its reference dropped, the host descriptor closed exactly with the last reference, -1 and no change for an empty or bad descriptor |
| Files.PointingSet | pk/pk/file.c:47-49 | rewriting a slot moves one reference |
| Printing.FindDigits | software/syscalls.c:261-267 | the loop stores the digits of the number, last first, within its buffer |
| Printing.EnoughDigits | software/syscalls.c:258-258 | 64 digits are enough for a 64-bit number in any base |
| Printing.HexDigits | software/syscalls.c:273-273 | each digit is printed as its hexadecimal character |
| Printing.DigitsWrite | software/syscalls.c:261-267 | the digits have the number as value and no leading zero |
| Printing.DigitsUnique | software/syscalls.c:261-267 | no other digit string without a leading zero does |
| Printing.Printnum | software/syscalls.c:255-274 | padding to the width, then the digits in order |
| Printing.PrintLong | software/syscalls.c:395-431 | sign and decimal digits of any long, the least one included, whose negation wraps |
| Printing.Atol | software/syscalls.c:549-568 | the loop computes the spec of atol with 64-bit wrap-around |
| Printing.RoundTrip | software/syscalls.c:549-568 | reading back any printed long gives the number |
| Printing.AtolReads | software/syscalls.c:549-568 | any decimal digits, after spaces and at most one sign, are read as their value modulo 2^64 |
| Sha256.PaddingLength | pk/machine/sha256.c:110-131 | the padding of section 5.1.1 of FIPS 180-4 ends on a block |
| Sha256.PaddingMeans | pk/machine/sha256.c:110-131 | the padding is a one bit, fewer zero bytes than a block, and the bit length as one big-endian number |
| Sha256.ParseMeans | pk/machine/common_driver_fn.c:40-56 | two words of a block make the big-endian number of its eight bytes |
| Sha256.PaddingExact | pk/machine/sha256.c:112-124 | the bytes written are that padding if and only if the length is not 56 modulo 64 |
| Sha256.AddPadding | pk/machine/sha256.c:110-131 | exactly the padding bytes are written after the message, and counted |
| Sha256.Engine.WriteMultichar | pk/machine/common_driver_fn.c:40-56 | the accumulating loop loads the block as big-endian words, section 5.2.1 of FIPS 180-4 |
| Sha256.Engine.WriteMulti | pk/machine/common_driver_fn.c:34-38 | the word loop loads the block in the processor's byte order |
| Sha256.Engine.HashString | pk/machine/sha256.c:18-107 | the block loop feeds the blocks of the whole string, init first and next after |
| Sha256.LastWord | pk/machine/sha256.c:86-86 | a second block always comes out wrong, its length word being reversed |
| Sha256.FedRight | pk/machine/sha256.c:26-100 | the blocks fed are those of FIPS 180-4 if and only if the length is at most 55 modulo 64 |

## Left out

- Vm.VirtualMemory.VmAlloc: a search that would come to the last page of the 39-bit address space, and then round to low addresses again; `FlatVm.LowInSpace` says which requests never do. A run ends there, as `Lost`.
- Vm.VirtualMemory.Mmap: searches of that kind.
- Vm.VirtualMemory.DoMmap: the same, and anonymous memory only; mappings of files (the `file` field of a region, the host read in a fault) are not modelled.
- VmRuns.StepInv: a step has no outcome for a lack of table pages; the methods say exactly when it happens, and `TablePages.NeverExhausted` for which processes it never does.
- Vm.VirtualMemory.LoadByte: a user access is the trap, if any, followed by the access; it goes through when the handler grants it. The processor's own walk is `Sv39.HardwareWalk`, and `Sv39.HardwareAgrees` says for which protections it agrees with the handler.
- Vm.PkVmInit: the TLB, the control registers and the memory fences; memory above the kernel is a parameter.
- Vm.VirtualMemory.EnsureVmrs: the lock is a flag that may only be taken when free, on one hart; the page of region records is an array of records, 102 of them, rather than bytes.
- Region records keep protection and count; address, length and offset matter only to mappings of files.
- `populate_mapping`, `mremap` and `__valid_user_range_u`.
- RoundPack.RoundPackToF128: the mode that rounds to odd, and tininess before rounding, which the sources do not compile in.
- Recurrence.ApproxRecip32: the table-driven reciprocal that replaces the division on machines without a fast one.
- ExtF80Full.F80Div: results rounded to 53 or 24 bits, the two smaller settings of the rounding precision; the remainder always packs at full precision.
- F128MRemFull.PackM: the word form packs through five 32-bit words where the model packs the same value through two of 64 bits, and `pk/softfloat/s_propagateNaNF128M.c`, which has a stray semicolon on line 57, is read as intended.
- The rest of SoftFloat: addition, multiplication, fused multiply-add, square root, conversions, comparisons.
- FdtFilter.FilterCompat: words are taken after `bswap`; property values and names that do not end in NUL, which the code reads past.
- FdtScan.ScanHelper: the address and size cell counts kept in the node records, and the other scanners (memory, hart, clint, plic, chosen), which are clients of the same scan.
- Elf.LoadElf: it asks that the file bytes of every loaded header lie inside the file, which the code does not test; 64-bit wrap-around of segment addresses plus bias, the assertions on the ELF class and flags, the unused highest address, the reading of the file into memory, and the reading of headers as bytes; brk_min is written at the end of the loop rather than during it.
- Files.FileTable.OpenAt: the host call is its answer; concurrent runs and 32-bit wrap-around of a count.
- Sha256.Engine.HashString: polling, delays, reading the hash back, and strings of 2^28 bytes and more, whose bit count wraps.
- Printing.PrintLong: other conversions of `vprintfmt`, and its parsing of flags and widths.
- Peripheral drivers beyond the SHA-256 feed, system calls, SBI, start-up assembly, instruction emulation.
