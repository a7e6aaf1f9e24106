# Verified models of the capability platform

Models, in Dafny, of the algorithms and protocols that the Morello enclave monitor, the Proteus core and the CHERI Sail
simulator rely on, with proofs of what they are for. `dafny verify dfyconfig.toml` checks everything.

## What is modelled

**Extended-precision arithmetic (SoftFloat 3e).** `ExtF80Rem`, `ExtF80Div`, `ExtF80Sqrt`, `ExtF80RoundToInt`,
`F128MRoundToInt` and `ExtF80ToInt` follow the C code branch by branch, on 64-bit words (`Primitives`, `QuotientDigits`,
`SqrtEstimate`, `RecipSqrtTable`), up to the bits of the packed result (`ExtF80`, `RoundPack`). Values are exact integers in a
fixed small unit, and rounding is defined independently of the code (`Rounding`): nearest means no integer is nearer. Every operand is covered:
subnormals, encodings without their top bit, infinities; a NaN operand is only recognised. The build is the one with
`SOFTFLOAT_FAST_INT64`, `SOFTFLOAT_FAST_DIV64TO32` and `SOFTFLOAT_ROUND_ODD`, rounding precision 80; `F128MRoundToInt` and the
word forms of the conversions are those of a build without `SOFTFLOAT_FAST_INT64`.

**SHA-256 and its adapter.** `Sha256Spec` is FIPS 180-4: the 64-word schedule, padding, length. `Sha256Block` and
`Sha256Engine` are the C code, with its sixteen-word window, its copy-free path and its two-case padding; the engine and
`ShaAdapter` are proved against the specification, whatever the six logical functions of the standard are; `FIPS` gives them,
and `Sha256` is the instance. `Sha256Constants`, `Sha256Words` and `Sha256Equations` say that constants, functions and
definitions are those of the standard.

**The enclave instructions.** `Capability`, `EnclaveId`, `IdentityStore`, `Sweep`, `EnclaveInstructions`. A capability is a
value with tag, bounds, address, permissions and object type; the identity store is a class over its array. What an
instruction finds in memory and registers is a parameter of each call (`World`), so that `EnclaveRuns` and
`EnclaveAttestation` speak of every run in which the untrusted level may change anything between calls. The build is the one
without `DEBUG` and `BENCHMARK`, with 32 entries.

**Allocators, the reorder buffer, formatted output.** `UniqueAlloc` holds both allocators. `ReorderBuffer` is the clocked
block that the generator prints, for every number of channels and every power-of-two depth, and `ReorderBufferTraces` is about
whole traces of it. `Printf` is `_vsnprintf` with its helpers; `PrintfText` and `PrintfNumbers` say, apart from the code, how
specifications are spelled and what is written for them.

## What turned out not to hold

- `extF80_sqrt` is not always correctly rounded. When the last digit is not refined, it can be a quarter unit too low to see on
  which side of a rounding boundary the root lies. `SqrtMisses` gives an operand; `SqrtIsCorrectlyRounded` says exactly when the
  result is right, mode by mode, and `GuardFindsRoot` confines the misses to 29 of the 2^24 values of the low bits of the digit.
- `f128M_roundToInt` clears the low words of the result before it has read those of the operand. When both are the same
  object, values below 1 can be rounded wrongly and an inexact result can go unnoticed; `InPlaceAgrees` and
  `InPlaceFlagAgrees` say exactly when, `InPlaceMissesHalf` and `InPlaceMissesLeast` give values.
- The fast and the word forms of the truncating conversions differ on some non-canonical encodings. `FastTruncates` and
  `WordTruncates` say exactly which encodings each form converts correctly; `ZeroWithExponent` and `LowOne` are encodings that
  only the word forms convert, `LowMostNegative` ones that neither does.
- `EINIT_DATA` finishes the entry before it stores the seals. When the data capability cannot take them it faults, and from then
  on `ESTORE_ID` attests an enclave whose initialisation never returned (`FaultIsAttested`). What holds of every run is that a
  hash is known exactly when some call attested it (`HashKnownIff`, `StoreIdAnswersIff`).
- A code section whose length is not divisible by 4 is attested all the same, with whatever the uninitialised hash structure
  holds (`garbage`); below 16 bytes not even the tag of the sealed code matters, and an empty section makes the loop run past its end.
  From 2 GiB on the counter of the loop overflows, which C leaves undefined (`Undefined`).
  `InitDataReturnsIff` keeps the cases apart; `OddSectionIsAttested` and `UntaggedSectionIsAttested` are calls that succeed.
- Nothing compares the code with the data, so the seals can be written into the section that was just hashed.
  `SectionSurvives` says that the section is safe from that exactly when the granule of the seals is apart from it,
  `SectionSurvivesIff` which bytes decide otherwise, and `SealsOverwriteSection` gives a call that succeeds and changes the section.
- The length check of `ESTORE_ID` wraps for addresses outside the bounds and does not look at the tag: it can pass where the
  store then faults: exactly when is `StoreIdFaults`, and `StoreIdCanFault` gives destinations.
- `bounds_nonoverlap_check_twocap` takes the end of a range in 64 bits, so a capability that reaches the end of the address
  space is compared with a limit of zero, and a code or data range that ends there is guarded against nothing
  (`SoundForRegister`, `SoundForGuard`); and it rejects an empty capability inside the range it guards
  (`EmptyInsideFails`).
- The identifier counter alone would allow 256, whose object types lie outside the range (`CounterAloneOverruns`); the size of
  the table prevents it (`IssuedTypesInRange`).
- The Proteus allocator hands out ranges that overlap the remaining heap when the heap's address is aligned but not its base
  (`ProteusApartIff`; `ProteusOverlaps` is such a heap and request).
- Two packets of one cycle that use the same slot of the reorder buffer raise no error, and one is lost (`SharedSlotLoses`).
- With a large precision or zero-padded width the minus sign of a number is dropped (`SignIsKept`).
- With `#` a width that the digits just fill costs a number its first digits: `WidthCostsDigits` is an example,
  `PrefixKeepsIff` says exactly when.

## Model

| member | source | states |
|---|---|---|
| Primitives.ShortShiftLeft128 | sail/sail-cheri-riscv/sail-riscv/c_emulator/SoftFloat-3e/source/s_shortShiftLeft128.c:44-52 | Shifting the two words multiplies the 128-bit value by the power of two, whenever no bit is lost |
| Primitives.Add128 | sail/sail-cheri-riscv/sail-riscv/c_emulator/SoftFloat-3e/source/s_add128.c:44-52 | The value of the word pair is the sum of the values modulo 2^128 |
| Primitives.Sub128 | sail/sail-cheri-riscv/sail-riscv/c_emulator/SoftFloat-3e/source/s_sub128.c:44-52 | The value of the word pair is the difference of the values modulo 2^128 |
| Primitives.SubSigned | sail/sail-cheri-riscv/sail-riscv/c_emulator/SoftFloat-3e/source/s_sub128.c:44-52 | Read as two's complement, the difference is exact as long as it fits; AddSigned is its companion |
| Primitives.AddSigned | sail/sail-cheri-riscv/sail-riscv/c_emulator/SoftFloat-3e/source/s_add128.c:44-52 | Read as two's complement, the sum is exact as long as it fits |
| Primitives.Le128 | sail/sail-cheri-riscv/sail-riscv/c_emulator/SoftFloat-3e/source/s_le128.c:43-48 | The word comparison orders the 128-bit values |
| Primitives.Mul64ByShifted32To128 | sail/sail-cheri-riscv/sail-riscv/c_emulator/SoftFloat-3e/source/s_mul64ByShifted32To128.c:43-53 | The word pair is the exact product, shifted left by 32 |
| Primitives.ApproxRecip32 | sail/sail-cheri-riscv/sail-riscv/c_emulator/SoftFloat-3e/source/include/primitives.h:166-183 | The reciprocal is never above 2^63/a and less than one unit below it |
| QuotientDigits.QuotientEstimate | sail/sail-cheri-riscv/sail-riscv/c_emulator/SoftFloat-3e/source/extF80_rem.c:141-147 | The 64-bit product of leading remainder bits and reciprocal brackets the exact scaled quotient, for every remainder below twice the divisor |
| QuotientDigits.RoundedDigit | sail/sail-cheri-riscv/sail-riscv/c_emulator/SoftFloat-3e/source/extF80_rem.c:144-149 | A rounded digit leaves a remainder strictly between minus one and two divisors, so one correction suffices |
| QuotientDigits.TruncatedDigit | sail/sail-cheri-riscv/sail-riscv/c_emulator/SoftFloat-3e/source/extF80_rem.c:160-163 | The last digit, cut to any of 1 to 29 bits, leaves a remainder between -1/2 and 5/2 of the divisor |
| QuotientDigits.ShiftSubtract | sail/sail-cheri-riscv/sail-riscv/c_emulator/SoftFloat-3e/source/extF80_rem.c:147-149 | Shift, multiply and subtract on words compute r * 2^dist - q * b without overflow of the signed 128-bit range; the remainder stays a multiple of 2^32 |
| ExtF80Rem.DigitStep | sail/sail-cheri-riscv/sail-riscv/c_emulator/SoftFloat-3e/source/extF80_rem.c:146-155 | One pass of the loop keeps the remainder within twice the divisor and congruent to the shifted dividend |
| ExtF80Rem.LastDigit | sail/sail-cheri-riscv/sail-riscv/c_emulator/SoftFloat-3e/source/extF80_rem.c:157-163 | The last partial digit is exact: what is left is r * 2^(expDiff+30) - q * b, in range for the selection |
| ExtF80Rem.ReduceDigits | sail/sail-cheri-riscv/sail-riscv/c_emulator/SoftFloat-3e/source/extF80_rem.c:140-170 | For every positive exponent gap the loop ends with expDiff in -29..-1, after as many passes as that takes, and the remainder differs from the dividend by n divisors, n and q of the same parity |
| ExtF80Rem.StepBelowZero | sail/sail-cheri-riscv/sail-riscv/c_emulator/SoftFloat-3e/source/extF80_rem.c:173-179 | The subtraction loop ends just below zero, altRem just above, q counting the steps |
| ExtF80Rem.ChooseNearer | sail/sail-cheri-riscv/sail-riscv/c_emulator/SoftFloat-3e/source/extF80_rem.c:180-187 | Of the two remainders around zero the one of least magnitude is taken; on a tie the one that makes the quotient even |
| ExtF80Rem.SelectRemainder | sail/sail-cheri-riscv/sail-riscv/c_emulator/SoftFloat-3e/source/extF80_rem.c:164-187 | From any remainder that the digits can leave, the remainder of least magnitude, even quotient on a tie |
| ExtF80Rem.PackRemainder | sail/sail-cheri-riscv/sail-riscv/c_emulator/SoftFloat-3e/source/extF80_rem.c:188-195 | Negating and packing the selected remainder is exact and raises no flag, whatever the rounding mode |
| ExtF80Rem.SmallerThanHalf | sail/sail-cheri-riscv/sail-riscv/c_emulator/SoftFloat-3e/source/extF80_rem.c:123-124 | An exponent gap below -1 means that the dividend is at most half the divisor |
| ExtF80Rem.CopyIsExact | sail/sail-cheri-riscv/sail-riscv/c_emulator/SoftFloat-3e/source/extF80_rem.c:212-218 | The early return packs the canonical form of the dividend without changing its value |
| ExtF80Rem.ExtF80Rem | sail/sail-cheri-riscv/sail-riscv/c_emulator/SoftFloat-3e/source/extF80_rem.c:69-224 | The IEEE remainder for all operands, subnormals and unnormals included: a - n*b exactly, n the integer nearest to a/b with ties to even, sign of a on a zero result, no flag; NaN and invalid cases as in the standard |
| ExtF80Div.TakeDigit | sail/sail-cheri-riscv/sail-riscv/c_emulator/SoftFloat-3e/source/extF80_div.c:140-147 | The digit that enters the quotient is exact: r * 2^29 = q * d + r', r' in range |
| ExtF80Div.CollectDigits | sail/sail-cheri-riscv/sail-riscv/c_emulator/SoftFloat-3e/source/extF80_div.c:132-148 | After two passes the collected digits and the remainder satisfy the division identity, and the third estimate is at most one off |
| ExtF80Div.CorrectDigit | sail/sail-cheri-riscv/sail-riscv/c_emulator/SoftFloat-3e/source/extF80_div.c:152-162 | The refined digit leaves a remainder of at least zero and below the divisor |
| ExtF80Div.SkippedDigit | sail/sail-cheri-riscv/sail-riscv/c_emulator/SoftFloat-3e/source/extF80_div.c:151 | When the refinement is skipped the low bits of the estimate already decide every comparison that rounding makes |
| ExtF80Div.RefineDigit | sail/sail-cheri-riscv/sail-riscv/c_emulator/SoftFloat-3e/source/extF80_div.c:151-164 | Refined or not, the upper bits of the digit are exact and the lower ones order the discarded part |
| ExtF80Div.DivideSignificands | sail/sail-cheri-riscv/sail-riscv/c_emulator/SoftFloat-3e/source/extF80_div.c:132-168 | sigZ is the floor of the exact scaled quotient with its top bit set; sigZExtra compares with zero and one half as the discarded part does |
| ExtF80Div.ExtF80Div | sail/sail-cheri-riscv/sail-riscv/c_emulator/SoftFloat-3e/source/extF80_div.c:74-202 | All operands: specials, flags, and for finite non-zero ones the rounding of the exact quotient of the two values |
| ExtF80Div.QuotientIsCorrectlyRounded | sail/sail-cheri-riscv/sail-riscv/c_emulator/SoftFloat-3e/source/extF80_div.c:125-171 | The packed result is the exact quotient rounded as the mode asks, in normal and subnormal range |
| ExtF80Div.OverflowedQuotient | sail/sail-cheri-riscv/sail-riscv/c_emulator/SoftFloat-3e/source/extF80_div.c:125-171 | The quotient overflows exactly if its rounding to 64 bits exceeds the largest finite number, and then is infinity or that number as mode and sign ask |
| ExtF80Div.SpecialAnswers | sail/sail-cheri-riscv/sail-riscv/c_emulator/SoftFloat-3e/source/extF80_div.c:173-201 | The answers of the special cases are what they are called: infinity and zero with the sign, and a NaN |
| Rounding.RoundMagIsRounding | sail/sail-cheri-riscv/sail-riscv/c_emulator/SoftFloat-3e/source/s_roundPackToExtF80.c:145-151 | The increment rule meets an independent definition of each of the six modes (nearest over all integers, directed, to odd), for every rational and sign |
| Rounding.RoundingIsUnique | sail/sail-cheri-riscv/sail-riscv/c_emulator/SoftFloat-3e/source/s_roundPackToExtF80.c:145-151 | No two integers meet that definition, so it determines the result |
| Rounding.RoundMagMonotone | sail/sail-cheri-riscv/sail-riscv/c_emulator/SoftFloat-3e/source/extF80_roundToInt.c:123-147 | Rounding keeps the order of any two rationals of either sign |
| RoundPack.JamRepresents | sail/sail-cheri-riscv/sail-riscv/c_emulator/SoftFloat-3e/source/s_shiftRightJam64Extra.c:43-59 | A jamming right shift keeps floor and every comparison with zero and one half, for all distances |
| RoundPack.RoundPackToExtF80 | sail/sail-cheri-riscv/sail-riscv/c_emulator/SoftFloat-3e/source/s_roundPackToExtF80.c:144-253 | With sticky words standing for num/den, the packed result and all flags (tiny before or after rounding, overflow) are those of num/den rounded |
| RoundPack.NormRoundPackToExtF80 | sail/sail-cheri-riscv/sail-riscv/c_emulator/SoftFloat-3e/source/s_normRoundPackToExtF80.c:43-70 | Normalizing first does not change the value that is rounded |
| RoundPack.RoundedValue | sail/sail-cheri-riscv/sail-riscv/c_emulator/SoftFloat-3e/source/s_roundPackToExtF80.c:153-253 | The value of a packed finite result is the rounding of num/den at the place of its last bit, subnormals included |
| RoundPack.OverflowResult | sail/sail-cheri-riscv/sail-riscv/c_emulator/SoftFloat-3e/source/s_roundPackToExtF80.c:207-221 | On overflow: infinity with the sign to nearest and away from zero on that side, otherwise the largest finite number, as words |
| RoundPack.FitsIff | sail/sail-cheri-riscv/sail-riscv/c_emulator/SoftFloat-3e/source/s_roundPackToExtF80.c:199-222 | Overflow happens exactly if the value, rounded to 64 bits with an unbounded exponent, exceeds the largest finite number |
| RoundPack.FlagsMean | sail/sail-cheri-riscv/sail-riscv/c_emulator/SoftFloat-3e/source/s_roundPackToExtF80.c:144-253 | Overflow exactly if it does not fit, inexact exactly if what is delivered is not the exact value, underflow exactly if inexact and tiny, before or after rounding as configured; no other flag |
| RoundPack.ExactValue | sail/sail-cheri-riscv/sail-riscv/c_emulator/SoftFloat-3e/source/s_roundPackToExtF80.c:153-253 | A value that the format holds is packed unchanged, in every mode, with no flag |
| ExtF80.NormSubnormalExtF80Sig | sail/sail-cheri-riscv/sail-riscv/c_emulator/SoftFloat-3e/source/s_normSubnormalExtF80Sig.c:41-51 | The significand gets its top bit, and is the old one times the power that the exponent gave up |
| ExtF80.Normalize | sail/sail-cheri-riscv/sail-riscv/c_emulator/SoftFloat-3e/source/extF80_rem.c:104-120 | Normalizing a subnormal or unnormal operand keeps its value |
| ExtF80RoundToInt.RoundInPlace | sail/sail-cheri-riscv/sail-riscv/c_emulator/SoftFloat-3e/source/extF80_roundToInt.c:121-147 | Adding and masking round at the units bit in every mode; a carry out of the significand becomes exponent + 1; inexact exactly when asked for and bits were lost |
| ExtF80RoundToInt.TinyRounding | sail/sail-cheri-riscv/sail-riscv/c_emulator/SoftFloat-3e/source/extF80_roundToInt.c:94-120 | The switch for values below 1 chooses between 0 and 1 as the mode rounds |
| ExtF80RoundToInt.ExtF80RoundToInt | sail/sail-cheri-riscv/sail-riscv/c_emulator/SoftFloat-3e/source/extF80_roundToInt.c:58-153 | All operands: the result is the integer that the value rounds to, with the sign of the operand; infinities and flags |
| ExtF80RoundToInt.IntegralResultIsRounding | sail/sail-cheri-riscv/sail-riscv/c_emulator/SoftFloat-3e/source/extF80_roundToInt.c:94-147 | That integer is the rounding of the exact value in the sense of the independent definition |
| ExtF80RoundToInt.RoundingIsIdempotent | sail/sail-cheri-riscv/sail-riscv/c_emulator/SoftFloat-3e/source/extF80_roundToInt.c:44-153 | Rounding a result again, in any mode, changes nothing and is exact |
| ExtF80RoundToInt.RoundingIsMonotone | sail/sail-cheri-riscv/sail-riscv/c_emulator/SoftFloat-3e/source/extF80_roundToInt.c:44-153 | The operation keeps the order of values |
| F128MRoundToInt.FindPlace | sail/sail-cheri-riscv/sail-riscv/c_emulator/SoftFloat-3e/source/f128M_roundToInt.c:146-162 | The loop finds the word of the rounding bit, has cleared those below, and extra says whether they were zero |
| F128MRoundToInt.RoundWord | sail/sail-cheri-riscv/sail-riscv/c_emulator/SoftFloat-3e/source/f128M_roundToInt.c:162-205 | Word and carry are the whole 128-bit value rounded at the place, also when the tie bit lies in the next word |
| F128MRoundToInt.WriteTie | sail/sail-cheri-riscv/sail-riscv/c_emulator/SoftFloat-3e/source/f128M_roundToInt.c:175-182 | In the tie across a word boundary the next word is made even and the carry passes on |
| F128MRoundToInt.PropagateCarry | sail/sail-cheri-riscv/sail-riscv/c_emulator/SoftFloat-3e/source/f128M_roundToInt.c:207-213 | The carry loop leaves the four words together holding the rounded value |
| F128MRoundToInt.RoundInPlace | sail/sail-cheri-riscv/sail-riscv/c_emulator/SoftFloat-3e/source/f128M_roundToInt.c:144-214 | Read as one integer the four words are the encoding rounded at the units bit, for all exponents and modes |
| F128MRoundToInt.RoundedWordsAreRoundedValue | sail/sail-cheri-riscv/sail-riscv/c_emulator/SoftFloat-3e/source/f128M_roundToInt.c:144-214 | Rounding the encoding is rounding the value: carries run into the exponent correctly |
| F128MRoundToInt.RoundTiny | sail/sail-cheri-riscv/sail-riscv/c_emulator/SoftFloat-3e/source/f128M_roundToInt.c:93-126 | Below 1 the result is the rounding to 0 or 1 of the operand as the code sees it after clearing the low words |
| F128MRoundToInt.F128MRoundToInt | sail/sail-cheri-riscv/sail-riscv/c_emulator/SoftFloat-3e/source/f128M_roundToInt.c:83-220 | For all exponents, unless operand and result are the same object and the value is below 1: the result is the operand rounded to an integer, and inexact exactly when asked for and it was none; in that case both hold of the operand with its low words cleared |
| F128MRoundToInt.IntegralMagIsRounding | sail/sail-cheri-riscv/sail-riscv/c_emulator/SoftFloat-3e/source/f128M_roundToInt.c:144-214 | The integer is the rounding of the exact value in the sense of the independent definition |
| F128MRoundToInt.InPlaceAgrees | sail/sail-cheri-riscv/sail-riscv/c_emulator/SoftFloat-3e/source/f128M_roundToInt.c:93-101 | Rounding in place (operand and result the same object) loses the low words of values below 1; exactly when that changes the result |
| F128MRoundToInt.InPlaceFlagAgrees | sail/sail-cheri-riscv/sail-riscv/c_emulator/SoftFloat-3e/source/f128M_roundToInt.c:93-102 | Exactly when it also changes whether the loss is noticed: for subnormal values that are non-zero only in the low words |
| F128MRoundToInt.InPlaceMissesHalf | sail/sail-cheri-riscv/sail-riscv/c_emulator/SoftFloat-3e/source/f128M_roundToInt.c:93-109 | A value just above one half that rounds to 1, and in place to 0 |
| F128MRoundToInt.InPlaceMissesLeast | sail/sail-cheri-riscv/sail-riscv/c_emulator/SoftFloat-3e/source/f128M_roundToInt.c:93-102 | The least positive value: in place both its rounding up and its flag are lost |
| RecipSqrtTable.ApproxRecipSqrt32 | sail/sail-cheri-riscv/sail-riscv/c_emulator/SoftFloat-3e/source/s_approxRecipSqrt32_1.c:45-70 | The table function, constants included; its top bit is always set |
| RecipSqrtTable.TableIsAccurate | sail/sail-cheri-riscv/sail-riscv/c_emulator/SoftFloat-3e/source/include/primitives.h:189-207 | For every significand of either parity the value is never above the reciprocal root and less than 2.1 units in the last place below it |
| RecipSqrtTable.FirstValue | sail/sail-cheri-riscv/sail-riscv/c_emulator/SoftFloat-3e/source/s_approxRecipSqrt32_1.c:54-61 | In each of the 16 rows the square of the corrected entry, times the significand, is below one and above it less 0.0028 |
| RecipSqrtTable.BelowPeak | sail/sail-cheri-riscv/sail-riscv/c_emulator/SoftFloat-3e/source/s_approxRecipSqrt_1Ks.c:41-48 | The upper bound, from the peak of a falling line squared times a rising one |
| RecipSqrtTable.AboveEnds | sail/sail-cheri-riscv/sail-riscv/c_emulator/SoftFloat-3e/source/s_approxRecipSqrt_1Ks.c:41-48 | The lower bound, from the two ends of the row |
| RecipSqrtTable.Upward | sail/sail-cheri-riscv/sail-riscv/c_emulator/SoftFloat-3e/source/s_approxRecipSqrt32_1.c:61-66 | The refinement never exceeds the series of the reciprocal root, cut after the third power |
| RecipSqrtTable.Downward | sail/sail-cheri-riscv/sail-riscv/c_emulator/SoftFloat-3e/source/s_approxRecipSqrt32_1.c:61-66 | All its truncations together cost less than 2 and a 64th units in the last place |
| RecipSqrtTable.SeriesBelow | sail/sail-cheri-riscv/sail-riscv/c_emulator/SoftFloat-3e/source/s_approxRecipSqrt32_1.c:61-66 | The cut series stays below the reciprocal root |
| RecipSqrtTable.SeriesAbove | sail/sail-cheri-riscv/sail-riscv/c_emulator/SoftFloat-3e/source/s_approxRecipSqrt32_1.c:61-66 | And within a tenth of a unit in the last place of it |
| SqrtEstimate.FirstBelow | sail/sail-cheri-riscv/sail-riscv/c_emulator/SoftFloat-3e/source/extF80_sqrt.c:99-115 | The first estimate is a lower bound on the root, from the accuracy of the reciprocal root alone |
| SqrtEstimate.MiddleDigit | sail/sail-cheri-riscv/sail-riscv/c_emulator/SoftFloat-3e/source/extF80_sqrt.c:116-121 | The second digit is bounded on both sides by the exact residual |
| SqrtEstimate.LastDigit | sail/sail-cheri-riscv/sail-riscv/c_emulator/SoftFloat-3e/source/extF80_sqrt.c:132-137 | The root lies above the digit less one unit and below the digit plus 32, counted in units of the last digit |
| ExtF80Sqrt.FirstStage | sail/sail-cheri-riscv/sail-riscv/c_emulator/SoftFloat-3e/source/extF80_sqrt.c:106-115 | The residual after the first estimate is exact and not negative |
| ExtF80Sqrt.Residual | sail/sail-cheri-riscv/sail-riscv/c_emulator/SoftFloat-3e/source/extF80_sqrt.c:126-128 | Every pass computes (x - sigZ^2) * 2^29 exactly, and its sign bit says whether sigZ is too high |
| ExtF80Sqrt.CorrectionLoop | sail/sail-cheri-riscv/sail-riscv/c_emulator/SoftFloat-3e/source/extF80_sqrt.c:122-131 | The loop terminates; on exit sigZ^2 <= x < (sigZ+62)^2 and the residual is exact |
| ExtF80Sqrt.RefinedResidual | sail/sail-cheri-riscv/sail-riscv/c_emulator/SoftFloat-3e/source/extF80_sqrt.c:141-147 | The refinement computes the residual of the cleared digit exactly |
| ExtF80Sqrt.Refine | sail/sail-cheri-riscv/sail-riscv/c_emulator/SoftFloat-3e/source/extF80_sqrt.c:140-154 | A refined digit is the root rounded down, and the sticky bits say whether it is exact |
| ExtF80Sqrt.SqrtSignificand | sail/sail-cheri-riscv/sail-riscv/c_emulator/SoftFloat-3e/source/extF80_sqrt.c:106-154 | The words hold the root rounded down exactly when the last digit settles it; otherwise they are one quarter unit below it |
| ExtF80Sqrt.ExtF80Sqrt | sail/sail-cheri-riscv/sail-riscv/c_emulator/SoftFloat-3e/source/extF80_sqrt.c:64-175 | All operands: specials and flags; for positive ones the packed rounding of the root, which is exact to a quarter unit, or that less one when the last digit does not settle it; inexact unless the root is exact |
| ExtF80Sqrt.RadicandOfOperand | sail/sail-cheri-riscv/sail-riscv/c_emulator/SoftFloat-3e/source/extF80_sqrt.c:104-114 | The shifted radicand and the halved exponent stand for the value of the operand |
| ExtF80Sqrt.SqrtIsCorrectlyRounded | sail/sail-cheri-riscv/sail-riscv/c_emulator/SoftFloat-3e/source/extF80_sqrt.c:104-157 | In each mode the result is the correctly rounded square root if and only if the last digit settles the root or the mode survives the missed quarter |
| ExtF80Sqrt.GuardFindsRoot | sail/sail-cheri-riscv/sail-riscv/c_emulator/SoftFloat-3e/source/extF80_sqrt.c:134-140 | The root is found unless the low 24 bits of the last digit are among the 29 largest values |
| ExtF80Sqrt.FoundRootIsRounded | sail/sail-cheri-riscv/sail-riscv/c_emulator/SoftFloat-3e/source/extF80_sqrt.c:155-157 | A root that was found is correctly rounded in every mode |
| ExtF80Sqrt.MissedRoot | sail/sail-cheri-riscv/sail-riscv/c_emulator/SoftFloat-3e/source/extF80_sqrt.c:138-140 | A root that was missed: which modes still round correctly, and when |
| ExtF80Sqrt.NearestIsMissed | sail/sail-cheri-riscv/sail-riscv/c_emulator/SoftFloat-3e/source/extF80_sqrt.c:134-140 | A significand, with the value of the table for it, whose square root is not rounded to nearest |
| ExtF80Sqrt.SqrtMisses | sail/sail-cheri-riscv/sail-riscv/c_emulator/SoftFloat-3e/source/extF80_sqrt.c:64-157 | The whole operation on an operand with that significand: what it returns, and what the rounding to nearest is |
| ExtF80ToInt.TruncationIsRounding | sail/sail-cheri-riscv/sail-riscv/c_emulator/SoftFloat-3e/source/extF80_to_i64_r_minMag.c:87-91 | Truncation is the rounding toward zero of the independent definition |
| ExtF80ToInt.OverflowedSaturates | sail/sail-cheri-riscv/sail-riscv/c_emulator/SoftFloat-3e/source/extF80_to_i32_r_minMag.c:82-87 | Out of range the answer is the end of the range on the side of the operand, and invalid is raised |
| ExtF80ToInt.ExtF80ToI32 | sail/sail-cheri-riscv/sail-riscv/c_emulator/SoftFloat-3e/source/extF80_to_i32_r_minMag.c:44-96 | Truncates, or raises invalid when out of range, on exactly the encodings that FastTruncates describes |
| ExtF80ToInt.ExtF80ToI64 | sail/sail-cheri-riscv/sail-riscv/c_emulator/SoftFloat-3e/source/extF80_to_i64_r_minMag.c:44-93 | The same for 64 bits |
| ExtF80ToInt.ExtF80MToI32 | sail/sail-cheri-riscv/sail-riscv/c_emulator/SoftFloat-3e/source/extF80M_to_i32_r_minMag.c:55-117 | Truncates on every encoding but one unnormal form of the most negative integer |
| ExtF80ToInt.ExtF80MToI64 | sail/sail-cheri-riscv/sail-riscv/c_emulator/SoftFloat-3e/source/extF80M_to_i64_r_minMag.c:55-112 | The same for 64 bits |
| ExtF80ToInt.CanonicalTruncates | sail/sail-cheri-riscv/sail-riscv/c_emulator/SoftFloat-3e/source/extF80_to_i32_r_minMag.c:62-87 | Canonical encodings are among those that the fast forms truncate |
| ExtF80ToInt.ZeroWithExponent | sail/sail-cheri-riscv/sail-riscv/c_emulator/SoftFloat-3e/source/extF80_to_i32_r_minMag.c:62-68 | An encoding of zero with an exponent, for which the fast forms raise inexact and the word forms raise nothing |
| ExtF80ToInt.LowOne | sail/sail-cheri-riscv/sail-riscv/c_emulator/SoftFloat-3e/source/extF80_to_i32_r_minMag.c:72-87 | An unnormal encoding of 1, which the fast forms take for out of range and the word forms convert |
| ExtF80ToInt.LowMostNegative | sail/sail-cheri-riscv/sail-riscv/c_emulator/SoftFloat-3e/source/extF80M_to_i32_r_minMag.c:84-88 | The unnormal encodings of the most negative integers, which no form converts |
| ExtF80ToInt.BothTo32 | sail/sail-cheri-riscv/sail-riscv/c_emulator/SoftFloat-3e/source/extF80M_to_i32_r_minMag.c:76-115 | On canonical encodings the fast and the word form return the same integer and raise the same flags, those of truncation |
| ExtF80ToInt.BothTo64 | sail/sail-cheri-riscv/sail-riscv/c_emulator/SoftFloat-3e/source/extF80M_to_i64_r_minMag.c:75-110 | The same for 64 bits |
| Sha256Words.RotateBit | sail/sail-cheri-riscv/sha_support/sha-2/sha-256.c:20-26 | Rotation moves every bit n places down, and round |
| Sha256Words.ChBit | sail/sail-cheri-riscv/sha_support/sha-2/sha-256.c:76 | Each bit is that of the second or the third word as the first one has it or not |
| Sha256Words.MajBit | sail/sail-cheri-riscv/sha_support/sha-2/sha-256.c:96 | Each bit is that of the majority |
| Sha256Words.BigSigma0Bit | sail/sail-cheri-riscv/sha_support/sha-2/sha-256.c:95 | Each bit is the sum modulo 2 of the three that the rotations bring there |
| Sha256Words.BigSigma1Bit | sail/sail-cheri-riscv/sha_support/sha-2/sha-256.c:75 | The same for the other one |
| Sha256Words.SmallSigma0Bit | sail/sail-cheri-riscv/sha_support/sha-2/sha-256.c:69-70 | The same with a shift in place of the third rotation |
| Sha256Words.SmallSigma1Bit | sail/sail-cheri-riscv/sha_support/sha-2/sha-256.c:71-72 | The same for the other one |
| Sha256Words.SameBits | sail/sail-cheri-riscv/sha_support/sha-2/sha-256.c:20-26 | Equal bits are equal words, so these determine the functions |
| Sha256Constants.RoundConstants | sail/sail-cheri-riscv/sha_support/sha-2/sha-256.c:78-93 | Entry t of the table is the first 32 bits of the fractional part of the cube root of prime number t; the list of primes begins with 2 and leaves none out |
| Sha256Constants.InitialWords | sail/sail-cheri-riscv/sha_support/sha-2/sha-256.c:119-137 | The initial words are those of the square roots of the first eight |
| Sha256Equations.RoundEquations | sail/sail-cheri-riscv/sha_support/sha-2/sha-256.c:75-106 | A round in the variables of the standard, all sums modulo 2^32 |
| Sha256Equations.ScheduleEquation | sail/sail-cheri-riscv/sha_support/sha-2/sha-256.c:62-74 | The first 16 schedule words are the big-endian numbers in the block, the others the sums of the standard |
| Sha256Equations.CompressEquations | sail/sail-cheri-riscv/sha_support/sha-2/sha-256.c:59-113 | Round t takes constant t and schedule word t, and the result is added to the hash value word by word |
| Sha256Equations.HashEquations | sail/sail-cheri-riscv/sha_support/sha-2/sha-256.c:145-169 | One block after another, from the initial value |
| Sha256Equations.PadShape | sail/sail-cheri-riscv/sha_support/sha-2/sha-256.c:190-206 | Message, 0x80, zeros, length in bits as a 64-bit number, in the least number of whole blocks |
| Sha256Equations.DigestWord | sail/sail-cheri-riscv/sha_support/sha-2/sha-256.c:208-216 | Four bytes of the digest, read as a number, are a word of the hash value |
| Sha256Equations.BigEndianValue | sail/sail-cheri-riscv/sha_support/sha-2/sha-256.c:199-206 | Big-endian bytes stand for the number modulo the power of 256 |
| Sha256Spec.PlusIsModular | sail/sail-cheri-riscv/sha_support/sha-2/sha-256.c:73 | Word addition is addition modulo 2^32 |
| Sha256Block.ScheduleWord | sail/sail-cheri-riscv/sha_support/sha-2/sha-256.c:62-74 | In round 16i+j the sixteen-word window takes in word 16i+j of the 64-word schedule |
| Sha256Block.RoundInPlace | sail/sail-cheri-riscv/sha_support/sha-2/sha-256.c:75-106 | One pass of the loop body is one round of section 6.2.2 of FIPS 180-4 |
| Sha256Block.SixteenRounds | sail/sail-cheri-riscv/sha_support/sha-2/sha-256.c:61-107 | Sixteen rounds turn the window of one pass into that of the next |
| Sha256Block.WindowPlaces | sail/sail-cheri-riscv/sha_support/sha-2/sha-256.c:69-73 | The wrapped indices of the window are the schedule words 15, 7, 2 and 16 back |
| Sha256Block.MainLoop | sail/sail-cheri-riscv/sha_support/sha-2/sha-256.c:59-108 | All 64 rounds with the rolling window compute the rounds of the 64-word schedule |
| Sha256Block.ConsumeChunk | sail/sail-cheri-riscv/sha_support/sha-2/sha-256.c:35-113 | The in-place update is the compression function of section 6.2.2, for every hash value and block |
| Sha256Engine.Engine.Init | sail/sail-cheri-riscv/sha_support/sha-2/sha-256.c:119-137 | Starts the empty message |
| Sha256Engine.Engine.Write | sail/sail-cheri-riscv/sha_support/sha-2/sha-256.c:139-170 | Appends the bytes to the message and keeps the streaming invariant: hash value over the whole blocks, buffer holding the rest, 1 to 64 bytes of space |
| Sha256Engine.Engine.Absorb | sail/sail-cheri-riscv/sha_support/sha-2/sha-256.c:145-169 | Each pass makes progress, on the copy-free path and on the buffered one alike |
| Sha256Engine.Engine.Finish | sail/sail-cheri-riscv/sha_support/sha-2/sha-256.c:172-207 | Both padding cases make the hash value that of the padded message |
| Sha256Engine.Engine.Close | sail/sail-cheri-riscv/sha_support/sha-2/sha-256.c:172-218 | Returns the digest of everything written |
| Sha256Engine.PadWithin | sail/sail-cheri-riscv/sha_support/sha-2/sha-256.c:190-198 | A tail of at most 55 bytes is padded within its block as section 5.1.1 prescribes |
| Sha256Engine.PadAcross | sail/sail-cheri-riscv/sha_support/sha-2/sha-256.c:190-198 | A longer tail takes one more block, as section 5.1.1 prescribes |
| Sha256Engine.LengthField | sail/sail-cheri-riscv/sha_support/sha-2/sha-256.c:199-206 | The shifted count gives the eight length bytes, even when the count of bytes has wrapped |
| Sha256Engine.PutDigest | sail/sail-cheri-riscv/sha_support/sha-2/sha-256.c:208-216 | The hash value written most significant byte first |
| Sha256Engine.ChainIsHash | sail/sail-cheri-riscv/sha_support/sha-2/sha-256.c:145-169 | The hash values after each block, in order, are the fold of the compression over the message |
| Sha256Engine.CalcSha256 | sail/sail-cheri-riscv/sha_support/sha-2/sha-256.c:220-226 | The one-shot function returns the digest of its input |
| Sha256Engine.Sha256 | sail/sail-cheri-riscv/sha_support/sha-2/sha-256.c:20-26 | With the six functions of the standard it is SHA-256 |
| Sha256Engine.HashPieces | sail/sail-cheri-riscv/sha_support/sha-2/sha-256.c:119-218 | Every way of cutting every message into writes, empty ones included, gives the digest of the whole |
| ShaAdapter.ExportedPadded | sail/sail-cheri-riscv/sha_support/shadapter.c:48-61 | Leading zero bytes followed by the exported ones are the fixed-width big-endian form, zero included |
| ShaAdapter.EncodingIs | sail/sail-cheri-riscv/sha_support/shadapter.c:48-61 | The fixed-width form of a vector has its number of bytes and stands for its value |
| ShaAdapter.Adapter.Reset | sail/sail-cheri-riscv/sha_support/shadapter.c:33-38 | Starts the empty message on the shared engine |
| ShaAdapter.Adapter.Append | sail/sail-cheri-riscv/sha_support/shadapter.c:40-64 | Feeds exactly the fixed-width bytes of the vector |
| ShaAdapter.Adapter.Finish | sail/sail-cheri-riscv/sha_support/shadapter.c:66-73 | The 256-bit integer whose big-endian bytes are the digest |
| ShaAdapter.Normalized | sail/sail-cheri-riscv/sha_support/shadapter.c:21-27 | Cutting to 256 bits changes no digest, and the digest can be read back |
| ShaAdapter.ImportedBigEndian | sail/sail-cheri-riscv/sha_support/shadapter.c:66-73 | Import undoes the fixed-width form |
| ShaAdapter.BigEndianImported | sail/sail-cheri-riscv/sha_support/shadapter.c:66-73 | The fixed-width form undoes import |
| ShaAdapter.ImportedInjective | sail/sail-cheri-riscv/sha_support/shadapter.c:66-73 | Digests that differ are read back as different vectors |
| ShaAdapter.HashVectors | sail/sail-cheri-riscv/sha_support/shadapter.c:33-73 | Any reset, append, finish sequence returns the digest of the concatenated encodings |
| Capabilities.SealUnseal | morello/project/enclaveMorello/src/EL2Code/instructions/EINIT_DATA.c:72-75 | Unsealing gives back the original exactly when both seals authorise it and name the same object type |
| Capabilities.NeverGains | morello/project/enclaveMorello/src/EL2Code/instructions/sealingCapability.c:40-59 | However capabilities are moved, narrowed, restricted, sealed and unsealed, a valid result comes from a valid capability with all its addresses and permissions, and a seal goes on or off only by a key for that object type |
| EnclaveId.OtypesLeadBack | morello/project/enclaveMorello/src/EL2Code/instructions/enclaveid.c:48-69 | The identifier comes back from each of its four object types exactly below 2^62 |
| EnclaveId.OtypeHasOneOwner | morello/project/enclaveMorello/src/EL2Code/instructions/enclaveid.c:48-53 | Each object type belongs to one identifier, none to the invalid one |
| EnclaveId.SealingCapability | morello/project/enclaveMorello/src/EL2Code/instructions/sealingCapability.c:40-59 | The derived capability is tagged and grants exactly the object types asked for |
| EnclaveId.DerivedIsWithin | morello/project/enclaveMorello/src/EL2Code/instructions/sealingCapability.c:40-59 | It has no right that the root has not: untagged under an untagged or sealed root, its range and permissions part of the root's, and none but sealing and unsealing |
| EnclaveId.SealsPartition | morello/project/enclaveMorello/src/EL2Code/instructions/enclaveid.c:91-145 | Sign, enc and ident seals grant one object type each; the combined one grants exactly sign and enc |
| EnclaveId.SealsDisjoint | morello/project/enclaveMorello/src/EL2Code/instructions/enclaveid.c:91-145 | Seals of different identifiers share no object type, and the combined seal never covers an ident seal |
| EnclaveId.OtypesInRange | morello/project/enclaveMorello/src/EL2Code/instructions/enclaveid.c:64-69 | All four object types of an identifier lie above 3 and below the end of the range exactly for 1 to 255 |
| IdentityStore.IdentityStore.InitTable | morello/project/enclaveMorello/src/EL2Code/instructions/identityStore.c:45-57 | The whole table is the initial one |
| IdentityStore.InitialIs | morello/project/enclaveMorello/src/EL2Code/instructions/identityStore.c:45-57 | Which is 32 free places without identifier, their hashes zero, and 1 as the first identifier |
| IdentityStore.IdentityStore.InitIDCounter | morello/project/enclaveMorello/src/EL2Code/instructions/enclaveIDManager.c:59-74 | Starts at 1, or past the end when the range is not valid |
| IdentityStore.IdentityStore.GenerateEnclaveID | morello/project/enclaveMorello/src/EL2Code/instructions/enclaveIDManager.c:84-99 | Counts up, and stays put when the range is used up |
| IdentityStore.IdentityStore.InitEntry | morello/project/enclaveMorello/src/EL2Code/instructions/identityStore.c:63-79 | Takes the first free place and the next identifier, and changes nothing else |
| IdentityStore.IdentityStore.GetUnfinishedEntryID | morello/project/enclaveMorello/src/EL2Code/instructions/identityStore.c:87-103 | The identifier of the first unfinished entry for the object type, if any; the search stays in bounds |
| IdentityStore.IdentityStore.FinishEntry | morello/project/enclaveMorello/src/EL2Code/instructions/identityStore.c:114-134 | Stores the hash in the first unfinished entry for the object type and marks it, or changes nothing |
| IdentityStore.IdentityStore.GetHashEntry | morello/project/enclaveMorello/src/EL2Code/instructions/identityStore.c:145-168 | The hash of the first ready entry for the object type, if any |
| IdentityStore.OnePlace | morello/project/enclaveMorello/src/EL2Code/instructions/identityStore.c:87-168 | Under the invariant an identifier matches at most one place, its own |
| IdentityStore.Searches | morello/project/enclaveMorello/src/EL2Code/instructions/identityStore.c:63-168 | What each search finds, in terms of which identifiers are issued and ready |
| IdentityStore.InitEntryInv | morello/project/enclaveMorello/src/EL2Code/instructions/identityStore.c:63-79 | Taking an entry keeps the table invariant and fails exactly when all 32 places are used |
| IdentityStore.FinishInv | morello/project/enclaveMorello/src/EL2Code/instructions/identityStore.c:114-134 | Finishing keeps the invariant and succeeds exactly where the search for the unfinished entry does, on that entry |
| IdentityStore.HashOfReady | morello/project/enclaveMorello/src/EL2Code/instructions/identityStore.c:145-168 | A hash is found exactly for issued and ready identifiers |
| IdentityStore.CounterAloneOverruns | morello/project/enclaveMorello/src/EL2Code/instructions/enclaveIDManager.c:84-99 | The counter alone would issue 256, whose object types leave the range: the bound needs the table |
| Sweep.BoundsNonOverlapCheckTwoCap | morello/project/enclaveMorello/src/EL2Code/instructions/regsweep.c:26-58 | Zero exactly when the capability is apart from both ranges, limits taken in 64 bits |
| Sweep.ApartIsDisjoint | morello/project/enclaveMorello/src/EL2Code/instructions/regsweep.c:44-57 | Passing the test implies disjoint address sets; for non-empty ranges it is equivalent |
| Sweep.SoundForRegister | morello/project/enclaveMorello/src/EL2Code/instructions/regsweep.c:50-54 | The test can be trusted for a capability, whatever it is compared with, exactly if its limit does not wrap or it is a single byte |
| Sweep.SoundForGuard | morello/project/enclaveMorello/src/EL2Code/instructions/regsweep.c:44-57 | The test guards a code or data range, whatever it is compared with, exactly if its end does not wrap or it is a single byte; one that ends at the very top guards nothing |
| Sweep.EmptyInsideFails | morello/project/enclaveMorello/src/EL2Code/instructions/regsweep.c:54-57 | On an empty capability the test fails exactly when it lies strictly inside |
| Sweep.CheckReg | morello/project/enclaveMorello/src/EL2Code/instructions/regsweep.c:170-192 | An untagged register passes; a tagged one exactly if it is apart from code and data |
| Sweep.GpregSweep | morello/project/enclaveMorello/src/EL2Code/instructions/regsweep.c:69-158 | Zero exactly if all saved registers from index 2 on pass |
| Sweep.ScrsSweep | morello/project/enclaveMorello/src/EL2Code/instructions/regsweep.c:203-282 | Zero exactly if all seven special registers pass |
| Sweep.MemSweep | morello/project/enclaveMorello/src/EL2Code/instructions/regsweep.c:320-437 | Zero exactly if every whole granule of the EL1 memory passes |
| Sweep.CodeCapSweep | morello/project/enclaveMorello/src/EL2Code/instructions/regsweep.c:439-508 | Clear, found or a fault, whichever comes first in the code section |
| Sweep.CodeScanClear | morello/project/enclaveMorello/src/EL2Code/instructions/regsweep.c:470-498 | Clear exactly if every whole granule can be loaded and none is tagged |
| Sweep.CodeScanFaults | morello/project/enclaveMorello/src/EL2Code/instructions/regsweep.c:470-498 | It faults exactly if some granule cannot be loaded and all before it are clear |
| Sweep.RunSweep | morello/project/enclaveMorello/src/EL2Code/instructions/regsweep.c:510-524 | The combined answer decides exclusivity of code and data |
| Sweep.ClearMeansDisjoint | morello/project/enclaveMorello/src/EL2Code/instructions/regsweep.c:510-524 | After a clear sweep no tagged register or granule reaches a byte of the code or the data |
| Sweep.ReachingIsFound | morello/project/enclaveMorello/src/EL2Code/instructions/regsweep.c:510-524 | A tagged register or granule that reaches into code or data is found, unless the scan of the code faults |
| Sweep.CapabilityInCodeIsFound | morello/project/enclaveMorello/src/EL2Code/instructions/regsweep.c:470-498 | So is a capability in a whole granule of the code section |
| EnclaveInstructions.GenerateHash | morello/project/enclaveMorello/src/EL2Code/instructions/hash.c:96-137 | Fed four bytes at a time the hash is that of the whole section; lengths not divisible by 4 are not hashed, length 0 runs off the section, and from 2 GiB on the int counter overflows unless a load faults first |
| EnclaveInstructions.HashedIff | morello/project/enclaveMorello/src/EL2Code/instructions/hash.c:104-137 | Exactly which code capabilities end up hashed, the limit of 2 GiB included |
| EnclaveInstructions.RoomCheck | morello/project/enclaveMorello/src/EL2Code/instructions/ESTORE_ID.c:53-67 | Exactly what the length check lets through: 32 bytes within bounds, and nearly every address outside them, where the subtraction wraps |
| EnclaveInstructions.PutBytesReadBack | morello/project/enclaveMorello/src/EL2Code/instructions/ESTORE_ID.c:90-93 | The bytes written can be read back and no other byte changes |
| EnclaveInstructions.PutBytesClearsCaps | morello/project/enclaveMorello/src/EL2Code/instructions/ESTORE_ID.c:90-93 | No capability stays in a granule of which a byte was written, and all others stay |
| EnclaveInstructions.StoreIdSucceeds | morello/project/enclaveMorello/src/EL2Code/instructions/ESTORE_ID.c:43-107 | The call answers true exactly if the destination can hold the hash and the identifier is attested |
| EnclaveInstructions.StoreIdFaults | morello/project/enclaveMorello/src/EL2Code/instructions/ESTORE_ID.c:43-107 | The call faults exactly if the identifier is attested and the check passes without a tag or outside the bounds |
| EnclaveInstructions.StoreIdRefuses | morello/project/enclaveMorello/src/EL2Code/instructions/ESTORE_ID.c:43-107 | Exactly when it answers false, in terms of the capability; it writes the hash where it answers true, and nothing otherwise |
| EnclaveInstructions.StoreIdCanFault | morello/project/enclaveMorello/src/EL2Code/instructions/ESTORE_ID.c:43-107 | Two destinations that pass the check and fault |
| EnclaveInstructions.Monitor.EInitCode | morello/project/enclaveMorello/src/EL2Code/instructions/EINIT_CODE.c:42-66 | The call takes the store to the specified next state and returns the specified answer |
| EnclaveInstructions.Monitor.EInitData | morello/project/enclaveMorello/src/EL2Code/instructions/EINIT_DATA.c:56-127 | The same, with the memory it leaves behind, on each of its ways out, faults included |
| EnclaveInstructions.Monitor.EStoreId | morello/project/enclaveMorello/src/EL2Code/instructions/ESTORE_ID.c:43-107 | The same; the table is only read |
| EnclaveRuns.Drive | morello/project/enclaveMorello/src/EL2Code/instructions/identityStore.c:45-168 | The methods, called in any order in any world, go through the states of the specified run |
| EnclaveRuns.StepKeeps | morello/project/enclaveMorello/src/EL2Code/instructions/identityStore.c:45-168 | Every instruction keeps the table invariant, every ready entry and its hash |
| EnclaveRuns.RunKeeps | morello/project/enclaveMorello/src/EL2Code/instructions/identityStore.c:45-168 | So does every run from every state with the invariant |
| EnclaveRuns.EveryRunIsSafe | morello/project/enclaveMorello/src/EL2Code/instructions/identityStore.c:45-168 | Every run from initialisation keeps: used places a prefix, place k holding identifier k+1, ready implies used, counter one past the last |
| EnclaveRuns.SlotsAreCounted | morello/project/enclaveMorello/src/EL2Code/instructions/EINIT_CODE.c:42-66 | The counter counts the EInitCode calls of a run, up to the size of the table |
| EnclaveRuns.InitCodeFailsWhenFull | morello/project/enclaveMorello/src/EL2Code/instructions/EINIT_CODE.c:52-54 | EInitCode fails exactly from the 33rd call on, whatever else was called |
| EnclaveRuns.IssuedTypesInRange | morello/project/enclaveMorello/src/EL2Code/instructions/enclaveid.c:64-145 | All object types of issued identifiers are above 3, in range, and lead back to their identifier |
| EnclaveRuns.SealedCodeUnseals | morello/project/enclaveMorello/src/EL2Code/instructions/EINIT_CODE.c:56-65 | What EInitCode returns is unsealed by EInitData to the original code capability |
| EnclaveRuns.SealedCodeLeadsBack | morello/project/enclaveMorello/src/EL2Code/instructions/EINIT_DATA.c:58-75 | After any further run the object type of the sealed code leads to the same identifier, and until it is attested to the same code |
| EnclaveRuns.InitDataEstablishes | morello/project/enclaveMorello/src/EL2Code/instructions/EINIT_DATA.c:56-127 | A successful EInitData had a clear sweep and an unfinished entry, stored the hash of the section, left the seal pair in data memory and returns the data sealed |
| EnclaveRuns.AttestationIsFinal | morello/project/enclaveMorello/src/EL2Code/instructions/EINIT_DATA.c:86-92 | From then on every state of every run returns that hash for all four object types; just before there was none; no entry is unfinished again |
| EnclaveRuns.SecondInitDataFails | morello/project/enclaveMorello/src/EL2Code/instructions/EINIT_DATA.c:61-64 | A second EInitData for an attested identifier fails and changes nothing |
| EnclaveRuns.InitCodeOutcome | morello/project/enclaveMorello/src/EL2Code/instructions/EINIT_CODE.c:42-66 | EInitCode fails exactly on a full table and changes nothing then; otherwise the next entry is taken and the code comes back with the third object type of its identifier, or untagged |
| EnclaveAttestation.InitDataAttests | morello/project/enclaveMorello/src/EL2Code/instructions/EINIT_DATA.c:61-92 | A call that gets as far as finishing the entry changes that entry and nothing else, with the hash of the section if it has one; any other call changes nothing |
| EnclaveAttestation.InitDataReturnsIff | morello/project/enclaveMorello/src/EL2Code/instructions/EINIT_DATA.c:56-127 | Exactly when EInitData succeeds: unfinished entry, clear sweep, section hashed or not a whole number of instructions, data capability able to take the seals |
| EnclaveAttestation.AttestsAndFaults | morello/project/enclaveMorello/src/EL2Code/instructions/EINIT_DATA.c:90-109 | A call that finishes the entry faults exactly if the data capability cannot take the seals |
| EnclaveAttestation.OnlySuccessWrites | morello/project/enclaveMorello/src/EL2Code/instructions/EINIT_DATA.c:61-126 | A call that does not return leaves memory as it was, in every state |
| EnclaveAttestation.InitDataFailsIff | morello/project/enclaveMorello/src/EL2Code/instructions/EINIT_DATA.c:61-92 | It answers failure exactly if no entry is pending or the sweep found something, and changes nothing then |
| EnclaveAttestation.InitDataFaultsIff | morello/project/enclaveMorello/src/EL2Code/instructions/EINIT_DATA.c:75-109 | It faults exactly in the sweep, on a section that cannot be read, or on a data capability that cannot take the seals, each written out |
| EnclaveAttestation.InitDataUndefinedIff | morello/project/enclaveMorello/src/EL2Code/instructions/hash.c:113-137 | It is undefined exactly if 2 GiB of a section at least that long can be read |
| EnclaveAttestation.StepAttests | morello/project/enclaveMorello/src/EL2Code/instructions/identityStore.c:114-134 | An identifier becomes ready exactly in a call that attests it |
| EnclaveAttestation.HashKnownIff | morello/project/enclaveMorello/src/EL2Code/instructions/EINIT_DATA.c:86-92 | After every run from the start a hash is known for an object type exactly if some call of the run attested its identifier |
| EnclaveAttestation.HashKnownIs | morello/project/enclaveMorello/src/EL2Code/instructions/EINIT_DATA.c:86-92 | And it is the hash of that call |
| EnclaveAttestation.AttestedOnce | morello/project/enclaveMorello/src/EL2Code/instructions/EINIT_DATA.c:61-64 | No identifier is attested twice in a run |
| EnclaveAttestation.StoreIdAnswersIff | morello/project/enclaveMorello/src/EL2Code/instructions/ESTORE_ID.c:81-106 | After every run EStoreId answers true exactly if some call attested the identifier and the destination can take the hash |
| EnclaveAttestation.FaultIsAttested | morello/project/enclaveMorello/src/EL2Code/instructions/EINIT_DATA.c:90-109 | A call that faults on the data capability, after which EStoreId hands out the hash |
| EnclaveAttestation.ShortSectionReturns | morello/project/enclaveMorello/src/EL2Code/instructions/EINIT_DATA.c:75-127 | A section shorter than a granule and no whole number of instructions is attested whatever the tag of the sealed code |
| EnclaveAttestation.OddSectionIsAttested | morello/project/enclaveMorello/src/EL2Code/instructions/hash.c:109 | A section of 18 bytes that is attested with the uninitialised hash |
| EnclaveAttestation.UntaggedSectionIsAttested | morello/project/enclaveMorello/src/EL2Code/instructions/hash.c:109 | One of 3 bytes, through a sealed code capability without a tag |
| EnclaveInstructions.PutCapReadBack | morello/project/enclaveMorello/src/EL2Code/instructions/EINIT_DATA.c:103-109 | A stored capability puts its image in the sixteen bytes of its granule and leaves the others alone |
| EnclaveInstructions.PutCapKeepsOthers | morello/project/enclaveMorello/src/EL2Code/instructions/EINIT_DATA.c:103-109 | And the capability is in its granule, all other granules holding what they held |
| EnclaveAttestation.AnySectionKeptIff | morello/project/enclaveMorello/src/EL2Code/instructions/EINIT_DATA.c:103-109 | Storing a capability keeps a section whatever memory holds exactly if the section is empty or apart from the granule, whatever the image of the capability |
| EnclaveAttestation.SectionSurvivesIff | morello/project/enclaveMorello/src/EL2Code/instructions/EINIT_DATA.c:75-109 | A successful call leaves the section it hashed as it was exactly if the bytes of the seals that fall into it were there before |
| EnclaveAttestation.SectionSurvives | morello/project/enclaveMorello/src/EL2Code/instructions/EINIT_DATA.c:75-109 | So it does for all contents of memory exactly if the data capability points to a granule apart from the section; success itself depends on no byte (BytesDoNotDecide) |
| EnclaveAttestation.SealsOverwriteSection | morello/project/enclaveMorello/src/EL2Code/instructions/EINIT_DATA.c:75-127 | A call that succeeds with code and data in the same granule, after which the section is no longer the one that was hashed |
| EnclaveRuns.StoredIdentity | morello/project/enclaveMorello/src/EL2Code/instructions/ESTORE_ID.c:81-93 | EStoreId, any time later, writes byte for byte the hash of the section that was attested |
| UniqueAlloc.RoundedCovers | morello/project/enclaveMorello/src/EL1Code/enclavecode/unique_alloc.c:77 | Rounding up covers the request exactly when it does not wrap |
| UniqueAlloc.Allocator.Init | morello/project/enclaveMorello/src/EL1Code/enclavecode/unique_alloc.c:46-66 | Takes an untagged heap for an error and leaves the old one |
| UniqueAlloc.Allocator.Alloc | morello/project/enclaveMorello/src/EL1Code/enclavecode/unique_alloc.c:73-118 | The heap and the result are those of the specified allocation |
| UniqueAlloc.SucceedsIff | morello/project/enclaveMorello/src/EL1Code/enclavecode/unique_alloc.c:73-118 | Exactly when a call succeeds, in terms of the heap, the rounded size and what bounds can be represented |
| UniqueAlloc.SplitsTheHeap | morello/project/enclaveMorello/src/EL1Code/enclavecode/unique_alloc.c:85-105 | A successful call cuts the heap in two parts side by side |
| UniqueAlloc.FailureIsFinal | morello/project/enclaveMorello/src/EL1Code/enclavecode/unique_alloc.c:94-114 | A failed call changes nothing, or leaves the heap untagged |
| UniqueAlloc.FailureIs | morello/project/enclaveMorello/src/EL1Code/enclavecode/unique_alloc.c:94-114 | Which of the two, and that in the second case the part asked for is handed out all the same |
| UniqueAlloc.Conserves | morello/project/enclaveMorello/src/EL1Code/enclavecode/unique_alloc.c:73-118 | Over any sequence of calls the granted ranges lie end to end from the start, and granted plus remaining bytes are the initial length |
| UniqueAlloc.LaidApart | morello/project/enclaveMorello/src/EL1Code/enclavecode/unique_alloc.c:73-118 | Granted ranges are disjoint and in order |
| UniqueAlloc.LaidWithin | morello/project/enclaveMorello/src/EL1Code/enclavecode/unique_alloc.c:73-118 | Granted ranges lie in the initial heap and stay aligned |
| UniqueAlloc.TotalWhole | morello/project/enclaveMorello/src/EL1Code/enclavecode/unique_alloc.c:77 | The granted total is a whole number of granules |
| UniqueAlloc.NothingAfterTheTag | morello/project/enclaveMorello/src/EL1Code/enclavecode/unique_alloc.c:94-114 | Once the heap has lost its tag no later call succeeds |
| UniqueAlloc.ProteusInitAligns | proteus/proteuscode/capattest/unique_alloc.c:7-19 | The aligned heap starts on a granule, and at its base exactly if the heap was unaligned or started there |
| UniqueAlloc.ProteusInitEnds | proteus/proteuscode/capattest/unique_alloc.c:7-19 | Aligning gives up the bytes in front and nothing else; an address in the last granule of the address space wraps to zero |
| UniqueAlloc.ProteusAllocator.Alloc | proteus/proteuscode/capattest/unique_alloc.c:21-34 | The heap and the result are those of the specified allocation |
| UniqueAlloc.ProteusAgrees | proteus/proteuscode/capattest/unique_alloc.c:21-34 | From a heap addressed at its base both allocators hand out the same; on a request too large this one loses its heap and the other does not |
| UniqueAlloc.ProteusApartIff | proteus/proteuscode/capattest/unique_alloc.c:31-33 | The granted range and the remaining heap are disjoint exactly if the heap is addressed at its base or nothing is asked for |
| UniqueAlloc.ProteusOverlaps | proteus/proteuscode/capattest/unique_alloc.c:21-34 | A heap that is left as it was by initialisation, of which a request for 32 bytes gets 16 that the heap keeps |
| ReorderBuffer.Rob.Reset | proteus/ProteusCore/formal/riscv-formal/monitor/generate.py:548-550 | No slot in use and the cursor at zero |
| ReorderBuffer.Rob.Clock | proteus/ProteusCore/formal/riscv-formal/monitor/generate.py:543-575 | One clock edge, with writes seen after it and the cursor within it: next registers, channels and error code |
| ReorderBuffer.ErrorCodeZero | proteus/ProteusCore/formal/riscv-formal/monitor/generate.py:555-564 | The error code stays zero exactly if every packet came for a free slot and every one that leaves is in turn |
| ReorderBuffer.PortsCarry | proteus/ProteusCore/formal/riscv-formal/monitor/generate.py:561-572 | The channels carry the packets that leave, in order, and are idle after the first gap |
| ReorderBuffer.PortsAt | proteus/ProteusCore/formal/riscv-formal/monitor/generate.py:561-572 | On the first channels, one each, and the others idle |
| ReorderBuffer.CollisionCodeIs | proteus/ProteusCore/formal/riscv-formal/monitor/generate.py:555-556 | A collision shows as 60000 and the low byte of the number of the last packet that came for a slot in use |
| ReorderBuffer.TurnCodeIs | proteus/ProteusCore/formal/riscv-formal/monitor/generate.py:563-564 | A packet out of turn as 61000 and the low byte of the number whose turn it was, of the last one and whatever collided |
| ReorderBuffer.InTurnCodeIs | proteus/ProteusCore/formal/riscv-formal/monitor/generate.py:563-564 | Otherwise the code is that of the collision |
| ReorderBufferTraces.AllTakenIffDistinct | proteus/ProteusCore/formal/riscv-formal/monitor/generate.py:553-559 | Without a collision an edge takes in every packet exactly when they use different slots |
| ReorderBufferTraces.SharedSlotLoses | proteus/ProteusCore/formal/riscv-formal/monitor/generate.py:553-559 | Two packets of one cycle for the same slot raise no error and the earlier one is lost |
| ReorderBufferTraces.AtMostDepthLeave | proteus/ProteusCore/formal/riscv-formal/monitor/generate.py:561-572 | However many channels, no slot is read twice in a cycle without an error |
| ReorderBufferTraces.EdgeCounts | proteus/ProteusCore/formal/riscv-formal/monitor/generate.py:543-575 | One edge: packets that leave plus packets held after it are those held before plus those that came in |
| ReorderBufferTraces.DeliversInOrder | proteus/ProteusCore/formal/riscv-formal/monitor/generate.py:535-575 | In every trace without an error the emitted numbers are 0, 1, 2 and so on |
| ReorderBufferTraces.NothingLostOrDoubled | proteus/ProteusCore/formal/riscv-formal/monitor/generate.py:535-575 | Each packet leaves or is held at most as often as it came in; exactly as often if same-cycle packets use different slots |
| ReorderBufferTraces.DeliveredWasAccepted | proteus/ProteusCore/formal/riscv-formal/monitor/generate.py:535-575 | Each packet that leaves came in under the number it leaves with |
| ReorderBufferTraces.RunTrace | proteus/ProteusCore/formal/riscv-formal/monitor/generate.py:535-575 | The clocked machine goes through the states and outputs of the specified trace, and sees an error exactly if there is one |
| ReorderBufferTraces.OutputsDeliver | proteus/ProteusCore/formal/riscv-formal/monitor/generate.py:561-572 | The channels over a whole trace carry what was delivered |
| Printf.Writer.Put | morello/project/enclaveMorello/src/EL1Code/printf.c:139-151 | A character goes to the next place, and is stored only if that is below maxlen |
| Printf.OutRev | morello/project/enclaveMorello/src/EL1Code/printf.c:205-229 | The reversed digits, padded on the side that the flags ask for |
| Printf.NtoaFormat | morello/project/enclaveMorello/src/EL1Code/printf.c:233-283 | Zeros, prefix and sign within 32 characters, then the reversed text |
| Printf.NtoaLong | morello/project/enclaveMorello/src/EL1Code/printf.c:287-307 | The formatted number, digit by digit |
| Printf.Evaluate | morello/project/enclaveMorello/src/EL1Code/printf.c:607-686 | Flags, width, precision and length as the format gives them |
| Printf.Vsnprintf | morello/project/enclaveMorello/src/EL1Code/printf.c:583-863 | The return value is the length of the full text, whatever maxlen; the buffer holds its first min(length, maxlen-1) characters and NUL, and nothing else of it changes |
| Printf.FormatTwice | morello/project/enclaveMorello/src/EL1Code/printf.c:889-896 | A smaller buffer gets a prefix of what a larger one gets, and the same return value |
| Printf.DigitsStandFor | morello/project/enclaveMorello/src/EL1Code/printf.c:299-303 | The digits stand for the value modulo the power of the base that the room allows |
| Printf.NumberReadsBack | morello/project/enclaveMorello/src/EL1Code/printf.c:287-307 | A plain number read back is the value exactly when it has at most 32 digits |
| Printf.IntegerIsPlain | morello/project/enclaveMorello/src/EL1Code/printf.c:689-762 | Every integer conversion without width and precision, whatever its flags and length modifier, writes a sign, a prefix and digits |
| Printf.IntegerReadsBack | morello/project/enclaveMorello/src/EL1Code/printf.c:689-762 | Those digits read back, with the sign, are the argument cut to its length exactly when it has at most 32 digits |
| Printf.IntegerRoom | morello/project/enclaveMorello/src/EL1Code/printf.c:689-762 | Which is always so but in binary |
| Printf.SignIsKept | morello/project/enclaveMorello/src/EL1Code/printf.c:235-280 | The minus sign of a decimal number survives exactly when padding leaves it room |
| PrintfText.SpecRead | morello/project/enclaveMorello/src/EL1Code/printf.c:607-686 | A specification spelled with any flags, width, precision, stars and length is read as what it says: each flag, the numbers modulo 2^32, negative arguments, the place after it |
| PrintfText.SpecIsSpelled | morello/project/enclaveMorello/src/EL1Code/printf.c:607-686 | And everything that the parser reads up to a usable conversion character is so spelled |
| PrintfText.ArgumentIs | morello/project/enclaveMorello/src/EL1Code/printf.c:728-758 | The value that is converted is the argument modulo the power of two of its size, in the range of its type |
| PrintfText.DirectiveText | morello/project/enclaveMorello/src/EL1Code/printf.c:607-852 | Wherever a specification stands in a format the text written for it is the one given by its letter, and the rest goes on with the next arguments |
| PrintfText.RealText | morello/project/enclaveMorello/src/EL1Code/printf.c:762-779 | For floating-point letters it is the text of the argument for that letter and those flags |
| PrintfText.OrdinaryText | morello/project/enclaveMorello/src/EL1Code/printf.c:594-602 | Ordinary characters are copied |
| PrintfText.PiecesText | morello/project/enclaveMorello/src/EL1Code/printf.c:583-863 | A format put together from pieces is written piece by piece |
| PrintfText.FormatPieces | morello/project/enclaveMorello/src/EL1Code/printf.c:583-863 | So does the formatter, into a buffer of any size |
| PrintfText.PlainSigned | morello/project/enclaveMorello/src/EL1Code/printf.c:728-744 | Without width and precision %d and %i write the sign and the decimal digits, which read back to the value |
| PrintfText.PlainUnsigned | morello/project/enclaveMorello/src/EL1Code/printf.c:745-758 | %u, %o, %x and %X write the digits in base 10, 8 and 16, with a prefix if asked for and not zero |
| PrintfNumbers.NumeralIsRead | morello/project/enclaveMorello/src/EL1Code/printf.c:299-303 | A numeral reads back to its number and has no zero in front |
| PrintfNumbers.DigitsAreNumeral | morello/project/enclaveMorello/src/EL1Code/printf.c:299-303 | The digits that the loop puts into the buffer, reversed, are the numeral, or its last 32 places |
| PrintfNumbers.NumberTextIs | morello/project/enclaveMorello/src/EL1Code/printf.c:233-307 | What the code builds backwards in 32 places is the number in its field in reading order: spaces, sign, prefix, zeros, digits, spaces |
| PrintfNumbers.PaddedIsRead | morello/project/enclaveMorello/src/EL1Code/printf.c:235-245 | Zeros and digits read back to the number |
| PrintfNumbers.PrefixKeepsIff | morello/project/enclaveMorello/src/EL1Code/printf.c:247-265 | With a prefix the digits still read back to the number exactly if the field is not filled, or filled by zeros that make way |
| PrintfNumbers.WidthCostsDigits | morello/project/enclaveMorello/src/EL1Code/printf.c:247-265 | 0x1234 with a prefix in a field of four places is written 0x34 |
| PrintfNumbers.NoWidthKeepsDigits | morello/project/enclaveMorello/src/EL1Code/printf.c:247-265 | Without a width it is written 0x1234 |

## Left out

- ExtF80Rem: NaN payload propagation is not modelled, nor the flag it raises; a NaN operand gives an outcome without a value. The same holds for the other floating-point operations.
- TableIsAccurate: proves 2.1 units where the header says 2.06. The bound adds up the worst cases of the cut series and of two truncations; that they do not meet at one significand is not proved. The square root needs no more than 2.1, and it is proved on 2.1.
- ApproxRecip32: only the form by 64-by-32 division; the table form of the reciprocal, whose error is larger, is not modelled.
- CountLeadingZeros64: by its meaning, not by its tables. Masks and shifts of 64-bit words are written as division, remainder and product by powers of two. The logical operations of SHA-256 go bit by bit over integers.
- RoundPackToExtF80: the rounding precisions 32 and 64 are not modelled.
- NormRoundPackToExtF80: for a zero remainder the code shifts two zero words by 64 places, which C leaves undefined; the result is taken to be zero.
- The other SoftFloat operations: addition, multiplication, comparison and the multi-word forms of remainder, division and root repeat what is modelled.
- Engine.Close: the hash value, buffer and digest are fields of one object; the pointer into the buffer is an offset.
- Adapter.Append: the assertion that the length is a whole number of bytes is a precondition; the arbitrary-precision library is modelled by what its import and export mean.
- GenerateHash: the hash library is an unspecified function of the bytes fed to it. The bounds of the hash structure are taken to be the 33 bytes that the code expects.
- MemSweep: the capability for the memory of EL1 is taken to be whole, aligned and loadable, starting at its own base and at least one granule long, as the monitor is given it.
- Monitor.EInitData: a fault ends the instruction; what the exception handler does then is not modelled. Which bytes encode a stored capability is a parameter of the world; what the rest of a call with an overflowed loop counter does is not modelled.
- BoundsSetExact: compressed bounds are a parameter (which bounds are exact, which addresses are representable); a Morello processor is taken to represent addresses within bounds and bounds of one or two bytes.
- Seal and Unseal do not model the Global permission, nor the reserved object types of branches.
- Register saving, domain switching and the return to the caller are hardware behaviour; the saved registers are parameters of the sweep.
- DEBUG and BENCHMARK builds, console output, the UART, cycle counters and the simulators' front ends.
- Rob.Clock: depth 0, which is plain wiring, depth 1, for which the generator prints an index range from -1 down to 0, and depths that are not powers of two are left out. Before the first reset the registers hold arbitrary values, not undefined ones.
- ProteusAllocator.Alloc: addresses are 64 bits wide.
- Vsnprintf: the text of a floating-point conversion is a parameter. Types long and long long have 64 bits, plain char is unsigned, pointers have 16 bytes. The truncation of the returned length to int, an argument of another type than the conversion asks for, and a maxlen of zero with a buffer that is null are as C leaves them. A format that ends within a conversion, where the C code reads past the end of the string, ends the text.
- PutInteger: an `int` argument of the least value, whose negation overflows in C, is taken to have its true magnitude.
