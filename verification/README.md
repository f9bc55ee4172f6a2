# Verified model of SafeInt and its neighbours

A Dafny model, with machine-checked proofs, of five headers: the checked-integer
library `include/SafeInt.hpp`, the hash `include/fnv1a.h`, the string encryption
`include/xorstr.hpp`, the pattern search `include/searchers.h` and the counted
strings of `include/ntapi/string.h`. `dafny verify dfyconfig.toml` checks all of it.

## What is modelled

| file | module | models |
|---|---|---|
| `CxxInt.dfy` | `CxxInt` | the eight integer types, integral promotion, the usual arithmetic conversions, modular casts and the operators on them |
| `Bits.dfy`, `LittleEndian.dfy`, `CString.dfy`, `Wrappers.dfy` | | bitwise operators on two's complement integers, words as sequences of digits, zero-terminated text, null pointers |
| `SafeIntBase.dfy` | `SafeIntBase` | error codes, variables written through references, zones, magnitudes and negation |
| `Conversion.dfy`, `Comparison.dfy`, `Addition.dfy`, `Subtraction.dfy`, `RegMultiply.dfy`, `Multiplication.dfy`, `Division.dfy`, `Reversed.dfy` | | the method tables and every integer helper they select |
| `SafeIntClass.dfy`, `Alignment.dfy`, `SafeIntParse.dfy` | | the class with its assignment operators, whole runs of operators, `Align` and the decimal parser |
| `Fnv1a.dfy`, `Xorstr.dfy`, `Searchers.dfy`, `NtString.dfy` | | the four smaller headers |

A machine value is a mathematical integer together with its type, and every
operator of `CxxInt` converts its operands as C++ does and wraps its result to
the type. Helpers are written with these operators, in the order of the code, and
write their result through an `IntVar`, which may be the variable that also holds
the left operand. Their contracts speak of the exact integers only.

## Modelling decisions

- **Signed overflow.** `Add`, `Sub`, `Mul`, `Div` and `Rem` demand that a signed
  result is in range, so every use of them is a proof that the code does not rely on
  undefined behaviour there. The code does rely on wrapping at five places, which
  use `AddWrapping`, `SubWrapping` or `MulWrapping`: `include/SafeInt.hpp` lines 1849
  (`t * u` of two promoted uint16), 4800 (`-rhs` of the least int64), 4929 and 5124
  (int64 differences) and 6411 (the sum in `Align`).
- **Throwing and non-throwing helpers.** The throwing copies are modelled, since the
  class uses them. An exception is the returned error, and what the variable holds
  afterwards is part of the contract.
- **Written before checked.** At line 4624 a uint64 minus a negative number is stored
  before the test, and at line 6411 so is the aligned value. The contracts of
  `SubUint64Int` and `Align` say what is left behind.
- **Narrow minimum divided by uint64.** Lines 3462 and 3495 compare with
  `(uint64_t)min(T)`, which sign-extends when T is narrower than 64 bits. The comment
  there promises -1 for the least value divided by its own magnitude. The code gives 0
  for that divisor and -1 for 2^64 minus it. `QuotientIsExact` shows that these are
  the only wrong quotients. `U / SafeInt<uint64_t>` inherits them (`DivideIsExact`).
- **Odd number of nibbles.** The entry that `compile_pattern` makes of a left-over
  nibble has mask 0x0f while the value is in the high half, so it tests only that the
  low nibble of the byte is 0. `SearchObeysIffEven` shows that the search does what the
  text says exactly for even numbers of nibbles.
- **Build settings.** `SAFEINT_USE_INTRINSICS` and `JM_XORSTR_DISABLE_AVX_INTRINSICS`
  are parameters, and both settings are proved to meet the same contract. The width of
  `uintptr_t` in `ntapi/string.h` is 4 or 8 bytes.
- **Parameters for what is not visible.** The keys of an `xor_string`, the case folding
  of a locale and the character mapping of `make_hash` are arbitrary. `_mul128` and
  `_umul128` give the exact 128-bit product, and `std::search` the leftmost match.

## Model

| member | source | states |
|---|---|---|
| `SafeIntClass.ApplyIsExact` | include/SafeInt.hpp:5978-6141 | one `+=`, `-=`, `*=`, `/=` or `%=` does exactly what integer arithmetic says (result if it fits, overflow if not, divide by zero), for all eight types on either side, if and only if it is not a narrow signed minimum divided by one of two uint64 divisors |
| `SafeIntClass.TraceIsExact` | include/SafeInt.hpp:5978-6141 | a run of operators reports and leaves the exact outcome at every step if and only if no step up to the first failure divides at those two points |
| `SafeIntClass.RunIsExact` | include/SafeInt.hpp:5978-6141 | a run holds the exact integer result of all its steps, or stops at the first step whose exact result leaves the type or divides by zero, holding the exact result of the steps before it |
| `SafeIntClass.ApplyArithmetic` | include/SafeInt.hpp:5993-6141 | the outcome of +=, -= and *= in plain sums, differences and products, with the value that a failed uint64 minus negative leaves |
| `SafeIntClass.ApplyDivision` | include/SafeInt.hpp:5978-6065 | the outcome of /= and %= as stored quotient and truncated remainder |
| `SafeIntClass.ExactRunStep` | include/SafeInt.hpp:5978-6141 | the exact value after k + 1 steps is the operator applied to the exact value after k |
| `SafeIntClass.GoodStepsIsFirstFailure` | include/SafeInt.hpp:5978-6141 | the step at which a run stops is the first that has no exact result in the type |
| `SafeIntClass.TraceIsRuns` | include/SafeInt.hpp:5978-6141 | the trace of a run records the run of every prefix, up to the first failure |
| `SafeIntClass.FailureKeepsValue` | include/SafeInt.hpp:5978-6141 | a failed operator leaves `m_int` unchanged if and only if it is not uint64 minus a negative number |
| `SafeIntClass.QuotientAndRemainder` | include/SafeInt.hpp:6047-6065 | for every non-zero divisor: the remainder exists, is smaller than the divisor and never of the opposite sign to the dividend; exactly when a quotient exists; and, if it does, dividend = quotient * divisor + remainder if and only if this is not one of the two narrow-minimum points |
| `SafeIntClass.FailureExample` | include/SafeInt.hpp:4620-4632 | a concrete failure that changes `m_int`: UINT64_MAX minus (int8) -1 leaves 0 |
| `SafeIntClass.Perform` | include/SafeInt.hpp:5978-6141 | a caller that applies operators to one object until one fails ends with the outcome of `Run`, so the run theorems hold of the object |
| `SafeIntClass.PerformStep` | include/SafeInt.hpp:5978-6141 | each of the five operators on the object has the outcome of `Apply` |
| `SafeIntClass.NarrowMinExample` | include/SafeInt.hpp:3462 | concrete inputs for the two wrong quotients: (int8) -128 by (uint64) 128 and by 2^64 - 128 |
| `SafeIntClass.SafeInt.constructor` | include/SafeInt.hpp:5630-5633 | the variable starts at zero |
| `SafeIntClass.SafeInt.Assign` | include/SafeInt.hpp:5677-5699 | assignment from any integer type: the value if it fits, otherwise overflow and no change |
| `SafeIntClass.SafeInt.AddAssign` | include/SafeInt.hpp:6085-6104 | m_int becomes the exact sum if it fits the left type, otherwise overflow and no change; the same outcome as `Apply` |
| `SafeIntClass.SafeInt.SubAssign` | include/SafeInt.hpp:6122-6141 | m_int becomes the exact difference if it fits, otherwise overflow and no change, except that a failed uint64 minus negative leaves the difference minus 2^64 |
| `SafeIntClass.SafeInt.MulAssign` | include/SafeInt.hpp:6009-6028 | m_int becomes the exact product if it fits, otherwise overflow and no change, with and without compiler intrinsics |
| `SafeIntClass.SafeInt.DivAssign` | include/SafeInt.hpp:6046-6065 | divide by zero, the truncated quotient if it fits, otherwise overflow and no change; 0 and -1 at the two divisors of a narrow signed minimum |
| `SafeIntClass.SafeInt.ModAssign` | include/SafeInt.hpp:5978-5991 | divide by zero and no change, or the truncated remainder, which always fits |
| `SafeIntClass.SafeInt.Add` | include/SafeInt.hpp:6069-6083 | the exact sum in a new value if it fits the left type, otherwise overflow; the operand is unchanged |
| `SafeIntClass.SafeInt.Subtract` | include/SafeInt.hpp:6107-6120 | the same for the difference |
| `SafeIntClass.SafeInt.Multiply` | include/SafeInt.hpp:5994-6007 | the same for the product, with and without compiler intrinsics |
| `SafeIntClass.SafeInt.Divide` | include/SafeInt.hpp:6031-6044 | divide by zero, the stored quotient in a new value if it fits, otherwise overflow |
| `SafeIntClass.SafeInt.Modulus` | include/SafeInt.hpp:5963-5976 | divide by zero, or the truncated remainder in a new value |
| `SafeIntClass.SafeInt.Align` | include/SafeInt.hpp:6393-6417 | `m_int` becomes the rounded-up value wrapped to the type; failure exactly when the rounded-up value does not fit |
| `Alignment.RoundUpIsLeast` | include/SafeInt.hpp:6393-6417 | the value `Align` aims for is the least multiple of the alignment that is not below the operand |
| `Alignment.WrappedIsPositive` | include/SafeInt.hpp:6413-6414 | the single test `m_int <= 0` after wrapping tells overflow from success, for every type and every permitted bit count |
| `Alignment.AlignedUp` | include/SafeInt.hpp:6408-6411 | adding and masking in the promoted type and casting back rounds up, modulo the type, even when the addition wraps |
| `Alignment.AlignValue` | include/SafeInt.hpp:6409 | the low mask is 2^bits - 1 and is computed without overflow |
| `Alignment.HighMask` | include/SafeInt.hpp:6411 | its complement clears the low bits of the promoted type |
| `Alignment.ClearLowBits` | include/SafeInt.hpp:6411 | the bitwise and with the complement is rounding down to a multiple of 2^bits, on both signed and unsigned words |
| `Alignment.MaskedSumValue` | include/SafeInt.hpp:6411 | the masked sum is the wrapped sum rounded down |
| `SafeIntParse.SafeTtoI` | include/SafeInt.hpp:6433-6472 | the integer denoted by the optional sign and the longest digit prefix if it fits; overflow exactly when it does not, or the text is null or empty |
| `SafeIntParse.ParseDigits` | include/SafeInt.hpp:6455-6469 | the digit loop, of either sign, ends with the exact value of the digit prefix or fails exactly when that does not fit |
| `SafeIntParse.AppendDigit` | include/SafeInt.hpp:6460-6466 | one digit: times ten, unless the number so far is zero, then plus or minus the digit |
| `SafeIntParse.ParsedText` | include/SafeInt.hpp:6448-6470 | after an optional + or -, the digits up to the first character that is none, for every text; without digits the value is 0 |
| `SafeIntParse.DecimalHorner` | include/SafeInt.hpp:6460-6466 | decimal notation: one more digit is ten times the number plus the digit |
| `SafeIntParse.SplitText` | include/SafeInt.hpp:6455-6458 | every text is digits followed by a tail that does not start with one |
| `SafeIntParse.ParsePrinted` | include/SafeInt.hpp:6429-6432 | the decimal print of every integer, read from its buffer, denotes that integer |
| `SafeIntParse.PrintedForm` | include/SafeInt.hpp:6429-6432 | the printed form that is parsed back is decimal notation without leading zeros, with a sign for negative numbers only |
| `SafeIntParse.ParseOfPrint` | include/SafeInt.hpp:6429-6472 | every value of every type, the least included, is given back by `SafeTtoI` from its decimal print |
| `SafeIntParse.DecimalOfPrint` | include/SafeInt.hpp:6455-6469 | printing and reading the digits of a natural number is the identity |
| `SafeIntParse.NoRoom` | include/SafeInt.hpp:6455-6469 | once a prefix of the digits does not fit, no longer prefix does, so stopping early is right |
| `SafeIntParse.DecimalGrows` | include/SafeInt.hpp:6455-6469 | further digits never make the magnitude smaller |
| `SafeIntBase.ExactlyOneZone` | include/SafeInt.hpp:871-904 | every pair of types satisfies the definition of exactly one of the 23 zones |
| `SafeIntBase.Abs` | include/SafeInt.hpp:936-967 | the unsigned magnitude of a negative value, the least one included |
| `SafeIntBase.SignedNegation` | include/SafeInt.hpp:971-996 | the negation of a magnitude up to that of the least value |
| `CxxInt.TypeRanges` | include/SafeInt.hpp:871-904 | the ranges of the eight types |
| `CxxInt.DivisionIdentity` | include/SafeInt.hpp:1547-1739 | the laws of truncated quotient and remainder |
| `Conversion.GetCastMethod` | include/SafeInt.hpp:1077-1105 | each method checks exactly the ends of the source range that the target range does not cover |
| `Comparison.ValidComparison` | include/SafeInt.hpp:1433-1447 | exactly which operand types each of the five methods is selected for |
| `Conversion.SafeCast` | include/SafeInt.hpp:1312-1402 | succeeds exactly when the value is in the range of the target and then preserves it |
| `Comparison.SafeEquals` | include/SafeInt.hpp:1449-1495 | equality of the integer values, for every pair of types |
| `Comparison.SafeGreaterThan` | include/SafeInt.hpp:1497-1543 | order of the integer values, for every pair of types |
| `Comparison.SafeNotEquals` | include/SafeInt.hpp:5557-5561 | negated equality of the integer values |
| `Comparison.SafeGreaterThanEquals` | include/SafeInt.hpp:5569-5573 | non-strict order of the integer values |
| `Comparison.SafeLessThan` | include/SafeInt.hpp:5575-5579 | reversed order of the integer values |
| `Comparison.SafeLessThanEquals` | include/SafeInt.hpp:5581-5585 | reversed non-strict order of the integer values |
| `Comparison.TotalOrder` | include/SafeInt.hpp:5551-5585 | trichotomy, transitivity and congruence across three different types |
| `Addition.AdditionThrow` | include/SafeInt.hpp:3613-4246 | for every pair of types the selected helper succeeds exactly when lhs + rhs fits the left type, stores it, and otherwise changes nothing |
| `Addition.AdditionMethod` | include/SafeInt.hpp:3613-3648 | exactly which operand types each of the fifteen methods is selected for |
| `Addition.AddCastIntCheckMax` | include/SafeInt.hpp:3652-3683 | the sum of two promoted operands against the maximum; exact result or unchanged variable |
| `Addition.AddCastUintCheckOverflow` | include/SafeInt.hpp:3685-3716 | comparing the wrapped 32-bit sum with lhs is true overflow; exact result or unchanged variable |
| `Addition.AddCastUintCheckOverflowMax` | include/SafeInt.hpp:3718-3749 | the same with a narrower maximum; exact result or unchanged variable |
| `Addition.AddCastUint64CheckOverflow` | include/SafeInt.hpp:3751-3784 | comparing the wrapped 64-bit sum with lhs is true overflow; exact result or unchanged variable |
| `Addition.AddCastUint64CheckOverflowMax` | include/SafeInt.hpp:3786-3819 | the same with a narrower maximum; exact result or unchanged variable |
| `Addition.AddCastIntCheckSafeIntMinMax` | include/SafeInt.hpp:3821-3852 | the sum in int against both bounds; exact result or unchanged variable |
| `Addition.AddCastInt64CheckSafeIntMinMax` | include/SafeInt.hpp:3854-3885 | the sum in int64 against both bounds; exact result or unchanged variable |
| `Addition.AddCastInt64CheckMax` | include/SafeInt.hpp:3887-3918 | the sum in int64 against the maximum; exact result or unchanged variable |
| `Addition.AddCastUint64CheckSafeIntMinMax` | include/SafeInt.hpp:3920-3987 | uint64 plus a signed number, negative or not; exact result or unchanged variable |
| `Addition.AddCastUint64CheckSafeIntMinMax2` | include/SafeInt.hpp:3989-4046 | a narrower unsigned number plus int64; exact result or unchanged variable |
| `Addition.AddCastInt64CheckOverflow` | include/SafeInt.hpp:4048-4094 | the sign tests on the wrapped sum are true signed overflow; exact result or unchanged variable |
| `Addition.AddCastInt64CheckOverflowSafeIntMinMax` | include/SafeInt.hpp:4096-4132 | the same, then both bounds of a narrower type; exact result or unchanged variable |
| `Addition.AddCastInt64CheckOverflowMax` | include/SafeInt.hpp:4134-4205 | int64 plus an unsigned number: the wrapped sum below lhs is true overflow; exact result or unchanged variable |
| `Addition.AddManualCheck` | include/SafeInt.hpp:4207-4246 | a narrow signed number plus uint64; exact result or unchanged variable |
| `Subtraction.SubtractThrow` | include/SafeInt.hpp:4276-4310 | for every pair of types, lhs - rhs with a result of the left type: exact if it fits, else overflow and no change, except that a failed uint64 minus negative stores the wrapped sum |
| `Subtraction.SubtractThrow2` | include/SafeInt.hpp:4313-4347 | for every pair of types, lhs - rhs with a result of the right type: exact if it fits, else overflow and no change |
| `Subtraction.SubtractionMethod` | include/SafeInt.hpp:4276-4310 | exactly which operand types each of the twelve methods is selected for |
| `Subtraction.SubtractionMethod2` | include/SafeInt.hpp:4313-4347 | exactly which operand types each of the ten right-result methods is selected for |
| `Subtraction.SubBothUnsigned` | include/SafeInt.hpp:4351-4378 | unsigned minus unsigned; exact result or unchanged variable |
| `Subtraction.SubCastIntCheckSafeIntMinMax` | include/SafeInt.hpp:4411-4438 | the difference in int, cast with a check; exact result or unchanged variable |
| `Subtraction.SubCastIntCheckMin` | include/SafeInt.hpp:4463-4496 | the difference in int against the minimum only; exact result or unchanged variable |
| `Subtraction.SubCastInt64CheckSafeIntMinMax` | include/SafeInt.hpp:4498-4519 | the difference in int64, cast with a check; exact result or unchanged variable |
| `Subtraction.SubCastInt64CheckMin` | include/SafeInt.hpp:4544-4577 | the difference in int64 against the minimum only; exact result or unchanged variable |
| `Subtraction.SubUint64Int` | include/SafeInt.hpp:4579-4632 | uint64 minus signed; the sum for a negative rhs is written before it is checked and stays when the check fails |
| `Subtraction.SubUintInt64` | include/SafeInt.hpp:4719-4782 | a narrower unsigned number minus int64; exact result or unchanged variable |
| `Subtraction.PlusMagnitude` | include/SafeInt.hpp:4765-4768 | adding ~rhs + 1 is subtracting a negative rhs, without wrapping |
| `Subtraction.SubInt64Int` | include/SafeInt.hpp:4839-4891 | the sign tests on the wrapped difference are true overflow; exact result or unchanged variable |
| `Subtraction.SubIntInt64` | include/SafeInt.hpp:4995-5116 | a narrower signed number minus int64, by the signs of both; exact result or unchanged variable |
| `Subtraction.SubInt64Uint` | include/SafeInt.hpp:5154-5187 | int64 minus unsigned: the wrapped difference above lhs is true overflow; exact result or unchanged variable |
| `Subtraction.SubIntUint64` | include/SafeInt.hpp:5223-5284 | a narrow signed number minus uint64, by magnitudes; exact result or unchanged variable |
| `Subtraction.Sub2BothUnsigned` | include/SafeInt.hpp:4380-4409 | unsigned minus unsigned, cast to the right type with a check; exact result or unchanged variable |
| `Subtraction.Sub2CastIntCheckSafeIntMinMax` | include/SafeInt.hpp:4440-4461 | the difference in int, cast with a check; exact result or unchanged variable |
| `Subtraction.Sub2CastInt64CheckSafeIntMinMax` | include/SafeInt.hpp:4521-4542 | the difference in int64, cast with a check; exact result or unchanged variable |
| `Subtraction.Sub2Uint64Int` | include/SafeInt.hpp:4634-4717 | uint64 minus a signed number of the result type; exact result or unchanged variable |
| `Subtraction.Sub2UintInt64` | include/SafeInt.hpp:4784-4837 | a narrower unsigned number minus int64, where -rhs may wrap; exact result or unchanged variable |
| `Subtraction.Sub2Int64Int` | include/SafeInt.hpp:4923-4993 | int64 minus a signed number of the result type, where the difference may wrap; exact result or unchanged variable |
| `Subtraction.Sub2IntInt64` | include/SafeInt.hpp:5118-5152 | a narrower signed number minus int64, where the difference may wrap; exact result or unchanged variable |
| `Subtraction.Sub2Int64Uint` | include/SafeInt.hpp:5189-5221 | int64 minus a narrow unsigned number of the result type; exact result or unchanged variable |
| `Subtraction.Sub2IntUint64` | include/SafeInt.hpp:5286-5314 | a narrow signed number minus uint64; exact result or unchanged variable |
| `Subtraction.Sub2Int64Uint64` | include/SafeInt.hpp:5353-5383 | int64 minus uint64; exact result or unchanged variable |
| `Multiplication.MultiplyThrow` | include/SafeInt.hpp:1763-1800 | for every pair of types, and with or without intrinsics, the selected helper succeeds exactly when the integer product fits the left type, stores it, and otherwise changes nothing |
| `Multiplication.MultiplicationMethod` | include/SafeInt.hpp:1763-1800 | exactly which operand types each of the sixteen methods is selected for |
| `Multiplication.MulCastInt` | include/SafeInt.hpp:1804-1829 | the product in int against both bounds |
| `Multiplication.MulCastUint` | include/SafeInt.hpp:1831-1856 | the product in unsigned int, also when the product of the promoted operands overflows int and wraps |
| `Multiplication.MulCastInt64` | include/SafeInt.hpp:1858-1883 | the product in int64 against both bounds |
| `Multiplication.MulCastUint64` | include/SafeInt.hpp:1885-1910 | the product in uint64 against the maximum |
| `Multiplication.MulLeft64` | include/SafeInt.hpp:2907-2958 | the states with a 64-bit left operand: exact product or unchanged variable |
| `Multiplication.MulRight64` | include/SafeInt.hpp:2961-2991 | the states with a narrower left operand and a 64-bit right one: a 32-bit product, cast with a check |
| `RegMultiply.HalfWordMultiply` | include/SafeInt.hpp:1957-2018 | for every half-word base: true exactly when a * b fits a word, and then the product, from half-word products and one wrap check |
| `RegMultiply.HalfWordMultiplyNarrow` | include/SafeInt.hpp:2082-2123 | the same when the right operand is a half word |
| `RegMultiply.ShiftAndAdd` | include/SafeInt.hpp:1995-2011 | shifting the cross product and adding the low one detects exactly the sums that leave the word |
| `RegMultiply.SplitProduct` | include/SafeInt.hpp:1957-2018 | the product by half words, and that two non-zero high halves always overflow |
| `RegMultiply.IntrinsicMultiplyUint64` | include/SafeInt.hpp:1918-1924 | the high word of the 128-bit product is zero exactly when the product fits |
| `RegMultiply.IntrinsicMultiplyInt64` | include/SafeInt.hpp:1926-1953 | the test on high and low halves and the sign of a ^ b accepts exactly the products that fit int64, the least value included |
| `RegMultiply.MultiplyUint64Uint64` | include/SafeInt.hpp:1957-2018 | uint64 * uint64; accepts exactly the products that fit the left type and returns them |
| `RegMultiply.MultiplyUint64Uint32` | include/SafeInt.hpp:2082-2123 | uint64 * uint32; accepts exactly the products that fit the left type and returns them |
| `RegMultiply.MultiplyUint64Int32` | include/SafeInt.hpp:2168-2182 | uint64 * int32, negative factors included; accepts exactly the products that fit the left type and returns them |
| `RegMultiply.MultiplyUint64Int64` | include/SafeInt.hpp:2199-2212 | uint64 * int64, negative factors included; accepts exactly the products that fit the left type and returns them |
| `RegMultiply.MultiplyInt32Uint64` | include/SafeInt.hpp:2229-2280 | int32 * uint64; accepts exactly the products that fit the left type and returns them |
| `RegMultiply.MultiplyUint32Uint64` | include/SafeInt.hpp:2329-2351 | uint32 * uint64; accepts exactly the products that fit the left type and returns them |
| `RegMultiply.MultiplyUint32Int64` | include/SafeInt.hpp:2368-2376 | uint32 * int64; accepts exactly the products that fit the left type and returns them |
| `RegMultiply.MultiplyInt64Int64` | include/SafeInt.hpp:2388-2440 | int64 * int64 by magnitudes: the same contract as the intrinsic; accepts exactly the products that fit the left type and returns them |
| `RegMultiply.MultiplyInt64Uint32` | include/SafeInt.hpp:2495-2538 | int64 * uint32; accepts exactly the products that fit the left type and returns them |
| `RegMultiply.MultiplyInt64Int32` | include/SafeInt.hpp:2584-2636 | int64 * int32; accepts exactly the products that fit the left type and returns them |
| `RegMultiply.MultiplyInt32Int64` | include/SafeInt.hpp:2689-2753 | int32 * int64; accepts exactly the products that fit the left type and returns them |
| `RegMultiply.MultiplyInt64Uint64` | include/SafeInt.hpp:2819-2860 | int64 * uint64; accepts exactly the products that fit the left type and returns them |
| `RegMultiply.MagnitudeOf` | include/SafeInt.hpp:2398-2410 | replacing a negative operand by its magnitude, which works for the least value by its unsigned reading |
| `RegMultiply.WithSign` | include/SafeInt.hpp:2412-2438 | the magnitude with its sign if that fits, up to the least value |
| `Division.DivideThrow` | include/SafeInt.hpp:3260-3591 | for every pair of types: divide by zero, the truncated quotient, or overflow exactly when that does not fit; at the two narrow-minimum points the quotients 0 and -1 |
| `Division.QuotientIsExact` | include/SafeInt.hpp:3439-3505 | the stored quotient is the truncated one if and only if this is not the minimum of a signed type below 64 bits divided by the uint64 -min or 2^64 + min, where it is 0 and -1 |
| `Division.DivOK` | include/SafeInt.hpp:3278-3310 | unsigned by unsigned |
| `Division.DivUnsignedSigned` | include/SafeInt.hpp:3312-3373 | unsigned by signed: a negative divisor is an error unless the quotient is zero |
| `Division.DivSignedUnsigned32` | include/SafeInt.hpp:3375-3424 | narrow signed by uint32, by way of int64 for a negative dividend |
| `Division.DivSignedUint64` | include/SafeInt.hpp:3426-3437 | signed by a uint64 that fits the signed type |
| `Division.DivSignedUnsigned64` | include/SafeInt.hpp:3439-3505 | signed by uint64, with the corner case as written |
| `Division.DivSignedUnsigned` | include/SafeInt.hpp:3507-3545 | signed by a narrower unsigned number |
| `Division.DivSignedSigned` | include/SafeInt.hpp:3547-3591 | signed by signed: overflow exactly for the least value by -1 |
| `Division.ModulusThrow` | include/SafeInt.hpp:1547-1739 | for every pair of types: divide by zero, or the truncated remainder, which always fits |
| `Division.NegatedRemainder` | include/SafeInt.hpp:1720 | a negative dividend and a uint64 divisor: the negated remainder of the magnitude, narrowed |
| `Reversed.Construct` | include/SafeInt.hpp:5657-5665 | SafeInt<T>(u): the value if it fits T, otherwise overflow |
| `Reversed.AddTo` | include/SafeInt.hpp:6878-6885 | U + SafeInt<T>: the exact sum if it fits T, otherwise overflow |
| `Reversed.MultiplyBy` | include/SafeInt.hpp:6703-6710 | U * SafeInt<T>: the exact product if it fits T, otherwise overflow |
| `Reversed.Subtract` | include/SafeInt.hpp:6888-6895 | U - SafeInt<T>: the exact difference if it fits T, otherwise overflow |
| `Reversed.Divide` | include/SafeInt.hpp:6862-6876 | U / SafeInt<T>: divide by zero, otherwise the quotient of the code if it fits T and overflow if not; quotient min(T) and lhs = min(U) with rhs = -1 included. That quotient is the truncated one except for a narrow signed minimum over SafeInt<uint64> at two divisors, where it is 0 and -1 |
| `Reversed.DivideIsExact` | include/SafeInt.hpp:6862-6876 | the results that U / SafeInt<T> may give are those of the truncated quotient if and only if it is not one of those two divisions |
| `Reversed.NarrowMinExample` | include/SafeInt.hpp:3495 | concrete inputs: (int8) -128 / SafeInt<uint64>(128) gives 0 where -1 does not fit, and by 2^64 - 128 it overflows where 0 fits |
| `Reversed.NegativeCornerCase` | include/SafeInt.hpp:6729-6756 | a wide unsigned lhs by a negative rhs, through the quotient of the magnitudes |
| `Reversed.Modulus` | include/SafeInt.hpp:6628-6701 | U % SafeInt<T>: divide by zero, the truncated remainder if it fits T, otherwise overflow |
| `Fnv1a.StepIsXorThenMultiply` | include/fnv1a.h:40-41 | a step is an exclusive or with the byte followed by a product with the prime modulo the word, in that order |
| `Fnv1a.HashOneMore` | include/fnv1a.h:39-42 | the hash of a stream with one more byte is one step from the hash of the stream |
| `Fnv1a.PublishedHashes` | include/fnv1a.h:89-90 | the hashes of the text a under both parameter sets are the published ones |
| `Fnv1a.BytesOfCharacter` | include/fnv1a.h:39-42 | a two-byte character gives its low byte, then its high byte; any width gives the bytes from least to most significant |
| `Fnv1a.StringByteIs` | include/fnv1a.h:37-42 | byte j of character i, after mapping, is at place i * width + j of the stream |
| `Fnv1a.AsciiLetters` | include/fnv1a.h:14-28 | the foldings exchange the cases of the 26 letters and keep every other character |
| `Fnv1a.OneByteApart` | include/fnv1a.h:36-44 | two byte streams of equal length that differ in exactly one byte never have the same hash |
| `Fnv1a.OneCharacterApart` | include/fnv1a.h:31-62 | two strings that differ in one character, in one of its bytes after mapping, never have the same hash, for every character width |
| `Fnv1a.HashInjective` | include/fnv1a.h:36-44 | different start states stay different under any stream |
| `Fnv1a.StepInjective` | include/fnv1a.h:40-41 | one xor-and-multiply step determines the byte from the state and the state from the byte |
| `Fnv1a.StepOnto` | include/fnv1a.h:40-41 | every state is reached, for every byte, so the step is a bijection |
| `Fnv1a.StandardParameters` | include/fnv1a.h:89-90 | both parameter sets have an odd prime and a basis in range |
| `Fnv1a.MakeHash` | include/fnv1a.h:31-45 | the nested loops compute the FNV-1a hash of the byte stream of a zero-terminated string |
| `Fnv1a.MakeHashCounted` | include/fnv1a.h:47-62 | the same for a counted string |
| `Fnv1a.HashChar` | include/fnv1a.h:39-42 | the inner loop hashes the bytes of one character, the least significant first |
| `Fnv1a.CaseInsensitive` | include/fnv1a.h:14-28 | strings that agree after ASCII folding to lower case give the same hashed bytes under both foldings |
| `Xorstr.StringStorage` | include/xorstr.hpp:126-142 | xoring the characters in one by one gives, in each word, the key xor the packed plain text with zero padding |
| `Xorstr.SameWord` | include/xorstr.hpp:137-140 | a character that is xored in lands in its own field and leaves the fields below it alone |
| `Xorstr.PackOne` | include/xorstr.hpp:137-140 | every other word is unchanged, and the word exists |
| `Xorstr.LiteralsOfEveryWidth` | include/xorstr.hpp:84-89 | every string of characters of 8, 16 or 32 bits is covered |
| `Xorstr.BufferIsLeast` | include/xorstr.hpp:77-81 | the buffer is the least even number of words that holds the string |
| `Xorstr.CipherIsKeyXorPlain` | include/xorstr.hpp:126-142 | a stored word is key xor plain text |
| `Xorstr.DecryptedText` | include/xorstr.hpp:207-223 | xoring a stored word with its key gives the plain text |
| `Xorstr.Place` | include/xorstr.hpp:77-81 | the buffer has a word for every character |
| `Xorstr.XorString.constructor` | include/xorstr.hpp:200 | the object starts encrypted |
| `Xorstr.XorString.Copy` | include/xorstr.hpp:186-192 | the storage is overwritten with the encrypted words |
| `Xorstr.XorString.Crypt256` | include/xorstr.hpp:162-167 | the first 4 * count words xored once each, the others untouched |
| `Xorstr.XorString.Crypt128` | include/xorstr.hpp:178-183 | the pairs from first to last xored once each, the others untouched |
| `Xorstr.XorString.CryptBlocks` | include/xorstr.hpp:216-222 | with and without AVX each word is xored exactly once |
| `Xorstr.XorString.Crypt` | include/xorstr.hpp:207-223 | the storage becomes the packed plain text, in both builds and whatever it held before, so calling it again changes nothing |
| `Xorstr.PlainTextReadsBack` | include/xorstr.hpp:225-233 | reading the words field by field gives the characters of the string, then zeros |
| `Searchers.CompilePattern` | include/searchers.h:63-93 | the loop over characters and shifts builds the vector that the nibbles of the text denote |
| `Searchers.NibbleCharacters` | include/searchers.h:52-79 | hex digits of both cases stand for their values, ? and . for any nibble, and every other character is skipped |
| `Searchers.NibblesOfConcatenation` | include/searchers.h:71-87 | a text is read one character after the other |
| `Searchers.CompiledEntries` | include/searchers.h:63-93 | value and mask of the entry of two nibbles, the high one first, and of a single one |
| `Searchers.CompiledConcatenation` | include/searchers.h:82-86 | pairs are compiled one after the other |
| `Searchers.CompiledExample` | include/searchers.h:63-93 | 8B and 8b compile to the byte 0x8b, and 48 8B to two bytes |
| `Searchers.Absorb` | include/searchers.h:71-77 | the two bit operations on mask and value fill one nibble |
| `Searchers.SearchIsLeftmost` | include/searchers.h:104-118 | the search of a compiled text returns the leftmost position that passes what the entries test (every nibble of the whole pairs, and a zero low nibble for a nibble left over), or (last, last) exactly when there is none |
| `Searchers.SearchObeysIffEven` | include/searchers.h:63-118 | for every range of bytes the search returns the leftmost position at which every nibble of the text holds, or (last, last) exactly when there is none, if and only if the number of nibbles is even |
| `Searchers.MatchesObeyedIffEven` | include/searchers.h:37-93 | the compiled entries match exactly where every nibble of the text holds, if and only if the number of nibbles is even |
| `Searchers.OddIsMissed` | include/searchers.h:88-91 | for every text with an odd number of nibbles, bytes that obey all of them from the start and are not found |
| `Searchers.EmptySearches` | include/searchers.h:108-111 | an empty range gives (last, last), and only an empty pattern gives (first, first) |
| `Searchers.StdSearchIsLeftmost` | include/searchers.h:113 | the first match from a position on, or the end |
| `Searchers.MatchesAreConstraints` | include/searchers.h:37-49 | entry-by-entry matching is the same as the nibble constraints of the text |
| `Searchers.MatchedHalves` | include/searchers.h:37-49 | masks 0xff, 0xf0, 0x0f and 0 compare the byte, its high half, its low half and nothing |
| `Searchers.ObeyedBytes` | include/searchers.h:63-118 | what one or two nibbles ask of a byte, in plain arithmetic |
| `Searchers.ObeyedConcatenation` | include/searchers.h:63-118 | pairs are asked of one byte after the other |
| `Searchers.PairMatches` | include/searchers.h:37-49 | a full entry tests exactly its two nibbles |
| `Searchers.HalfMatches` | include/searchers.h:88-91 | an entry of a left-over nibble tests only that the low nibble is zero |
| `Searchers.HalfIsNotTheHighNibble` | include/searchers.h:88-91 | for every left-over nibble there is a byte that has it in its high half and is rejected |
| `Searchers.PrintRoundTrip` | include/searchers.h:63-93 | compiling, printing and compiling again gives the same vector if and only if no left-over nibble is a non-zero digit |
| `Searchers.PrintRoundTripExample` | include/searchers.h:88-91 | the text 1 loses its digit when it is compiled, printed and compiled again |
| `Searchers.RecompiledPrint` | include/searchers.h:63-93 | every vector of whole-nibble entries is recovered from its print |
| `Searchers.PrintedCharacters` | include/searchers.h:52-93 | the print of an entry, character by character |
| `Searchers.PrintOfCompiled` | include/searchers.h:63-93 | printing a compiled text with an even nibble count gives the text without other characters, in lower case, with ? for . |
| `Searchers.PrintedIsNormalised` | include/searchers.h:63-93 | the same for every text, a left-over nibble printed as itself |
| `NtString.Equals` | include/ntapi/string.h:180-212 | word-by-word comparison is true exactly when lengths and all characters agree; it terminates and reads no byte beyond `Length`, for 4-byte and 8-byte words |
| `NtString.IEquals` | include/ntapi/string.h:214-247 | the same after case folding by any function |
| `NtString.ReadsStayInside` | include/ntapi/string.h:200-208 | the character loop stays within `Length` if and only if that is a multiple of the character size |
| `NtString.SkipEqualWords` | include/ntapi/string.h:189-199 | the word loop stops at a character boundary with all characters before it equal |
| `NtString.CharInWord` | include/ntapi/string.h:189-199 | equal words hold equal characters |
| `NtString.IStartsWith` | include/ntapi/string.h:249-270 | true exactly when the other string is a prefix after case folding |
| `NtString.StartsWith` | include/ntapi/string.h:272-288 | true exactly when the other string is a prefix |
| `NtString.EndsWith` | include/ntapi/string.h:290-306 | true exactly when the other string is a suffix |
| `NtString.StringsOfEveryLength` | include/ntapi/string.h:36-48 | every length in bytes that is a multiple of the character size is covered |
| `NtString.LoadedBytes` | include/ntapi/string.h:180-212 | a loaded two-byte character is its low byte plus 256 times its high byte |
| `NtString.FoldedTexts` | include/ntapi/string.h:214-270 | folded equality and folded prefixes are equality and prefixes of the folded character sequences |
| `NtString.PlainTexts` | include/ntapi/string.h:180-306 | equality and suffixes are those of the character sequences |
| `NtString.EqualBytes` | include/ntapi/string.h:180-212 | strings are equal exactly when their bytes are |
| `NtString.PrefixBytes` | include/ntapi/string.h:272-288 | a string is a prefix exactly when it is not longer and the first bytes agree |
| `NtString.SuffixBytes` | include/ntapi/string.h:290-306 | a string is a suffix exactly when it is not longer and the last bytes agree |
| `NtString.CutsArePrefixAndSuffix` | include/ntapi/string.h:249-306 | the first n characters of a string are a prefix under any folding, and the last n a suffix |
| `NtString.FoldedEquivalence` | include/ntapi/string.h:214-247 | folded equality is reflexive, symmetric and transitive, and follows from equality |
| `NtString.PrefixesBothWays` | include/ntapi/string.h:180-306 | strings are equal exactly when each is a prefix, or a suffix, of the other |

## Left out

- Subtraction.SubtractThrow: after a failed uint64 minus negative the variable holds the wrapped sum instead of its old value, as the code has it (line 4624).
- Reversed.Divide: for a narrow signed minimum over SafeInt<uint64> at two divisors the contract promises the wrong quotients of the code, 0 and -1; `DivideIsExact` shows that it promises the truncated quotient everywhere else.
- SafeIntClass.RunIsExact: runs that divide at the two narrow-minimum points are excluded, because the quotient there is wrong; `TraceIsExact` shows that the exclusion is exact.
- SafeIntClass.SafeInt.Align: bit counts and negative values that the assertion in the code rejects are preconditions; the assertion itself has no run-time effect in release builds.
- Searchers.SearchIsLeftmost: the nibble left over by an odd count does not constrain the high half of its byte, because the code drops its mask; `SearchObeysIffEven` states when the full reading holds.
- NtString.Equals: here and in `IEquals` and the prefix and suffix tests: a `Length` that is a multiple of the character size is assumed. The constructors see to it, but the loader names that `include/pe/module.inl` line 178 casts are not made by them; for an odd length of 16-bit characters the character loop reads past `Length` unless an earlier difference ends it, as `ReadsStayInside` shows.
- The constructors of `basic_string` and their 16-bit lengths.
- Non-throwing helpers: same checks, but the non-throwing 64-bit multiplications also store a value when they fail, and `CastUint` converts before it multiplies, so that nothing wraps.
- Conversions from and to floating point, `bool` and enumerations in SafeInt: they need IEEE arithmetic or are single-branch.
- Shifts, bitwise operators, `++`, `--`, `Min`, `Max`, `Swap` and pointer operations of SafeInt: thin wrappers with assertions.
- `U *= SafeInt<T>` and its relatives, which assign to a plain integer: compositions of operators that are modelled.
- Exception handlers and `constexpr` variants: the choice of handler does not change values.
- `signed char` strings in the character comparisons: characters are read as unsigned numbers, which decides equality the same way.
- `basic_string::empty`, `copy`, `substr` and `compare`: not used by the modelled members or without a body.
- `key4` and `key8` of xorstr: compile-time key generation, replaced by arbitrary keys.
- The `std::array`, `std::string` and literal forms of `make_hash`: they forward to the counted form.
- `include/phnt`, `include/pe`, `include/ntdll.h`, the critical-section and memory-protection wrappers and `src/loginhelper`: declarations, system calls and game hooks.
