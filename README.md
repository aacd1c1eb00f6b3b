# BigInteger: a verified model of the arbitrary-precision integer

This project models the core of a C++ big-number library: the `BigInteger`
class and the pieces of its `BigNumber` base that it relies on.

**How a number is stored.** A number is a sign bit and a vector of unsigned
64-bit "units". Each unit holds 18 decimal digits, so the base is 10^18.
The most significant unit comes first.

**What the model covers.**
- Reading a number from text: `check_number` and `parse`.
- Printing a number: `operator<<`.
- The arithmetic: `+ - * / %`, `pow`, and the shifts `<< >>`.
- The comparisons `==`, `<=>` and `!`.
- The conversions between decimal units and 64-bit binary words:
  `dec2bin` and `bin2dec`.
- The bitwise operators `& | ^ ~`, which are built on those conversions.
- The integer constructor, the compound assignments, and `++`/`--`.

**How the model is organised.**
- The number is the datatype `Limbs.BigInt(neg, limbs)`. Its value is
  `Limbs.IntVal`.
- `Limbs.Normal` says the limbs are canonical and the number is not -0.
  Canonical means: non-empty, every limb below 10^18, and no leading zero
  limb.
- Pure operations are functions.
- The loops of the source are methods with loop invariants. Each one is
  proved equal to the function that specifies it.
- The object that the compound assignments and `++`/`--` update in place is
  the class `Integer.BigInteger`.

**As written and as intended.** Where the code as written does something its
authors evidently did not intend, the model has two definitions:
- the behaviour as written, with a lemma that exhibits the discrepancy;
- the corrected behaviour, with its intended property proved.

The rest of the model uses the corrected definitions. See "## Findings".

**Modules.**
- `Arith`: powers and division facts.
- `Limbs`: the constants, the representation, and its value.
- `Comparison`: `abs`, unary minus, `!`, `==`, `<=>`.
- `Addition`: `operator+` and binary `-`.
- `Multiplication`: `*`.
- `Division`: `/` and `%`.
- `Halving`: `divide_by_2`.
- `Powers`: `pow`, `<<`, `>>`.
- `Words`: binary words and the bitwise operations on naturals.
- `Binary`: `dec2bin`, `bin2dec`, `& | ^ ~`.
- `Text`: `check_number`, `parse`, the string constructor, `operator<<`.
- `Integer`: the integer constructor and the `BigInteger` class.

## Model

| member | source | states |
|---|---|---|
| Limbs.BaseIsPowerOfTen | components/BigNumber.hpp:33-58 | the overflow unit 10^18 is 10 to the power of the 18 digits stored per unit |
| Limbs.WordIsPowerOfTwo | components/BigNumber.hpp:45-58 | a `uint64_t` unit holds values below 2^64, and the base 10^18 fits below it |
| Limbs.FromInt | components/BigInteger.hpp:88-95 | the integer constructor as intended: a normal number whose value is the given integer and whose sign bit is set exactly for negatives |
| Limbs.FromMachineInt | components/BigInteger.hpp:88-95 | below 10^18 in magnitude the constructor gives a single canonical limb holding the value |
| Limbs.NormalEqual | components/BigInteger.hpp:399-415 | two normal numbers are the same representation exactly when their values are equal |
| Limbs.FromIntOfNormal | components/BigInteger.hpp:88-95 | constructing from the value of a normal number gives that number back |
| Comparison.Abs | components/BigInteger.hpp:97-101 | `abs` clears the sign: the result's value is the magnitude, and it is normal when the limbs are canonical |
| Comparison.Negate | components/BigInteger.hpp:165-169 | unary minus flips the sign bit: the value is negated, and a normal nonzero number stays normal |
| Comparison.NegateTwice | components/BigInteger.hpp:165-169 | unary minus applied twice gives the number back |
| Comparison.IsZeroOfNormal | components/BigInteger.hpp:171-173 | `!x` holds on a normal number exactly when its value is 0 |
| Comparison.NegatedZeroIsNotZero | components/BigInteger.hpp:165-173 | `-0` has value 0, yet it is not `== 0`, `!` does not hold on it, and `<=>` orders it below 0 |
| Comparison.Equals | components/BigInteger.hpp:399-415 | the `==` loop returns true exactly when sign and limbs are equal |
| Comparison.CompareScan | components/BigInteger.hpp:417-446 | the `<=>` loop (signs first, then lengths, then the first differing limb) computes `Compare` |
| Comparison.LexCompareFirstDifference | components/BigInteger.hpp:433-441 | the first differing limb of equal-length limbs decides the order; with none they are equal |
| Comparison.CompareSound | components/BigInteger.hpp:417-446 | on normal numbers `<=>` gives less, equal or greater exactly as the values compare |
| Comparison.CompareAntisymmetric | components/BigInteger.hpp:417-446 | swapping the operands of `<=>` reverses the ordering |
| Addition.Plus | components/BigInteger.hpp:103-163 | the `operator+` method, loop for loop, computes `AddAsWritten` |
| Addition.AddRemainingDigits | components/BigInteger.hpp:138-149 | the `add_remaining_digits` lambda adds the rest of the longer operand into the result, or in the mixed-sign case takes the stored borrow away from it, as `RawTail` states |
| Addition.EraseLeadingZeros | components/BigInteger.hpp:154-156 | erasing leading zero units leaves the trimmed limbs |
| Addition.AddAsWrittenAgrees | components/BigInteger.hpp:103-163 | whenever no stored limb reaches 10^18, `operator+` as written equals the corrected sum |
| Addition.SameSignAsWrittenValue | components/BigInteger.hpp:119-136 | for operands of one sign, `operator+` as written has the value of the sum; a carry is added only once, so no limb exceeds 10^18 (though one may equal it), and a zero result is not negative |
| Addition.CarryNotPropagated | components/BigInteger.hpp:119-136 | 2·10^36 − 10^18 + 1 (limbs 1, MaxLimb, 1) plus 10^18 − 1 stores a limb equal to 10^18, where the sum has limbs 2, 0, 0 |
| Addition.BorrowNotPropagated | components/BigInteger.hpp:138-149 | 10^36 − 1 stores the wrapped limb 2^64 − 1, so the result's value exceeds the true difference |
| Addition.SumCorrect | components/BigInteger.hpp:103-163 | the corrected sum of normal operands is normal and has the sum of their values |
| Addition.SumOfNonNegative | components/BigInteger.hpp:103-163 | the sum of non-negative normal numbers is non-negative with the sum of their magnitudes |
| Addition.SubtractCorrect | components/BigInteger.hpp:175-177 | binary `-`, the sum with the negated operand, is normal and has the difference of the values |
| Addition.SumCommutes | components/BigInteger.hpp:103-163 | the sum does not depend on the order of the operands |
| Addition.SumZero | components/BigInteger.hpp:103-163 | adding 0 changes nothing, and a number minus itself is 0 |
| Addition.SecondIsBiggerSound | components/BigInteger.hpp:110-112 | the sign test `abs(*this) > abs(other)` compares the magnitudes' values |
| Multiplication.Multiply | components/BigInteger.hpp:179-228 | the `operator*` method (rows, split units, shifted partial sums) computes `Product` |
| Multiplication.MultiplyRows | components/BigInteger.hpp:186-199 | the first double loop stores, for each limb of `other`, the row of 128-bit products with the carry kept in the leading entry |
| Multiplication.MultiplyRow | components/BigInteger.hpp:190-198 | one row of the first double loop is `Row` |
| Multiplication.SplitRows | components/BigInteger.hpp:204-216 | each partial sum is the constructed 0 followed by the row's entries split into a high unit, pushed only when nonzero, and a low unit |
| Multiplication.SplitRow | components/BigInteger.hpp:206-215 | the inner loop of the second nest replaces partial sum `i`, the constructed 0, by 0 followed by the row's entries split into units, and leaves every other partial sum unchanged |
| Multiplication.AppendZeros | components/BigInteger.hpp:219-221 | the innermost loop appends the given number of zero units to one partial sum and leaves the others unchanged |
| Multiplication.AddShiftedRows | components/BigInteger.hpp:218-223 | the final loop's running sum is `RunningSum` over all rows |
| Multiplication.ShiftAndAdd | components/BigInteger.hpp:219-222 | one turn of the final loop takes the running sum for the first `i` rows to the running sum for `i + 1` rows and leaves the partial sums after `i` unchanged |
| Multiplication.RunningSum | components/BigInteger.hpp:218-223 | after k rows the running sum is normal and equals the first operand times the top k limbs of the second, shifted into place |
| Multiplication.ProductCorrect | components/BigInteger.hpp:179-228 | the product has canonical limbs, the sign bit is the exclusive or of the signs, and the value is the product of the values |
| Multiplication.ProductNormal | components/BigInteger.hpp:225 | the product is normal exactly when the signs agree or the product is nonzero |
| Multiplication.ZeroTimesNegative | components/BigInteger.hpp:225 | 0 times −5 gives a negative-signed zero |
| Multiplication.ProductCommutes | components/BigInteger.hpp:179-228 | the product does not depend on the order of the operands |
| Multiplication.ProductOne | components/BigInteger.hpp:179-228 | multiplying a normal number by 1 gives it back |
| Division.Divide | components/BigInteger.hpp:230-258 | the `operator/` method (subtracting doubled divisors) computes `Quotient`, including the division-by-zero error |
| Division.LargestDoubling | components/BigInteger.hpp:243-249 | the inner loop finds a power of two p with p·d ≤ remainder ≤ 2·p·d |
| Division.QuotientCorrect | components/BigInteger.hpp:230-258 | `/` fails exactly on a zero divisor (with the division-by-zero error); otherwise the quotient's magnitude is the magnitudes' quotient rounded down, and its sign bit is the exclusive or of the signs |
| Division.RemainderCorrect | components/BigInteger.hpp:260-263 | `%` fails exactly on a zero divisor; otherwise a = q·b + r with the quotient q, and r is normal, below the divisor in magnitude, and never of the opposite sign to the dividend |
| Halving.DivideBy2 | components/BigInteger.hpp:31-47 | the `divide_by_2` loop computes `Half` |
| Halving.HalfValue | components/BigInteger.hpp:31-47 | `divide_by_2` keeps the sign and halves the magnitude, rounding down |
| Halving.HalfCanonical | components/BigInteger.hpp:42-44 | erasing the one leading zero keeps canonical limbs canonical |
| Powers.Pow | components/BigInteger.hpp:448-458 | `pow` by squaring is canonical, negative exactly for a negative base with an odd exponent, and has the value base^exponent |
| Powers.SquareTimes | components/BigInteger.hpp:453-457 | one recursion step gives the square of the half power, times the base when the exponent is odd |
| Powers.PowerOfTwo | components/BigInteger.hpp:448-458 | `pow(2, n)` is the natural number 2^n, never 0 |
| Powers.ShiftLeftCorrect | components/BigInteger.hpp:265-267 | `<<` keeps the sign and multiplies the value by 2^n |
| Powers.ShiftRightCorrect | components/BigInteger.hpp:269-271 | `>>` keeps the sign and divides the magnitude by 2^n, rounding down |
| Words.WordsValue | components/BigInteger.hpp:460-478 | the words of n, most significant first, are below 2^64, spell n, have no leading zero word, and are empty only for 0 |
| Words.ReversedLittleWords | components/BigInteger.hpp:478 | reversing the words the bit loop completes gives the words most significant first |
| Words.CombineValue | components/BigInteger.hpp:273-358 | the word loops of `& \| ^` compute the bitwise operation on the binary values |
| Words.CombineCommutes | components/BigInteger.hpp:273-358 | the word loops do not depend on the order of the operands |
| Words.BitwiseCommutes | components/BigInteger.hpp:273-358 | the bitwise operations on naturals commute |
| Words.BitwiseZero | components/BigInteger.hpp:273-358 | `x & 0` is 0, and `x \| 0` and `x ^ 0` are x |
| Words.BitwiseBound | components/BigInteger.hpp:288 | a bitwise operation on two values below 2^k stays below 2^k, so a word stays a word |
| Words.ComplementValue | components/BigInteger.hpp:360-374 | complementing every word gives 2^(64k) − 1 minus the value |
| Words.IncrementValue | components/BigInteger.hpp:485 | adding one with the carry passed on gives the value plus one, modulo 2^(64k) |
| Words.WordBit | components/BigInteger.hpp:510 | bit `unit_index` of word `index` is bit `bit_index` of the whole vector |
| Binary.Dec2BinLoop | components/BigInteger.hpp:460-489 | the `dec2bin` method computes `Dec2BinAsWritten` |
| Binary.BitLoop | components/BigInteger.hpp:466-476 | the bit loop yields the 64-bit words of the magnitude, least significant first |
| Binary.ComplementEach | components/BigInteger.hpp:481-483 | the loop over the units complements every word |
| Binary.Dec2BinValue | components/BigInteger.hpp:460-489 | corrected `dec2bin` gives bounded words, as many as the magnitude needs and none for 0, spelling the value modulo 2^(64k) |
| Binary.NegateAgrees | components/BigInteger.hpp:480-486 | when the last word is nonzero, the last-word increment equals two's complement negation |
| Binary.Dec2BinAgrees | components/BigInteger.hpp:460-489 | `dec2bin` as written equals the corrected one unless the magnitude is a multiple of 2^64 |
| Binary.CarryLostInDec2Bin | components/BigInteger.hpp:485 | −2^64 gives the words [2^64 − 2, 0] as written, where two's complement gives [2^64 − 1, 0] |
| Binary.Bin2DecLoop | components/BigInteger.hpp:500-521 | the `bin2dec` loop adds 2^bit_index for every set bit and computes `Bin2Dec` |
| Binary.Bin2DecValue | components/BigInteger.hpp:500-521 | `bin2dec` gives the natural number the words spell |
| Binary.Dec2BinRoundTrip | components/BigInteger.hpp:460-521 | a non-negative number comes back unchanged through `dec2bin` and `bin2dec` |
| Binary.Dec2BinNegativeTrip | components/BigInteger.hpp:460-521 | a negative number comes back as 2^(64k) plus its value |
| Binary.CombineWords | components/BigInteger.hpp:273-358 | the word loops of `& \| ^`, with `add_remaining_digits` for `\|` and `^`, compute `Combine` |
| Binary.AddRemainingDigits | components/BigInteger.hpp:294-358 | the leftover words of the longer operand are copied just below the combined ones |
| Binary.ComplementWords | components/BigInteger.hpp:360-374 | the word loop of `~` computes `Complement` |
| Binary.BinaryOpValue | components/BigInteger.hpp:273-358 | on non-negative operands `& \| ^` give the bitwise operation on the values |
| Binary.BinaryOpCommutes | components/BigInteger.hpp:273-358 | `& \| ^` commute and never give a negative number |
| Binary.BinaryOpZero | components/BigInteger.hpp:273-358 | the model's own result for a 0 operand, where the source indexes the empty `dec2bin(0)` (undefined behaviour, see `Binary.BinaryOp` under Left out): `&` gives 0 and `\|`, `^` give the other operand back |
| Binary.ZeroHasNoWords | components/BigInteger.hpp:460-489 | `dec2bin(0)` is empty, so the word loops of `& \| ^ ~` would index an empty vector |
| Binary.NotValue | components/BigInteger.hpp:360-374 | `~a` is 2^(64k) − 1 − a for non-negative a, and \|a\| − 1 for negative a |
| Text.Stoull | components/BigNumber.hpp:76-80 | `std::stoull` gives a value below 2^64, and nothing when the digits do not fit |
| Text.StoullInRange | components/BigNumber.hpp:76-80 | up to 18 digits always fit, and unsigned digits are read as their decimal value |
| Text.Substr | components/BigNumber.hpp:76-80 | `substr` is cut short at the end of the string |
| Text.ParseLoop | components/BigNumber.hpp:70-83 | the `parse` method computes `ParseAsWritten`, including a `stoull` that throws |
| Text.ParseValue | components/BigNumber.hpp:70-83 | corrected `parse`: limbs below 10^18 spelling the digits, the sign from a leading minus, canonical when there is no leading zero |
| Text.ParseAgrees | components/BigNumber.hpp:70-83 | `parse` as written equals the corrected parse, except on negative text whose length is a multiple of 18 |
| Text.NegativeGroupAsWritten | components/BigNumber.hpp:75-80 | an 18-character negative text gets the limbs [v, (2^64 − v) mod 2^64], where the corrected parse gives [v] |
| Text.FromStringCorrect | components/BigInteger.hpp:24-29 | the string constructor fails exactly when `check_number` rejects the text, with that text; otherwise it holds the signed value of the digits |
| Text.NatText | components/BigNumber.hpp:119 | `os << unit` writes decimal digits with no leading zero, spelling the unit |
| Text.PaddedLimb | components/BigNumber.hpp:120 | a unit after the first is written as exactly 18 zero-filled digits that spell it |
| Text.Write | components/BigNumber.hpp:113-126 | `operator<<` sends the minus sign to `std::cout` and the digits of the units to the stream |
| Text.WriteLimbs | components/BigNumber.hpp:118-121 | the unit loop writes the first unit as is and the rest zero-filled to width 18 |
| Text.DigitsGroups | components/BigNumber.hpp:118-121 | grouping the written digits by 18 from the right gives the units back |
| Text.RoundTrip | components/BigNumber.hpp:113-126 | the sign and digits of a normal number, parsed again, give the same number |
| Text.SignLeavesStream | components/BigNumber.hpp:114-115 | the stream alone holds only the magnitude, so a negative number read back from it comes back as its absolute value |
| Integer.MachineIntAgrees | components/BigInteger.hpp:88-95 | below 10^18 in magnitude the integer constructor as written builds the normal number holding the value |
| Integer.LargeMachineIntAsWritten | components/BigInteger.hpp:93 | 10^18 is stored as one limb equal to the base, which is not canonical, where the intended limbs are 1 and 0 |
| Integer.UnsignedMachineIntAsWritten | components/BigInteger.hpp:93 | the `uint64_t` 2^63 + 1 passes through `int64_t` and is stored as 2^63 − 1 |
| Integer.BigInteger.Default | components/BigInteger.hpp:79-82 | the default constructor holds the single limb 0 |
| Integer.BigInteger.OfInt | components/BigInteger.hpp:88-95 | the integer constructor holds the normal number with the given value |
| Integer.BigInteger.Copy | components/BigInteger.hpp:83 | the copy constructor holds the same number |
| Integer.BigInteger.AddAssign | components/BigInteger.hpp:523 | `+=` replaces the number by the sum, which is normal and has the sum of the values |
| Integer.BigInteger.SubAssign | components/BigInteger.hpp:524 | `-=` replaces the number by the difference, normal and with the difference of the values |
| Integer.BigInteger.MulAssign | components/BigInteger.hpp:525 | `*=` replaces the number by the product, with the product of the values |
| Integer.BigInteger.DivAssign | components/BigInteger.hpp:526 | `/=` throws exactly on a zero divisor and leaves the number unchanged; otherwise it stores the quotient |
| Integer.BigInteger.ModAssign | components/BigInteger.hpp:527 | `%=` throws exactly on a zero divisor; otherwise it stores a normal remainder below the divisor in magnitude |
| Integer.BigInteger.ShiftRightAssign | components/BigInteger.hpp:528 | `>>=` keeps the sign and divides the magnitude by 2^n |
| Integer.BigInteger.ShiftLeftAssign | components/BigInteger.hpp:529 | `<<=` multiplies the value by 2^n |
| Integer.BigInteger.BitwiseAssign | components/BigInteger.hpp:530-532 | `&=`, `\|=`, `^=` store a natural result, the bitwise operation on the values when both are non-negative |
| Integer.BigInteger.Increment | components/BigInteger.hpp:376-379 | prefix `++` is `+= 1`: it takes any operand `+=` accepts, -0 included, and leaves the normal number one greater |
| Integer.BigInteger.Decrement | components/BigInteger.hpp:382-385 | prefix `--` is `-= 1`: it takes any operand `-=` accepts, -0 included, and leaves the normal number one smaller |
| Integer.BigInteger.PostIncrement | components/BigInteger.hpp:387-391 | postfix `++` returns the old number unchanged and leaves the normal number one greater, on any operand `+=` accepts |
| Integer.BigInteger.PostDecrement | components/BigInteger.hpp:393-397 | postfix `--` returns the old number unchanged and leaves the normal number one smaller, on any operand `-=` accepts |
| Integer.IncrementNegativeZero | components/BigInteger.hpp:376-385 | the -0 left by `/=`, `*=` or `>>=` is not normal, yet `++` takes it to 1 and `--` to -1 |
| Integer.IncrementDecrement | components/BigInteger.hpp:376-385 | `++` followed by `--` gives the number back |

## Definitions

The specification functions that the rows above are stated in terms of, and the source they model:

| definition | source | models |
|---|---|---|
| `Addition.AddAsWritten` | components/BigInteger.hpp:103-163 | `operator+` as written, carry included |
| `Addition.Sum` | components/BigInteger.hpp:103-163 | `operator+` with the carry corrected |
| `Division.Quotient` | components/BigInteger.hpp:230-258 | `operator/`, failing on a zero divisor |
| `Division.Remainder` | components/BigInteger.hpp:260-263 | `operator%` |
| `Binary.BinaryOp` | components/BigInteger.hpp:273-358 | `operator&`, `operator\|`, `operator^` through `dec2bin` and `bin2dec` |
| `Binary.Not` | components/BigInteger.hpp:360-374 | `operator~` |
| `Text.IsNumber` | components/BigInteger.hpp:24-29 | the texts `check_number` accepts |
| `Text.ParseAsWritten` | components/BigNumber.hpp:70-83 | `parse` as written |
| `Text.Parse` | components/BigNumber.hpp:70-83 | `parse` with the leading minus kept out of the digit groups |
| `Text.Render` | components/BigNumber.hpp:113-126 | what `operator<<` writes, `std::cout` and stream together |
| `Integer.MachineIntAsWritten` | components/BigInteger.hpp:88-95 | the integer constructor as written |
| `Comparison.Compare` | components/BigInteger.hpp:417-446 | `operator<=>` |

## Left out

- `std::vector` is modelled as a sequence. An update in place is a new sequence assigned to the same variable. Aliasing between vectors does not arise in this code.
- The `binary_storage_` vector and `create_binary_from_decimal` / `create_decimal_from_binary` are not modelled. No modelled operation reads them.
- The fractional part of `BigNumber` is not modelled. `BigDecimal` and `Traits.hpp` beyond `unit_type` = `uint64_t` are not part of this model. The `uint32_t` unit type is not modelled either.
- `print_binary` only writes to `std::cout`, so it is not modelled. `main.cpp` is not part of this model.
- The exception classes are modelled by the `Error` datatype: `NumberFormat(text)` and `DivisionByZero`. An out-of-range `at()` is excluded by a precondition instead, and so is `std::abs(INT64_MIN)` (see the `Integer.MachineIntAsWritten` line).
- The unit test in unit-tests/BigInteger.cpp:5-11 is not stated as a lemma. Its 44-digit literals make the concrete proof too costly.
- The operators, `pow`, the compound assignments and the class use the corrected sum, `dec2bin`, `parse` and integer constructor. They do not use the as-written ones (see "## Findings").
- Addition.Plus: it requires limbs of at least one element. It models the code as written, including the uint64 wrap-around on every limb.
- Multiplication.Multiply: it requires limbs below 10^18. The 128-bit product and its cast back to 64 bits are exact only then, so no wrap-around is modelled.
- Division.Divide: it requires canonical operands and a divisor that is not -0. On -0 the source's `other == 0` test fails and the loop never ends. The source's length-first `<=>` misorders operands with leading zero limbs.
- Powers.Pow: it requires a normal, non-negative exponent. On a negative exponent the source recurses without end, because `-1 / 2` is -0.
- Powers.ShiftLeftCorrect: a negative shift amount is excluded for the same reason.
- Powers.ShiftRightCorrect: a negative shift amount is excluded for the same reason.
- Binary.Dec2BinLoop: it requires a normal operand. On -0 the source loops never start and the negation branch indexes an empty vector.
- Binary.BinaryOp: on 0 the source's word loops index an empty vector, which is undefined behaviour. The model uses the empty word sequence, which gives the results `Binary.BinaryOpZero` states.
- Binary.Not: the same empty-vector case for `~0` is modelled the same way.
- Binary.Bin2DecLoop: it requires at least one word, because the source's `binary.at(0)` throws on an empty vector. It also requires fewer than 10^18 bits, so that `pow(2, bit_index)` can be built by the integer constructor as intended.
- Text.Write: `std::setw` and `std::setfill` are modelled only as the zero-fill to 18 digits they cause. The stream's width is assumed to be 0 on entry, and other stream state and flags are not modelled.
- Text.Parse: it does not normalise, just like the source. Leading zero digits give leading zero limbs, and "-0" keeps its minus sign. `Text.ParseValue` states canonical limbs only when there is no leading zero.
- Text.FromString: the string constructor is modelled as this function of the text, not as a class constructor.
- Integer.MachineIntAsWritten: -2^63 is excluded, because `std::abs` of it is undefined. So is the `uint64_t` value 2^63, which the cast to `int64_t` turns into -2^63.
- Integer.BigInteger.OfInt: it is the corrected constructor. The constructor as written is `Integer.MachineIntAsWritten`.
- Integer.BigInteger.MulAssign: it requires limbs below 10^18, as `Multiplication.Multiply` does.
- Integer.BigInteger.DivAssign: it requires canonical limbs and a normal divisor, as `Division.Divide` does.
- Integer.BigInteger.ModAssign: it requires canonical limbs and a normal divisor, as `Division.Divide` does.
- Integer.BigInteger.ShiftLeftAssign: it requires a non-negative, normal shift amount, as `Powers.Pow` does.
- Integer.BigInteger.ShiftRightAssign: it requires a non-negative, normal shift amount, as `Powers.Pow` does.
- `ZERO()`, `ONE()` and `TEN()` are the integer constructor applied to 0, 1 and 10. They are covered by `Limbs.FromMachineInt`.

## Findings

| source | as written | input that shows it | evidently intended | confidence | as-written member | corrected member |
|---|---|---|---|---|---|---|
| components/BigInteger.hpp:119-136 | a carry out of a limb is added to the next limb but never carried further | (2·10^36 − 10^18 + 1) + (10^18 − 1) | limbs 2, 0, 0 with the carry passed on | not executed | Addition.CarryNotPropagated | Addition.SumCorrect |
| components/BigInteger.hpp:138-149 | a borrow into a 0 limb of the longer operand wraps it to 2^64 − 1 | 10^36 + (−1) | limbs MaxLimb, MaxLimb with the borrow passed on | not executed | Addition.BorrowNotPropagated | Addition.SumCorrect |
| components/BigInteger.hpp:485 | the +1 of two's complement goes to the last word alone, and its carry is lost | −2^64 | words [2^64 − 1, 0] | not executed | Binary.CarryLostInDec2Bin | Binary.Dec2BinValue |
| components/BigNumber.hpp:75-80 | for negative text whose length is a multiple of 18, `start - is_negative` wraps to 2^64 − 1, so the digits are read twice and the minus sign goes into a group | "-" followed by 17 digits | the limbs of the magnitude alone | not executed | Text.NegativeGroupAsWritten | Text.ParseValue |
| components/BigNumber.hpp:114-115 | the minus sign is written to `std::cout`, not to the stream `os` | any negative number written to a string stream | the sign written to `os`, so the text reads back as the number | not executed | Text.SignLeavesStream | Text.RoundTrip |
| components/BigInteger.hpp:93 | a value of 10^18 or more is stored as a single unit, which is not a valid limb | 10^18 | limbs 1 and 0 | not executed | Integer.LargeMachineIntAsWritten | Limbs.FromInt |
| components/BigInteger.hpp:93 | a `uint64_t` of 2^63 or more is cast to `int64_t` and turns negative | 2^63 + 1 | the value 2^63 + 1 | not executed | Integer.UnsignedMachineIntAsWritten | Limbs.FromInt |
