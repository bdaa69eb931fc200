# A verified model of a fixed-capacity multi-word unsigned integer library

The library represents unsigned integers of a fixed number of bits
`bigint<BITS, T>` as arrays of `ceil(BITS / W)` words of an unsigned type `T`
of width W. Word 0 is the least significant. Every operation is a loop over
word arrays: bit length, widening and comparison scan or copy the words,
while ripple-carry addition, schoolbook multiplication with a double-width
overflow type, parsing from digits and the floor logarithm thread a carry
from word to word. Beside the big
integers it has radix tables and text conversions for bases 2, 8, 10, 16 and
64, and a native-integer floor logarithm.

The model has five modules:

- `Arith`: powers, floor logarithms, bit lengths and Euclidean remainders.
- `Words`: the meaning of a word array. `ToNat(words, base)` is the sum of
  `words[i] * base^i`, and the module holds the lemmas about splitting,
  padding, updating and bounding such values.
- `Elementary` (`include/numbers/elementary.hpp`): the comparison and
  arithmetic wrappers, and `logarithm` on a native integer type. The type is
  given by its largest value.
- `RadixCodec` (`include/numbers/radix.hpp`): the 256-entry parse tables
  (copied as sixteen rows of sixteen entries), the compose alphabets,
  `parse_digits`, `compose_digits`, the native `from_digits` and `to_digits`,
  and the `required_digits_radix` buffer sizes.
- `BigInt` (`include/numbers/bigint.hpp`): the datatype `BigUint(bits, width,
  words)` and every bigint operation.
  - The operations are methods. Like the source, they fill a fresh array word
    by word; the arithmetic ones thread a carry.
  - Each method is proved to produce the mathematical value modulo
    `2^(W * count)`, and the exact value when the operands fit their declared
    bit counts. There are three exceptions. `add` as written reads only
    the low count - 1 words of each operand (see Findings). `add_in_place`
    and `multiply_in_place` keep the first operand's width, so they give
    only the value modulo `2^(W * count)`: `add_in_place<uint8_t, 8, 8>`
    of `{255}` and `{1}` is `{0}`.

A bigint is a value in the library (it is passed and returned by copy), so
`BigUint` is a datatype. The arrays the loops fill are Dafny arrays.
`Width` is 8, 16 or 32: those are the word types that have an overflow type.

## Model

| member | source | states |
|---|---|---|
| Elementary.IsEqual | include/numbers/elementary.hpp:36-39 | true exactly when neither value is less than the other |
| Elementary.IsLess | include/numbers/elementary.hpp:52-55 | a strict order: true implies the values differ and the reverse does not hold; false implies b <= a |
| Elementary.IsLessOrEqual | include/numbers/elementary.hpp:60-63 | true exactly when IsLess or IsEqual holds |
| Elementary.Add | include/numbers/elementary.hpp:109-112 | the sum, from which subtracting b gives back a |
| Elementary.Multiply | include/numbers/elementary.hpp:125-128 | the product: zero when b is zero, and otherwise divisible by b with quotient a |
| Elementary.Logarithm | include/numbers/elementary.hpp:141-151 | for base >= 2 and value >= 1 the result e is the floor logarithm, base^e <= value < base^(e+1); it is 0 for values 0 and 1 and for value < base; for value != 1 the last candidate base^(e+1) fits in the type |
| Elementary.CandidateStep | include/numbers/elementary.hpp:147-149 | while the candidate base^(e+1) is at most value, multiplying by base makes it strictly larger, gives base^(e+2), and stays inside the type |
| Elementary.LogarithmLoopsForever | include/numbers/elementary.hpp:147 | with base 0 or 1 and value >= 2 (or base 0 and value 0), every candidate passes the loop test, so the loop never ends |
| Elementary.LogarithmCorrected | include/numbers/elementary.hpp:141-151 | logarithm with the loop test `result <= value / base`, so no candidate leaves the type: for base >= 2 and value >= 1 the floor logarithm, and 0 for values 0 and 1 and for value < base, for every value up to max |
| Elementary.WrappedCandidate | include/numbers/elementary.hpp:147 | the candidate after k rounds on an unsigned type with m values, each product stored modulo m, is below m |
| Elementary.WrappedCandidateIsPowMod | include/numbers/elementary.hpp:147 | that candidate is base^(k+1) mod m |
| Elementary.WrappedLogarithmLoopsForever | include/numbers/elementary.hpp:147 | `logarithm<uint8_t>(2, 255)`: the floor logarithm is 7, but from round 7 on every candidate is 0, which passes the loop test |
| Elementary.WrappedLogarithmOvershoots | include/numbers/elementary.hpp:147 | `logarithm<uint32_t>(3, 4000000000)`: the floor logarithm is 20, but the candidate after 20 rounds is 1870418611, which passes the loop test |
| Elementary.LogarithmExamples | include/numbers/elementary.hpp:158-165 | log2 of 1, 63, 64, 127 and 128 is 0, 5, 6, 6 and 7; log5(625) = 4, log16(4096) = 3, log10(100000) = 5 |
| RadixCodec.ParseBinaryDigit | include/numbers/radix.hpp:93-115 | the base-2 table entry for a byte is a binary digit |
| RadixCodec.ParseOctalDigit | include/numbers/radix.hpp:120-142 | the base-8 table entry is an octal digit |
| RadixCodec.ParseDecimalDigit | include/numbers/radix.hpp:159-181 | the base-10 table entry is a decimal digit |
| RadixCodec.ParseHexDigit | include/numbers/radix.hpp:198-220 | the base-16 table entry is a hexadecimal digit |
| RadixCodec.ParseBase64Digit | include/numbers/radix.hpp:238-260 | the base-64 table entry is a base-64 digit |
| RadixCodec.ParseDigit | include/numbers/radix.hpp:93-260 | parsing any byte in radix r gives a digit of r |
| RadixCodec.BinaryTableValues | include/numbers/radix.hpp:96-113 | '0' and '1' map to 0 and 1, every other byte to 0 |
| RadixCodec.OctalTableValues | include/numbers/radix.hpp:123-140 | '0'..'7' map to 0..7, every other byte to 0 |
| RadixCodec.DecimalTableValues | include/numbers/radix.hpp:162-179 | '0'..'9' map to 0..9, every other byte to 0 |
| RadixCodec.HexTableValues | include/numbers/radix.hpp:201-218 | '0'..'9', 'A'..'F' and 'a'..'f' map to 0..15, every other byte to 0 |
| RadixCodec.Base64TableMiddle | include/numbers/radix.hpp:246-249 | for codes 64..127: 'A'..'Z' map to 0..25 and 'a'..'z' to 26..51; '[' (code 91) also maps to 26; the rest map to 0 |
| RadixCodec.ParseDigitIsDigitValue | include/numbers/radix.hpp:241-258 | every entry of every parse table equals the range description: the RFC 4648 base-64 alphabet, '0'..'9' to 52..61, '+' to 62, '/' to 63, the '[' entry, and 0 elsewhere |
| RadixCodec.HexIgnoresCase | include/numbers/radix.hpp:201-218 | a lower-case hexadecimal letter parses like its upper-case form |
| RadixCodec.ComposeDigit | include/numbers/radix.hpp:147-279 | the character composed for a digit is ASCII |
| RadixCodec.AlphabetValues | include/numbers/radix.hpp:265-279 | the alphabet character at position d is ASCII and has range value d, for all of bases 2, 8, 10, 16 and 64 |
| RadixCodec.ParseComposeDigit | include/numbers/radix.hpp:147-279 | for bases 8, 10, 16 and 64, parsing the character composed for digit d gives d |
| RadixCodec.ComposeParseDigit | include/numbers/radix.hpp:593-656 | composing the digit parsed from an alphabet character gives the character back; hexadecimal is composed in upper case |
| RadixCodec.ParsedText | include/numbers/radix.hpp:290-296 | the digits of a text have its length and are digits of the radix |
| RadixCodec.ComposedText | include/numbers/radix.hpp:363-369 | the text of some digits has their length and consists of bytes |
| RadixCodec.ParseComposedText | include/numbers/radix.hpp:284-369 | composing digits and parsing the text gives the digits back |
| RadixCodec.ParseDigits | include/numbers/radix.hpp:284-296 | one digit per character before the terminating NUL, so the output is one shorter than the input; digit i is the parse of character i |
| RadixCodec.ComposeDigits | include/numbers/radix.hpp:360-369 | one character per digit, at the same position and length |
| RadixCodec.ParseExample | include/numbers/radix.hpp:661-670 | "1234567890" parses to the digits 1, 2, ..., 9, 0 |
| RadixCodec.ComposeExample | include/numbers/radix.hpp:675-684 | those digits compose to "1234567890" |
| RadixCodec.DigitsOf | include/numbers/radix.hpp:398-408 | the base-radix digits of v, least significant first: they are digits, there are none exactly when v = 0, and the last is nonzero |
| RadixCodec.HornerOfDigits | include/numbers/radix.hpp:398-408 | read most significant first, the digits of v evaluate back to v |
| RadixCodec.DigitsOfHorner | include/numbers/radix.hpp:381-387 | a digit sequence without a leading zero is the reversed digit sequence of its value |
| RadixCodec.HornerBound | include/numbers/radix.hpp:381-387 | k digits of a radix denote a value below radix^k |
| RadixCodec.HornerConcat | include/numbers/radix.hpp:381-387 | digits x followed by y evaluate to value(x) * radix^\|y\| + value(y) |
| RadixCodec.FromDigits | include/numbers/radix.hpp:374-387 | for any radix, the left fold v * radix + d in a bits-wide unsigned integer gives the Horner value of the digits modulo 2^bits |
| RadixCodec.RequiredDigits | include/numbers/radix.hpp:17-87 | `required_digits_radix`, the default to_digits buffer size n: enough for every bits-wide value (2^bits <= radix^n), and wasting at most one digit (radix^(n-1) <= 2^bits) |
| RadixCodec.OctalDigits | include/numbers/radix.hpp:36-45 | 1 + bits / 3 octal digits hold every bits-wide value, and 8^(bits / 3) <= 2^bits |
| RadixCodec.DecimalDigits | include/numbers/radix.hpp:50-59 | 1 + floor(log10(2^bits)) decimal digits hold every bits-wide value, and 10^floor(log10(2^bits)) <= 2^bits |
| RadixCodec.HexDigits | include/numbers/radix.hpp:64-73 | 1 + bits / 4 hexadecimal digits hold every bits-wide value, and 16^(bits / 4) <= 2^bits |
| RadixCodec.Base64Digits | include/numbers/radix.hpp:78-87 | 1 + bits / 6 base-64 digits hold every bits-wide value, and 64^(bits / 6) <= 2^bits |
| RadixCodec.PowerOfTwoRadixAbove | include/numbers/radix.hpp:33-87 | for a radix 2^s, 1 + bits / s digits hold every bits-wide value |
| RadixCodec.PowerOfTwoRadixBelow | include/numbers/radix.hpp:33-87 | for a radix 2^s, radix^(bits / s) <= 2^bits |
| RadixCodec.DigitsFit | include/numbers/radix.hpp:392-408 | the digits of every bits-wide value fit in the default to_digits buffer |
| RadixCodec.RequiredDigitsOfInt | include/numbers/radix.hpp:697-743 | for `int` (31 value bits) the buffers hold 11, 10, 8 and 6 digits in bases 8, 10, 16 and 64 |
| RadixCodec.ToDigits | include/numbers/radix.hpp:392-408 | the buffer holds the characters of v's digits, least significant first, then NUL characters; v = 0 gives all NULs |
| RadixCodec.TextRoundTrip | include/numbers/radix.hpp:689-743 | reversing the digits of v gives a digit sequence whose text parses back to it, and from_digits of those digits gives v |
| RadixCodec.FromDecimalExample | include/numbers/radix.hpp:689 | from_digits of parse_digits("1234567890") is 1234567890 |
| RadixCodec.FromOctalExample | include/numbers/radix.hpp:690 | the octal text "147625" gives 0147625 (53141) |
| RadixCodec.FromHexExample | include/numbers/radix.hpp:691 | the hexadecimal text "FFED56" gives 0xFFED56 |
| RadixCodec.FromBase64Example | include/numbers/radix.hpp:692 | the base-64 text "y5I" gives 208456 |
| RadixCodec.ToOctalExample | include/numbers/radix.hpp:698-710 | to_digits<8>(0147625) is "526741" followed by five NULs |
| RadixCodec.ToDecimalExample | include/numbers/radix.hpp:712-723 | to_digits(1234567890) is "0987654321" |
| RadixCodec.ToHexExample | include/numbers/radix.hpp:725-734 | to_digits<16>(0xFFED56) is "65DEFF" followed by two NULs |
| RadixCodec.ToBase64Example | include/numbers/radix.hpp:736-743 | to_digits<64>(208456) is "I5y" followed by three NULs |
| BigInt.BaseAtLeast256 | include/numbers/bigint.hpp:20-33 | a word type with an overflow type has at least 256 values |
| BigInt.RequiredElements | include/numbers/bigint.hpp:35-39 | `required_elements<T, BITS>` is ceil(BITS / W): W * count >= BITS, and W * (count - 1) < BITS |
| BigInt.ValueRange | include/numbers/bigint.hpp:101-114 | `bigint<BITS, T>` is count words of W bits: the value of a valid bigint is below 2^(W * count), and that range holds every BITS-bit value |
| BigInt.RequiredElementsMonotone | include/numbers/bigint.hpp:35-39 | more bits never need fewer words |
| BigInt.RequiredElementsPositive | include/numbers/bigint.hpp:35-39 | a positive bit count needs at least one word |
| BigInt.RequiredElementsNext | include/numbers/bigint.hpp:35-42 | one more bit needs one more word exactly when BITS is a multiple of W |
| BigInt.Capacity | include/numbers/bigint.hpp:35-39 | count words of W bits hold every BITS-bit value |
| BigInt.RequiredElementsExamples | include/numbers/bigint.hpp:464-467 | 8, 32 and 64 bits in bytes take 1, 4 and 8 words; 4096 bits in 64-bit words take 64 |
| BigInt.Small | include/numbers/bigint.hpp:228-245 | a one-word bigint `{ w }` padded with zero words is valid and has value w |
| BigInt.HighestBit | include/numbers/bigint.hpp:116-127 | the result is the bit length of the value: 0 for zero, otherwise the h with 2^(h-1) <= value < 2^h |
| BigInt.HighestBitValue | include/numbers/bigint.hpp:117-126 | when both scans stop at word i and bit j, i * W + j is the bit length |
| BigInt.BitLengthOfOnes | include/numbers/bigint.hpp:459-462 | for every k >= 1 the value 2^k - 1 (k one-bits) has bit length k, which covers the tests 255, 2^15 - 1, 2^25 - 1 and 2^62 - 1 giving 8, 15, 25 and 62 |
| BigInt.HighestBitExamples | include/numbers/bigint.hpp:456-458 | 0, 1 and 9 have highest bits 0, 1 and 4 |
| BigInt.Of | include/numbers/bigint.hpp:301-308 | widening copies the words into a zeroed array at least as long and keeps the value |
| BigInt.SameValueSameWindow | include/numbers/bigint.hpp:313-324 | two word arrays, zero-padded to a common length, are equal exactly when their values are |
| BigInt.Equal | include/numbers/bigint.hpp:313-324 | true exactly when the values are equal, for any two bit counts |
| BigInt.EqualWord | include/numbers/bigint.hpp:326-337 | true exactly when the value equals the word |
| BigInt.LessOrEqual | include/numbers/bigint.hpp:342-358 | true exactly when value(a) <= value(b), for any two bit counts |
| BigInt.WrapOnce | include/numbers/bigint.hpp:141-144 | the sum of two W-bit values wraps at most once (a + b mod 2^W is a + b, or a + b - 2^W), and the stored sum is below the first operand exactly when it wrapped |
| BigInt.AddWords | include/numbers/bigint.hpp:139-145 | one carry step: the word is below 2^W, the carry is 0 or 1, and ai + bi + carry_in = word + carry_out * 2^W |
| BigInt.RippleStep | include/numbers/bigint.hpp:138-145 | one more word keeps the ripple invariant: the words written plus carry * 2^(W i) equal the two operands' first i words |
| BigInt.RippleAdd | include/numbers/bigint.hpp:138-145 | len ripple steps over the zero-padded operands give len words and a carry that together equal their sum |
| BigInt.Add | include/numbers/bigint.hpp:133-148 | as written: the result has max(A, B) + 1 bits, its top word is the final carry, and its value is the sum of the operands' lowest count - 1 words; it is exact when max(A, B) is a multiple of W |
| BigInt.AddReadsEveryWord | include/numbers/bigint.hpp:136-138 | the loop of add reads every operand word exactly when max(A, B) is a multiple of W |
| BigInt.AddDropsTopWord | include/numbers/bigint.hpp:138-146 | runs add on a 12-bit operand with 8-bit words and value 256, added to itself: the words are [0, 0], value 0 instead of 512 |
| BigInt.AddSmallExample | include/numbers/bigint.hpp:472-474 | add<uint8_t, 8, 8>({1}, {1}) has 9 bits and words [2, 0] |
| BigInt.AddCarryExample | include/numbers/bigint.hpp:475-477 | add<uint8_t, 8, 8>({128}, {128}) has words [0, 1] |
| BigInt.AddWiderExample | include/numbers/bigint.hpp:478-481 | add<uint8_t, 8, 16>({1}, {1}) has 17 bits and words [2, 0, 0] |
| BigInt.AddMixedExample | include/numbers/bigint.hpp:482-486 | add<uint8_t, 8, 16>({255}, {0, 255}) has words [255, 255, 0] and highest bit 16 |
| BigInt.AddCorrected | include/numbers/bigint.hpp:133-148 | the intended add: value (a + b) mod 2^(W * count), and exactly a + b whenever the operands fit their bits |
| BigInt.SumBelow | include/numbers/bigint.hpp:41-42 | the sum of an i-bit and a j-bit value fits in max(i, j) + 1 bits |
| BigInt.AddInPlace | include/numbers/bigint.hpp:153-167 | max(A, B) bits, value (a + b) mod 2^(W * count): the final carry is dropped |
| BigInt.MulAddWords | include/numbers/bigint.hpp:182-190 | result[ai + bi] + k + a[ai] * b[bi] fits in the 2W-bit overflow type; its low word and high word are both below 2^W and recompose it |
| BigInt.RowStep | include/numbers/bigint.hpp:182-190 | one inner step keeps the row invariant: the words plus k at position bi + ai equal the old words plus a[..ai] * b[bi] shifted by bi |
| BigInt.RowPosition | include/numbers/bigint.hpp:182-190 | one inner step changes only word ai + bi and advances the row invariant by one position |
| BigInt.RowFinish | include/numbers/bigint.hpp:191-193 | after the inner loop, writing k into position bi + count when that is inside gives (old + a * b[bi] * 2^(W bi)) mod 2^(W n) |
| BigInt.MultiplyRow | include/numbers/bigint.hpp:177-193 | one row bi adds a * b[bi] * 2^(W bi) to the result modulo 2^(W n), and words above bi + \|a\| stay zero |
| BigInt.ProductBelow | include/numbers/bigint.hpp:44-45 | the product of an i-bit and a j-bit value fits in i + j bits |
| BigInt.MultiplyWords | include/numbers/bigint.hpp:175-194 | the rows over all words of b give (a * b) mod 2^(W n) in n words, provided \|b\| <= n + 1 |
| BigInt.Multiply | include/numbers/bigint.hpp:172-195 | A + B bits, value (a * b) mod 2^(W * count), exactly a * b when the operands fit their bits |
| BigInt.MultiplyInPlace | include/numbers/bigint.hpp:200-223 | A bits, value (a * b) mod 2^(W * count of a); b may have at most one word more than a |
| BigInt.MultiplyTestValues | include/numbers/bigint.hpp:491-497 | the plain-number checks: the word arrays denote 61051, 72077, their product 61051 * 72077, and 128 * 128 |
| BigInt.MultiplyExamples | include/numbers/bigint.hpp:492-503 | runs multiply: [128] * [128] is [0, 64] in 16 bits, and [123, 238] * [141, 25, 1] is [191, 92, 72, 6, 1] in 40 bits |
| BigInt.Plus | include/numbers/bigint.hpp:234-237 | `a + b` on equal bit counts runs the as-written add: BITS + 1 bits, value the sum of both operands' low count - 1 words, and exactly a + b when BITS is a multiple of W |
| BigInt.PlusWord | include/numbers/bigint.hpp:228-232 | `a + w` makes w a one-word W-bit bigint and runs the as-written add: max(BITS, W) + 1 bits, value the low words of a plus w, and exactly a + w when max(BITS, W) is a multiple of W |
| BigInt.Times | include/numbers/bigint.hpp:248-251 | `a * b`: A + B bits, value (a * b) mod 2^(W * count), and exactly a * b when the operands fit their bits |
| BigInt.TimesWord | include/numbers/bigint.hpp:242-246 | `a * w`: BITS + W bits, value (a * w) mod 2^(W * count), and exactly a * w when a fits its bits |
| BigInt.RequiredBitsRadix | include/numbers/bigint.hpp:47-94 | `required_bits_radix<RADIX, D>`: every D-digit number fits (radix^D <= 2^bits), exactly for radices 8, 16 and 64 (radix^D = 2^bits); for base 10 no fewer bits would do (2^(bits-1) <= 10^D); base 2 falls to the generic rule |
| BigInt.RequiredBitsRadixExamples | include/numbers/bigint.hpp:547-570 | the base 8, 16 and 64 estimates of the tests: 6, 9, 24; 8, 32, 128; 12, 48, 384 |
| BigInt.RequiredBitsDecimalExamples | include/numbers/bigint.hpp:554-557 | 2, 4 and 9 decimal digits need 7, 14 and 30 bits |
| BigInt.RequiredBitsLiterals | include/numbers/bigint.hpp:598-618 | the 39-digit and 78-digit decimal literals get 130 and 260 bits, and so 5 and 9 words of 32 bits |
| BigInt.MulAddPass | include/numbers/bigint.hpp:369-383 | one pass over all words replaces the value x of the array by (x * factor + addend) mod 2^(W n) |
| BigInt.PassStep | include/numbers/bigint.hpp:371-375 | one word of a pass keeps the pass invariant |
| BigInt.FromDigits | include/numbers/bigint.hpp:363-387 | bits = required_bits_radix(D); the value is the Horner value of the digits mod 2^(W * count), and exactly the Horner value when every digit is below the radix |
| BigInt.PushDigit | include/numbers/bigint.hpp:368-384 | one digit of the loop: the multiply pass and the add pass turn the Horner value of the digits so far into that of one more digit, modulo 2^(W * count), and keep every entry a word |
| BigInt.DigitStep | include/numbers/bigint.hpp:368-384 | the multiply pass and the add pass for one digit advance the Horner value by that digit, modulo 2^(W n) |
| BigInt.ExponentFits | include/numbers/bigint.hpp:400-404 | the exponent counter of logarithm never wraps |
| BigInt.CandidateFits | include/numbers/bigint.hpp:399-403 | the (V + B)-bit candidate never wraps while it is at most value |
| BigInt.Logarithm | include/numbers/bigint.hpp:392-406 | for base >= 2 and value >= 1 the result is the floor logarithm; it is 0 for values 0 and 1 and for value < base; V bits |
| BigInt.LogarithmOfMax256 | include/numbers/bigint.hpp:592 | log10(2^256 - 1) = 77 |

## Findings

| source | as written | input that shows it | evidently intended | confidence | as-written member | corrected member |
|---|---|---|---|---|---|---|
| include/numbers/bigint.hpp:138-146 | the loop of `add` runs over `result.size() - 1` words only. When max(A, B) is not a multiple of W, the result has no more words than the operands, so the operands' top word is never read. | `add<uint8_t, 12, 12>` on `{0, 1}` (256) and itself: the result has 13 bits and 2 words, the loop reads word 0 only, and the result is 0 instead of 512. More simply, any two 7-bit operands give 0. | the sum a + b, which fits in max(A, B) + 1 bits | not executed | BigInt.AddDropsTopWord | BigInt.AddCorrected |
| include/numbers/elementary.hpp:147 | `result = multiply(result, base)` stores the next candidate in V. For an unsigned V the product wraps modulo 2^digits when base^(e+1) passes the type's largest value, and the wrapped candidate can pass the loop test again. | `logarithm<uint8_t>(2, 255)` never ends: the candidate 128 * 2 is stored as 0, and 0 <= 255 holds forever. `logarithm<uint32_t>(3, 4000000000)` goes past the floor logarithm 20, since 3^21 is stored as 1870418611. | the floor logarithm, which every value of the type has | not executed | Elementary.WrappedLogarithmLoopsForever | Elementary.LogarithmCorrected |

`BigInt.Add` models the loop of `add` as written. Its contract states the
value it really computes, and it is exact when max(A, B) is a multiple of W.
`BigInt.AddCorrected` runs the ripple over all words and drops the last
carry. It proves the exact sum for operands that fit their bits. The
operators `Plus` and `PlusWord` call the add as written, so they inherit
its window value; for example a 130-bit bigint of 32-bit words loses its
fifth word under `+`.

`Elementary.Logarithm` models `logarithm` as written on inputs whose last
candidate fits in the type. `Elementary.LogarithmCorrected` stops before
the product leaves the type and gives the floor logarithm for every value.

## Left out

- Floating-point estimators. The base-10 estimates in `required_bits_radix` and `required_digits_radix` multiply by a `double` constant. The model uses the exact floor logarithms, 1 + floor(log2(10^D)) and 1 + floor(log10(2^bits)), whose bounds the contracts of `RequiredBitsRadix` and `RequiredDigits` state. The bases 8, 16 and 64 use the integer formulas 3D, 4D and 6D (for bits) and 1 + bits / 3, 4 or 6 (for digits). For the value-bit counts of the integer types (7, 8, 15, 16, 31, 32, 63 and 64) these agree with the rounded `double` products, and they reproduce every test value.
- 64-bit words. `uint64_t` has no overflow type, so `Width` is 8, 16 or 32. The 4096-bit, 64-bit-word size test is covered by `RequiredElements` alone. The `int` shift `0x01 << (j - 1)` of `highest_bit` is modelled as a mathematical bit test.
- BigInt.Logarithm: requires both operands to fit their declared bit counts, and that the loop terminates (`LogarithmTerminates`): with base 0 or 1 and value >= 2, or base 0 and value 0, the candidate stays 0 or 1 and the loop at bigint.hpp:398-404 never ends. A bigint whose BITS is not a multiple of W can hold words above 2^BITS, and then the (V + B)-bit candidate could wrap. The source gives no result contract for that case.
- Elementary.Logarithm: requires that the last candidate base^(e+1) fits in the type, and that the loop terminates (`LogarithmTerminates`). For an unsigned type the candidate wraps instead: `logarithm<uint8_t>(2, 255)` loops forever and `logarithm<uint32_t>(3, 4000000000)` gives a wrong exponent (see Findings). For a signed type the overflow is undefined behaviour. `LogarithmLoopsForever` shows the inputs with base 0 or 1 that never end.
- BigInt.Of: requires `|a.words| <= RequiredElements(bits, a.width)`, that is, no narrowing. `of` with fewer output bits than input bits copies a.count words into a shorter array and indexes past its end.
- Elementary.Add, Elementary.Multiply, Elementary.Logarithm and RadixCodec.ToDigits take natural numbers. The source takes any integral type. A negative `int` given to `to_digits` fails the test `n > 0` at once and gives only NUL characters; negative bases and values of `logarithm`, and negative operands of `add` and `multiply`, are not modelled.
- BigInt.MultiplyInPlace: requires b to have at most one word more than a. With more, `result.count - bi` wraps in unsigned arithmetic and the loop indexes past the array.
- RadixCodec.ToDigits: requires a buffer that holds all of v's digits. `DigitsFit` shows the default size always does; a smaller explicit size would write past the array.
- BigInt.FromDigits: digits are modelled as bytes (the default `DIGIT` type `uint8_t`). Its exactness clause assumes every digit is below the radix, as the parse tables guarantee. The radix must be one with an estimator: the generic `required_bits_radix` gives 0 bits (base 2), and no bigint has 0 bits.
- Characters are their codes, and only codes 0..255 are parsed. A `char` above 127 indexes the C++ tables by a negative value when `char` is signed, which is not modelled.
- Radices other than 2, 8, 10, 16 and 64, except in the native `from_digits`. `Radix` has only those five values; for any other radix the generic `required_digits_radix` and `required_bits_radix` give 0, and there is no `parse_digit` for it. The native `from_digits` uses neither, so `RadixCodec.FromDigits` takes any natural radix.
- The base-2 compose direction. There is no `compose_digit<2>`, so `ComposeDigit` and `to_digits` exclude base 2.
- The 39-digit and 78-digit decimal literals and the hexadecimal literals of the tests. The model proves their bit and word counts and log10(2^256 - 1) = 77. It does not evaluate the literal digit strings into words.
- The user-defined literal operators `_2`, `_8`, `_10`, `_16` and `_64` and the character-pack shims `parse_digits_baseN`. They are syntax over `from_digits` and `parse_digit`; `_2` in fact parses base 8.
- The constants `identity`, `zero`, `one`, `two`, `three` and `ten`, and the wrappers `is_not_equal`, `is_greater`, `is_greater_or_equal`, `negate`, `absolute_value`, `subtract`, `divide` and `modulo`. Each is a single built-in operator with no algorithm.
- numbers.cpp is not part of this model. It is an iostream demonstration program.
- Integer widths of the native types. The native `from_digits` reduces modulo 2^bits at each step, matching unsigned wrap-around. Its tests use `uint32_t`, and `to_digits` sizes its buffer for the value bits of `int`.
