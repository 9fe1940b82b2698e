# UInt256 in Dafny

A model of `uint256.c`, a small C library for 256-bit unsigned integers, with
proofs about it. It covers the value type, its constructors and accessors, hex
and binary parsing, hex formatting, addition, left shift and multiplication.

A `UInt256` is four 64-bit limbs, least significant first. It stands for the
number `Σ data[i]·2^(64·i)`, which `Limbs.ToNat` computes. Every operation is
specified against that number, and all arithmetic is modulo 2^256.

The modules follow the structure of the C file:

- `Words`: powers of two, the bits of a natural number, and division facts.
- `Limbs`: the value type and its meaning, `ToNat`.
- `Digits`: digit strings in base 2 and base 16.
  - `Value` is what `strtoul` reads from valid digits.
  - `Unpadded` is what `sprintf("%lx")` writes.
  - `Fixed` is what `sprintf("%016lx")` writes.
- `Construct`: `uint256_create_from_u64`, `uint256_create`, `uint256_get_bits` and `uint256_bit_is_set`.
- `Text`: `uint256_create_from_hex`, `uint256_create_from_bin` and `uint256_format_as_hex`.
- `Arithmetic`: `uint256_add`, `uint256_leftshift` and `uint256_mul`.

How the code is modelled:

- Loops that update local buffers become methods with loops and invariants.
  - The `char` buffers of `uint256_leftshift` and `uint256_format_as_hex` stay `array<char>`.
  - A `UInt256` under construction is a `seq` of limbs that the loop reassigns.
- Each loop is proved against a function that describes its result:
  - the parsing loop and one pass of it against `FromDigits` and `Group`;
  - the formatting loop against `Unpadded`;
  - the add loop and one limb step against `ToNat` and plain arithmetic;
  - the bit-string loops of the shift against `Fixed` and `ShiftedDigit`;
  - the multiply loop against `ShiftAddProduct`;
  - the limb copy of `uint256_create` against the source array itself.
- `Text.CopyAt`, the `strncpy` into the output buffer, states which characters it writes and that it leaves all the others as they were.

## Model

| member | source | states |
|---|---|---|
| Limbs.ToNat | uint256.c:10-28 | The number four limbs stand for is below 2^256 |
| Limbs.ToNatInjective | uint256.c:10-28 | Two values with the same number have the same limbs, so the number determines the value |
| Limbs.LimbBit | uint256.c:102-105 | Bit k of limb e is bit 64·e + k of the number |
| Construct.CreateFromU64 | uint256.c:10-17 | The value is `val`: limb 0 is `val` and limbs 1–3 are zero |
| Construct.Create | uint256.c:22-28 | The copy loop gives the limbs of `data` index for index; the value is data[0] + 2^64·data[1] + 2^128·data[2] + 2^192·data[3] |
| Construct.GetBits | uint256.c:102-105 | Bit k of the returned limb is bit 64·index + k of the value |
| Words.AndBit | uint256.c:150 | Bit j of x & y is set exactly when bit j is set in both x and y |
| Words.AndPow2 | uint256.c:150 | Masking x with 2^k keeps bit k of x at weight 2^k and clears every other bit |
| Construct.MaskBit | uint256.c:150 | `x & (1UL << k)`, computed with the bitwise AND, is 0 or 2^k, and is nonzero exactly when bit k of x is set |
| Construct.BitIsSet | uint256.c:147-151 | The masked limb is 0 or 2^(index mod 64), and is nonzero exactly when bit `index` of the value is 1 |
| Construct.BitIsSetAsWritten | uint256.c:147-151 | uint256_bit_is_set as written, with the mask passed through ToInt32 (the conversion to the `int` return type): the result is nonzero exactly when the bit is 1 and index mod 64 < 32 |
| Construct.MaskAsInt32 | uint256.c:150 | ToInt32 (reduction modulo 2^32 read as two's complement) keeps 0 at 0, and keeps 2^k nonzero exactly when k < 32 |
| Construct.BitIsSetAsWrittenMissesBit32 | uint256.c:147-151 | Bit 32 of 2^32 is set, yet the as-written bit test returns 0 |
| Digits.UnpaddedValue | uint256.c:73 | The `%lx` digits are lower-case hex that read back as x; the first digit is '0' only for x = 0 |
| Digits.FixedValue | uint256.c:80 | The zero-padded w-digit numeral of x < base^w reads back as x |
| Digits.FixedDigits | uint256.c:80 | The zero-padded numeral has only lower-case digits of its base |
| Digits.FixedBit | uint256.c:162-176 | Character w−1−j of the w-digit binary numeral of x is bit j of x |
| Digits.ValueBound | uint256.c:43 | k digits of strtoul input stand for less than 2^(bits per digit·k), so one group fits a limb |
| Digits.ValueConcat | uint256.c:38-53 | The value of a + b is the value of a shifted past b's digits, plus the value of b |
| Digits.UnpaddedLength | uint256.c:61 | A number below 16^w has at most w hex digits |
| Digits.UnpaddedSplit | uint256.c:71-81 | A nonzero high part above w padded digits is written unpadded, then the low part padded to w digits |
| Digits.ZeroDigits | uint256.c:43 | A string of '0's reads as 0 |
| Text.GroupStep | uint256.c:38-53 | The digits left before pass i are worth limb i plus 2^64 times the digits left after it |
| Text.FromDigitsValue | uint256.c:31-56 | The parsed limbs stand for the number the digits spell, modulo 2^256 |
| Text.CutGroup | uint256.c:39-52 | One pass of the parsing loop gives limb i and leaves the digits for limb i + 1: the rightmost full group, nothing, or all that is left |
| Text.ParseGroups | uint256.c:38-53 | The four passes of the loop build exactly the limbs FromDigits describes |
| Text.CreateFromHex | uint256.c:31-56 | The result's value is the hex number mod 2^256 |
| Text.CreateFromBin | uint256.c:195-220 | The result's value is the binary number mod 2^256 |
| Text.CutGroupAsWrittenAgrees | uint256.c:36-52 | On the digits left before pass i, one pass as written (CutGroupAsWritten, which copies through the null `rightmost`) faults exactly when more than one group is left; otherwise it gives limb i and the digits left for limb i + 1, as the corrected pass does |
| Text.ParseAsWritten | uint256.c:31-56 | The four passes as written (PassesAsWritten) fault exactly when the input has more than one group of digits (16 hex or 64 binary); otherwise the result is the same value as the corrected parse |
| Text.PassesAsWrittenValue | uint256.c:38-53 | With more than one group the first pass faults; otherwise the passes fill in exactly the limbs of the corrected parse |
| Text.ShortDigits | uint256.c:45-51 | At most one group of digits: limb 0 is their value and limbs 1–3 are 0 |
| Text.ParseAsWrittenFaults | uint256.c:36-44 | "10000000000000000" has limbs [0, 1, 0, 0], yet the parsing loop as written faults on its first pass |
| Text.CopyAt | uint256.c:83 | `strncpy(hex + len, buf, strlen(buf))` writes buf at position len and keeps every character before and after it |
| Text.FormatAsHex | uint256.c:60-97 | The result is the lower-case hex numeral of the value with no leading zeros ("0" for zero), at most 64 digits |
| Text.FormatStep | uint256.c:67-88 | Each pass appends limb i's digits, unpadded for the first nonzero limb and padded to 16 after it; this spells the limbs from i upwards |
| Text.LimbJoin | uint256.c:80 | A nonzero high part followed by a 16-digit padded limb spells high·2^64 + limb |
| Text.LimbDigits | uint256.c:63 | A limb takes at most 16 hex digits, so it fits `buf` |
| Text.SuffixDigits | uint256.c:61 | The limbs from i upwards take at most 16·(4 − i) digits, so the result fits `hex` |
| Text.HexRoundTrip | uint256.c:31-97 | Parsing the formatted hex string gives back the same value |
| Arithmetic.Add | uint256.c:108-125 | The sum is (left + right) mod 2^256 |
| Arithmetic.AddLimb | uint256.c:112-122 | One limb step: the wrapped sum plus 2^64 times the carry out equals left + right + carry in |
| Arithmetic.LimbCarry | uint256.c:114-121 | The wrapped limb sum is below the left limb, or equal to it with a carry in, exactly when the limb sum overflowed |
| Arithmetic.PrefixStep | uint256.c:111-123 | Each limb step keeps the written limbs plus the pending carry equal to the sum of the operand limbs so far |
| Arithmetic.AddLimbAsWritten | uint256.c:112-122 | The limb step as written is exact, except with a carry in and a right limb of 2^64 − 1: then it returns the left limb and no carry |
| Arithmetic.AddLoopAsWrittenExact | uint256.c:111-123 | For the loop as written (AddLoopAsWritten): while no carry meets a right limb of 2^64 − 1 (NoCarryMeetsMax), the limbs it writes plus its final carry make up the exact sum |
| Arithmetic.NoMaxAbove | uint256.c:115-121 | If no right limb above i is 2^64 − 1, and limb i is not either when a carry comes in, then no carry meets a right limb of 2^64 − 1 |
| Arithmetic.AddAsWrittenExactWhen | uint256.c:108-125 | AddAsWritten (uint256_add as written) is correct mod 2^256 whenever none of the right operand's upper three limbs is 2^64 − 1 |
| Arithmetic.AddAsWrittenLosesCarry | uint256.c:115-121 | 1 + (2^128 − 1) should be 2^128, but AddAsWritten (uint256_add as written) returns 0 |
| Arithmetic.LeftShift | uint256.c:154-192 | The result is val·2^shift mod 2^256; shift 0 gives val back; a shift of 256 or more gives 0 |
| Arithmetic.WriteBinary | uint256.c:156-176 | The first 256 characters of the buffer are the 256-digit binary numeral of the value, and the terminator is kept |
| Arithmetic.BinaryDigit | uint256.c:165-170 | Halving limb i j times leaves bit 64·i + j of the value as its lowest bit, which becomes character 255 − 64·i − j |
| Arithmetic.FixedFromBits | uint256.c:162-176 | A string whose character k is bit 255 − k of n is the 256-digit binary numeral of n |
| Arithmetic.ShiftDigits | uint256.c:179-187 | Each digit i takes the digit shift places to its right, or '0' past the end; the terminator at position 256 is kept |
| Arithmetic.WrappedIndex | uint256.c:180-182 | The 32-bit index i + shift is the true sum when below 256; if it wraps below 256 it lands on a digit already set to '0' |
| Arithmetic.ShiftedFixed | uint256.c:179-189 | The shifted string is the binary numeral of n·2^shift mod 2^256 |
| Arithmetic.ShiftBits | uint256.c:154-192 | Bit j of n·2^s mod 2^256 is bit j − s of n, or 0 below s |
| Arithmetic.ShiftPastWidth | uint256.c:180-186 | Shifting by 256 places or more leaves 0 |
| Arithmetic.ShiftByZero | uint256.c:154-192 | Shifting by 0 gives back the same value |
| Arithmetic.ReparseFixed | uint256.c:189 | The 256-digit binary numeral of m < 2^256 parses back to m |
| Arithmetic.Mul | uint256.c:135-143 | The product is left·right mod 2^256 |
| Arithmetic.ShiftAddProductValue | uint256.c:137-141 | After i passes, shift-and-add holds a times the low i bits of b, mod 2^256 |
| Arithmetic.ShiftAddProductFull | uint256.c:137-141 | All 256 passes multiply a by the whole of b |
| Arithmetic.MulStep | uint256.c:138-139 | Adding a·2^k when bit k is set keeps the product equal to a times the bits seen so far |

## Left out

- `uint256_sub` (uint256.c:128-132) computes nothing: it returns an uninitialised `UInt256`. There is no subtraction to model.
- Parsing has no error path in the code. It does not reject invalid characters, and it does not reject more than 64 hex (256 binary) digits. Extra high digits are dropped, so the value is taken modulo 2^256, and the model does the same.
- `strtoul` on anything other than valid digits is not modelled. That covers whitespace, signs, a "0x" prefix and invalid characters. Parsing requires every character to be a digit of its base.
- The left shift goes through a 256-character binary string, as the code does. There is no shift on the limbs to model.
- Construct.GetBits, Construct.BitIsSet: the code does not check the index. An index outside the array is undefined behaviour in C, so it is excluded by a precondition (`index < 4`, `index < 256`) rather than reported.
- `malloc`, `free` and `strlen` are not modelled. Buffers are arrays of the source's sizes (65 and 257 characters), and a string is a `seq<char>`. The `end` pointer passed to `strtoul` is null and unused.
- `sprintf("%lx")` and `sprintf("%016lx")` are the functions `Digits.Unpadded` and `Digits.Fixed`.
- The uninitialised C result in `uint256_create` and the parsers starts at zero here. Every limb is overwritten, so the difference cannot be observed.
- The `val.data > 0` test at uint256.c:164 compares an array with a null pointer and always holds. Arithmetic.WriteBinary takes its true branch only.
- Arithmetic.Mul, Arithmetic.LeftShift: they use the corrected parts, not the as-written ones. LeftShift reparses with the corrected `Text.CreateFromBin`, and Mul tests bits with `Construct.BitIsSet` and sums with `Arithmetic.Add` (see Findings). A separate as-written `uint256_mul` is not modelled: with the null `rightmost`, every call that reaches `uint256_leftshift` faults.
- A C `unsigned long` is taken to be 64 bits wide, as on LP64 platforms.

## Findings

| source | as written | input that shows it | evidently intended | confidence | as-written member | corrected member |
|---|---|---|---|---|---|---|
| uint256.c:115-121 | The carry out is tested as `sum < leftval` after the carry in is added. With a carry in and a right limb of 2^64 − 1, the sum equals the left limb and the carry is lost. | left = 1, right = 2^128 − 1: the result is 0, not 2^128 | Also detect a carry when the carry in makes the sum wrap to the left limb | high (proved; not executed) | Arithmetic.AddAsWrittenLosesCarry | Arithmetic.Add |
| uint256.c:147-151 | The 64-bit mask `val.data[element] & (1UL << (index % 64))` is returned as `int`. A set bit at position 32–63 of its limb becomes 0. | bit 32 of 2^32 is reported clear | Return whether the masked limb is nonzero | high (proved; not executed) | Construct.BitIsSetAsWrittenMissesBit32 | Construct.BitIsSet |
| uint256.c:36-44, 200-208 | `rightmost` is `NULL`, and the first branch copies the rightmost group through it. Any string longer than one group (16 hex or 64 binary digits) faults. `uint256_leftshift` always passes 256 binary digits, so it always faults. | `uint256_create_from_hex("10000000000000000")` | Copy the group into a buffer of 17 (65) characters and parse that | high (proved; not executed) | Text.ParseAsWritten | Text.CutGroup |
