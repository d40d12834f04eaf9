# bytecode-encoder in Dafny

A model of `be::BytecodeEncoder<width>`, a fixed-width bitfield codec. A
schema is a word width of 1 to 64 bits and an ordered list of field sizes
whose sum fits in the word. `pack` places a list of values into one
unsigned word, first value in the most significant bits, and rejects a
value too large for its field. `unpack` reads every field back out of a
word and ignores the bits that belong to no field.

Files:

- `bits.dfy` (module `Bits`): 64-bit unsigned words on natural numbers.
  `<<` truncates to 64 bits, `>>` divides, and `&` and `|` are defined bit
  by bit. Lemmas connect them to `/` and `%`.
- `layout.dfy` (module `Layout`): the specification of the layout.
  - `PackSpec` is the word `pack` returns or its overflow failure.
  - `UnpackSpec` is the list `unpack` returns.
  - It holds the lemmas for the overflow rule, the layout formula, the range of the packed word, both round trips and zero-sized fields.
- `encoder.dfy` (module `Encoder`): the class `BytecodeEncoder` with its two constructors, `GetMask`, and the methods `Pack` and `Unpack`.
  - `Pack` and `Unpack` follow the source's loops.
  - Each is proved equal to its specification function.
- `examples.dfy` (module `Examples`): the repository's test cases. Each test case is a method that builds an encoder and calls `Pack` and `Unpack`.
- `findings.dfy` (module `Findings`): two places where the source does not do what it evidently intends.

The width is a template argument in the source. Here it is a constructor
argument with the precondition `1 <= width <= 64`. The overflow exception
of `pack` becomes the result `Failure(ValueTooLarge)`. The constructor's
`assert`, and `pack`'s `assert` on the number of values, become
preconditions.

The zero-sized field is handled as the codec intends: `FieldMax(0)` is 0,
so in the model such a field accepts only 0 and unpacks to 0. The source
does not guarantee this. Its guard `~0ULL >> (64 - size)` always shifts by
64 for that size. In a 64-bit word whose leading fields are all empty, the
placement `values[i] << shift` and the read `(packed & mask) >> shift` shift
by 64 as well. C++ leaves every one of these shifts undefined (see Findings).
The model's `<<` and `>>` require a count below 64. So `GetMask` provably
never shifts by 64, and `Pack` and `Unpack` handle the shift of 64 as a
separate case that places and reads 0.

## Model

| member | source | states |
|---|---|---|
| Bits.Pow2Word | include/bytecode_encoder.h:29-31 | `~0ULL`, the all-ones word, is 2^64 - 1: 2^64 is one more than the largest word |
| Bits.ShiftLeft | include/bytecode_encoder.h:53 | `x << k` on a 64-bit word, defined for `k < 64` only, is `x * 2^k` whenever that product fits in 64 bits |
| Bits.ShiftRight | include/bytecode_encoder.h:47 | `x >> k`, defined for `k < 64` only, is at most `x` |
| Bits.BitAnd | include/bytecode_encoder.h:68 | the bitwise AND of `a` and `b` is at most each operand |
| Bits.BitOr | include/bytecode_encoder.h:54 | the bitwise OR of `a` and `b` is at least each operand and at most their sum |
| Bits.ShiftRightIsDiv | include/bytecode_encoder.h:47 | `x >> k` is `x / 2^k` for every count `k < 64` |
| Bits.OnesFitWord | include/bytecode_encoder.h:33-34 | for `size < 64` and `size + k <= 64`, `1 << size` and `((1 << size) - 1) << k` do not overflow the word |
| Bits.OrDisjoint | include/bytecode_encoder.h:54 | OR-ing `b < 2^k` into `m * 2^k` adds it: the bits do not overlap |
| Bits.AndLowMask | include/bytecode_encoder.h:68 | `x & (2^s - 1)` keeps the low `s` bits, `x % 2^s` |
| Bits.MaskSelectsField | include/bytecode_encoder.h:68 | `(x & ((2^s - 1) << k)) >> k` is the `s`-bit field of `x` starting at bit `k` |
| Layout.SizesFit | include/bytecode_encoder.h:18-19 | the schema check: the field sizes sum to at most the width (the true sum, not one that wraps) |
| Layout.PlacedFields | include/bytecode_encoder.h:43-56 | the layout formula: the sum of `values[j] * 2^(width - prefix_j - sizes[j])` over the first `n` fields |
| Layout.PackSpec | include/bytecode_encoder.h:38-59 | what `pack` returns: the failure if some value does not fit its field, otherwise the placed word |
| Layout.UnpackSpec | include/bytecode_encoder.h:61-74 | what `unpack` returns: one value per field, field `i` being `FieldAt` of the word |
| Layout.Shift | include/bytecode_encoder.h:52 | field `i`'s shift plus its size plus the sizes before it is the width |
| Layout.FieldMax | include/bytecode_encoder.h:47 | the largest value a field holds, `~0ULL >> (64 - size)`, is `2^size - 1`, and 0 for size 0 |
| Layout.FieldAt | include/bytecode_encoder.h:67-68 | a field read from a word is below 2^size |
| Layout.ReadField | include/bytecode_encoder.h:67-68 | for a shift below 64, masking with `get_mask(free_width, size)` and shifting down by `free_width - size` reads field `i`, and the field fits a word |
| Layout.FieldInWord | include/bytecode_encoder.h:68-69 | a field read from a word fits a `uint64_t` result |
| Layout.PlacedShape | include/bytecode_encoder.h:43-56 | the first `n` placed fields are their values written one after another, shifted up to the top of the word, and stay below 2^width |
| Layout.PlacedTail | include/bytecode_encoder.h:52-55 | the fields from `m` to `n` together stay below the lowest bit of field `m - 1` |
| Layout.FieldOfPlaced | include/bytecode_encoder.h:52-55 | field `i` of the placed word is value `i` when every value fits |
| Layout.PlacedLayout | include/bytecode_encoder.h:52-55 | before field `i` is placed, the word holds the earlier fields above its top bit, and value `i` at its shift fits below that bit |
| Layout.PlaceNextField | include/bytecode_encoder.h:52-54 | OR-ing `values[i] << shift` into `data` adds value `i` at its shift, and both the shifted value and the new word fit in 64 bits |
| Layout.PackStep | include/bytecode_encoder.h:52-55 | one pass of `pack`'s loop places field `i` and advances `used_bits` by its size; a shift of 64 places 0 |
| Layout.PackRejects | include/bytecode_encoder.h:47-50 | a value above `2^size - 1` makes `pack` fail |
| Layout.PlacedInWord | include/bytecode_encoder.h:43-58 | values that fit their fields place into a 64-bit word |
| Layout.PackedRange | include/bytecode_encoder.h:52-55 | a packed word is below 2^width, and its `width - sum(sizes)` low bits are zero |
| Layout.PackOverflow | include/bytecode_encoder.h:47-50 | `pack` fails if and only if some value exceeds `2^sizes[i] - 1` |
| Layout.PackLayout | include/bytecode_encoder.h:43-58 | when every value fits, `pack` succeeds with the sum of each value times 2 to the power of its shift |
| Layout.UnpackOfPack | include/bytecode_encoder.h:38-74 | round trip: values that fit their fields pack, and unpacking the word gives them back |
| Layout.PlacedOfFields | include/bytecode_encoder.h:61-74 | placing the first `n` fields read from a word rebuilds that word's low `width` bits down to the bottom of field `n - 1` |
| Layout.PackOfUnpack | include/bytecode_encoder.h:38-74 | the other round trip: packing what `unpack` returns succeeds and gives the word with every bit outside the fields cleared |
| Layout.UnpackFits | include/bytecode_encoder.h:61-74 | every value `unpack` returns fits its field |
| Layout.UnpackIgnoresOtherBits | include/bytecode_encoder.h:61-74 | clearing the bits outside every field does not change what `unpack` returns |
| Layout.ZeroWidthField | include/bytecode_encoder.h:25-27 | a zero-sized field accepts only 0 and always unpacks to 0 |
| Encoder.BytecodeEncoder.Default | include/bytecode_encoder.h:15 | the default encoder has no fields and a valid schema |
| Encoder.BytecodeEncoder.constructor | include/bytecode_encoder.h:17-22 | construction needs field sizes that sum to at most the width, and keeps them in order |
| Encoder.BytecodeEncoder.GetMask | include/bytecode_encoder.h:24-36 | the mask is `(2^size - 1) * 2^(free_width - size)`: 0 for size 0, all ones for size 64, never a shift by 64 |
| Encoder.BytecodeEncoder.Pack | include/bytecode_encoder.h:38-59 | the loop returns exactly `PackSpec`: the overflow failure, or the word with every value placed in its field |
| Encoder.BytecodeEncoder.Unpack | include/bytecode_encoder.h:61-74 | the loop returns exactly `UnpackSpec`: one value per field, field `i` read from its bits |
| Findings.GuardUndefinedForEmptyField | include/bytecode_encoder.h:47 | the guard's shift is defined in C++ exactly when the field is not empty |
| Findings.UnpackShiftIsPlacementShift | include/bytecode_encoder.h:67 | `unpack`'s shift `free_width - size` for field `i` is the shift `pack` places the field at |
| Findings.FieldShiftUndefinedExactly | include/bytecode_encoder.h:52-53 | the shift of field `i` is 64, so undefined in C++, exactly when the word is 64 bits wide and field `i` and every field before it are empty |
| Findings.PlacementUndefinedForEmptyField | include/bytecode_encoder.h:52-53 | with width 64 and sizes {0, 4}, field 0's placement shift is 64 |
| Findings.UnpackUndefinedForEmptyField | include/bytecode_encoder.h:67-68 | with width 64 and sizes {0, 4}, `unpack` masks field 0 with 0 and shifts it down by 64 |
| Findings.AccumulateSizes | include/bytecode_encoder.h:18 | the constructor's `uint64_t` sum of the sizes is their true sum modulo 2^64 |
| Findings.AccumulateAcceptsOversizedFields | include/bytecode_encoder.h:18-19 | sizes {2^64 - 1, 1} sum to 0 as written, so they pass the check for width 32 although they do not fit |
| Findings.AccumulateAgreesWithoutWrap | include/bytecode_encoder.h:18-19 | when the true sum does not wrap, the check as written is `SizesFit` |
| Findings.FieldsWithinWidth | include/bytecode_encoder.h:19 | the intended check makes every single field fit the word |
| Examples.Pack5And27 | tests/test_bytecode_encoder.cpp:4-9 | width 32, sizes {5, 27}: `PackSpec` of {1, 35} is 134217763 |
| Examples.Unpack5And27 | tests/test_bytecode_encoder.cpp:11-16 | width 32, sizes {5, 27}: `UnpackSpec` of 134217763 is {1, 35} |
| Examples.RoundTrip | include/bytecode_encoder.h:38-74 | with a new encoder, packing values that fit and unpacking the word gives the values back |
| Examples.Word8Fields3And3 | tests/test_bytecode_encoder.cpp:48-57 | width 8, sizes {3, 3}: `PackSpec` of {7, 7} is 252 |
| Examples.Word17Fields6And6 | tests/test_bytecode_encoder.cpp:69-78 | width 17, sizes {6, 6}: `PackSpec` of {63, 63} is 131040 |
| Examples.PacksCorrectly | tests/test_bytecode_encoder.cpp:4-9 | width 32, sizes {5, 27}: {1, 35} packs to 134217763 |
| Examples.UnpacksCorrectly | tests/test_bytecode_encoder.cpp:11-16 | width 32, sizes {5, 27}: 134217763 unpacks to {1, 35} |
| Examples.OneFieldIs64bit | tests/test_bytecode_encoder.cpp:18-24 | one 64-bit field: 1 round-trips |
| Examples.OneFieldIs32bit | tests/test_bytecode_encoder.cpp:26-32 | one 32-bit field in a 64-bit word: 1 round-trips |
| Examples.PacksMaximumValues | tests/test_bytecode_encoder.cpp:34-41 | sizes {4, 4}: the largest values {15, 15} round-trip |
| Examples.ValueExceedsItsBitWidthMaximum | tests/test_bytecode_encoder.cpp:43-46 | sizes {4, 4}: packing {16, 1} fails |
| Examples.UnusedBits | tests/test_bytecode_encoder.cpp:48-57 | width 8, sizes {3, 3}: {7, 7} packs to 252 and round-trips |
| Examples.Non2MultipleWidth | tests/test_bytecode_encoder.cpp:60-66 | width 17, sizes {10, 7}: {7, 7} round-trips |
| Examples.Non2MultipleWidthUnusedBits | tests/test_bytecode_encoder.cpp:69-78 | width 17, sizes {6, 6}: {63, 63} packs to 131040 and round-trips |
| Examples.ExceededSizesInConstructor | tests/test_bytecode_encoder.cpp:80-83 | sizes {5, 27, 1} do not fit a 32-bit word, so the constructor refuses them |

## Left out

- The `std::enable_if_t` width constraint (include/bytecode_encoder.h:8-9) is the constructor precondition `1 <= width <= 64`. It is not a compile-time check.
- The constructor's `assert` is a precondition in every build. With `NDEBUG` the source does not check the schema at all, and that is not modelled.
- `pack`'s `assert` on the number of values is a precondition. Without it, a `values` shorter than the schema is read past its end, and a longer one has its extra entries ignored, because the loop runs over the sizes. Neither case is modelled.
- The `std::runtime_error` and its message are the value `Failure(ValueTooLarge)`.
- `std::vector` storage, `reserve` and `std::ranges::copy` are not modelled. The sizes are a `seq`, and `unpack` returns a `seq`.
- Shifts by 64 are not modelled as written. C++ leaves them undefined. They occur in `pack`'s guard for every empty field (include/bytecode_encoder.h:47). In a 64-bit word whose leading fields are empty, they also occur in `pack`'s placement (include/bytecode_encoder.h:52-53) and in `unpack`'s read (include/bytecode_encoder.h:67-68). The model uses the intended rule instead: an empty field holds 0 and reads as 0. Findings records the discrepancy.
- Encoder.BytecodeEncoder.constructor: requires the true sum of the sizes to fit, rather than the sum that wraps at 2^64 (see Findings).
- The gtest macros and the test harness are not modelled. Each test is a method that builds an encoder and calls `Pack` and `Unpack`.

## Findings

| source | as written | input that shows it | evidently intended | confidence | as-written member | corrected member |
|---|---|---|---|---|---|---|
| include/bytecode_encoder.h:47 | the guard computes `~0ULL >> (64 - size)`, a shift by 64 when `size` is 0; with width 64 and only empty fields before it, the placement `values[i] << shift` (line 53) and the read `(packed & get_mask(...)) >> shift` (lines 67-68) shift by 64 too | width 64, sizes {0, 4}, any values | a zero-sized field holds only 0, so its largest value is 0 and it reads as 0 | not executed | Findings.GuardUndefinedForEmptyField, Findings.PlacementUndefinedForEmptyField, Findings.UnpackUndefinedForEmptyField | Layout.FieldMax, Layout.ZeroWidthField |
| include/bytecode_encoder.h:18-19 | the schema check sums the sizes with `std::accumulate` in `uint64_t`, which wraps at 2^64 | width 32, sizes {2^64 - 1, 1}: the sum is 0 and the check passes | reject any schema whose fields take more than `width` bits | not executed | Findings.AccumulateSizes, Findings.AccumulateAcceptsOversizedFields | Layout.SizesFit, Findings.FieldsWithinWidth |
