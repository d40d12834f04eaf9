/**
 * Two places where the source, as written, does not do what it evidently
 * means to do. Each is modelled as written, shown with a concrete input,
 * and set beside the corrected definition the rest of the model uses.
 */
module Findings {
  import opened Bits
  import opened Layout
  import Encoder

  /** C++ defines `x >> k` and `x << k` on a 64-bit operand only for counts below 64. */
  predicate ShiftDefined(k: int)
  {
    k < WORD_BITS
  }

  /** The shift count of the overflow guard `~0ULL >> (64 - size)` in `pack`, as written. */
  function GuardShiftAsWritten(size: nat): nat
    requires size <= WORD_BITS
  {
    WORD_BITS - size
  }

  /**
   * The shift count of `unpack` for field `i`, as written: `free_width -
   * size`, where `free_width` is the width less the sizes before field `i`.
   */
  function UnpackShiftAsWritten(width: nat, sizes: seq<nat>, i: nat): int
    requires i < |sizes|
  {
    (width - SizeSum(sizes, i)) - sizes[i]
  }

  /**
   * The guard of `pack` shifts by a defined amount exactly when the field
   * is not empty: for a zero-sized field it shifts a 64-bit word by 64.
   */
  lemma GuardUndefinedForEmptyField(size: nat)
    requires size <= WORD_BITS
    ensures ShiftDefined(GuardShiftAsWritten(size)) <==> size > 0
  {
  }

  /** `unpack` shifts field `i` down by the amount `pack` shifts it up. */
  lemma UnpackShiftIsPlacementShift(width: nat, sizes: seq<nat>, i: nat)
    requires SizesFit(width, sizes) && i < |sizes|
    ensures UnpackShiftAsWritten(width, sizes, i) == Shift(width, sizes, i)
  {
  }

  /**
   * The shift of field `i`, in `pack`'s placement and in `unpack`, is
   * undefined exactly when the word is 64 bits wide and field `i` and every
   * field before it are empty.
   */
  lemma FieldShiftUndefinedExactly(width: nat, sizes: seq<nat>, i: nat)
    requires ValidSchema(width, sizes) && i < |sizes|
    ensures !ShiftDefined(Shift(width, sizes, i)) <==> width == WORD_BITS && SizeSum(sizes, i + 1) == 0
  {
  }

  /**
   * With width 64 and an empty first field, `values[0] << shift` in `pack`
   * shifts by 64 as well.
   */
  lemma PlacementUndefinedForEmptyField()
    ensures SizesFit(64, [0, 4])
    ensures !ShiftDefined(Shift(64, [0, 4], 0))
  {
  }

  /**
   * With width 64 and an empty first field, `unpack` computes
   * `(packed & 0) >> 64` for that field.
   */
  lemma UnpackUndefinedForEmptyField()
    ensures Encoder.BytecodeEncoder.GetMask(64, 0) == 0
    ensures !ShiftDefined(UnpackShiftAsWritten(64, [0, 4], 0))
  {
  }

  /**
   * The constructor's `std::accumulate` over `uint64_t`, as written: the
   * sum of the first `n` sizes, wrapping at 2^64.
   */
  function AccumulateSizes(sizes: seq<u64>, n: nat): (r: u64)
    requires n <= |sizes|
    ensures r == SizeSum(sizes, n) % 0x1_0000_0000_0000_0000
  {
    if n == 0 then 0
    else
      var prev := AccumulateSizes(sizes, n - 1);
      WrapAdd(SizeSum(sizes, n - 1), prev, sizes[n - 1]);
      (prev + sizes[n - 1]) % 0x1_0000_0000_0000_0000
  }

  /** Adding to a wrapped sum wraps the true sum. */
  lemma WrapAdd(total: nat, wrapped: nat, x: nat)
    requires wrapped == total % 0x1_0000_0000_0000_0000
    ensures (wrapped + x) % 0x1_0000_0000_0000_0000 == (total + x) % 0x1_0000_0000_0000_0000
  {
    var m := 0x1_0000_0000_0000_0000;
    var q := total / m;
    assert total + x == q * m + (wrapped + x);
    ModAddMultiple(wrapped + x, q, m);
  }

  /**
   * The check as written accepts sizes {2^64 - 1, 1} for a 32-bit word:
   * their wrapped sum is 0, although the fields take far more than 32 bits.
   */
  lemma AccumulateAcceptsOversizedFields()
    ensures AccumulateSizes([U64_MAX, 1], 2) == 0
    ensures !SizesFit(32, [U64_MAX, 1])
  {
    var sizes: seq<u64> := [U64_MAX, 1];
    assert SizeSum(sizes, 1) == U64_MAX;
    assert SizeSum(sizes, 2) == 0x1_0000_0000_0000_0000;
  }

  /** When the true sum does not wrap, the check as written is the intended one. */
  lemma AccumulateAgreesWithoutWrap(width: nat, sizes: seq<u64>)
    requires SizeSum(sizes, |sizes|) <= U64_MAX
    ensures AccumulateSizes(sizes, |sizes|) <= width <==> SizesFit(width, sizes)
  {
  }

  /** The intended schema check guarantees that every single field fits the word. */
  lemma FieldsWithinWidth(width: nat, sizes: seq<nat>, i: nat)
    requires SizesFit(width, sizes) && i < |sizes|
    ensures sizes[i] <= width
  {
    SizeSumBound(sizes, i + 1, |sizes|);
  }
}
