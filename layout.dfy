/**
 * The bit layout of a packed word, as specification functions.
 *
 * A schema is a word width (1 to 64 bits) and an ordered list of field
 * sizes. Fields are laid out most-significant first: field `i` occupies the
 * `sizes[i]` bits that end `Shift(width, sizes, i)` bits above bit 0, where
 * that shift is the width minus the sizes of field `i` and of every field
 * before it. Bits below the last field, and bits at or above `width`, belong
 * to no field.
 */
module Layout {
  import opened Bits

  /** The bits taken by the first `n` fields. */
  function SizeSum(sizes: seq<nat>, n: nat): nat
    requires n <= |sizes|
  {
    if n == 0 then 0 else SizeSum(sizes, n - 1) + sizes[n - 1]
  }

  lemma {:induction false} SizeSumBound(sizes: seq<nat>, m: nat, n: nat)
    requires m <= n <= |sizes|
    ensures SizeSum(sizes, m) <= SizeSum(sizes, n)
    decreases n - m
  {
    if m < n {
      SizeSumBound(sizes, m, n - 1);
    }
  }

  /** The schema check of the constructor: the fields together take at most `width` bits. */
  predicate SizesFit(width: nat, sizes: seq<nat>)
  {
    SizeSum(sizes, |sizes|) <= width
  }

  /** A schema the codec accepts: a word of 1 to 64 bits whose fields fit in it. */
  predicate ValidSchema(width: nat, sizes: seq<nat>)
  {
    1 <= width <= WORD_BITS && SizesFit(width, sizes)
  }

  /** The distance from bit 0 to the lowest bit of field `i`. */
  function Shift(width: nat, sizes: seq<nat>, i: nat): (r: nat)
    requires SizesFit(width, sizes) && i < |sizes|
    ensures r + sizes[i] + SizeSum(sizes, i) == width
  {
    SizeSumBound(sizes, i + 1, |sizes|);
    width - sizes[i] - SizeSum(sizes, i)
  }

  /** Every value fits its field: value `i` is below 2^sizes[i]. */
  predicate Fits(sizes: seq<nat>, values: seq<nat>)
    requires |values| == |sizes|
  {
    forall i :: 0 <= i < |sizes| ==> values[i] < Pow2(sizes[i])
  }

  /**
   * The largest value a field of `size` bits holds, computed as
   * `~0ULL >> (64 - size)`; a zero-sized field holds only 0.
   */
  function FieldMax(size: nat): (r: u64)
    requires size <= WORD_BITS
    ensures r == Pow2(size) - 1
  {
    if size == 0 then 0
    else
      Pow2Word();
      Pow2Add(size, WORD_BITS - size);
      ShiftRightIsDiv(U64_MAX, WORD_BITS - size);
      AllOnesDiv(Pow2(size), Pow2(WORD_BITS - size));
      ShiftRight(U64_MAX, WORD_BITS - size)
  }

  /** The first `n` values, each multiplied by 2 to the power of its field's shift, summed. */
  function PlacedFields(width: nat, sizes: seq<nat>, values: seq<nat>, n: nat): nat
    requires SizesFit(width, sizes) && |values| == |sizes| && n <= |sizes|
  {
    if n == 0 then 0
    else PlacedFields(width, sizes, values, n - 1) + values[n - 1] * Pow2(Shift(width, sizes, n - 1))
  }

  /** The first `n` values written one after another as a single number of SizeSum(sizes, n) bits. */
  function Concat(sizes: seq<nat>, values: seq<nat>, n: nat): nat
    requires |values| == |sizes| && n <= |sizes|
  {
    if n == 0 then 0 else Concat(sizes, values, n - 1) * Pow2(sizes[n - 1]) + values[n - 1]
  }

  /** The packed word `pack` computes, or the overflow it reports. */
  datatype PackError = ValueTooLarge

  datatype Result<T> = Success(value: T) | Failure(error: PackError)

  function PackSpec(width: nat, sizes: seq<nat>, values: seq<nat>): (r: Result<u64>)
    requires ValidSchema(width, sizes) && |values| == |sizes|
  {
    if Fits(sizes, values) then
      PlacedInWord(width, sizes, values);
      Success(PlacedFields(width, sizes, values, |sizes|) as u64)
    else
      Failure(ValueTooLarge)
  }

  /** Field `i` of `packed`: the `sizes[i]` bits `Shift(width, sizes, i)` bits above bit 0. */
  function FieldAt(width: nat, sizes: seq<nat>, packed: nat, i: nat): (r: nat)
    requires SizesFit(width, sizes) && i < |sizes|
    ensures r < Pow2(sizes[i])
  {
    (packed / Pow2(Shift(width, sizes, i))) % Pow2(sizes[i])
  }

  /**
   * One step of `unpack`: masking field `i` in place and shifting it down
   * reads that field.
   */
  lemma ReadField(width: nat, sizes: seq<nat>, packed: nat, i: nat, shift: nat, mask: nat)
    requires ValidSchema(width, sizes) && i < |sizes|
    requires shift + sizes[i] + SizeSum(sizes, i) == width && shift < WORD_BITS
    requires mask == (Pow2(sizes[i]) - 1) * Pow2(shift)
    ensures ShiftRight(BitAnd(packed, mask), shift) == FieldAt(width, sizes, packed, i)
    ensures FieldAt(width, sizes, packed, i) <= U64_MAX
  {
    assert shift == Shift(width, sizes, i);
    MaskSelectsFieldBy(packed, sizes[i], shift, Pow2(sizes[i]), Pow2(shift), mask);
    FieldInWord(width, sizes, packed, i);
  }

  /** A field read from a word is itself a word. */
  lemma FieldInWord(width: nat, sizes: seq<nat>, packed: nat, i: nat)
    requires ValidSchema(width, sizes) && i < |sizes|
    ensures FieldAt(width, sizes, packed, i) <= U64_MAX
  {
    SizeSumBound(sizes, i + 1, |sizes|);
    Pow2AtMostWord(sizes[i]);
  }

  /** The values `unpack` returns: every field of `packed`, in order. */
  function UnpackSpec(width: nat, sizes: seq<nat>, packed: nat): seq<nat>
    requires SizesFit(width, sizes)
  {
    seq(|sizes|, i requires 0 <= i < |sizes| => FieldAt(width, sizes, packed, i))
  }

  /**
   * The powers of two around field `i` (`next` names `i + 1`): the bits
   * from the bottom of field `i` up to the top of the word split into the
   * field and the shift below it.
   */
  lemma FieldPowers(width: nat, sizes: seq<nat>, i: nat, next: nat)
    requires SizesFit(width, sizes) && i < |sizes| && next == i + 1
    ensures SizeSum(sizes, i) <= SizeSum(sizes, next) <= width
    ensures SizeSum(sizes, next) == SizeSum(sizes, i) + sizes[i]
    ensures Pow2(width - SizeSum(sizes, next)) == Pow2(Shift(width, sizes, i))
    ensures Pow2(SizeSum(sizes, next)) == Pow2(SizeSum(sizes, i)) * Pow2(sizes[i])
    ensures Pow2(width - SizeSum(sizes, i)) == Pow2(sizes[i]) * Pow2(Shift(width, sizes, i))
    ensures Pow2(width) == (Pow2(SizeSum(sizes, i)) * Pow2(sizes[i])) * Pow2(Shift(width, sizes, i))
  {
    var sh, s, prev, sum := Shift(width, sizes, i), sizes[i], SizeSum(sizes, i), SizeSum(sizes, next);
    assert width - sum == sh;
    Pow2Sum(sum, prev, s);
    Pow2Sum(width - prev, s, sh);
    Pow2Sum(width, sum, sh);
  }

  /**
   * When the first `n` values fit their fields, placing them is the same as
   * concatenating them and shifting the result up to the top of the word;
   * in particular the word stays below 2^width.
   */
  lemma {:induction false} PlacedShape(width: nat, sizes: seq<nat>, values: seq<nat>, n: nat)
    requires SizesFit(width, sizes) && |values| == |sizes| && n <= |sizes|
    requires forall j :: 0 <= j < n ==> values[j] < Pow2(sizes[j])
    ensures SizeSum(sizes, n) <= width
    ensures Concat(sizes, values, n) < Pow2(SizeSum(sizes, n))
    ensures PlacedFields(width, sizes, values, n) == Concat(sizes, values, n) * Pow2(width - SizeSum(sizes, n))
    ensures PlacedFields(width, sizes, values, n) < Pow2(width)
  {
    SizeSumBound(sizes, n, |sizes|);
    if n > 0 {
      var i := n - 1;
      PlacedShape(width, sizes, values, i);
      FieldPowers(width, sizes, i, n);
      // a, c: the first i fields placed and concatenated; v: value i;
      // pc: 2^SizeSum(i); ps: 2^sizes[i]; psh: 2^Shift(i); pHigh: 2^(width - SizeSum(i));
      // pw: 2^width; an, cn, pn, pLow: the same after field i
      AppendShifted(PlacedFields(width, sizes, values, i), Concat(sizes, values, i), values[i],
        Pow2(SizeSum(sizes, i)), Pow2(sizes[i]), Pow2(Shift(width, sizes, i)), Pow2(width - SizeSum(sizes, i)), Pow2(width),
        PlacedFields(width, sizes, values, n), Concat(sizes, values, n), Pow2(SizeSum(sizes, n)),
        Pow2(width - SizeSum(sizes, n)));
    }
  }

  /** The fields from `m` to `n` together stay below the lowest bit of field `m - 1`. */
  lemma {:induction false} PlacedTail(width: nat, sizes: seq<nat>, values: seq<nat>, m: nat, n: nat)
    requires SizesFit(width, sizes) && |values| == |sizes| && m <= n <= |sizes|
    requires forall j :: 0 <= j < n ==> values[j] < Pow2(sizes[j])
    ensures SizeSum(sizes, m) <= SizeSum(sizes, n) <= width
    ensures PlacedFields(width, sizes, values, m) <= PlacedFields(width, sizes, values, n)
    ensures PlacedFields(width, sizes, values, n) - PlacedFields(width, sizes, values, m)
         <= Pow2(width - SizeSum(sizes, m)) - Pow2(width - SizeSum(sizes, n))
    decreases n
  {
    SizeSumBound(sizes, m, n);
    SizeSumBound(sizes, n, |sizes|);
    if n > m {
      var i := n - 1;
      PlacedTail(width, sizes, values, m, i);
      FieldPowers(width, sizes, i, n);
      // d: fields m to i placed; v: value i; top: 2^(width - SizeSum(m));
      // ps: 2^sizes[i]; psh: 2^Shift(i); pHigh: 2^(width - SizeSum(i))
      AddShiftedBelow(PlacedFields(width, sizes, values, i) - PlacedFields(width, sizes, values, m),
        values[i], Pow2(width - SizeSum(sizes, m)), Pow2(sizes[i]), Pow2(Shift(width, sizes, i)),
        Pow2(width - SizeSum(sizes, i)));
    }
  }

  /** Reading field `i` back out of the packed word gives value `i`. */
  lemma FieldOfPlaced(width: nat, sizes: seq<nat>, values: seq<nat>, i: nat)
    requires SizesFit(width, sizes) && |values| == |sizes| && i < |sizes|
    requires Fits(sizes, values)
    ensures FieldAt(width, sizes, PlacedFields(width, sizes, values, |sizes|), i) == values[i]
  {
    var n, next := |sizes|, i + 1;
    FieldPowers(width, sizes, i, next);
    PlacedShape(width, sizes, values, next);
    PlacedTail(width, sizes, values, next, n);
    var a, p := PlacedFields(width, sizes, values, next), PlacedFields(width, sizes, values, n);
    DigitAbove(p, Concat(sizes, values, next), p - a, Concat(sizes, values, i), values[i],
      Pow2(sizes[i]), Pow2(Shift(width, sizes, i)));
  }

  /** A value that fits field `i`, shifted to that field, stays below the fields before it. */
  lemma ShiftedFits(width: nat, sizes: seq<nat>, v: nat, i: nat)
    requires SizesFit(width, sizes) && i < |sizes| && v < Pow2(sizes[i])
    ensures SizeSum(sizes, i) <= width
    ensures v * Pow2(Shift(width, sizes, i)) < Pow2(width - SizeSum(sizes, i))
    ensures v * Pow2(Shift(width, sizes, i)) < Pow2(width)
  {
    FieldPowers(width, sizes, i, i + 1);
    MulLess(v, Pow2(sizes[i]), Pow2(Shift(width, sizes, i)));
    Pow2Monotone(width - SizeSum(sizes, i), width);
  }

  /** Placing one more field adds that value at its shift. */
  lemma PlacedStep(width: nat, sizes: seq<nat>, values: seq<nat>, i: nat)
    requires SizesFit(width, sizes) && |values| == |sizes| && i < |sizes|
    ensures PlacedFields(width, sizes, values, i + 1)
         == PlacedFields(width, sizes, values, i) + values[i] * Pow2(Shift(width, sizes, i))
  {
  }

  /**
   * Before field `i` is placed, the word holds the earlier fields above bit
   * `width - SizeSum(sizes, i)` and value `i` shifted fits below that bit.
   */
  lemma PlacedLayout(width: nat, sizes: seq<nat>, values: seq<nat>, i: nat)
    requires SizesFit(width, sizes) && |values| == |sizes| && i < |sizes|
    requires forall j :: 0 <= j <= i ==> values[j] < Pow2(sizes[j])
    ensures SizeSum(sizes, i) <= width
    ensures PlacedFields(width, sizes, values, i) == Concat(sizes, values, i) * Pow2(width - SizeSum(sizes, i))
    ensures values[i] * Pow2(Shift(width, sizes, i)) < Pow2(width - SizeSum(sizes, i))
    ensures values[i] * Pow2(Shift(width, sizes, i)) < Pow2(width)
    ensures PlacedFields(width, sizes, values, i + 1)
         == PlacedFields(width, sizes, values, i) + values[i] * Pow2(Shift(width, sizes, i))
  {
    ShiftedFits(width, sizes, values[i], i);
    PlacedShape(width, sizes, values, i);
    PlacedStep(width, sizes, values, i);
  }

  /**
   * One step of `pack`: when the fields before `i` are in place, OR-ing in
   * value `i` shifted to its field adds it.
   */
  lemma PlaceNextField(width: nat, sizes: seq<nat>, values: seq<nat>, i: nat)
    requires ValidSchema(width, sizes) && |values| == |sizes| && i < |sizes|
    requires forall j :: 0 <= j <= i ==> values[j] < Pow2(sizes[j])
    ensures values[i] * Pow2(Shift(width, sizes, i)) <= U64_MAX
    ensures BitOr(PlacedFields(width, sizes, values, i), values[i] * Pow2(Shift(width, sizes, i)))
         == PlacedFields(width, sizes, values, i + 1)
    ensures PlacedFields(width, sizes, values, i + 1) <= U64_MAX
  {
    PlacedLayout(width, sizes, values, i);
    MulNat(values[i], Pow2(Shift(width, sizes, i)));
    OrAdd(PlacedFields(width, sizes, values, i), values[i] * Pow2(Shift(width, sizes, i)), Concat(sizes, values, i),
      PlacedFields(width, sizes, values, i + 1), Pow2(width - SizeSum(sizes, i)), width - SizeSum(sizes, i));
    Pow2AtMostWord(width);
    assert PlacedFields(width, sizes, values, i + 1) < Pow2(width) by {
      PlacedShape(width, sizes, values, i + 1);
    }
  }

  /**
   * One pass of the loop of `pack`: with the fields before `i` placed in
   * `data` and using `usedBits` bits, OR-ing in value `i` shifted by `shift`
   * places field `i` as well.
   */
  lemma PackStep(width: nat, sizes: seq<nat>, values: seq<nat>, i: nat,
                 usedBits: nat, data: nat, shift: nat, shifted: nat)
    requires ValidSchema(width, sizes) && |values| == |sizes| && i < |sizes|
    requires forall j :: 0 <= j < i ==> values[j] < Pow2(sizes[j])
    requires values[i] <= Pow2(sizes[i]) - 1
    requires usedBits == SizeSum(sizes, i) && data == PlacedFields(width, sizes, values, i)
    requires shift + sizes[i] + usedBits == width
    requires shift < WORD_BITS ==> shifted == ShiftLeft(values[i], shift)
    requires shift >= WORD_BITS ==> shifted == 0
    ensures BitOr(data, shifted) == PlacedFields(width, sizes, values, i + 1) <= U64_MAX
    ensures usedBits + sizes[i] == SizeSum(sizes, i + 1)
    ensures forall j :: 0 <= j < i + 1 ==> values[j] < Pow2(sizes[j])
  {
    assert shift == Shift(width, sizes, i);
    PlaceNextField(width, sizes, values, i);
  }

  /** The overflow branch of `pack`: a value above the largest its field holds. */
  lemma PackRejects(width: nat, sizes: seq<nat>, values: seq<nat>, i: nat)
    requires ValidSchema(width, sizes) && |values| == |sizes| && i < |sizes|
    requires values[i] > Pow2(sizes[i]) - 1
    ensures PackSpec(width, sizes, values) == Failure(ValueTooLarge)
  {
  }

  /** Values that fit their fields place into a word. */
  lemma PlacedInWord(width: nat, sizes: seq<nat>, values: seq<nat>)
    requires ValidSchema(width, sizes) && |values| == |sizes|
    requires Fits(sizes, values)
    ensures PlacedFields(width, sizes, values, |sizes|) <= U64_MAX
  {
    PlacedShape(width, sizes, values, |sizes|);
    Pow2AtMostWord(width);
  }

  /** Range of the packed word: below 2^width, and the bits below the last field are zero. */
  lemma PackedRange(width: nat, sizes: seq<nat>, values: seq<nat>)
    requires ValidSchema(width, sizes) && |values| == |sizes|
    requires PackSpec(width, sizes, values).Success?
    ensures PackSpec(width, sizes, values).value < Pow2(width)
    ensures PackSpec(width, sizes, values).value % Pow2(width - SizeSum(sizes, |sizes|)) == 0
  {
    PlacedShape(width, sizes, values, |sizes|);
    MulDiv(Concat(sizes, values, |sizes|), Pow2(width - SizeSum(sizes, |sizes|)));
  }

  /** Overflow rule: `pack` fails exactly when some value exceeds 2^size - 1. */
  lemma PackOverflow(width: nat, sizes: seq<nat>, values: seq<nat>)
    requires ValidSchema(width, sizes) && |values| == |sizes|
    ensures PackSpec(width, sizes, values).Failure?
        <==> exists i :: 0 <= i < |sizes| && values[i] > Pow2(sizes[i]) - 1
  {
  }

  /** Layout: on success the word is the sum of every value shifted to its field. */
  lemma PackLayout(width: nat, sizes: seq<nat>, values: seq<nat>)
    requires ValidSchema(width, sizes) && |values| == |sizes|
    requires Fits(sizes, values)
    ensures PackSpec(width, sizes, values).Success?
    ensures PackSpec(width, sizes, values).value == PlacedFields(width, sizes, values, |sizes|)
  {
  }

  /** Round trip: unpacking a packed word gives back the values. */
  lemma UnpackOfPack(width: nat, sizes: seq<nat>, values: seq<nat>)
    requires ValidSchema(width, sizes) && |values| == |sizes|
    requires Fits(sizes, values)
    ensures PackSpec(width, sizes, values).Success?
    ensures UnpackSpec(width, sizes, PackSpec(width, sizes, values).value) == values
  {
    var p := PackSpec(width, sizes, values).value;
    forall i | 0 <= i < |sizes|
      ensures UnpackSpec(width, sizes, p)[i] == values[i]
    {
      FieldOfPlaced(width, sizes, values, i);
    }
  }

  /** Placing the fields read out of `packed` rebuilds `packed`'s field bits, step by step. */
  lemma {:induction false} PlacedOfFields(width: nat, sizes: seq<nat>, packed: nat, n: nat)
    requires SizesFit(width, sizes) && n <= |sizes|
    ensures SizeSum(sizes, n) <= width
    ensures PlacedFields(width, sizes, UnpackSpec(width, sizes, packed), n)
         == RoundDown(packed % Pow2(width), Pow2(width - SizeSum(sizes, n)))
  {
    SizeSumBound(sizes, n, |sizes|);
    var q := packed % Pow2(width);
    if n == 0 {
      DivModUnique(q, Pow2(width), 0, q);
    } else {
      var i := n - 1;
      PlacedOfFields(width, sizes, packed, i);
      FieldPowers(width, sizes, i, n);
      var sh, s := Shift(width, sizes, i), sizes[i];
      // the field read from `packed` is the one read from its low `width` bits
      HighBitsIgnored(packed, sh, s, width);
      RoundDownStep(q, Pow2(s), Pow2(sh), Pow2(width - SizeSum(sizes, i)));
    }
  }

  /** The other round trip: packing what `unpack` returns gives the field bits of the word. */
  lemma PackOfUnpack(width: nat, sizes: seq<nat>, packed: nat)
    requires ValidSchema(width, sizes)
    ensures PackSpec(width, sizes, UnpackSpec(width, sizes, packed)).Success?
    ensures PackSpec(width, sizes, UnpackSpec(width, sizes, packed)).value
         == RoundDown(packed % Pow2(width), Pow2(width - SizeSum(sizes, |sizes|)))
  {
    UnpackFits(width, sizes, packed);
    PackLayout(width, sizes, UnpackSpec(width, sizes, packed));
    PlacedOfAllFields(width, sizes, packed);
  }

  lemma PlacedOfAllFields(width: nat, sizes: seq<nat>, packed: nat)
    requires ValidSchema(width, sizes)
    ensures PlacedFields(width, sizes, UnpackSpec(width, sizes, packed), |sizes|)
         == RoundDown(packed % Pow2(width), Pow2(width - SizeSum(sizes, |sizes|)))
  {
    PlacedOfFields(width, sizes, packed, |sizes|);
  }

  /** Every field `unpack` returns fits its field. */
  lemma UnpackFits(width: nat, sizes: seq<nat>, packed: nat)
    requires SizesFit(width, sizes)
    ensures Fits(sizes, UnpackSpec(width, sizes, packed))
  {
  }

  /** `unpack` ignores every bit outside the fields. */
  lemma UnpackIgnoresOtherBits(width: nat, sizes: seq<nat>, packed: nat)
    requires ValidSchema(width, sizes)
    ensures UnpackSpec(width, sizes, RoundDown(packed % Pow2(width), Pow2(width - SizeSum(sizes, |sizes|))))
         == UnpackSpec(width, sizes, packed)
  {
    PackOfUnpack(width, sizes, packed);
    UnpackOfPack(width, sizes, UnpackSpec(width, sizes, packed));
  }

  /** A zero-sized field accepts only 0 and always unpacks to 0. */
  lemma ZeroWidthField(width: nat, sizes: seq<nat>, values: seq<nat>, packed: nat, i: nat)
    requires ValidSchema(width, sizes) && |values| == |sizes| && i < |sizes|
    requires sizes[i] == 0
    ensures values[i] != 0 ==> PackSpec(width, sizes, values).Failure?
    ensures UnpackSpec(width, sizes, packed)[i] == 0
  {
  }
}
