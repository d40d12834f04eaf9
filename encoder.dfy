/**
 * The codec object `be::BytecodeEncoder<width>`.
 *
 * The word width, a template argument in the source, is a constructor
 * argument here; the object never changes after construction, so both of
 * its fields are `const`. `Pack` and `Unpack` follow the source's loops
 * and are proved equal to the specification functions of module Layout.
 */
module Encoder {
  import opened Bits
  import opened Layout

  class BytecodeEncoder {
    /** The width of the packed word, 1 to 64 bits. */
    const width: nat
    /** The field sizes, first field in the most significant bits. */
    const sizes: seq<nat>

    predicate Valid()
    {
      ValidSchema(width, sizes)
    }

    /** The default constructor: an encoder without fields. */
    constructor Default(width: nat)
      requires 1 <= width <= WORD_BITS
      ensures Valid()
      ensures this.width == width && sizes == []
    {
      this.width := width;
      sizes := [];
    }

    /** Construction from a list of field sizes, which must fit in the word. */
    constructor (width: nat, sizes: seq<u64>)
      requires 1 <= width <= WORD_BITS
      requires SizesFit(width, sizes)
      ensures Valid()
      ensures this.width == width && this.sizes == sizes
    {
      this.width := width;
      this.sizes := sizes;
    }

    /**
     * `size` one bits whose lowest bit sits `freeWidth - size` bits above
     * bit 0. A zero size gives no bits; a 64-bit size gives all 64 without
     * computing `1 << 64`.
     */
    static function GetMask(freeWidth: nat, size: nat): (r: u64)
      requires size <= freeWidth <= WORD_BITS
      ensures r == (Pow2(size) - 1) * Pow2(freeWidth - size)
    {
      if size == 0 then
        0
      else if size == WORD_BITS then
        Pow2Word();
        U64_MAX
      else
        var k := freeWidth - size;
        OnesFitWord(size, k);
        var onBits := ShiftLeft(1, size) - 1;
        ShiftLeft(onBits, k)
    }

    /**
     * Places every value in its field, first value in the most significant
     * bits, or reports that a value does not fit its field.
     */
    method Pack(values: seq<u64>) returns (r: Result<u64>)
      requires Valid() && |values| == |sizes|
      ensures r == PackSpec(width, sizes, values)
    {
      var data: u64 := 0;
      var usedBits: nat := 0;
      var i := 0;
      while i < |sizes|
        invariant 0 <= i <= |sizes|
        invariant usedBits == SizeSum(sizes, i)
        invariant forall j :: 0 <= j < i ==> values[j] < Pow2(sizes[j])
        invariant data == PlacedFields(width, sizes, values, i)
      {
        SizeSumBound(sizes, i + 1, |sizes|);
        if values[i] > FieldMax(sizes[i]) {
          PackRejects(width, sizes, values, i);
          return Failure(ValueTooLarge);
        }
        var shift := width - sizes[i] - usedBits;
        var shifted: u64;
        if shift < WORD_BITS {
          shifted := ShiftLeft(values[i], shift);
        } else {
          // only an empty field of a 64-bit word sits 64 bits up, and the
          // guard has let only 0 through for it
          shifted := 0;
        }
        PackStep(width, sizes, values, i, usedBits, data, shift, shifted);
        data := BitOr(data, shifted) as u64;
        usedBits := usedBits + sizes[i];
        i := i + 1;
      }
      PackLayout(width, sizes, values);
      return Success(data);
    }

    /** Reads every field out of `packed`, in order; bits outside the fields are ignored. */
    method Unpack(packed: u64) returns (r: seq<u64>)
      requires Valid()
      ensures r == UnpackSpec(width, sizes, packed)
    {
      var freeWidth: nat := width;
      r := [];
      for i := 0 to |sizes|
        invariant freeWidth + SizeSum(sizes, i) == width
        invariant |r| == i
        invariant forall j :: 0 <= j < i ==> r[j] == FieldAt(width, sizes, packed, j)
      {
        var size := sizes[i];
        SizeSumBound(sizes, i + 1, |sizes|);
        var shift := freeWidth - size;
        var mask := GetMask(freeWidth, size);
        var val: nat;
        if shift < WORD_BITS {
          val := ShiftRight(BitAnd(packed, mask), shift);
          ReadField(width, sizes, packed, i, shift, mask);
        } else {
          // only an empty field of a 64-bit word sits 64 bits up; it reads as 0
          val := 0;
        }
        r := r + [val as u64];
        freeWidth := freeWidth - size;
      }
    }
  }
}
