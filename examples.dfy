/**
 * The cases of the repository's test suite: each test case is a method
 * that builds an encoder as its test does, calls `Pack` and `Unpack`, and
 * states what they return.
 */
module Examples {
  import opened Bits
  import opened Layout
  import opened Encoder

  /** The powers of two the test cases use. */
  lemma SmallPowers()
    ensures Pow2(2) == 4 && Pow2(3) == 8 && Pow2(4) == 16 && Pow2(5) == 32
    ensures Pow2(6) == 64 && Pow2(7) == 128 && Pow2(8) == 256
    ensures Pow2(11) == 2048 && Pow2(27) == 134217728
  {
    Pow2Plus8(0);
    Pow2Plus8(3);
    Pow2Plus8(11);
    Pow2Plus8(19);
  }

  /** Width 32, sizes {5, 27}: {1, 35} places as 1 * 2^27 + 35. */
  lemma Pack5And27()
    ensures PackSpec(32, [5, 27], [1, 35]) == Success(134217763)
  {
    SmallPowers();
    PackLayout(32, [5, 27], [1, 35]);
    assert Shift(32, [5, 27], 0) == 27 && Shift(32, [5, 27], 1) == 0;
  }

  /** Width 32, sizes {5, 27}: 134217763 is 1 * 2^27 + 35, so its fields are 1 and 35. */
  lemma Unpack5And27()
    ensures SizesFit(32, [5, 27])
    ensures UnpackSpec(32, [5, 27], 134217763) == [1, 35]
  {
    SmallPowers();
    assert Shift(32, [5, 27], 0) == 27 && Shift(32, [5, 27], 1) == 0;
    DivModUnique(134217763, Pow2(27), 1, 35);
    assert FieldAt(32, [5, 27], 134217763, 0) == 1;
    assert FieldAt(32, [5, 27], 134217763, 1) == 35;
  }

  /** Width 32, sizes {5, 27}: values {1, 35} pack to 134217763. */
  method PacksCorrectly() returns (packed: Result<u64>)
    ensures packed == Success(134217763)
  {
    var encoder := new BytecodeEncoder(32, [5, 27]);
    packed := encoder.Pack([1, 35]);
    Pack5And27();
  }

  /** Width 32, sizes {5, 27}: 134217763 unpacks to {1, 35}. */
  method UnpacksCorrectly() returns (unpacked: seq<u64>)
    ensures unpacked == [1, 35]
  {
    var encoder := new BytecodeEncoder(32, [5, 27]);
    unpacked := encoder.Unpack(134217763);
    Unpack5And27();
  }

  /** Packing values that fit with a new encoder, then unpacking the word. */
  method RoundTrip(width: nat, sizes: seq<u64>, values: seq<u64>) returns (packed: u64, res: seq<u64>)
    requires ValidSchema(width, sizes) && |values| == |sizes| && Fits(sizes, values)
    ensures PackSpec(width, sizes, values) == Success(packed)
    ensures res == values
  {
    var encoder := new BytecodeEncoder(width, sizes);
    UnpackOfPack(width, sizes, values);
    var r := encoder.Pack(values);
    packed := r.value;
    res := encoder.Unpack(packed);
  }

  /** A single 64-bit field in a 64-bit word round-trips 1. */
  method OneFieldIs64bit() returns (res: seq<u64>)
    ensures res == [1]
  {
    Pow2Monotone(1, 64);
    assert Pow2(1) == 2;
    var packed;
    packed, res := RoundTrip(64, [64], [1]);
  }

  /** A single 32-bit field in a 64-bit word round-trips 1. */
  method OneFieldIs32bit() returns (res: seq<u64>)
    ensures res == [1]
  {
    Pow2Monotone(1, 32);
    assert Pow2(1) == 2;
    var packed;
    packed, res := RoundTrip(64, [32], [1]);
  }

  /** The largest values of two 4-bit fields, {15, 15}, round-trip. */
  method PacksMaximumValues() returns (res: seq<u64>)
    ensures res == [15, 15]
  {
    SmallPowers();
    var packed;
    packed, res := RoundTrip(8, [4, 4], [15, 15]);
  }

  /** 16 does not fit a 4-bit field, so packing {16, 1} fails. */
  method ValueExceedsItsBitWidthMaximum() returns (packed: Result<u64>)
    ensures packed == Failure(ValueTooLarge)
  {
    var encoder := new BytecodeEncoder(8, [4, 4]);
    SmallPowers();
    PackRejects(8, [4, 4], [16, 1], 0);
    packed := encoder.Pack([16, 1]);
  }

  /** Width 8, sizes {3, 3}: {7, 7} is 7 * 2^5 + 7 * 2^2, so the low 2 bits stay zero. */
  lemma Word8Fields3And3()
    ensures Fits([3, 3], [7, 7])
    ensures PackSpec(8, [3, 3], [7, 7]) == Success(252)
  {
    SmallPowers();
    PackLayout(8, [3, 3], [7, 7]);
    assert Shift(8, [3, 3], 0) == 5 && Shift(8, [3, 3], 1) == 2;
  }

  /** Sizes {3, 3} in an 8-bit word: {7, 7} packs to 252, leaving the low 2 bits zero, and round-trips. */
  method UnusedBits() returns (packed: u64, res: seq<u64>)
    ensures packed == 252 && res == [7, 7]
  {
    Word8Fields3And3();
    packed, res := RoundTrip(8, [3, 3], [7, 7]);
  }

  /** Sizes {10, 7} in a 17-bit word: {7, 7} round-trips. */
  method Non2MultipleWidth() returns (res: seq<u64>)
    ensures res == [7, 7]
  {
    SmallPowers();
    Pow2Monotone(3, 7);
    Pow2Monotone(3, 10);
    var packed;
    packed, res := RoundTrip(17, [10, 7], [7, 7]);
  }

  /** Width 17, sizes {6, 6}: {63, 63} is 63 * 2^11 + 63 * 2^5, so the low 5 bits stay zero. */
  lemma Word17Fields6And6()
    ensures Fits([6, 6], [63, 63])
    ensures PackSpec(17, [6, 6], [63, 63]) == Success(131040)
  {
    SmallPowers();
    PackLayout(17, [6, 6], [63, 63]);
    assert Shift(17, [6, 6], 0) == 11 && Shift(17, [6, 6], 1) == 5;
  }

  /** Sizes {6, 6} in a 17-bit word: {63, 63} packs to 131040, leaving the low 5 bits zero, and round-trips. */
  method Non2MultipleWidthUnusedBits() returns (packed: u64, res: seq<u64>)
    ensures packed == 131040 && res == [63, 63]
  {
    Word17Fields6And6();
    packed, res := RoundTrip(17, [6, 6], [63, 63]);
  }

  /** Sizes {5, 27, 1} take 33 bits, more than a 32-bit word: the schema check refuses them. */
  lemma ExceededSizesInConstructor()
    ensures !SizesFit(32, [5, 27, 1])
  {
    var sizes := [5, 27, 1];
    assert SizeSum(sizes, 2) == 32;
  }
}
