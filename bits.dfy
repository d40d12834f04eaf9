/**
 * Unsigned 64-bit words modelled on natural numbers.
 *
 * The codec works on `uint64_t`. Here a word is a `nat` below 2^64; a
 * left shift is a multiplication by a power of two truncated to 64 bits, a
 * right shift is a division, and `&` and `|` are defined bit by bit. The
 * lemmas connect the bitwise operators to `/` and `%`, which is the form
 * in which the layout of the packed word is specified.
 */
module Bits {

  /** The bit capacity of the native word the codec stores its result in. */
  const WORD_BITS: nat := 64

  /** An unsigned 64-bit integer. */
  type u64 = x: nat | x < 0x1_0000_0000_0000_0000

  const U64_MAX: u64 := 0xFFFF_FFFF_FFFF_FFFF

  function Pow2(n: nat): (r: nat)
    ensures r >= 1
  {
    if n == 0 then 1 else 2 * Pow2(n - 1)
  }

  lemma {:induction false} Pow2Add(a: nat, b: nat)
    ensures Pow2(a + b) == Pow2(a) * Pow2(b)
  {
    if a > 0 {
      Pow2Add(a - 1, b);
      MulTwiceLeft(Pow2(a - 1), Pow2(b));
    }
  }

  lemma {:induction false} Pow2Split(n: nat, a: nat)
    requires a <= n
    ensures Pow2(n) == Pow2(a) * Pow2(n - a)
  {
    if a > 0 {
      Pow2Split(n - 1, a - 1);
      MulTwiceLeft(Pow2(a - 1), Pow2(n - a));
    }
  }

  /** `Pow2Add` with the sum given by name. */
  lemma Pow2Sum(n: nat, a: nat, b: nat)
    requires n == a + b
    ensures Pow2(n) == Pow2(a) * Pow2(b)
  {
    Pow2Add(a, b);
  }

  lemma Pow2Three(c: nat, a: nat, b: nat)
    requires a + b <= c
    ensures Pow2(c) == Pow2(a) * (Pow2(b) * Pow2(c - a - b))
  {
    var n := c - a;
    Pow2Split(n, b);
    Pow2Split(c, a);
  }

  lemma MulTwiceLeft(x: nat, y: nat)
    ensures (2 * x) * y == 2 * (x * y)
  {
  }

  lemma {:induction false} Pow2Monotone(a: nat, b: nat)
    requires a <= b
    ensures Pow2(a) <= Pow2(b)
  {
    if a < b {
      Pow2Monotone(a, b - 1);
    }
  }

  /** Eight doublings multiply by 256. */
  lemma Pow2Plus8(n: nat)
    ensures Pow2(n + 8) == 256 * Pow2(n)
  {
    assert Pow2(n + 2) == 4 * Pow2(n);
    assert Pow2(n + 4) == 4 * Pow2(n + 2);
    assert Pow2(n + 6) == 4 * Pow2(n + 4);
    assert Pow2(n + 8) == 4 * Pow2(n + 6);
  }

  /** 2^64 is one more than the largest word. */
  lemma Pow2Word()
    ensures Pow2(WORD_BITS) == U64_MAX + 1
  {
    assert Pow2(8) == 0x100 by { Pow2Plus8(0); }
    assert Pow2(16) == 0x1_0000 by { Pow2Plus8(8); }
    assert Pow2(24) == 0x100_0000 by { Pow2Plus8(16); }
    assert Pow2(32) == 0x1_0000_0000 by { Pow2Plus8(24); }
    assert Pow2(40) == 0x100_0000_0000 by { Pow2Plus8(32); }
    assert Pow2(48) == 0x1_0000_0000_0000 by { Pow2Plus8(40); }
    assert Pow2(56) == 0x100_0000_0000_0000 by { Pow2Plus8(48); }
    Pow2Plus8(56);
  }

  /** A power of two of at most 64 bits' exponent, and everything below it, is a word. */
  lemma Pow2AtMostWord(n: nat)
    requires n <= WORD_BITS
    ensures Pow2(n) <= U64_MAX + 1
  {
    Pow2Monotone(n, WORD_BITS);
    Pow2Word();
  }

  /** `size` ones shifted left by `k` fit in a word when `size + k <= 64`. */
  lemma OnesFitWord(size: nat, k: nat)
    requires size < WORD_BITS && size + k <= WORD_BITS
    ensures 1 * Pow2(size) <= U64_MAX
    ensures (Pow2(size) - 1) * Pow2(k) <= U64_MAX
  {
    assert Pow2(size) <= U64_MAX by {
      Pow2AtMostWord(size + 1);
      assert Pow2(size + 1) == 2 * Pow2(size);
    }
    assert (Pow2(size) - 1) * Pow2(k) <= U64_MAX by {
      Pow2Add(size, k);
      Pow2AtMostWord(size + k);
      OnesBelow(Pow2(size), Pow2(k), Pow2(size + k), U64_MAX + 1);
    }
  }

  lemma OnesBelow(p: nat, pk: nat, pn: nat, top: nat)
    requires p >= 1 && pn == p * pk && pn <= top
    ensures (p - 1) * pk <= top - pk
  {
    assert (p - 1) * pk == p * pk - pk;
  }

  lemma MulSign(k: int, d: int)
    requires d > 0
    ensures k >= 1 ==> k * d >= d
    ensures k <= -1 ==> k * d <= -d
  {
  }

  /** Quotient and remainder are unique. */
  lemma DivModUnique(x: int, d: int, q: int, r: int)
    requires d > 0 && 0 <= r < d && x == q * d + r
    ensures x / d == q && x % d == r
  {
    var q', r' := x / d, x % d;
    assert (q - q') * d == r' - r;
    MulSign(q - q', d);
  }

  lemma ModBelow(x: nat, d: nat)
    requires d > 0
    ensures x < d ==> x % d == x
  {
    if x < d {
      DivModUnique(x, d, 0, x);
    }
  }

  lemma MulLess(a: nat, b: nat, c: nat)
    requires a < b && c > 0
    ensures a * c < b * c && a * c <= b * c - c
  {
    MulSign(b - a, c);
  }

  lemma MulNat(a: nat, b: nat)
    ensures a * b >= 0
  {
  }

  lemma Distrib(q: int, p: int, r: int, c: int)
    ensures (q * p + r) * c == q * (p * c) + r * c
  {
  }

  /** Dividing by `pa` and then by `pb` is dividing by `pa * pb`. */
  lemma DivDivBy(x: nat, pa: nat, pb: nat)
    requires pa > 0 && pb > 0
    ensures x / pa / pb == x / (pa * pb)
  {
    var q1, r1 := x / pa, x % pa;
    var q2, r2 := q1 / pb, q1 % pb;
    MulLess(r2, pb, pa);
    Distrib(q2, pb, r2, pa);
    assert x == q2 * (pb * pa) + (r2 * pa + r1);
    DivModUnique(x, pa * pb, q2, r2 * pa + r1);
  }

  /** Dividing by 2^a and then by 2^b is dividing by 2^(a + b). */
  lemma DivDiv(x: nat, a: nat, b: nat)
    ensures x / Pow2(a) / Pow2(b) == x / Pow2(a + b)
  {
    Pow2Add(a, b);
    DivDivBy(x, Pow2(a), Pow2(b));
  }

  /** A remainder modulo `2 * p`, split into its lowest bit and the rest. */
  lemma ModDouble(x: nat, p: nat)
    requires p > 0
    ensures x % (2 * p) == 2 * ((x / 2) % p) + x % 2
  {
    var q, r := (x / 2) / p, (x / 2) % p;
    Distrib(q, p, r, 2);
    assert x == q * (2 * p) + (2 * r + x % 2);
    DivModUnique(x, 2 * p, q, 2 * r + x % 2);
  }

  /** Shifting a block of ones right drops exactly the ones below the shift. */
  lemma AllOnesDiv(ps: nat, pk: nat)
    requires ps >= 1 && pk >= 1
    ensures (ps * pk - 1) / pk == ps - 1
  {
    Distrib(ps - 1, 1, 1, pk);
    assert ps * pk - 1 == (ps - 1) * pk + (pk - 1);
    DivModUnique(ps * pk - 1, pk, ps - 1, pk - 1);
  }

  /**
   * Appending one field to a placed prefix, with every power of two named.
   * Before: the prefix `c` is below `pc` and placed at `pHigh`, giving `a`.
   * The new value `v` is below `ps` and goes `psh` bits up, so the prefix
   * sits at `pHigh = ps * psh` and the word is below `pw = pc * ps * psh`.
   * After: `an` is the word, `cn` the longer prefix, below `pn = pc * ps`,
   * and `pLow = psh` is where it sits.
   */
  lemma AppendShifted(a: nat, c: nat, v: nat, pc: nat, ps: nat, psh: nat, pHigh: nat, pw: nat,
                      an: nat, cn: nat, pn: nat, pLow: nat)
    requires c < pc && v < ps && psh >= 1
    requires a == c * pHigh && pHigh == ps * psh && pw == (pc * ps) * psh
    requires an == a + v * psh && cn == c * ps + v && pn == pc * ps && pLow == psh
    ensures cn < pn
    ensures an == cn * pLow
    ensures an < pw
  {
    MulLess(c, pc, ps);
    Distrib(c, ps, v, psh);
    MulLess(c * ps + v, pc * ps, psh);
  }

  /**
   * Adding a value `v` below `ps`, shifted up by `psh`, to a sum `d` that
   * leaves room `pHigh = ps * psh` below `top`: the result leaves room `psh`.
   */
  lemma AddShiftedBelow(d: int, v: nat, top: int, ps: nat, psh: nat, pHigh: nat)
    requires d <= top - pHigh && v < ps && pHigh == ps * psh && psh >= 1
    ensures 0 <= v * psh
    ensures d + v * psh <= top - psh
  {
    MulNat(v, psh);
    MulLess(v, ps, psh);
  }

  /** The `ps`-sized digit just above the lowest `psh` of `c * psh + d`, with `d < psh`, is `c % ps`. */
  lemma DigitAbove(x: nat, c: nat, d: nat, cprev: nat, v: nat, ps: nat, psh: nat)
    requires psh >= 1 && ps >= 1 && d < psh && v < ps
    requires x == c * psh + d && c == cprev * ps + v
    ensures (x / psh) % ps == v
  {
    DivModUnique(x, psh, c, d);
    DivModUnique(c, ps, cprev, v);
  }

  /** `x` rounded down to a multiple of `unit`. */
  function RoundDown(x: nat, unit: nat): nat
    requires unit > 0
  {
    MulNat(x / unit, unit);
    x / unit * unit
  }

  /** Rounding `q` down to a multiple of `psh * ps` and adding back the digit in between. */
  lemma RoundDownStep(q: nat, ps: nat, psh: nat, pHigh: nat)
    requires ps >= 1 && psh >= 1 && pHigh == ps * psh
    ensures RoundDown(q, pHigh) + (q / psh) % ps * psh == RoundDown(q, psh)
  {
    var y := q / psh;
    DivDivBy(q, psh, ps);
    assert y == (y / ps) * ps + y % ps;
    Distrib(y / ps, ps, y % ps, psh);
  }

  /** Multiplying by `d` and dividing by `d` is the identity. */
  lemma MulDiv(y: nat, d: nat)
    requires d > 0
    ensures (y * d) / d == y && (y * d) % d == 0
  {
    DivModUnique(y * d, d, y, 0);
  }

  /**
   * `x << k` on a 64-bit word: the bits shifted past bit 63 are lost. C++
   * defines the shift only for counts below 64.
   */
  function ShiftLeft(x: nat, k: nat): (r: u64)
    requires k < WORD_BITS
    ensures x * Pow2(k) <= U64_MAX ==> r == x * Pow2(k)
  {
    Pow2Word();
    var full := x * Pow2(k);
    ModBelow(full, Pow2(WORD_BITS));
    (full % Pow2(WORD_BITS)) as u64
  }

  /**
   * `x >> k`: the low `k` bits are dropped, one at a time. C++ defines the
   * shift only for counts below 64.
   */
  function ShiftRight(x: nat, k: nat): (r: nat)
    requires k < WORD_BITS
    ensures r <= x
  {
    if k == 0 then x else ShiftRight(x / 2, k - 1)
  }

  /** `x << k` without truncation, one bit at a time. */
  function Shl(x: nat, k: nat): nat
  {
    if k == 0 then x else 2 * Shl(x, k - 1)
  }

  lemma {:induction false} ShiftRightIsDiv(x: nat, k: nat)
    requires k < WORD_BITS
    ensures ShiftRight(x, k) == x / Pow2(k)
  {
    if k > 0 {
      ShiftRightIsDiv(x / 2, k - 1);
      assert Pow2(1) == 2;
      DivDiv(x, 1, k - 1);
    }
  }

  lemma {:induction false} ShlIsMul(x: nat, k: nat)
    ensures Shl(x, k) == x * Pow2(k)
  {
    if k > 0 {
      ShlIsMul(x, k - 1);
      MulTwice(x, Pow2(k - 1));
    }
  }

  lemma {:induction false} ShiftRightShl(x: nat, k: nat)
    requires k < WORD_BITS
    ensures ShiftRight(Shl(x, k), k) == x
  {
    if k > 0 {
      ShiftRightShl(x, k - 1);
    }
  }

  /** Bitwise `a & b`. */
  function BitAnd(a: nat, b: nat): (r: nat)
    ensures r <= a && r <= b
    decreases a
  {
    if a == 0 || b == 0 then 0
    else 2 * BitAnd(a / 2, b / 2) + (if a % 2 == 1 && b % 2 == 1 then 1 else 0)
  }

  /** Bitwise `a | b`. */
  function BitOr(a: nat, b: nat): (r: nat)
    ensures a <= r && b <= r && r <= a + b
    decreases a
  {
    if a == 0 then b
    else if b == 0 then a
    else 2 * BitOr(a / 2, b / 2) + (if a % 2 == 1 || b % 2 == 1 then 1 else 0)
  }

  /**
   * OR-ing a value into bits that are all zero adds it: when `b` fits below
   * bit `k`, the bits of `m * 2^k` and of `b` do not overlap.
   */
  lemma {:induction false} OrDisjoint(m: nat, k: nat, b: nat)
    requires b < Pow2(k)
    ensures BitOr(m * Pow2(k), b) == m * Pow2(k) + b
  {
    var a := m * Pow2(k);
    if k > 0 && a != 0 && b != 0 {
      assert a == (m * Pow2(k - 1)) * 2;
      DivModUnique(a, 2, m * Pow2(k - 1), 0);
      OrDisjoint(m, k - 1, b / 2);
    }
  }

  /**
   * `OrDisjoint` with every quantity named: `a` holds `m` above bit `k`,
   * `b` fits below it, so OR-ing them gives their sum `s`.
   */
  lemma OrAdd(a: nat, b: nat, m: nat, s: nat, p: nat, k: nat)
    requires p == Pow2(k) && a == m * p && b < p && s == a + b
    ensures BitOr(a, b) == s
  {
    OrDisjoint(m, k, b);
  }

  /** Masking with `2^s - 1` keeps the low `s` bits. */
  lemma {:induction false} AndLowMask(x: nat, s: nat)
    ensures BitAnd(x, Pow2(s) - 1) == x % Pow2(s)
  {
    AndPow2Mask(x, s, Pow2(s));
  }

  lemma {:induction false} AndPow2Mask(x: nat, s: nat, p: nat)
    requires p == Pow2(s)
    ensures BitAnd(x, p - 1) == x % p
  {
    if s > 0 {
      var q := Pow2(s - 1);
      AndPow2Mask(x / 2, s - 1, q);
      AndLowStep(x, q, p);
    }
  }

  lemma AndLowStep(x: nat, p: nat, pp: nat)
    requires p >= 1 && pp == 2 * p && BitAnd(x / 2, p - 1) == (x / 2) % p
    ensures BitAnd(x, pp - 1) == x % pp
  {
    if x != 0 {
      var m := pp - 1;
      assert m % 2 == 1 && m / 2 == p - 1 by { DivModUnique(m, 2, p - 1, 1); }
      assert BitAnd(x, m) == 2 * ((x / 2) % p) + x % 2;
      ModDouble(x, p);
    }
  }

  /** The lowest bit of an even mask is clear. */
  lemma AndEven(x: nat, n: nat)
    ensures BitAnd(x, 2 * n) == 2 * BitAnd(x / 2, n)
  {
    if x != 0 && n != 0 {
      assert (2 * n) / 2 == n && (2 * n) % 2 == 0;
    }
  }

  lemma MulTwice(y: nat, p: nat)
    ensures y * (2 * p) == 2 * (y * p)
  {
  }

  /** Masking with a mask shifted left by `k` is masking the shifted-down value. */
  lemma {:induction false} AndShiftedMask(x: nat, m: nat, k: nat)
    requires k < WORD_BITS
    ensures BitAnd(x, Shl(m, k)) == Shl(BitAnd(ShiftRight(x, k), m), k)
  {
    if k > 0 {
      AndEven(x, Shl(m, k - 1));
      AndShiftedMask(x / 2, m, k - 1);
    }
  }

  /**
   * `(x & ((2^s - 1) << k)) >> k` is the `s`-bit field of `x` that starts at
   * bit `k`.
   */
  lemma MaskSelectsField(x: nat, s: nat, k: nat)
    requires k < WORD_BITS
    ensures ShiftRight(BitAnd(x, (Pow2(s) - 1) * Pow2(k)), k) == (x / Pow2(k)) % Pow2(s)
  {
    ShlIsMul(Pow2(s) - 1, k);
    AndShiftedMask(x, Pow2(s) - 1, k);
    ShiftRightShl(BitAnd(ShiftRight(x, k), Pow2(s) - 1), k);
    AndLowMask(ShiftRight(x, k), s);
    ShiftRightIsDiv(x, k);
  }

  /** `MaskSelectsField` with the powers of two named: `ps` is 2^s and `pk` is 2^k. */
  lemma MaskSelectsFieldBy(x: nat, s: nat, k: nat, ps: nat, pk: nat, mask: nat)
    requires k < WORD_BITS && ps == Pow2(s) && pk == Pow2(k) && mask == (ps - 1) * pk
    ensures ShiftRight(BitAnd(x, mask), k) == (x / pk) % ps
  {
    MaskSelectsField(x, s, k);
  }

  /** Adding a multiple of `d` to `x` does not change `x % d`. */
  lemma ModAddMultiple(x: nat, h: nat, d: nat)
    requires d > 0
    ensures (h * d + x) % d == x % d
  {
    Distrib(h, 1, x / d, d);
    assert h * d + x == (h + x / d) * d + x % d;
    DivModUnique(h * d + x, d, h + x / d, x % d);
  }

  /** Dividing `h * (pa * t) + q` by `pa` keeps the multiple. */
  lemma DivAddMultiple(q: nat, h: nat, pa: nat, t: nat)
    requires pa > 0
    ensures (h * (pa * t) + q) / pa == h * t + q / pa
  {
    Distrib(h, t, q / pa, pa);
    assert h * (pa * t) == (h * t) * pa;
    DivModUnique(h * (pa * t) + q, pa, h * t + q / pa, q % pa);
  }

  lemma HighBitsIgnoredBy(x: nat, pa: nat, pb: nat, t: nat, pc: nat)
    requires pa > 0 && pb > 0 && t > 0 && pc == pa * (pb * t)
    ensures (x / pa) % pb == ((x % pc) / pa) % pb
  {
    var h, q := x / pc, x % pc;
    assert x == h * pc + q;
    DivAddMultiple(q, h, pa, pb * t);
    assert x / pa == (h * t) * pb + q / pa;
    ModAddMultiple(q / pa, h * t, pb);
  }

  /** Bits at or above position `c` do not reach an `b`-bit field below `c`. */
  lemma HighBitsIgnored(x: nat, a: nat, b: nat, c: nat)
    requires a + b <= c
    ensures (x / Pow2(a)) % Pow2(b) == ((x % Pow2(c)) / Pow2(a)) % Pow2(b)
  {
    Pow2Three(c, a, b);
    HighBitsIgnoredBy(x, Pow2(a), Pow2(b), Pow2(c - a - b), Pow2(c));
  }
}
