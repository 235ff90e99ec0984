/**
 * Multiplicative hashing (include/hash.h). The source works on uint32_t and
 * uint64_t; here those are natural numbers below 2^32 and 2^64 and every
 * operation that wraps around in C is reduced modulo the word size explicitly.
 */
module Hash {
  import opened Pow

  const TWO32: int := 0x1_0000_0000
  const TWO64: int := 0x1_0000_0000_0000_0000

  /** The values of uint32_t and uint64_t. */
  type U32 = x: int | 0 <= x < TWO32
  type U64 = x: int | 0 <= x < TWO64

  /** 2^31 + 2^29 - 2^25 + 2^22 - 2^19 - 2^16 + 1 */
  const GOLDEN_RATIO_PRIME_32: U32 := 0x9e37_0001
  /** 2^63 + 2^61 - 2^57 + 2^54 - 2^51 - 2^18 + 1 */
  const GOLDEN_RATIO_PRIME_64: U64 := 0x9e37_ffff_fffc_0001

  /** Reduction of an unbounded result to uint32_t / uint64_t (C's unsigned wrap-around). */
  function Wrap32(x: int): U32 { x % TWO32 }
  function Wrap64(x: int): U64 { x % TWO64 }

  /** `x << k` on uint64_t: bits shifted past bit 63 are lost. */
  function Shl64(x: U64, k: nat): U64 { Wrap64(x * Pow2(k)) }

  /** Both primes are the sparse sums their comments claim. */
  lemma GoldenRatioPrimeSums()
    ensures GOLDEN_RATIO_PRIME_32 as int
      == Pow2(31) + Pow2(29) - Pow2(25) + Pow2(22) - Pow2(19) - Pow2(16) + 1
    ensures GOLDEN_RATIO_PRIME_64 as int
      == Pow2(63) + Pow2(61) - Pow2(57) + Pow2(54) - Pow2(51) - Pow2(18) + 1
  {
    Pow2Facts();
  }

  /**
   * hash_32: the top `bits` bits of val * GOLDEN_RATIO_PRIME_32 modulo 2^32.
   * A shift by 32 - bits is only defined in C for 1 <= bits <= 32.
   */
  function Hash32(val: U32, bits: nat): (r: U32)
    requires 1 <= bits <= 32
    ensures r < Pow2(bits)
    ensures r * Pow2(32 - bits) <= Wrap32(val * GOLDEN_RATIO_PRIME_32) < (r + 1) * Pow2(32 - bits)
  {
    var hash := Wrap32(val * GOLDEN_RATIO_PRIME_32);
    Pow2Words();
    TopOfWord(hash, bits, 32, TWO32);
    ShrNat(hash, 32 - bits)
  }

  /** One line pair of hash_64: `n <<= shift;` then `hash += n;` or `hash -= n;`. */
  datatype ShiftStep = ShiftStep(shift: nat, add: bool)

  /** The six shift steps of hash_64, in program order. */
  const HASH64_STEPS: seq<ShiftStep> := [
    ShiftStep(18, false), ShiftStep(33, false), ShiftStep(3, true),
    ShiftStep(3, false), ShiftStep(4, true), ShiftStep(2, true)]

  /** Runs shift steps on the running value `n` and the accumulator `hash`, in uint64_t. */
  function RunSteps(hash: U64, n: U64, steps: seq<ShiftStep>): U64
    decreases |steps|
  {
    if steps == [] then hash
    else
      var n' := Shl64(n, steps[0].shift);
      var hash' := if steps[0].add then Wrap64(hash + n') else Wrap64(hash - n');
      RunSteps(hash', n', steps[1..])
  }

  /**
   * The same steps on unbounded multipliers: hash stands for val * a and n for
   * val * b; the result is the multiplier of val that the steps compute.
   */
  function Multiplier(a: int, b: int, steps: seq<ShiftStep>): int
    decreases |steps|
  {
    if steps == [] then a
    else
      var b' := b * Pow2(steps[0].shift);
      Multiplier(if steps[0].add then a + b' else a - b', b', steps[1..])
  }

  /** Running the steps in uint64_t multiplies by their multiplier modulo 2^64. */
  lemma {:induction false} RunStepsIsProduct(val: U64, hash: U64, n: U64, a: int, b: int, steps: seq<ShiftStep>)
    requires hash == Wrap64(val * a) && n == Wrap64(val * b)
    ensures RunSteps(hash, n, steps) == Wrap64(val * Multiplier(a, b, steps))
    decreases |steps|
  {
    if steps != [] {
      var c := Pow2(steps[0].shift);
      var b' := b * c;
      ShlStep(n, val * b, steps[0].shift, c);
      MulAssoc(val, b, c);
      var n' := Shl64(n, steps[0].shift);
      assert n' == Wrap64(val * b');
      AddStep(hash, val * a, n', val * b');
      MulDistrib(val, a, b');
      var a' := if steps[0].add then a + b' else a - b';
      var hash' := if steps[0].add then Wrap64(hash + n') else Wrap64(hash - n');
      assert hash' == Wrap64(val * a');
      RunStepsIsProduct(val, hash', n', a', b', steps[1..]);
    }
  }

  /** One step of Multiplier, with every value named. */
  lemma MultiplierStep(a: int, b: int, steps: seq<ShiftStep>, c: nat, a': int, b': int)
    requires steps != [] && c == Pow2(steps[0].shift) && b' == b * c
    requires a' == if steps[0].add then a + b' else a - b'
    ensures Multiplier(a, b, steps) == Multiplier(a', b', steps[1..])
  {
  }

  /** The steps of hash_64 multiply by GOLDEN_RATIO_PRIME_64. */
  lemma Hash64Multiplier()
    ensures Multiplier(1, 1, HASH64_STEPS) == GOLDEN_RATIO_PRIME_64 as int
  {
    Pow2Facts();
    var s0 := HASH64_STEPS;
    var s1, s2, s3, s4, s5 := s0[1..], s0[2..], s0[3..], s0[4..], s0[5..];
    assert s1 == s0[1..] && s2 == s1[1..] && s3 == s2[1..] && s4 == s3[1..] && s5 == s4[1..];
    assert s5[1..] == [];
    MultiplierStep(1, 1, s0, 0x4_0000, -0x3_ffff, 0x4_0000);
    MultiplierStep(-0x3_ffff, 0x4_0000, s1, 0x2_0000_0000, -0x8_0000_0003_ffff, 0x8_0000_0000_0000);
    MultiplierStep(-0x8_0000_0003_ffff, 0x8_0000_0000_0000, s2, 8,
                   0x37_ffff_fffc_0001, 0x40_0000_0000_0000);
    MultiplierStep(0x37_ffff_fffc_0001, 0x40_0000_0000_0000, s3, 8,
                   -0x1c8_0000_0003_ffff, 0x200_0000_0000_0000);
    MultiplierStep(-0x1c8_0000_0003_ffff, 0x200_0000_0000_0000, s4, 16,
                   0x1e37_ffff_fffc_0001, 0x2000_0000_0000_0000);
    MultiplierStep(0x1e37_ffff_fffc_0001, 0x2000_0000_0000_0000, s5, 4,
                   0x9e37_ffff_fffc_0001, 0x8000_0000_0000_0000);
  }

  /** The shift/add sequence at the start of hash_64. */
  function ShiftAddMultiply(val: U64): U64
  {
    RunSteps(val, val, HASH64_STEPS)
  }

  /** The shift/add sequence multiplies by GOLDEN_RATIO_PRIME_64 modulo 2^64. */
  lemma ShiftAddIsProduct(val: U64)
    ensures ShiftAddMultiply(val) == Wrap64(val * GOLDEN_RATIO_PRIME_64)
  {
    RunStepsIsProduct(val, val, val, 1, 1, HASH64_STEPS);
    Hash64Multiplier();
  }

  /** hash_64: the top `bits` bits of the product computed by the shift/add sequence. */
  function Hash64(val: U64, bits: nat): (r: U64)
    requires 1 <= bits <= 64
    ensures r < Pow2(bits)
    ensures r * Pow2(64 - bits) <= Wrap64(val * GOLDEN_RATIO_PRIME_64) < (r + 1) * Pow2(64 - bits)
  {
    var hash := ShiftAddMultiply(val);
    ShiftAddIsProduct(val);
    Pow2Words();
    TopOfWord(hash, bits, 64, TWO64);
    ShrNat(hash, 64 - bits)
  }

  /** The two values of __WORDSIZE the header distinguishes. */
  datatype WordSize = Word32 | Word64

  /**
   * hash_long: hash_32 on a 32-bit word size, hash_64 on a 64-bit one; an
   * unsigned long then holds 32 or 64 bits.
   */
  function HashLong(ws: WordSize, val: U64, bits: nat): (r: U64)
    requires ws == Word32 ==> val < TWO32 && 1 <= bits <= 32
    requires ws == Word64 ==> 1 <= bits <= 64
    ensures r < Pow2(bits)
    ensures ws == Word32 ==> r == ShrNat(Wrap32(val * GOLDEN_RATIO_PRIME_32), 32 - bits)
    ensures ws == Word64 ==> r == ShrNat(Wrap64(val * GOLDEN_RATIO_PRIME_64), 64 - bits)
  {
    ShiftAddIsProduct(val);
    match ws
    case Word32 => Hash32(val, bits)
    case Word64 => Hash64(val, bits)
  }

  // Modular-arithmetic steps used by ShiftAddMultiply.

  lemma ModUnique(x: int, q: int, r: int)
    requires 0 <= r < TWO64 && x == q * TWO64 + r
    ensures Wrap64(x) == r
  {
  }

  lemma WrapAdd(x: int, y: int)
    ensures Wrap64(Wrap64(x) + Wrap64(y)) == Wrap64(x + y)
  {
    var qx, qy, q := x / TWO64, y / TWO64, (x + y) / TWO64;
    assert Wrap64(x) + Wrap64(y) == (q - qx - qy) * TWO64 + Wrap64(x + y);
    ModUnique(Wrap64(x) + Wrap64(y), q - qx - qy, Wrap64(x + y));
  }

  lemma WrapSub(x: int, y: int)
    ensures Wrap64(Wrap64(x) - Wrap64(y)) == Wrap64(x - y)
  {
    var qx, qy, q := x / TWO64, y / TWO64, (x - y) / TWO64;
    assert Wrap64(x) - Wrap64(y) == (q - qx + qy) * TWO64 + Wrap64(x - y);
    ModUnique(Wrap64(x) - Wrap64(y), q - qx + qy, Wrap64(x - y));
  }

  lemma WrapScale(x: int, k: nat)
    ensures Wrap64(Wrap64(x) * k) == Wrap64(x * k)
  {
    var qx, q := x / TWO64, (x * k) / TWO64;
    assert Wrap64(x) == x - qx * TWO64;
    assert Wrap64(x) * k == x * k - (qx * k) * TWO64;
    assert Wrap64(x) * k == (q - qx * k) * TWO64 + Wrap64(x * k);
    ModUnique(Wrap64(x) * k, q - qx * k, Wrap64(x * k));
  }

  lemma ShlStep(n: U64, x: int, k: nat, c: nat)
    requires n == Wrap64(x) && c == Pow2(k)
    ensures Shl64(n, k) == Wrap64(x * c)
  {
    WrapScale(x, c);
  }

  lemma AddStep(h: U64, x: int, n: U64, y: int)
    requires h == Wrap64(x) && n == Wrap64(y)
    ensures Wrap64(h + n) == Wrap64(x + y)
    ensures Wrap64(h - n) == Wrap64(x - y)
  {
    WrapAdd(x, y);
    WrapSub(x, y);
  }

  lemma MulAssoc(x: int, y: int, z: int)
    ensures (x * y) * z == x * (y * z)
  {
  }

  lemma MulDistrib(x: int, y: int, z: int)
    ensures x * y + x * z == x * (y + z) && x * y - x * z == x * (y - z)
  {
  }
}
