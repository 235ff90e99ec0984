/**
 * One `unsigned long` of a bitmap, on a platform where BITS_PER_LONG is 64.
 * A word is its value, a number below 2^64; bit j is the 2^j place. The C
 * operators `&`, `|`, `^`, `~`, `<<` and `>>` are defined place by place, and
 * the bit helpers the bitmap code takes from its headers (`__ffs`, `ffz`,
 * `fls`, `hweight_long`, BITMAP_LAST_WORD_MASK, BITMAP_FIRST_WORD_MASK) are
 * given here with their usual meaning.
 */
module Words {
  import opened Pow

  const BITS_PER_LONG: nat := 64
  const TWO64: nat := 0x1_0000_0000_0000_0000

  type Word = x: nat | x < TWO64

  /** Bit j of the number v. */
  function Bit(v: nat, j: nat): bool
  {
    if j == 0 then v % 2 == 1 else Bit(v / 2, j - 1)
  }

  lemma {:induction false} ZeroBit(j: nat)
    ensures !Bit(0, j)
  {
    if j > 0 {
      ZeroBit(j - 1);
    }
  }

  /** 2^r has exactly bit r set. */
  lemma {:induction false} PowBit(r: nat, j: nat)
    ensures Bit(Pow2(r), j) == (j == r)
  {
    if j == 0 {
      if r > 0 {
        assert Pow2(r) == 2 * Pow2(r - 1);
      }
    } else if r == 0 {
      ZeroBit(j - 1);
    } else {
      assert Pow2(r) / 2 == Pow2(r - 1);
      PowBit(r - 1, j - 1);
    }
  }

  /** A number below 2^n has no bit at or above n. */
  lemma {:induction false} HighBit(v: nat, n: nat, j: nat)
    requires v < Pow2(n) && n <= j
    ensures !Bit(v, j)
  {
    if n == 0 {
      ZeroBit(j);
    } else {
      HighBit(v / 2, n - 1, j - 1);
    }
  }

  /** Two numbers below 2^n with the same n low bits are equal. */
  lemma {:induction false} SameBits(u: nat, v: nat, n: nat)
    requires u < Pow2(n) && v < Pow2(n)
    requires forall j: nat :: j < n ==> Bit(u, j) == Bit(v, j)
    ensures u == v
  {
    if n > 0 {
      assert Bit(u, 0) == Bit(v, 0);
      forall j | 0 <= j < n - 1
        ensures Bit(u / 2, j) == Bit(v / 2, j)
      {
        assert Bit(u, j + 1) == Bit(v, j + 1);
      }
      SameBits(u / 2, v / 2, n - 1);
    }
  }

  /** Words are equal exactly when their 64 bits are. */
  lemma WordExt(a: Word, b: Word)
    requires forall j: nat :: j < 64 ==> Bit(a, j) == Bit(b, j)
    ensures a == b
  {
    Pow2Words();
    SameBits(a, b, 64);
  }

  /** A word is zero exactly when none of its 64 bits is set. */
  lemma ZeroWord(w: Word)
    ensures w == 0 ==> forall j: nat :: j < 64 ==> !Bit(w, j)
    ensures (forall j: nat :: j < 64 ==> !Bit(w, j)) ==> w == 0
  {
    if w == 0 {
      forall j: nat | j < 64
        ensures !Bit(w, j)
      {
        ZeroBit(j);
      }
    }
    if forall j: nat :: j < 64 ==> !Bit(w, j) {
      forall j: nat | j < 64
        ensures Bit(w, j) == Bit(0, j)
      {
        ZeroBit(j);
      }
      WordExt(w, 0);
    }
  }

  /** The n low bits of v (v mod 2^n), built place by place. */
  function Low(v: nat, n: nat): (r: nat)
    ensures r < Pow2(n)
  {
    if n == 0 then 0 else 2 * Low(v / 2, n - 1) + v % 2
  }

  lemma {:induction false} LowBit(v: nat, n: nat, j: nat)
    ensures Bit(Low(v, n), j) == (j < n && Bit(v, j))
  {
    if n == 0 {
      ZeroBit(j);
    } else if j > 0 {
      assert (2 * Low(v / 2, n - 1) + v % 2) / 2 == Low(v / 2, n - 1);
      LowBit(v / 2, n - 1, j - 1);
    }
  }

  /** Truncation to an unsigned long. */
  function Trunc(v: nat): Word
  {
    LowWord(v);
    Low(v, 64)
  }

  lemma LowWord(v: nat)
    ensures Low(v, 64) < TWO64
  {
    Pow2Words();
  }

  lemma {:induction false} LowOf(v: nat, n: nat)
    requires v < Pow2(n)
    ensures Low(v, n) == v
  {
    if n > 0 {
      LowOf(v / 2, n - 1);
    }
  }

  /** A number below 2^64 is its own truncation. */
  lemma TruncWord(v: nat)
    requires v < TWO64
    ensures Trunc(v) == v
  {
    Pow2Words();
    LowOf(v, 64);
  }

  /** The number whose bit j is b[j]. */
  function PackBits(b: seq<bool>): (r: nat)
    ensures r < Pow2(|b|)
  {
    if |b| == 0 then 0 else 2 * PackBits(b[1..]) + (if b[0] then 1 else 0)
  }

  lemma {:induction false} PackBitsBit(b: seq<bool>, j: nat)
    ensures Bit(PackBits(b), j) == (j < |b| && b[j])
  {
    if |b| == 0 {
      ZeroBit(j);
    } else if j > 0 {
      assert PackBits(b) / 2 == PackBits(b[1..]);
      PackBitsBit(b[1..], j - 1);
    }
  }

  /** The word whose 64 bits are b. */
  function WordOf(b: seq<bool>): (w: Word)
    requires |b| == 64
    ensures forall j: nat :: j < 64 ==> Bit(w, j) == b[j]
  {
    Pow2Words();
    forall j: nat | j < 64
      ensures Bit(PackBits(b), j) == b[j]
    {
      PackBitsBit(b, j);
    }
    PackBits(b)
  }

  // The operators. Each is defined place by place so that its bits follow by
  // a short induction; the lemmas after each state those bits.

  function AndN(a: nat, b: nat): (r: nat)
    ensures r <= a
  {
    if a == 0 || b == 0 then 0
    else 2 * AndN(a / 2, b / 2) + (if a % 2 == 1 && b % 2 == 1 then 1 else 0)
  }

  function OrN(a: nat, b: nat): nat
    decreases a + b
  {
    if a == 0 then b
    else if b == 0 then a
    else 2 * OrN(a / 2, b / 2) + (if a % 2 == 1 || b % 2 == 1 then 1 else 0)
  }

  function XorN(a: nat, b: nat): nat
    decreases a + b
  {
    if a == 0 then b
    else if b == 0 then a
    else 2 * XorN(a / 2, b / 2) + (if (a % 2 == 1) != (b % 2 == 1) then 1 else 0)
  }

  /** The n low bits of v, each flipped. */
  function Flip(v: nat, n: nat): nat
  {
    if n == 0 then 0 else 2 * Flip(v / 2, n - 1) + (1 - v % 2)
  }

  /** v * 2^r, one doubling at a time. */
  function Doubled(v: nat, r: nat): nat
  {
    if r == 0 then v else 2 * Doubled(v, r - 1)
  }

  /** v / 2^r, one halving at a time. */
  function Halved(v: nat, r: nat): (q: nat)
    ensures q <= v
  {
    if r == 0 then v else Halved(v / 2, r - 1)
  }

  function And(a: Word, b: Word): Word { AndN(a, b) }
  function Or(a: Word, b: Word): Word { Trunc(OrN(a, b)) }
  function Xor(a: Word, b: Word): Word { Trunc(XorN(a, b)) }
  function Not(a: Word): Word { Trunc(Flip(a, 64)) }

  /**
   * `x << r` and `x >> r`. C leaves a shift by 64 undefined; the bitmap code
   * only shifts by 64 where the result is not used, and here it gives zero.
   */
  function Shl(x: Word, r: nat): Word { Trunc(Doubled(x, r)) }
  function Shr(x: Word, r: nat): Word { Halved(x, r) }

  lemma {:induction false} DoubledOne(r: nat)
    ensures Doubled(1, r) == Pow2(r)
  {
    if r > 0 {
      DoubledOne(r - 1);
    }
  }

  /** `1UL << r` is 2^r. */
  lemma ShlOne(r: nat)
    requires r < 64
    ensures Shl(1, r) == Pow2(r)
  {
    DoubledOne(r);
    Pow2Monotone(r, 63);
    Pow2Words();
    TruncWord(Pow2(r));
  }

  /** `(1UL << n) - 1` has the n low bits set. */
  lemma LowMask(n: nat, mask: nat)
    requires n < 64 && mask + 1 == Shl(1, n)
    ensures forall j: nat :: Bit(mask, j) == (j < n)
  {
    ShlOne(n);
    forall j: nat
      ensures Bit(mask, j) == (j < n)
    {
      LowOnesBit(n, j);
    }
  }

  /** 0UL and ~0UL. */
  const Zero: Word := 0
  const Ones: Word := 0xffff_ffff_ffff_ffff

  lemma {:induction false} AndNBit(a: nat, b: nat, j: nat)
    ensures Bit(AndN(a, b), j) == (Bit(a, j) && Bit(b, j))
  {
    if a == 0 || b == 0 {
      ZeroBit(j);
    } else if j > 0 {
      AndNBit(a / 2, b / 2, j - 1);
    }
  }

  lemma {:induction false} OrNBit(a: nat, b: nat, j: nat)
    ensures Bit(OrN(a, b), j) == (Bit(a, j) || Bit(b, j))
    decreases a + b
  {
    if a == 0 {
      ZeroBit(j);
    } else if b == 0 {
      ZeroBit(j);
    } else if j > 0 {
      OrNBit(a / 2, b / 2, j - 1);
    }
  }

  lemma {:induction false} XorNBit(a: nat, b: nat, j: nat)
    ensures Bit(XorN(a, b), j) == (Bit(a, j) != Bit(b, j))
    decreases a + b
  {
    if a == 0 {
      ZeroBit(j);
    } else if b == 0 {
      ZeroBit(j);
    } else if j > 0 {
      XorNBit(a / 2, b / 2, j - 1);
    }
  }

  lemma {:induction false} FlipBit(v: nat, n: nat, j: nat)
    ensures Bit(Flip(v, n), j) == (j < n && !Bit(v, j))
  {
    if n == 0 {
      ZeroBit(j);
    } else if j > 0 {
      FlipBit(v / 2, n - 1, j - 1);
    }
  }

  lemma {:induction false} DoubledBit(v: nat, r: nat, j: nat)
    ensures Bit(Doubled(v, r), j) == (r <= j && Bit(v, j - r))
  {
    if r > 0 {
      if j > 0 {
        DoubledBit(v, r - 1, j - 1);
      }
    }
  }

  lemma {:induction false} HalvedBit(v: nat, r: nat, j: nat)
    ensures Bit(Halved(v, r), j) == Bit(v, j + r)
  {
    if r > 0 {
      HalvedBit(v / 2, r - 1, j);
    }
  }

  lemma TruncBit(v: nat, j: nat)
    ensures Bit(Trunc(v), j) == (j < 64 && Bit(v, j))
  {
    LowBit(v, 64, j);
  }

  lemma WordHigh(w: Word, j: nat)
    requires 64 <= j
    ensures !Bit(w, j)
  {
    Pow2Words();
    HighBit(w, 64, j);
  }

  // The bits of each operator, for every place of the word.

  lemma AndBits(a: Word, b: Word)
    ensures forall j: nat :: Bit(And(a, b), j) == (Bit(a, j) && Bit(b, j))
  {
    forall j: nat
      ensures Bit(And(a, b), j) == (Bit(a, j) && Bit(b, j))
    {
      AndNBit(a, b, j);
    }
  }

  lemma OrBits(a: Word, b: Word)
    ensures forall j: nat :: Bit(Or(a, b), j) == (Bit(a, j) || Bit(b, j))
  {
    forall j: nat
      ensures Bit(Or(a, b), j) == (Bit(a, j) || Bit(b, j))
    {
      TruncBit(OrN(a, b), j);
      OrNBit(a, b, j);
      if j >= 64 {
        WordHigh(a, j);
        WordHigh(b, j);
      }
    }
  }

  lemma XorBits(a: Word, b: Word)
    ensures forall j: nat :: Bit(Xor(a, b), j) == (Bit(a, j) != Bit(b, j))
  {
    forall j: nat
      ensures Bit(Xor(a, b), j) == (Bit(a, j) != Bit(b, j))
    {
      TruncBit(XorN(a, b), j);
      XorNBit(a, b, j);
      if j >= 64 {
        WordHigh(a, j);
        WordHigh(b, j);
      }
    }
  }

  lemma NotBits(a: Word)
    ensures forall j: nat :: Bit(Not(a), j) == (j < 64 && !Bit(a, j))
  {
    forall j: nat
      ensures Bit(Not(a), j) == (j < 64 && !Bit(a, j))
    {
      TruncBit(Flip(a, 64), j);
      FlipBit(a, 64, j);
    }
  }

  lemma ShlBits(x: Word, r: nat)
    ensures forall j: nat :: Bit(Shl(x, r), j) == (r <= j < 64 && Bit(x, j - r))
  {
    forall j: nat
      ensures Bit(Shl(x, r), j) == (r <= j < 64 && Bit(x, j - r))
    {
      TruncBit(Doubled(x, r), j);
      DoubledBit(x, r, j);
    }
  }

  lemma ShrBits(x: Word, r: nat)
    ensures forall j: nat :: Bit(Shr(x, r), j) == (j + r < 64 && Bit(x, j + r))
  {
    forall j: nat
      ensures Bit(Shr(x, r), j) == (j + r < 64 && Bit(x, j + r))
    {
      HalvedBit(x, r, j);
      if j + r >= 64 {
        WordHigh(x, j + r);
      }
    }
  }

  lemma OnesBits()
    ensures forall j: nat :: Bit(Ones, j) == (j < 64)
  {
    Pow2Words();
    forall j: nat
      ensures Bit(Ones, j) == (j < 64)
    {
      LowOnesBit(64, j);
    }
  }

  /** Bit j of 2^n - 1 is set exactly when j < n. */
  lemma {:induction false} LowOnesBit(n: nat, j: nat)
    ensures Bit(Pow2(n) - 1, j) == (j < n)
  {
    if n == 0 {
      ZeroBit(j);
    } else {
      assert (Pow2(n) - 1) / 2 == Pow2(n - 1) - 1;
      if j > 0 {
        LowOnesBit(n - 1, j - 1);
      }
    }
  }

  // The bit helpers the bitmap code takes from its headers.

  /** The lowest set bit at or above j, or 64 when there is none. */
  function FirstSetFrom(w: Word, j: nat): (r: nat)
    requires j <= 64
    ensures j <= r <= 64
    ensures r < 64 ==> Bit(w, r)
    ensures forall i :: j <= i < r ==> !Bit(w, i)
    decreases 64 - j
  {
    if j == 64 then 64 else if Bit(w, j) then j else FirstSetFrom(w, j + 1)
  }

  /** The highest set bit below j, plus one; 0 when there is none. */
  function LastSetBelow(w: Word, j: nat): (r: nat)
    requires j <= 64
    ensures r <= j
    ensures r > 0 ==> Bit(w, r - 1)
    ensures forall i :: r <= i < j ==> !Bit(w, i)
  {
    if j == 0 then 0 else if Bit(w, j - 1) then j else LastSetBelow(w, j - 1)
  }

  /** `__ffs`: the index of the lowest set bit; the caller guarantees a non-zero word. */
  function Ffs(w: Word): (r: nat)
    requires w != 0
    ensures r < 64 && Bit(w, r)
    ensures forall i :: 0 <= i < r ==> !Bit(w, i)
  {
    SomeBitSet(w);
    FirstSetFrom(w, 0)
  }

  /** A non-zero word has a set bit among its 64. */
  lemma SomeBitSet(w: Word)
    ensures w != 0 ==> FirstSetFrom(w, 0) < 64
    ensures w != 0 ==> LastSetBelow(w, 64) > 0
  {
    ZeroWord(w);
  }

  /** `ffz`: the index of the lowest clear bit; the caller guarantees a word that is not ~0UL. */
  function Ffz(w: Word): (r: nat)
    requires w != Ones
    ensures r < 64 && !Bit(w, r)
    ensures forall i :: 0 <= i < r ==> Bit(w, i)
  {
    AllSetIsOnes(w);
    FirstClearFrom(w, 0)
  }

  /** A word with no clear bit among its 64 is ~0UL. */
  lemma AllSetIsOnes(w: Word)
    ensures FirstClearFrom(w, 0) == 64 ==> w == Ones
  {
    if FirstClearFrom(w, 0) == 64 {
      OnesBits();
      WordExt(w, Ones);
    }
  }

  /** The lowest clear bit at or above j, or 64 when there is none. */
  function FirstClearFrom(w: Word, j: nat): (r: nat)
    requires j <= 64
    ensures j <= r <= 64
    ensures r < 64 ==> !Bit(w, r)
    ensures forall i :: j <= i < r ==> Bit(w, i)
    decreases 64 - j
  {
    if j == 64 then 64 else if !Bit(w, j) then j else FirstClearFrom(w, j + 1)
  }

  /**
   * `fls`: one plus the index of the highest set bit, 0 for a zero word
   * (fls(1) == 1). This is the reading bitmap.c relies on when it defines
   * nbits_to_hold_value(val) as fls(val).
   */
  function Fls(w: Word): (r: nat)
    ensures r <= 64
    ensures r == 0 <==> w == 0
    ensures r > 0 ==> Bit(w, r - 1)
    ensures forall i :: r <= i < 64 ==> !Bit(w, i)
  {
    SomeBitSet(w);
    ZeroBits(w);
    LastSetBelow(w, 64)
  }

  /** `__fls`: the index of the highest set bit of a nonzero word. */
  function FlsIndex(w: Word): (r: nat)
    requires w != 0
    ensures r < 64 && Bit(w, r)
    ensures forall i :: r < i < 64 ==> !Bit(w, i)
  {
    Fls(w) - 1
  }

  /** The zero word has no set bit. */
  lemma ZeroBits(w: Word)
    ensures w == 0 ==> LastSetBelow(w, 64) == 0
  {
    ZeroWord(w);
  }

  /** The number of set bits below j. */
  function CountBelow(w: Word, j: nat): (r: nat)
    ensures r <= j
  {
    if j == 0 then 0 else CountBelow(w, j - 1) + (if Bit(w, j - 1) then 1 else 0)
  }

  /** `hweight_long`: the number of set bits, zero exactly for the zero word. */
  function Hweight(w: Word): (r: nat)
    ensures r <= 64
    ensures r == 0 <==> w == 0
  {
    CountZero(w, 64);
    ZeroWord(w);
    CountBelow(w, 64)
  }

  /** No bit below j is counted exactly when none of them is set. */
  lemma {:induction false} CountZero(w: Word, j: nat)
    ensures CountBelow(w, j) == 0 ==> forall i: nat :: i < j ==> !Bit(w, i)
    ensures (forall i: nat :: i < j ==> !Bit(w, i)) ==> CountBelow(w, j) == 0
  {
    if j > 0 {
      CountZero(w, j - 1);
      assert CountBelow(w, j) == CountBelow(w, j - 1) + (if Bit(w, j - 1) then 1 else 0);
    }
  }

  /** How many bits of the last word of an nbits-bit bitmap are in use (1..64). */
  function LastWordBits(nbits: nat): (r: nat)
    ensures 1 <= r <= 64
  {
    if nbits % 64 == 0 then 64 else nbits % 64
  }

  /** BITMAP_LAST_WORD_MASK(nbits): the bits of the last word that are in use. */
  function LastWordMask(nbits: nat): (r: Word)
    ensures forall j: nat :: Bit(r, j) == (j < LastWordBits(nbits))
  {
    ShrBits(Ones, 64 - LastWordBits(nbits));
    OnesBits();
    Shr(Ones, 64 - LastWordBits(nbits))
  }

  /** BITMAP_FIRST_WORD_MASK(start): the bits of the first word at or above start. */
  function FirstWordMask(start: nat): Word
  {
    Shl(Ones, start % 64)
  }

  lemma FirstWordMaskBits(start: nat)
    ensures forall j: nat :: Bit(FirstWordMask(start), j) == (start % 64 <= j < 64)
  {
    ShlBits(Ones, start % 64);
    OnesBits();
  }

  // A bitmap is an array of words; its bit i is bit i % 64 of word i / 64.

  /** BITS_TO_LONGS(n): the number of words that hold n bits. */
  function BitsToLongs(n: nat): nat
  {
    (n + 63) / 64
  }

  /** The words of an n-bit bitmap: whole words, plus one partial word when 64 does not divide n. */
  lemma BitsToLongsOf(n: nat)
    ensures 64 * (n / 64) <= n < 64 * (n / 64) + 64
    ensures n % 64 == 0 ==> BitsToLongs(n) == n / 64 && 64 * (n / 64) == n
    ensures n % 64 != 0 ==> BitsToLongs(n) == n / 64 + 1 && n - 64 * (n / 64) == n % 64
  {
  }

  /** test_bit(i, map) on the words of a bitmap: bit i % 64 of word i / 64. */
  function TestBit(m: seq<Word>, i: nat): bool
    requires i < 64 * |m|
  {
    if i < 64 then Bit(m[0], i) else TestBit(m[1..], i - 64)
  }

  /** Bit j of word k is bit 64k + j of the bitmap. */
  lemma {:induction false} TestBitWord(m: seq<Word>, k: nat, j: nat)
    requires k < |m| && j < 64
    ensures TestBit(m, 64 * k + j) == Bit(m[k], j)
  {
    if k > 0 {
      TestBitWord(m[1..], k - 1, j);
    }
  }

  /** The word and place of bit i. */
  lemma TestBitAt(m: seq<Word>, i: nat)
    requires i < 64 * |m|
    ensures i / 64 < |m| && TestBit(m, i) == Bit(m[i / 64], i % 64)
  {
    TestBitWord(m, i / 64, i % 64);
  }
}
