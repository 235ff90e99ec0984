/**
 * Whole-bitmap operations of lib/bitmap.c: the tests (empty, full, equal,
 * intersects, subset), the weight, the complement and the word-wise
 * combinations (and, or, xor, andnot). A bitmap of `bits` bits occupies
 * BITS_TO_LONGS(bits) words; the unused bits at the top of the last word are
 * "don't care": the tests and the weight mask them off, the complement writes
 * them as zero, and the combinations pass them through word by word.
 */
module Bitmap {
  import opened Pow
  import opened Words

  /** No bit in [lo, hi) is set. */
  ghost predicate AllClear(m: seq<Word>, lo: nat, hi: nat)
    requires hi <= 64 * |m|
  {
    forall i :: lo <= i < hi ==> !TestBit(m, i)
  }

  /** memset(a + lo, 0, (hi - lo) * sizeof(long)): words lo..hi-1 become zero. */
  method ZeroWords(a: array<Word>, lo: nat, hi: nat)
    requires lo <= hi <= a.Length
    modifies a
    ensures forall j :: lo <= j < hi ==> a[j] == 0
    ensures forall j :: 0 <= j < a.Length && !(lo <= j < hi) ==> a[j] == old(a[j])
  {
    for k := lo to hi
      invariant forall j :: lo <= j < k ==> a[j] == 0
      invariant forall j :: 0 <= j < a.Length && !(lo <= j < k) ==> a[j] == old(a[j])
    {
      a[k] := 0;
    }
  }

  /** bitmap_zero(a, nbits): every bit of the words that hold nbits bits becomes clear. */
  method BitmapZero(a: array<Word>, nbits: nat)
    requires BitsToLongs(nbits) <= a.Length
    modifies a
    ensures forall k :: 0 <= k < 64 * BitsToLongs(nbits) ==> !TestBit(a[..], k)
    ensures forall j :: BitsToLongs(nbits) <= j < a.Length ==> a[j] == old(a[j])
  {
    ZeroWords(a, 0, BitsToLongs(nbits));
    forall k | 0 <= k < 64 * BitsToLongs(nbits)
      ensures !TestBit(a[..], k)
    {
      TestBitAt(a[..], k);
      ZeroBit(k % 64);
    }
  }

  /** set_bit(i, a), without the atomicity: bit i becomes set and no other bit changes. */
  method SetBit(a: array<Word>, i: nat)
    requires i < 64 * a.Length
    modifies a
    ensures forall j :: 0 <= j < 64 * a.Length ==> TestBit(a[..], j) == (j == i || TestBit(old(a[..]), j))
    ensures forall k :: 0 <= k < a.Length && k != i / 64 ==> a[k] == old(a[k])
  {
    ghost var m := a[..];
    TestBitAt(m, i);
    var k := i / 64;
    ShlOne(i % 64);
    a[k] := Or(a[k], Shl(1, i % 64));
    forall j | 0 <= j < 64 * a.Length
      ensures TestBit(a[..], j) == (j == i || TestBit(m, j))
    {
      SetBitAt(m, a[..], k, i, Shl(1, i % 64), j);
    }
  }

  /** Bit j after word k, the word of bit i, has bit i % 64 or'd in. */
  lemma SetBitAt(m: seq<Word>, m2: seq<Word>, k: nat, i: nat, b: Word, j: nat)
    requires k == i / 64 && k < |m| && j < 64 * |m| && b == Pow2(i % 64)
    requires m2 == m[k := Or(m[k], b)]
    ensures TestBit(m2, j) == (j == i || TestBit(m, j))
  {
    TestBitAt(m, j);
    TestBitAt(m2, j);
    OrBits(m[k], b);
    PowBit(i % 64, j % 64);
    if j / 64 == k {
      assert j == i <==> j % 64 == i % 64;
    }
  }

  /** Every bit in [lo, hi) is set. */
  ghost predicate AllSet(m: seq<Word>, lo: nat, hi: nat)
    requires hi <= 64 * |m|
  {
    forall i :: lo <= i < hi ==> TestBit(m, i)
  }

  /** a and b have the same bits below `bits`. */
  ghost predicate Agree(a: seq<Word>, b: seq<Word>, bits: nat)
    requires bits <= 64 * |a| && bits <= 64 * |b|
  {
    forall i :: 0 <= i < bits ==> TestBit(a, i) == TestBit(b, i)
  }

  /** Some bit below `bits` is set in both a and b. */
  ghost predicate Meet(a: seq<Word>, b: seq<Word>, bits: nat)
    requires bits <= 64 * |a| && bits <= 64 * |b|
  {
    exists i :: 0 <= i < bits && TestBit(a, i) && TestBit(b, i)
  }

  /** Every bit below `bits` that is set in a is set in b. */
  ghost predicate Within(a: seq<Word>, b: seq<Word>, bits: nat)
    requires bits <= 64 * |a| && bits <= 64 * |b|
  {
    forall i :: 0 <= i < bits && TestBit(a, i) ==> TestBit(b, i)
  }

  /** A per-bit test that a bitmap operation applies to two bitmaps at once. */
  datatype BitTest = Set | Clear | Differ | Both | Either | Only

  function Holds(t: BitTest, x: bool, y: bool): bool
  {
    match t
    case Set => x
    case Clear => !x
    case Differ => x != y
    case Both => x && y
    case Either => x || y
    case Only => x && !y
  }

  /** The word whose bit j is the test applied to bit j of x and of y. */
  function Combined(t: BitTest, x: Word, y: Word): Word
  {
    match t
    case Set => x
    case Clear => Not(x)
    case Differ => Xor(x, y)
    case Both => And(x, y)
    case Either => Or(x, y)
    case Only => And(x, Not(y))
  }

  lemma CombinedBits(t: BitTest, x: Word, y: Word)
    ensures forall j: nat :: j < 64 ==> Bit(Combined(t, x, y), j) == Holds(t, Bit(x, j), Bit(y, j))
  {
    NotBits(x);
    NotBits(y);
    XorBits(x, y);
    AndBits(x, y);
    OrBits(x, y);
    AndBits(x, Not(y));
  }

  /** No bit position in [lo, hi) where the test holds of a and b. */
  ghost predicate NoneHolds(t: BitTest, a: seq<Word>, b: seq<Word>, lo: nat, hi: nat)
    requires hi <= 64 * |a| && hi <= 64 * |b|
  {
    forall i {:trigger TestBit(a, i)} {:trigger TestBit(b, i)} :: lo <= i < hi ==> !Holds(t, TestBit(a, i), TestBit(b, i))
  }

  lemma NoneHoldsSplit(t: BitTest, a: seq<Word>, b: seq<Word>, lo: nat, mid: nat, hi: nat)
    requires lo <= mid <= hi <= 64 * |a| && hi <= 64 * |b|
    ensures NoneHolds(t, a, b, lo, hi) <==> NoneHolds(t, a, b, lo, mid) && NoneHolds(t, a, b, mid, hi)
  {
  }

  /**
   * A word whose bit j is the test on bit 64k + j, for the positions of word
   * k below hi, is zero exactly when the test holds nowhere in [64k, hi).
   */
  lemma WordTest(t: BitTest, a: seq<Word>, b: seq<Word>, k: nat, hi: nat, w: Word)
    requires k < |a| && k < |b| && 64 * k <= hi <= 64 * k + 64
    requires forall j: nat :: j < 64 ==> Bit(w, j) == (64 * k + j < hi && Holds(t, Bit(a[k], j), Bit(b[k], j)))
    ensures w == 0 <==> NoneHolds(t, a, b, 64 * k, hi)
  {
    ZeroWord(w);
    if w == 0 {
      forall i | 64 * k <= i < hi
        ensures !Holds(t, TestBit(a, i), TestBit(b, i))
      {
        TestBitWord(a, k, i - 64 * k);
        TestBitWord(b, k, i - 64 * k);
      }
    } else {
      var j := Ffs(w);
      TestBitWord(a, k, j);
      TestBitWord(b, k, j);
    }
  }

  /** A whole word of the bitmaps: the combined word is zero iff the test fails on all 64 bits. */
  lemma WholeWordTest(t: BitTest, a: seq<Word>, b: seq<Word>, k: nat)
    requires k < |a| && k < |b|
    ensures Combined(t, a[k], b[k]) == 0 <==> NoneHolds(t, a, b, 64 * k, 64 * k + 64)
  {
    CombinedBits(t, a[k], b[k]);
    WordTest(t, a, b, k, 64 * k + 64, Combined(t, a[k], b[k]));
  }

  /** The partly used last word: masking with BITMAP_LAST_WORD_MASK leaves the bits below `bits`. */
  lemma LastWordTest(t: BitTest, a: seq<Word>, b: seq<Word>, bits: nat, k: nat)
    requires bits % 64 != 0 && k == bits / 64 && k < |a| && k < |b|
    ensures And(Combined(t, a[k], b[k]), LastWordMask(bits)) == 0 <==> NoneHolds(t, a, b, 64 * k, bits)
  {
    var w := And(Combined(t, a[k], b[k]), LastWordMask(bits));
    CombinedBits(t, a[k], b[k]);
    AndBits(Combined(t, a[k], b[k]), LastWordMask(bits));
    assert bits - 64 * k == bits % 64;
    WordTest(t, a, b, k, bits, w);
  }

  /** Two words are equal exactly when their exclusive or is zero. */
  lemma EqualIsNoDifference(x: Word, y: Word)
    ensures x == y <==> Xor(x, y) == 0
  {
    XorBits(x, y);
    ZeroWord(Xor(x, y));
    if Xor(x, y) == 0 {
      WordExt(x, y);
    }
  }

  /**
   * The shared shape of the tests: whole words first, then the used part of
   * the last word. Returns whether the test holds nowhere below `bits`.
   */
  method NoneBelow(t: BitTest, a: array<Word>, b: array<Word>, bits: nat) returns (r: bool)
    requires BitsToLongs(bits) <= a.Length && BitsToLongs(bits) <= b.Length
    ensures r == NoneHolds(t, a[..], b[..], 0, bits)
  {
    var lim := bits / 64;
    var k := 0;
    while k < lim
      invariant k <= lim && NoneHolds(t, a[..], b[..], 0, 64 * k)
    {
      WholeWordTest(t, a[..], b[..], k);
      NoneHoldsSplit(t, a[..], b[..], 0, 64 * k, 64 * k + 64);
      if Combined(t, a[k], b[k]) != 0 {
        NoneHoldsSplit(t, a[..], b[..], 0, 64 * k + 64, bits);
        return false;
      }
      k := k + 1;
    }
    if bits % 64 != 0 {
      LastWordTest(t, a[..], b[..], bits, k);
      NoneHoldsSplit(t, a[..], b[..], 0, 64 * k, bits);
      if And(Combined(t, a[k], b[k]), LastWordMask(bits)) != 0 {
        return false;
      }
    }
    return true;
  }

  /** __bitmap_empty: no bit below `bits` is set. */
  method BitmapEmpty(bitmap: array<Word>, bits: nat) returns (r: bool)
    requires BitsToLongs(bits) <= bitmap.Length
    ensures r == AllClear(bitmap[..], 0, bits)
  {
    r := NoneBelow(Set, bitmap, bitmap, bits);
  }

  /** __bitmap_full: every bit below `bits` is set. */
  method BitmapFull(bitmap: array<Word>, bits: nat) returns (r: bool)
    requires BitsToLongs(bits) <= bitmap.Length
    ensures r == AllSet(bitmap[..], 0, bits)
  {
    r := NoneBelow(Clear, bitmap, bitmap, bits);
  }

  /** __bitmap_equal: the two bitmaps agree on every bit below `bits`. */
  method BitmapEqual(bitmap1: array<Word>, bitmap2: array<Word>, bits: nat) returns (r: bool)
    requires BitsToLongs(bits) <= bitmap1.Length && BitsToLongs(bits) <= bitmap2.Length
    ensures r == Agree(bitmap1[..], bitmap2[..], bits)
  {
    var lim := bits / 64;
    var k := 0;
    while k < lim
      invariant k <= lim && NoneHolds(Differ, bitmap1[..], bitmap2[..], 0, 64 * k)
    {
      EqualIsNoDifference(bitmap1[k], bitmap2[k]);
      WholeWordTest(Differ, bitmap1[..], bitmap2[..], k);
      NoneHoldsSplit(Differ, bitmap1[..], bitmap2[..], 0, 64 * k, 64 * k + 64);
      if bitmap1[k] != bitmap2[k] {
        NoneHoldsSplit(Differ, bitmap1[..], bitmap2[..], 0, 64 * k + 64, bits);
        return false;
      }
      k := k + 1;
    }
    if bits % 64 != 0 {
      LastWordTest(Differ, bitmap1[..], bitmap2[..], bits, k);
      NoneHoldsSplit(Differ, bitmap1[..], bitmap2[..], 0, 64 * k, bits);
      if And(Xor(bitmap1[k], bitmap2[k]), LastWordMask(bits)) != 0 {
        return false;
      }
    }
    return true;
  }

  /** __bitmap_intersects: some bit below `bits` is set in both bitmaps. */
  method BitmapIntersects(bitmap1: array<Word>, bitmap2: array<Word>, bits: nat) returns (r: bool)
    requires BitsToLongs(bits) <= bitmap1.Length && BitsToLongs(bits) <= bitmap2.Length
    ensures r == Meet(bitmap1[..], bitmap2[..], bits)
  {
    var none := NoneBelow(Both, bitmap1, bitmap2, bits);
    r := !none;
  }

  /** __bitmap_subset: every bit below `bits` set in bitmap1 is set in bitmap2. */
  method BitmapSubset(bitmap1: array<Word>, bitmap2: array<Word>, bits: nat) returns (r: bool)
    requires BitsToLongs(bits) <= bitmap1.Length && BitsToLongs(bits) <= bitmap2.Length
    ensures r == Within(bitmap1[..], bitmap2[..], bits)
  {
    r := NoneBelow(Only, bitmap1, bitmap2, bits);
  }

  /** The number of set bits below n. */
  ghost function Weight(m: seq<Word>, n: nat): (r: nat)
    requires n <= 64 * |m|
    ensures r <= n
  {
    if n == 0 then 0 else Weight(m, n - 1) + (if TestBit(m, n - 1) then 1 else 0)
  }

  /** The weight is zero exactly when no bit is set. */
  lemma {:induction false} WeightZero(m: seq<Word>, n: nat)
    requires n <= 64 * |m|
    ensures Weight(m, n) == 0 <==> AllClear(m, 0, n)
  {
    if n > 0 {
      WeightZero(m, n - 1);
    }
  }

  lemma {:induction false} WeightCount(m: seq<Word>, k: nat, hi: nat, w: Word, t: nat)
    requires k < |m| && 64 * k <= hi <= 64 * k + 64 && t <= 64
    requires forall j: nat :: j < 64 ==> Bit(w, j) == (64 * k + j < hi && Bit(m[k], j))
    ensures Weight(m, if 64 * k + t < hi then 64 * k + t else hi) == Weight(m, 64 * k) + CountBelow(w, t)
  {
    if t > 0 {
      WeightCount(m, k, hi, w, t - 1);
      if 64 * k + t <= hi {
        TestBitWord(m, k, t - 1);
      }
    }
  }

  /** The weight of word k's bits below hi is the hweight of the word that keeps just them. */
  lemma WeightWord(m: seq<Word>, k: nat, hi: nat, w: Word)
    requires k < |m| && 64 * k <= hi <= 64 * k + 64
    requires forall j: nat :: j < 64 ==> Bit(w, j) == (64 * k + j < hi && Bit(m[k], j))
    ensures Weight(m, hi) == Weight(m, 64 * k) + Hweight(w)
  {
    WeightCount(m, k, hi, w, 64);
  }

  /** __bitmap_weight: the number of set bits below `bits`. */
  method BitmapWeight(bitmap: array<Word>, bits: nat) returns (w: nat)
    requires BitsToLongs(bits) <= bitmap.Length
    ensures w == Weight(bitmap[..], bits)
  {
    var lim := bits / 64;
    var k := 0;
    w := 0;
    while k < lim
      invariant k <= lim && w == Weight(bitmap[..], 64 * k)
    {
      WeightWord(bitmap[..], k, 64 * k + 64, bitmap[k]);
      w := w + Hweight(bitmap[k]);
      k := k + 1;
    }
    if bits % 64 != 0 {
      var last := And(bitmap[k], LastWordMask(bits));
      AndBits(bitmap[k], LastWordMask(bits));
      assert bits - 64 * k == bits % 64;
      WeightWord(bitmap[..], k, bits, last);
      w := w + Hweight(last);
    }
  }

  /**
   * Words that hold the test of two word sequences, word by word, hold it
   * bit by bit.
   */
  lemma CombinedWords(t: BitTest, d: seq<Word>, a: seq<Word>, b: seq<Word>, n: nat)
    requires n <= |d| && n <= |a| && n <= |b|
    requires forall k :: 0 <= k < n ==> d[k] == Combined(t, a[k], b[k])
    ensures forall i :: 0 <= i < 64 * n ==> TestBit(d, i) == Holds(t, TestBit(a, i), TestBit(b, i))
  {
    forall i | 0 <= i < 64 * n
      ensures TestBit(d, i) == Holds(t, TestBit(a, i), TestBit(b, i))
    {
      var k := i / 64;
      TestBitAt(d, i);
      TestBitAt(a, i);
      TestBitAt(b, i);
      CombinedBits(t, a[k], b[k]);
    }
  }

  /**
   * The word loop of the combinations: dst[k] = bitmap1[k] op bitmap2[k] for
   * the BITS_TO_LONGS(bits) words, returning whether any resulting word is
   * nonzero. dst may be either operand.
   */
  method CombineWords(t: BitTest, dst: array<Word>, bitmap1: array<Word>, bitmap2: array<Word>, bits: nat)
    returns (nonzero: bool)
    requires BitsToLongs(bits) <= dst.Length && BitsToLongs(bits) <= bitmap1.Length
    requires BitsToLongs(bits) <= bitmap2.Length
    modifies dst
    ensures forall i :: 0 <= i < 64 * BitsToLongs(bits) ==>
      TestBit(dst[..], i) == Holds(t, TestBit(old(bitmap1[..]), i), TestBit(old(bitmap2[..]), i))
    ensures nonzero <==> !NoneHolds(t, old(bitmap1[..]), old(bitmap2[..]), 0, 64 * BitsToLongs(bits))
    ensures forall k :: BitsToLongs(bits) <= k < dst.Length ==> dst[k] == old(dst[k])
  {
    ghost var a := bitmap1[..];
    ghost var b := bitmap2[..];
    var nr := BitsToLongs(bits);
    var result: Word := 0;
    var k := 0;
    while k < nr
      invariant k <= nr
      invariant forall j :: k <= j < bitmap1.Length ==> bitmap1[j] == a[j]
      invariant forall j :: k <= j < bitmap2.Length ==> bitmap2[j] == b[j]
      invariant forall j :: 0 <= j < k ==> dst[j] == Combined(t, a[j], b[j])
      invariant forall j :: k <= j < dst.Length ==> dst[j] == old(dst[j])
      invariant result == 0 <==> NoneHolds(t, a, b, 0, 64 * k)
    {
      dst[k] := Combined(t, bitmap1[k], bitmap2[k]);
      AccumulateWord(t, a, b, k, result);
      result := Or(result, dst[k]);
      k := k + 1;
    }
    CombinedWords(t, dst[..], a, b, nr);
    nonzero := result != 0;
  }

  /** An or of words is zero exactly when each word is. */
  lemma OrZero(x: Word, y: Word)
    ensures Or(x, y) == 0 <==> x == 0 && y == 0
  {
    if x == 0 && y == 0 {
      ZeroWord(x);
      ZeroWord(y);
      forall j: nat | j < 64
        ensures !Bit(Or(x, y), j)
      {
        OrBits(x, y);
      }
      ZeroWord(Or(x, y));
    } else {
      var j := if x != 0 then Ffs(x) else Ffs(y);
      OrBits(x, y);
      assert Bit(Or(x, y), j);
      ZeroBit(j);
    }
  }

  /** Or-ing word k's combination into the running result of words 0..k-1. */
  lemma AccumulateWord(t: BitTest, a: seq<Word>, b: seq<Word>, k: nat, result: Word)
    requires k < |a| && k < |b|
    requires result == 0 <==> NoneHolds(t, a, b, 0, 64 * k)
    ensures Or(result, Combined(t, a[k], b[k])) == 0 <==> NoneHolds(t, a, b, 0, 64 * k + 64)
  {
    WholeWordTest(t, a, b, k);
    NoneHoldsSplit(t, a, b, 0, 64 * k, 64 * k + 64);
    OrZero(result, Combined(t, a[k], b[k]));
  }

  /** __bitmap_and: dst = bitmap1 & bitmap2; the result says whether dst is non-empty. */
  method BitmapAnd(dst: array<Word>, bitmap1: array<Word>, bitmap2: array<Word>, bits: nat) returns (r: bool)
    requires BitsToLongs(bits) <= dst.Length && BitsToLongs(bits) <= bitmap1.Length
    requires BitsToLongs(bits) <= bitmap2.Length
    modifies dst
    ensures forall i :: 0 <= i < 64 * BitsToLongs(bits) ==>
      TestBit(dst[..], i) == (TestBit(old(bitmap1[..]), i) && TestBit(old(bitmap2[..]), i))
    ensures r == !AllClear(dst[..], 0, 64 * BitsToLongs(bits))
    ensures forall k :: BitsToLongs(bits) <= k < dst.Length ==> dst[k] == old(dst[k])
  {
    r := CombineWords(Both, dst, bitmap1, bitmap2, bits);
  }

  /** __bitmap_or: dst = bitmap1 | bitmap2. */
  method BitmapOr(dst: array<Word>, bitmap1: array<Word>, bitmap2: array<Word>, bits: nat)
    requires BitsToLongs(bits) <= dst.Length && BitsToLongs(bits) <= bitmap1.Length
    requires BitsToLongs(bits) <= bitmap2.Length
    modifies dst
    ensures forall i :: 0 <= i < 64 * BitsToLongs(bits) ==>
      TestBit(dst[..], i) == (TestBit(old(bitmap1[..]), i) || TestBit(old(bitmap2[..]), i))
    ensures forall k :: BitsToLongs(bits) <= k < dst.Length ==> dst[k] == old(dst[k])
  {
    var _ := CombineWords(Either, dst, bitmap1, bitmap2, bits);
  }

  /** __bitmap_xor: dst = bitmap1 ^ bitmap2. */
  method BitmapXor(dst: array<Word>, bitmap1: array<Word>, bitmap2: array<Word>, bits: nat)
    requires BitsToLongs(bits) <= dst.Length && BitsToLongs(bits) <= bitmap1.Length
    requires BitsToLongs(bits) <= bitmap2.Length
    modifies dst
    ensures forall i :: 0 <= i < 64 * BitsToLongs(bits) ==>
      TestBit(dst[..], i) == (TestBit(old(bitmap1[..]), i) != TestBit(old(bitmap2[..]), i))
    ensures forall k :: BitsToLongs(bits) <= k < dst.Length ==> dst[k] == old(dst[k])
  {
    var _ := CombineWords(Differ, dst, bitmap1, bitmap2, bits);
  }

  /** __bitmap_andnot: dst = bitmap1 & ~bitmap2; the result says whether dst is non-empty. */
  method BitmapAndNot(dst: array<Word>, bitmap1: array<Word>, bitmap2: array<Word>, bits: nat) returns (r: bool)
    requires BitsToLongs(bits) <= dst.Length && BitsToLongs(bits) <= bitmap1.Length
    requires BitsToLongs(bits) <= bitmap2.Length
    modifies dst
    ensures forall i :: 0 <= i < 64 * BitsToLongs(bits) ==>
      TestBit(dst[..], i) == (TestBit(old(bitmap1[..]), i) && !TestBit(old(bitmap2[..]), i))
    ensures r == !AllClear(dst[..], 0, 64 * BitsToLongs(bits))
    ensures forall k :: BitsToLongs(bits) <= k < dst.Length ==> dst[k] == old(dst[k])
  {
    r := CombineWords(Only, dst, bitmap1, bitmap2, bits);
  }

  /** The masked complement of the last word, bit by bit. */
  lemma ComplementLastWord(d: seq<Word>, s: seq<Word>, bits: nat, lim: nat)
    requires bits % 64 != 0 && lim == bits / 64 && lim < |d| && lim < |s|
    requires d[lim] == And(Not(s[lim]), LastWordMask(bits))
    ensures forall i :: 64 * lim <= i < 64 * lim + 64 ==> TestBit(d, i) == (i < bits && !TestBit(s, i))
  {
    NotBits(s[lim]);
    AndBits(Not(s[lim]), LastWordMask(bits));
    forall i | 64 * lim <= i < 64 * lim + 64
      ensures TestBit(d, i) == (i < bits && !TestBit(s, i))
    {
      var j: nat := i - 64 * lim;
      TestBitWord(d, lim, j);
      TestBitWord(s, lim, j);
    }
  }

  /** The complement of the words, with the unused top of a partial last word cleared. */
  lemma ComplementBits(d: seq<Word>, s: seq<Word>, bits: nat)
    requires BitsToLongs(bits) <= |d| && BitsToLongs(bits) <= |s|
    requires forall k :: 0 <= k < bits / 64 ==> d[k] == Not(s[k])
    requires bits % 64 != 0 ==> d[bits / 64] == And(Not(s[bits / 64]), LastWordMask(bits))
    ensures forall i :: 0 <= i < bits ==> TestBit(d, i) == !TestBit(s, i)
    ensures forall i :: bits <= i < 64 * BitsToLongs(bits) ==> !TestBit(d, i)
  {
    var lim := bits / 64;
    BitsToLongsOf(bits);
    CombinedWords(Clear, d, s, s, lim);
    if bits % 64 != 0 {
      ComplementLastWord(d, s, bits, lim);
    }
  }

  /** __bitmap_complement: dst holds the negated bits of src below `bits` and zeros above. */
  method BitmapComplement(dst: array<Word>, src: array<Word>, bits: nat)
    requires BitsToLongs(bits) <= dst.Length && BitsToLongs(bits) <= src.Length
    modifies dst
    ensures forall i :: 0 <= i < bits ==> TestBit(dst[..], i) == !TestBit(old(src[..]), i)
    ensures forall i :: bits <= i < 64 * BitsToLongs(bits) ==> !TestBit(dst[..], i)
    ensures forall k :: BitsToLongs(bits) <= k < dst.Length ==> dst[k] == old(dst[k])
  {
    ghost var s := src[..];
    var lim := bits / 64;
    var k := 0;
    while k < lim
      invariant k <= lim
      invariant forall j :: k <= j < src.Length ==> src[j] == s[j]
      invariant forall j :: 0 <= j < k ==> dst[j] == Not(s[j])
      invariant forall j :: k <= j < dst.Length ==> dst[j] == old(dst[j])
    {
      dst[k] := Not(src[k]);
      k := k + 1;
    }
    if bits % 64 != 0 {
      dst[k] := And(Not(src[k]), LastWordMask(bits));
    }
    ComplementBits(dst[..], s, bits);
  }
}
