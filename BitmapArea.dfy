/**
 * bitmap_find_next_zero_area of lib/bitmap.c: the search for nr clear bits
 * whose first bit is a multiple of a power of two, built on find_next_zero_bit
 * and find_next_bit.
 */
module BitmapArea {
  import opened Pow
  import opened Words
  import opened Bitmap
  import opened BitOps

  /** Halving r times divides by 2^r. */
  lemma {:induction false} HalvedDiv(v: nat, r: nat)
    ensures Halved(v, r) == v / Pow2(r)
  {
    if r > 0 {
      HalvedDiv(v / 2, r - 1);
      var q := Pow2(r - 1);
      var a := (v / 2) / q;
      assert v / 2 == a * q + (v / 2) % q;
      assert a * (2 * q) == 2 * (a * q);
      DivModUnique(v, a, 2 * ((v / 2) % q) + v % 2, 2 * q);
    }
  }

  /** Doubling r times multiplies by 2^r. */
  lemma {:induction false} DoubledMul(v: nat, r: nat)
    ensures Doubled(v, r) == v * Pow2(r)
  {
    if r > 0 {
      DoubledMul(v, r - 1);
      assert 2 * (v * Pow2(r - 1)) == v * (2 * Pow2(r - 1));
    }
  }

  /** Clearing the a low bits of y leaves the multiple of 2^a just at or below y. */
  lemma AlignDown(y: Word, a: nat, mask: Word)
    requires a <= 64 && mask == Pow2(a) - 1
    ensures And(y, Not(mask)) % Pow2(a) == 0
    ensures And(y, Not(mask)) <= y < And(y, Not(mask)) + Pow2(a)
  {
    var p := Pow2(a);
    var q := y / p;
    HalvedDiv(y, a);
    DoubledMul(q, a);
    MulMono(1, p, y + 1);
    DivBelow(y, y + 1, p);
    ClearedLow(y, a, mask, q * p);
    MulMod(q, p);
  }

  /** y & ~(2^a - 1) is y shifted down by a and back up. */
  lemma ClearedLow(y: Word, a: nat, mask: Word, w: Word)
    requires mask == Pow2(a) - 1 && w == Doubled(Halved(y, a), a)
    ensures And(y, Not(mask)) == w
  {
    forall j: nat | j < 64
      ensures Bit(And(y, Not(mask)), j) == Bit(w, j)
    {
      ClearedLowBit(y, a, mask, w, j);
    }
    WordExt(And(y, Not(mask)), w);
  }

  /** Bit j of y & ~(2^a - 1) is bit j of y when j >= a, and clear below a. */
  lemma ClearedLowBit(y: Word, a: nat, mask: Word, w: Word, j: nat)
    requires mask == Pow2(a) - 1 && w == Doubled(Halved(y, a), a) && j < 64
    ensures Bit(And(y, Not(mask)), j) == Bit(w, j)
  {
    AndBits(y, Not(mask));
    NotBits(mask);
    LowOnesBit(a, j);
    DoubledBit(Halved(y, a), a, j);
    if a <= j {
      HalvedBit(y, a, j - a);
      assert j - a + a == j;
    }
  }

  /** __ALIGN_MASK(x, mask): x rounded up to the next multiple of mask + 1. */
  function AlignMask(x: Word, mask: Word): Word
    requires x + mask < TWO64
  {
    And(x + mask, Not(mask))
  }

  /** For mask = 2^a - 1, AlignMask gives the least multiple of 2^a at or above x. */
  lemma AlignMaskSpec(x: Word, a: nat, mask: Word)
    requires a <= 64 && mask == Pow2(a) - 1 && x + mask < TWO64
    ensures AlignMask(x, mask) % Pow2(a) == 0
    ensures x <= AlignMask(x, mask) < x + Pow2(a)
    ensures forall p: nat :: x <= p < AlignMask(x, mask) ==> p % Pow2(a) != 0
  {
    var n := Pow2(a);
    var r := AlignMask(x, mask);
    AlignDown(x + mask, a, mask);
    assert r % n == 0 && r <= x + mask < r + n;
    NoneAlignedBelow(x, r, n);
  }

  /** No multiple of n lies at or above x and below r when r is the first one at or above x. */
  lemma NoneAlignedBelow(x: nat, r: nat, n: nat)
    requires n >= 1 && r % n == 0 && x <= r < x + n
    ensures forall p: nat :: x <= p < r ==> p % n != 0
  {
    forall p: nat | x <= p < r
      ensures p % n != 0
    {
      if p % n == 0 {
        AlignedBetween(r, p, n);
      }
    }
  }

  /** The nr bits at p are clear and end at or below size. */
  ghost predicate FreeArea(m: seq<Word>, p: nat, nr: nat, size: nat)
  {
    p + nr <= size <= 64 * |m| && AllClear(m, p, p + nr)
  }

  /** A set bit inside the nr bits at p: they are not a free area. */
  lemma HitArea(m: seq<Word>, p: nat, nr: nat, size: nat, i: nat)
    requires p <= i < p + nr && i < 64 * |m| && TestBit(m, i)
    ensures !FreeArea(m, p, nr, size)
  {
  }

  /**
   * One try of the search from s: z is the first clear bit at or above s,
   * index its alignment. No aligned area starting in [s, index) is free.
   */
  lemma SkipToZero(m: seq<Word>, s: nat, size: nat, nr: nat, z: nat, index: nat, a: nat)
    requires size <= 64 * |m| && nr > 0
    requires z == NextWith(m, s, size, false)
    requires z <= index && forall p: nat :: z <= p < index ==> p % Pow2(a) != 0
    ensures forall p: nat :: s <= p < index && p % Pow2(a) == 0 ==> !FreeArea(m, p, nr, size)
  {
    NextWithSpec(m, s, size, false);
    forall p: nat | s <= p < index && p % Pow2(a) == 0
      ensures !FreeArea(m, p, nr, size)
    {
      if p < size {
        HitArea(m, p, nr, size, p);
      }
    }
  }

  /**
   * bitmap_find_next_zero_area: the first position at or above start, a
   * multiple of align_mask + 1, where nr clear bits begin and end at or below
   * size. When there is none the result r has r + nr > size.
   */
  method FindNextZeroArea(bitmap: array<Word>, size: nat, start: nat, nr: nat, alignMask: Word, ghost a: nat)
    returns (r: nat)
    requires BitsToLongs(size) <= bitmap.Length
    requires a <= 64 && alignMask == Pow2(a) - 1
    requires size + alignMask + nr < TWO64
    ensures start <= size ==> start <= r
    ensures r + nr <= size ==> r % Pow2(a) == 0 && FreeArea(bitmap[..], r, nr, size)
    ensures nr > 0 && r + nr <= size ==>
      forall p: nat :: start <= p < r && p % Pow2(a) == 0 ==> !FreeArea(bitmap[..], p, nr, size)
    ensures nr > 0 && r + nr > size ==>
      forall p: nat :: start <= p && p % Pow2(a) == 0 ==> !FreeArea(bitmap[..], p, nr, size)
  {
    ghost var m := bitmap[..];
    WordsHold(size, |m|);
    var s := start;
    while true
      invariant start <= s && (start <= size ==> s <= size)
      invariant nr > 0 ==> forall p: nat :: start <= p < s && p % Pow2(a) == 0 ==> !FreeArea(m, p, nr, size)
      decreases size - s
    {
      var z := FindNextZeroBit(bitmap, size, s);
      NextWithSpec(m, s, size, false);
      AlignMaskSpec(z, a, alignMask);
      var index := AlignMask(z, alignMask);
      if nr > 0 {
        SkipToZero(m, s, size, nr, z, index, a);
      }
      var end := index + nr;
      if end > size {
        return end;
      }
      var i := FindNextBit(bitmap, end, index);
      NextWithSpec(m, index, end, true);
      if i >= end {
        return index;
      }
      forall p: nat | index <= p <= i
        ensures !FreeArea(m, p, nr, size)
      {
        HitArea(m, p, nr, size, i);
      }
      s := i + 1;
    }
  }
}
