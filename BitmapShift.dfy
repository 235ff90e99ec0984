/**
 * The logical shifts of a bitmap (lib/bitmap.c, __bitmap_shift_right and
 * __bitmap_shift_left). A shift by `shift` moves whole words by shift / 64
 * and splices neighbouring words for the remaining shift % 64 bits; the
 * partial last word is masked so the unused bits neither leak into the
 * result nor are set in it. dst may be src: each word is read before the
 * loop reaches the word it writes.
 */
module BitmapShift {
  import opened Pow
  import opened Words
  import opened Bitmap

  /** Bit i of a bits-bit bitmap shifted right by `shift`: bit i + shift of s, zero past the end. */
  ghost function ShiftedRight(s: seq<Word>, bits: nat, shift: nat, i: nat): bool
    requires bits <= 64 * |s|
  {
    i < bits && i + shift < bits && TestBit(s, i + shift)
  }

  /** Bit i of a bits-bit bitmap shifted left by `shift`: bit i - shift of s, zero below shift. */
  ghost function ShiftedLeft(s: seq<Word>, bits: nat, shift: nat, i: nat): bool
    requires bits <= 64 * |s|
  {
    i < bits && shift <= i && TestBit(s, i - shift)
  }

  /** v is the word x, at bit base of the bitmap, with the bits at or above `bits` cleared. */
  ghost predicate UsedPart(v: Word, x: Word, base: nat, bits: nat)
  {
    forall j: nat {:trigger Bit(v, j)} :: j < 64 ==> Bit(v, j) == (base + j < bits && Bit(x, j))
  }

  /**
   * The code masks word k with (1UL << left) - 1 exactly when it is the
   * partial last word; either way the word it gets is the used part of x.
   */
  lemma UsedWord(x: Word, k: nat, bits: nat, lim: nat, left: nat, mask: Word, v: Word)
    requires lim == BitsToLongs(bits) && k < lim && left == bits % 64 && mask + 1 == Shl(1, left)
    requires v == (if left != 0 && k == lim - 1 then And(x, mask) else x)
    ensures UsedPart(v, x, 64 * k, bits)
  {
    BitsToLongsOf(bits);
    if left != 0 && k == lim - 1 {
      LowMask(left, mask);
      AndBits(x, mask);
    }
  }

  /** Word k of the right-shifted bitmap, before the final mask. */
  ghost predicate RightWord(w: Word, s: seq<Word>, bits: nat, shift: nat, k: nat)
    requires bits <= 64 * |s|
  {
    forall j: nat {:trigger Bit(w, j)} :: j < 64 ==>
      Bit(w, j) == (64 * k + j + shift < bits && TestBit(s, 64 * k + j + shift))
  }

  /** Word k of dst holds bits 64k..64k+63 of the right-shifted bitmap. */
  ghost predicate RightDone(d: Word, s: seq<Word>, bits: nat, shift: nat, k: nat)
    requires bits <= 64 * |s|
  {
    forall j: nat {:trigger Bit(d, j)} :: j < 64 ==> Bit(d, j) == ShiftedRight(s, bits, shift, 64 * k + j)
  }

  /** The word that holds bits 64k..64k+63 of the right-shifted bitmap. */
  ghost function RightSpec(s: seq<Word>, bits: nat, shift: nat, k: nat): Word
    requires bits <= 64 * |s|
  {
    Pow2Words();
    PackBits(RightPattern(s, bits, shift, k))
  }

  ghost function RightPattern(s: seq<Word>, bits: nat, shift: nat, k: nat): (b: seq<bool>)
    requires bits <= 64 * |s|
    ensures |b| == 64
  {
    seq(64, j requires 0 <= j < 64 => ShiftedRight(s, bits, shift, 64 * k + j))
  }

  lemma RightSpecDone(s: seq<Word>, bits: nat, shift: nat, k: nat)
    requires bits <= 64 * |s|
    ensures RightDone(RightSpec(s, bits, shift, k), s, bits, shift, k)
  {
    forall j: nat | j < 64
      ensures Bit(RightSpec(s, bits, shift, k), j) == ShiftedRight(s, bits, shift, 64 * k + j)
    {
      PackBitsBit(RightPattern(s, bits, shift, k), j);
    }
  }

  lemma RightIsSpec(d: Word, s: seq<Word>, bits: nat, shift: nat, k: nat)
    requires bits <= 64 * |s| && RightDone(d, s, bits, shift, k)
    ensures d == RightSpec(s, bits, shift, k)
  {
    RightSpecDone(s, bits, shift, k);
    WordExt(d, RightSpec(s, bits, shift, k));
  }

  /**
   * `upper << (64 - rem) | lower >> rem`: the top rem bits of word off + k
   * and the bottom rem bits of word off + k + 1 make word k.
   */
  lemma ShiftRightWord(s: seq<Word>, bits: nat, shift: nat, lim: nat, off: nat, rem: nat, k: nat,
                       upper: Word, lower: Word)
    requires lim == BitsToLongs(bits) <= |s| && off == shift / 64 && rem == shift % 64 && off + k < lim
    requires UsedPart(lower, s[off + k], 64 * (off + k), bits)
    requires rem == 0 || off + k + 1 >= lim ==> upper == 0
    requires rem != 0 && off + k + 1 < lim ==> UsedPart(upper, s[off + k + 1], 64 * (off + k + 1), bits)
    ensures RightWord(Or(Shl(upper, 64 - rem), Shr(lower, rem)), s, bits, shift, k)
  {
    var w := Or(Shl(upper, 64 - rem), Shr(lower, rem));
    forall j: nat | j < 64
      ensures Bit(w, j) == (64 * k + j + shift < bits && TestBit(s, 64 * k + j + shift))
    {
      RightSplice(upper, lower, rem, j);
      if j + rem < 64 {
        RightFromLower(s, bits, shift, off, rem, k, lower, j);
      } else {
        RightFromUpper(s, bits, shift, lim, off, rem, k, upper, j);
      }
    }
  }

  /** Bit j of `upper << (64 - rem) | lower >> rem`. */
  lemma RightSplice(upper: Word, lower: Word, rem: nat, j: nat)
    requires rem < 64 && j < 64
    ensures Bit(Or(Shl(upper, 64 - rem), Shr(lower, rem)), j) ==
      if j + rem < 64 then Bit(lower, j + rem) else Bit(upper, j + rem - 64)
  {
    OrBits(Shl(upper, 64 - rem), Shr(lower, rem));
    ShlBits(upper, 64 - rem);
    ShrBits(lower, rem);
    if j + rem < 64 {
      assert !Bit(Shl(upper, 64 - rem), j) && Bit(Shr(lower, rem), j) == Bit(lower, j + rem);
    } else {
      assert !Bit(Shr(lower, rem), j) && Bit(Shl(upper, 64 - rem), j) == Bit(upper, j + rem - 64);
    }
  }

  lemma RightFromLower(s: seq<Word>, bits: nat, shift: nat, off: nat, rem: nat, k: nat, lower: Word, j: nat)
    requires off + k < |s| && off == shift / 64 && rem == shift % 64 && j + rem < 64
    requires UsedPart(lower, s[off + k], 64 * (off + k), bits)
    ensures Bit(lower, j + rem) == (64 * k + j + shift < bits && TestBit(s, 64 * k + j + shift))
  {
    TestBitWord(s, off + k, j + rem);
  }

  lemma RightFromUpper(s: seq<Word>, bits: nat, shift: nat, lim: nat, off: nat, rem: nat, k: nat, upper: Word, j: nat)
    requires lim == BitsToLongs(bits) <= |s| && off == shift / 64 && rem == shift % 64 && off + k < lim
    requires j < 64 <= j + rem
    requires off + k + 1 >= lim ==> upper == 0
    requires off + k + 1 < lim ==> UsedPart(upper, s[off + k + 1], 64 * (off + k + 1), bits)
    ensures Bit(upper, j + rem - 64) == (64 * k + j + shift < bits && TestBit(s, 64 * k + j + shift))
  {
    if off + k + 1 < lim {
      TestBitWord(s, off + k + 1, j + rem - 64);
    } else {
      BitsToLongsOf(bits);
      ZeroBit(j + rem - 64);
    }
  }

  /** The masked word k is finished. */
  lemma RightMasked(w: Word, s: seq<Word>, bits: nat, shift: nat, lim: nat, left: nat, mask: Word, k: nat, d: Word)
    requires lim == BitsToLongs(bits) <= |s| && k < lim && left == bits % 64 && mask + 1 == Shl(1, left)
    requires RightWord(w, s, bits, shift, k)
    requires d == (if left != 0 && k == lim - 1 then And(w, mask) else w)
    ensures d == RightSpec(s, bits, shift, k)
  {
    UsedWord(w, k, bits, lim, left, mask, d);
    RightIsSpec(d, s, bits, shift, k);
  }

  /** The words the memset clears: every source bit they would take is past the end. */
  lemma RightZero(s: seq<Word>, bits: nat, shift: nat, k: nat)
    requires bits <= 64 * |s| && bits <= 64 * k + shift
    ensures RightSpec(s, bits, shift, k) == 0
  {
    forall j: nat | j < 64
      ensures !Bit(0, j)
    {
      ZeroBit(j);
    }
    RightIsSpec(0, s, bits, shift, k);
  }

  /** Finished words give the bits. */
  lemma RightBits(d: seq<Word>, s: seq<Word>, bits: nat, shift: nat, lim: nat)
    requires lim <= |d| && bits <= 64 * |s|
    requires forall k :: 0 <= k < lim ==> d[k] == RightSpec(s, bits, shift, k)
    ensures forall i :: 0 <= i < 64 * lim ==> TestBit(d, i) == ShiftedRight(s, bits, shift, i)
  {
    forall i | 0 <= i < 64 * lim
      ensures TestBit(d, i) == ShiftedRight(s, bits, shift, i)
    {
      TestBitAt(d, i);
      var k, j := i / 64, i % 64;
      assert 64 * k + j == i;
      RightSpecDone(s, bits, shift, k);
      assert Bit(d[k], j) == ShiftedRight(s, bits, shift, 64 * k + j);
    }
  }

  /** One pass of the loop of __bitmap_shift_right: word k of the result, from words off + k and off + k + 1. */
  method RightShiftedWord(src: array<Word>, ghost s: seq<Word>, shift: nat, bits: nat, k: nat) returns (d: Word)
    requires BitsToLongs(bits) <= src.Length == |s| && shift / 64 + k < BitsToLongs(bits)
    requires src[shift / 64 + k] == s[shift / 64 + k]
    requires shift / 64 + k + 1 < BitsToLongs(bits) ==> src[shift / 64 + k + 1] == s[shift / 64 + k + 1]
    ensures d == RightSpec(s, bits, shift, k)
  {
    var lim := BitsToLongs(bits);
    var left := bits % 64;
    var off := shift / 64;
    var rem := shift % 64;
    ShlOne(left);
    var mask: Word := Shl(1, left) - 1;
    var upper: Word, lower: Word;
    if rem == 0 || off + k + 1 >= lim {
      upper := 0;
    } else {
      upper := src[off + k + 1];
      if off + k + 1 == lim - 1 && left != 0 {
        upper := And(upper, mask);
      }
      UsedWord(s[off + k + 1], off + k + 1, bits, lim, left, mask, upper);
    }
    lower := src[off + k];
    if left != 0 && off + k == lim - 1 {
      lower := And(lower, mask);
    }
    UsedWord(s[off + k], off + k, bits, lim, left, mask, lower);
    ShiftRightWord(s, bits, shift, lim, off, rem, k, upper, lower);
    var w := Or(Shl(upper, 64 - rem), Shr(lower, rem));
    d := w;
    if left != 0 && k == lim - 1 {
      d := And(d, mask);
    }
    RightMasked(w, s, bits, shift, lim, left, mask, k, d);
  }

  /**
   * __bitmap_shift_right: bit i of dst becomes bit i + shift of src, and
   * zero where that is at or past `bits`; words past the bitmap are kept.
   */
  method ShiftRight(dst: array<Word>, src: array<Word>, shift: nat, bits: nat)
    requires BitsToLongs(bits) <= dst.Length && BitsToLongs(bits) <= src.Length
    requires shift / 64 <= BitsToLongs(bits)
    modifies dst
    ensures forall i :: 0 <= i < 64 * BitsToLongs(bits) ==>
      TestBit(dst[..], i) == ShiftedRight(old(src[..]), bits, shift, i)
    ensures forall k :: BitsToLongs(bits) <= k < dst.Length ==> dst[k] == old(dst[k])
  {
    ghost var s := src[..];
    var lim := BitsToLongs(bits);
    var off := shift / 64;
    var k := 0;
    while off + k < lim
      invariant off + k <= lim
      invariant forall j :: off + k <= j < src.Length ==> src[j] == s[j]
      invariant forall j :: 0 <= j < k ==> dst[j] == RightSpec(s, bits, shift, j)
      invariant forall j :: k <= j < dst.Length ==> dst[j] == old(dst[j])
    {
      var d := RightShiftedWord(src, s, shift, bits, k);
      dst[k] := d;
      k := k + 1;
    }
    if off != 0 {
      ZeroWords(dst, lim - off, lim);
      forall j | lim - off <= j < lim
        ensures dst[j] == RightSpec(s, bits, shift, j)
      {
        RightZero(s, bits, shift, j);
      }
    }
    RightBits(dst[..], s, bits, shift, lim);
  }

  /** Word k of the left-shifted bitmap, before the final mask. */
  ghost predicate LeftWord(w: Word, s: seq<Word>, bits: nat, shift: nat, k: nat)
    requires bits <= 64 * |s|
  {
    forall j: nat {:trigger Bit(w, j)} :: j < 64 ==>
      Bit(w, j) == (shift <= 64 * k + j && 64 * k + j - shift < bits && TestBit(s, 64 * k + j - shift))
  }

  /** Word k of dst holds bits 64k..64k+63 of the left-shifted bitmap. */
  ghost predicate LeftDone(d: Word, s: seq<Word>, bits: nat, shift: nat, k: nat)
    requires bits <= 64 * |s|
  {
    forall j: nat {:trigger Bit(d, j)} :: j < 64 ==> Bit(d, j) == ShiftedLeft(s, bits, shift, 64 * k + j)
  }

  /** The word that holds bits 64k..64k+63 of the left-shifted bitmap. */
  ghost function LeftSpec(s: seq<Word>, bits: nat, shift: nat, k: nat): Word
    requires bits <= 64 * |s|
  {
    Pow2Words();
    PackBits(LeftPattern(s, bits, shift, k))
  }

  ghost function LeftPattern(s: seq<Word>, bits: nat, shift: nat, k: nat): (b: seq<bool>)
    requires bits <= 64 * |s|
    ensures |b| == 64
  {
    seq(64, j requires 0 <= j < 64 => ShiftedLeft(s, bits, shift, 64 * k + j))
  }

  lemma LeftSpecDone(s: seq<Word>, bits: nat, shift: nat, k: nat)
    requires bits <= 64 * |s|
    ensures LeftDone(LeftSpec(s, bits, shift, k), s, bits, shift, k)
  {
    forall j: nat | j < 64
      ensures Bit(LeftSpec(s, bits, shift, k), j) == ShiftedLeft(s, bits, shift, 64 * k + j)
    {
      PackBitsBit(LeftPattern(s, bits, shift, k), j);
    }
  }

  lemma LeftIsSpec(d: Word, s: seq<Word>, bits: nat, shift: nat, k: nat)
    requires bits <= 64 * |s| && LeftDone(d, s, bits, shift, k)
    ensures d == LeftSpec(s, bits, shift, k)
  {
    LeftSpecDone(s, bits, shift, k);
    WordExt(d, LeftSpec(s, bits, shift, k));
  }

  /**
   * `lower >> (64 - rem) | upper << rem`: the low bits of word k and the
   * top rem bits of word k - 1 make word k + off.
   */
  lemma ShiftLeftWord(s: seq<Word>, bits: nat, shift: nat, lim: nat, off: nat, rem: nat, k: nat,
                      upper: Word, lower: Word)
    requires lim == BitsToLongs(bits) <= |s| && off == shift / 64 && rem == shift % 64 && k + off < lim
    requires UsedPart(upper, s[k], 64 * k, bits)
    requires rem == 0 || k == 0 ==> lower == 0
    requires rem != 0 && k > 0 ==> lower == s[k - 1]
    ensures LeftWord(Or(Shr(lower, 64 - rem), Shl(upper, rem)), s, bits, shift, k + off)
  {
    var w := Or(Shr(lower, 64 - rem), Shl(upper, rem));
    forall j: nat | j < 64
      ensures Bit(w, j) == (shift <= 64 * (k + off) + j && 64 * (k + off) + j - shift < bits &&
                            TestBit(s, 64 * (k + off) + j - shift))
    {
      LeftSplice(upper, lower, rem, j);
      if rem <= j {
        LeftFromUpper(s, bits, shift, off, rem, k, upper, j);
      } else {
        LeftFromLower(s, bits, shift, lim, off, rem, k, lower, j);
      }
    }
  }

  /** Bit j of `lower >> (64 - rem) | upper << rem`. */
  lemma LeftSplice(upper: Word, lower: Word, rem: nat, j: nat)
    requires rem < 64 && j < 64
    ensures Bit(Or(Shr(lower, 64 - rem), Shl(upper, rem)), j) ==
      if rem <= j then Bit(upper, j - rem) else Bit(lower, j + 64 - rem)
  {
    OrBits(Shr(lower, 64 - rem), Shl(upper, rem));
    ShrBits(lower, 64 - rem);
    ShlBits(upper, rem);
    if rem <= j {
      assert !Bit(Shr(lower, 64 - rem), j) && Bit(Shl(upper, rem), j) == Bit(upper, j - rem);
    } else {
      assert !Bit(Shl(upper, rem), j) && Bit(Shr(lower, 64 - rem), j) == Bit(lower, j + 64 - rem);
    }
  }

  lemma LeftFromUpper(s: seq<Word>, bits: nat, shift: nat, off: nat, rem: nat, k: nat, upper: Word, j: nat)
    requires k < |s| && off == shift / 64 && rem == shift % 64 && rem <= j < 64
    requires UsedPart(upper, s[k], 64 * k, bits)
    ensures Bit(upper, j - rem) == (shift <= 64 * (k + off) + j && 64 * (k + off) + j - shift < bits &&
                                   TestBit(s, 64 * (k + off) + j - shift))
  {
    TestBitWord(s, k, j - rem);
  }

  lemma LeftFromLower(s: seq<Word>, bits: nat, shift: nat, lim: nat, off: nat, rem: nat, k: nat, lower: Word, j: nat)
    requires lim == BitsToLongs(bits) <= |s| && off == shift / 64 && rem == shift % 64 && k + off < lim
    requires j < rem
    requires k == 0 ==> lower == 0
    requires k > 0 ==> lower == s[k - 1]
    ensures Bit(lower, j + 64 - rem) == (shift <= 64 * (k + off) + j && 64 * (k + off) + j - shift < bits &&
                                        TestBit(s, 64 * (k + off) + j - shift))
  {
    if k > 0 {
      BitsToLongsOf(bits);
      TestBitWord(s, k - 1, j + 64 - rem);
    } else {
      ZeroBit(j + 64 - rem);
    }
  }

  /** The masked word k + off is finished. */
  lemma LeftMasked(w: Word, s: seq<Word>, bits: nat, shift: nat, lim: nat, left: nat, mask: Word, k: nat, d: Word)
    requires lim == BitsToLongs(bits) <= |s| && k < lim && left == bits % 64 && mask + 1 == Shl(1, left)
    requires LeftWord(w, s, bits, shift, k)
    requires d == (if left != 0 && k == lim - 1 then And(w, mask) else w)
    ensures d == LeftSpec(s, bits, shift, k)
  {
    UsedWord(w, k, bits, lim, left, mask, d);
    LeftIsSpec(d, s, bits, shift, k);
  }

  /** The words the memset clears lie below the shift. */
  lemma LeftZero(s: seq<Word>, bits: nat, shift: nat, k: nat)
    requires bits <= 64 * |s| && 64 * k + 64 <= shift
    ensures LeftSpec(s, bits, shift, k) == 0
  {
    forall j: nat | j < 64
      ensures !Bit(0, j)
    {
      ZeroBit(j);
    }
    LeftIsSpec(0, s, bits, shift, k);
  }

  lemma LeftBits(d: seq<Word>, s: seq<Word>, bits: nat, shift: nat, lim: nat)
    requires lim <= |d| && bits <= 64 * |s|
    requires forall k :: 0 <= k < lim ==> d[k] == LeftSpec(s, bits, shift, k)
    ensures forall i :: 0 <= i < 64 * lim ==> TestBit(d, i) == ShiftedLeft(s, bits, shift, i)
  {
    forall i | 0 <= i < 64 * lim
      ensures TestBit(d, i) == ShiftedLeft(s, bits, shift, i)
    {
      TestBitAt(d, i);
      var k, j := i / 64, i % 64;
      assert 64 * k + j == i;
      LeftSpecDone(s, bits, shift, k);
      assert Bit(d[k], j) == ShiftedLeft(s, bits, shift, 64 * k + j);
    }
  }

  /** One pass of the loop of __bitmap_shift_left: word k + off of the result, from words k and k - 1. */
  method LeftShiftedWord(src: array<Word>, ghost s: seq<Word>, shift: nat, bits: nat, k: nat) returns (d: Word)
    requires BitsToLongs(bits) <= src.Length == |s| && k + shift / 64 < BitsToLongs(bits)
    requires src[k] == s[k]
    requires k > 0 ==> src[k - 1] == s[k - 1]
    ensures d == LeftSpec(s, bits, shift, k + shift / 64)
  {
    var lim := BitsToLongs(bits);
    var left := bits % 64;
    var off := shift / 64;
    var rem := shift % 64;
    ShlOne(left);
    var mask: Word := Shl(1, left) - 1;
    var upper: Word, lower: Word;
    if rem != 0 && k > 0 {
      lower := src[k - 1];
    } else {
      lower := 0;
    }
    upper := src[k];
    if left != 0 && k == lim - 1 {
      upper := And(upper, mask);
    }
    UsedWord(s[k], k, bits, lim, left, mask, upper);
    ShiftLeftWord(s, bits, shift, lim, off, rem, k, upper, lower);
    var w := Or(Shr(lower, 64 - rem), Shl(upper, rem));
    d := w;
    if left != 0 && k + off == lim - 1 {
      d := And(d, mask);
    }
    LeftMasked(w, s, bits, shift, lim, left, mask, k + off, d);
  }

  /**
   * __bitmap_shift_left: bit i of dst becomes bit i - shift of src, and zero
   * below shift; bits moved past `bits` are lost and words past the bitmap
   * are kept.
   */
  method ShiftLeft(dst: array<Word>, src: array<Word>, shift: nat, bits: nat)
    requires BitsToLongs(bits) <= dst.Length && BitsToLongs(bits) <= src.Length
    requires shift / 64 <= BitsToLongs(bits)
    modifies dst
    ensures forall i :: 0 <= i < 64 * BitsToLongs(bits) ==>
      TestBit(dst[..], i) == ShiftedLeft(old(src[..]), bits, shift, i)
    ensures forall k :: BitsToLongs(bits) <= k < dst.Length ==> dst[k] == old(dst[k])
  {
    ghost var s := src[..];
    var lim := BitsToLongs(bits);
    var off := shift / 64;
    var k: int := lim - off - 1;
    while k >= 0
      invariant -1 <= k < lim - off
      invariant forall j :: 0 <= j < k + 1 + off ==> src[j] == s[j]
      invariant forall j :: k + 1 + off <= j < lim ==> dst[j] == LeftSpec(s, bits, shift, j)
      invariant forall j :: lim <= j < dst.Length ==> dst[j] == old(dst[j])
    {
      var d := LeftShiftedWord(src, s, shift, bits, k);
      dst[k + off] := d;
      k := k - 1;
    }
    if off != 0 {
      ZeroWords(dst, 0, off);
      forall j | 0 <= j < off
        ensures dst[j] == LeftSpec(s, bits, shift, j)
      {
        LeftZero(s, bits, shift, j);
      }
    }
    LeftBits(dst[..], s, bits, shift, lim);
  }
}
