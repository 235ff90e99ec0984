/**
 * Range updates of lib/bitmap.c: bitmap_set and bitmap_clear, which set or
 * clear the bits start..start+nr-1 a word at a time (a partial first word
 * under BITMAP_FIRST_WORD_MASK, whole words, then a partial last word under
 * BITMAP_LAST_WORD_MASK), and the region operations built on __reg_op.
 */
module BitmapRange {
  import opened Pow
  import opened Words
  import opened Bitmap

  /** Whether an update sets or clears the bits of its range. */
  datatype RangeOp = SetRange | ClearRange

  /** A bit b after the update, where inRange says whether the bit is in the range. */
  function Apply(op: RangeOp, b: bool, inRange: bool): bool
  {
    match op
    case SetRange => b || inRange
    case ClearRange => b && !inRange
  }

  /** `*p |= mask` or `*p &= ~mask`. */
  function Update(op: RangeOp, w: Word, mask: Word): Word
  {
    match op
    case SetRange => Or(w, mask)
    case ClearRange => And(w, Not(mask))
  }

  /** Bit j of the updated word is bit j of w, updated where the mask has it. */
  lemma UpdateBit(op: RangeOp, w: Word, mask: Word, j: nat)
    requires j < 64
    ensures Bit(Update(op, w, mask), j) == Apply(op, Bit(w, j), Bit(mask, j))
  {
    match op
    case SetRange =>
      OrBits(w, mask);
    case ClearRange =>
      AndBits(w, Not(mask));
      NotBits(mask);
  }

  /** The bits of word k that lie in the range start..start+nr-1. */
  ghost predicate MaskOf(mask: Word, k: nat, start: nat, nr: nat)
  {
    forall j: nat {:trigger Bit(mask, j)} :: j < 64 ==> Bit(mask, j) == (start <= 64 * k + j < start + nr)
  }

  ghost function RangePattern(op: RangeOp, s: seq<Word>, start: nat, nr: nat, k: nat): (b: seq<bool>)
    requires k < |s|
    ensures |b| == 64
  {
    seq(64, j requires 0 <= j < 64 => Apply(op, Bit(s[k], j), start <= 64 * k + j < start + nr))
  }

  /** Word k of s once the range start..start+nr-1 has been set or cleared. */
  ghost function RangeWord(op: RangeOp, s: seq<Word>, start: nat, nr: nat, k: nat): Word
    requires k < |s|
  {
    Pow2Words();
    PackBits(RangePattern(op, s, start, nr, k))
  }

  lemma RangeWordBit(op: RangeOp, s: seq<Word>, start: nat, nr: nat, k: nat, j: nat)
    requires k < |s| && j < 64
    ensures Bit(RangeWord(op, s, start, nr, k), j) == Apply(op, Bit(s[k], j), start <= 64 * k + j < start + nr)
  {
    PackBitsBit(RangePattern(op, s, start, nr, k), j);
  }

  /** Updating word k under the mask of its part of the range gives RangeWord. */
  lemma UpdateWord(op: RangeOp, s: seq<Word>, start: nat, nr: nat, k: nat, mask: Word)
    requires k < |s| && MaskOf(mask, k, start, nr)
    ensures Update(op, s[k], mask) == RangeWord(op, s, start, nr, k)
  {
    forall j: nat | j < 64
      ensures Bit(Update(op, s[k], mask), j) == Bit(RangeWord(op, s, start, nr, k), j)
    {
      UpdateBit(op, s[k], mask, j);
      RangeWordBit(op, s, start, nr, k, j);
    }
    WordExt(Update(op, s[k], mask), RangeWord(op, s, start, nr, k));
  }

  /** A word that has no bit in the range is left as it is. */
  lemma RangeWordOutside(op: RangeOp, s: seq<Word>, start: nat, nr: nat, k: nat)
    requires k < |s| && (nr == 0 || 64 * k + 64 <= start || start + nr <= 64 * k)
    ensures RangeWord(op, s, start, nr, k) == s[k]
  {
    forall j: nat | j < 64
      ensures Bit(RangeWord(op, s, start, nr, k), j) == Bit(s[k], j)
    {
      RangeWordBit(op, s, start, nr, k, j);
    }
    WordExt(RangeWord(op, s, start, nr, k), s[k]);
  }

  /** The words of s once the range start..start+nr-1 has been set or cleared. */
  ghost function RangeWords(op: RangeOp, s: seq<Word>, start: nat, nr: nat): (d: seq<Word>)
    ensures |d| == |s|
  {
    seq(|s|, k requires 0 <= k < |s| => RangeWord(op, s, start, nr, k))
  }

  /** The updated words give the bits of the updated bitmap. */
  lemma RangeBits(op: RangeOp, d: seq<Word>, s: seq<Word>, start: nat, nr: nat)
    requires d == RangeWords(op, s, start, nr)
    ensures forall i :: 0 <= i < 64 * |d| ==> TestBit(d, i) == Apply(op, TestBit(s, i), start <= i < start + nr)
  {
    forall i | 0 <= i < 64 * |d|
      ensures TestBit(d, i) == Apply(op, TestBit(s, i), start <= i < start + nr)
    {
      TestBitAt(d, i);
      TestBitAt(s, i);
      var k, j := i / 64, i % 64;
      assert 64 * k + j == i;
      RangeWordBit(op, s, start, nr, k, j);
    }
  }

  /** A mask with the bits from `lo` up. */
  ghost predicate HighFrom(mask: Word, lo: nat)
  {
    forall j: nat {:trigger Bit(mask, j)} :: j < 64 ==> Bit(mask, j) == (lo <= j)
  }

  /** BITMAP_FIRST_WORD_MASK(start) holds the bits from start % 64 up. */
  lemma FirstHigh(start: nat)
    ensures HighFrom(FirstWordMask(start), start % 64)
  {
    FirstWordMaskBits(start);
  }

  /** ~0UL holds every bit. */
  lemma OnesHigh()
    ensures HighFrom(Ones, 0)
  {
    OnesBits();
  }

  /** Inside the loop the whole rest of word p, from bit lo, lies in the range. */
  lemma WholeRest(mask: Word, p: nat, lo: nat, start: nat, nr: nat)
    requires HighFrom(mask, lo) && lo < 64
    requires 64 * p + lo == (if p == start / 64 then start else 64 * p) && start / 64 <= p
    requires 64 * p + 64 <= start + nr
    ensures MaskOf(mask, p, start, nr)
  {
    forall j: nat | j < 64
      ensures Bit(mask, j) == (start <= 64 * p + j < start + nr)
    {
      assert Bit(mask, j) == (lo <= j);
    }
  }

  /** After the loop the range ends inside word p, at size = start + nr. */
  lemma LastPart(mask: Word, p: nat, lo: nat, start: nat, nr: nat, m: Word)
    requires HighFrom(mask, lo) && lo < 64
    requires 64 * p + lo == (if p == start / 64 then start else 64 * p) && start / 64 <= p
    requires 64 * p + lo < start + nr < 64 * p + 64
    requires m == And(mask, LastWordMask(start + nr))
    ensures MaskOf(m, p, start, nr)
  {
    var size := start + nr;
    AndBits(mask, LastWordMask(size));
    var top := size - 64 * p;
    assert size % 64 == top;
    assert LastWordBits(size) == top;
    forall j: nat | j < 64
      ensures Bit(m, j) == (start <= 64 * p + j < size)
    {
      assert Bit(mask, j) == (lo <= j);
      assert Bit(LastWordMask(size), j) == (j < top);
    }
  }

  /** The words of s with words lo..hi-1 updated. */
  ghost function Partial(op: RangeOp, s: seq<Word>, start: nat, nr: nat, lo: nat, hi: nat): (d: seq<Word>)
    ensures |d| == |s|
  {
    seq(|s|, k requires 0 <= k < |s| => if lo <= k < hi then RangeWord(op, s, start, nr, k) else s[k])
  }

  /** Updating word p extends the updated words by one. */
  lemma PartialStep(op: RangeOp, s: seq<Word>, start: nat, nr: nat, lo: nat, p: nat)
    requires lo <= p < |s|
    ensures Partial(op, s, start, nr, lo, p)[p := RangeWord(op, s, start, nr, p)]
         == Partial(op, s, start, nr, lo, p + 1)
  {
  }

  /** Once the words past the range are reached, every word is its RangeWord. */
  lemma PartialDone(op: RangeOp, s: seq<Word>, start: nat, nr: nat, lo: nat, hi: nat)
    requires nr == 0 || (64 * lo <= start && start + nr <= 64 * hi)
    ensures Partial(op, s, start, nr, lo, hi) == RangeWords(op, s, start, nr)
  {
    forall k | 0 <= k < |s| && !(lo <= k < hi)
      ensures s[k] == RangeWord(op, s, start, nr, k)
    {
      RangeWordOutside(op, s, start, nr, k);
    }
  }

  /**
   * The loop shared by bitmap_set and bitmap_clear: every word becomes its
   * RangeWord. `left` is the C variable nr, the bits still to do; `todo` is
   * bits_to_set (bits_to_clear), the bits of the range in word p.
   */
  method UpdateRange(op: RangeOp, bitmap: array<Word>, start: nat, nr: nat)
    requires start + nr <= 64 * bitmap.Length
    modifies bitmap
    ensures bitmap[..] == RangeWords(op, old(bitmap[..]), start, nr)
  {
    ghost var s := bitmap[..];
    var p := start / 64;
    var size := start + nr;
    var left: int := nr;
    var todo := 64 - start % 64;
    var mask := FirstWordMask(start);
    FirstHigh(start);
    while left - todo >= 0
      invariant start / 64 <= p && 0 < todo <= 64 && 0 <= left
      invariant (p == start / 64 && 64 * p + 64 - todo == start) || (p > start / 64 && todo == 64)
      invariant 64 * p + 64 - todo + left == size
      invariant HighFrom(mask, 64 - todo)
      invariant bitmap[..] == Partial(op, s, start, nr, start / 64, p)
    {
      WholeRest(mask, p, 64 - todo, start, nr);
      UpdateWord(op, s, start, nr, p, mask);
      PartialStep(op, s, start, nr, start / 64, p);
      bitmap[p] := Update(op, bitmap[p], mask);
      left := left - todo;
      todo := 64;
      mask := Ones;
      OnesHigh();
      p := p + 1;
    }
    if left != 0 {
      var m := And(mask, LastWordMask(size));
      LastPart(mask, p, 64 - todo, start, nr, m);
      UpdateWord(op, s, start, nr, p, m);
      PartialStep(op, s, start, nr, start / 64, p);
      bitmap[p] := Update(op, bitmap[p], m);
      p := p + 1;
    }
    PartialDone(op, s, start, nr, start / 64, p);
  }

  /** bitmap_set: the bits start..start+nr-1 become set and no other bit changes. */
  method BitmapSet(bitmap: array<Word>, start: nat, nr: nat)
    requires start + nr <= 64 * bitmap.Length
    modifies bitmap
    ensures forall i :: 0 <= i < 64 * bitmap.Length ==>
      TestBit(bitmap[..], i) == (TestBit(old(bitmap[..]), i) || start <= i < start + nr)
  {
    ghost var s := bitmap[..];
    UpdateRange(SetRange, bitmap, start, nr);
    RangeBits(SetRange, bitmap[..], s, start, nr);
  }

  /** bitmap_clear: the bits start..start+nr-1 become clear and no other bit changes. */
  method BitmapClear(bitmap: array<Word>, start: nat, nr: nat)
    requires start + nr <= 64 * bitmap.Length
    modifies bitmap
    ensures forall i :: 0 <= i < 64 * bitmap.Length ==>
      TestBit(bitmap[..], i) == (TestBit(old(bitmap[..]), i) && !(start <= i < start + nr))
  {
    ghost var s := bitmap[..];
    UpdateRange(ClearRange, bitmap, start, nr);
    RangeBits(ClearRange, bitmap[..], s, start, nr);
  }

  // Regions: 2^order bits at pos, aligned to 2^order (__reg_op and its users).

  /** errno values the region functions return negated. */
  const ENOMEM: int := 12
  const EBUSY: int := 16

  /** The three operations of __reg_op. */
  datatype RegOpKind = IsFree | Alloc | Release

  /** A region of fewer than 64 bits, aligned to its size, lies inside one word. */
  lemma AlignedInWord(pos: nat, order: nat)
    requires order < 6 && pos % Pow2(order) == 0
    ensures pos % 64 + Pow2(order) <= 64
  {
    var n := Pow2(order);
    if order == 5 {
      assert Pow2(5) == 32;
      InWord(pos, 32);
    } else if order == 4 {
      assert Pow2(4) == 16;
      InWord(pos, 16);
    } else if order == 3 {
      assert Pow2(3) == 8;
      InWord(pos, 8);
    } else if order == 2 {
      assert Pow2(2) == 4;
      InWord(pos, 4);
    } else if order == 1 {
      assert Pow2(1) == 2;
      InWord(pos, 2);
    } else {
      assert Pow2(0) == 1;
    }
  }

  lemma InWord(pos: nat, n: nat)
    requires n == 2 || n == 4 || n == 8 || n == 16 || n == 32
    requires pos % n == 0
    ensures pos % 64 + n <= 64
  {
    var q := pos / 64;
    if n == 32 {
      EndsInWord(pos, q, 2 * q + 1, 32);
    } else if n == 16 {
      EndsInWord(pos, q, 4 * q + 3, 16);
    } else if n == 8 {
      EndsInWord(pos, q, 8 * q + 7, 8);
    } else if n == 4 {
      EndsInWord(pos, q, 16 * q + 15, 4);
    } else {
      EndsInWord(pos, q, 32 * q + 31, 2);
    }
  }

  /** The last multiple of n in word q starts at c * n, so no aligned pos in that word runs past it. */
  lemma EndsInWord(pos: nat, q: nat, c: nat, n: nat)
    requires 1 <= n <= 64 && pos % n == 0 && q == pos / 64 && c * n == 64 * q + 64 - n
    ensures pos % 64 + n <= 64
  {
    if pos % 64 + n > 64 {
      MulMod(c, n);
      AlignedBetween(pos, c * n, n);
    }
  }

  /** A region of 64 bits or more, aligned to its size, is whole words. */
  lemma AlignedWords(pos: nat, order: nat)
    requires 6 <= order && pos % Pow2(order) == 0
    ensures pos % 64 == 0 && Pow2(order) == 64 * Pow2(order - 6) && BitsToLongs(Pow2(order)) == Pow2(order - 6)
  {
    Pow2Facts();
    Pow2Add(6, order - 6);
    var n, w := Pow2(order), Pow2(order - 6);
    var c := pos / n;
    DivModUnique(pos, c, 0, n);
    assert pos == (c * w) * 64;
    MulMod(c * w, 64);
    DivModUnique(n + 63, w, 63, 64);
  }

  /** `(1UL << (n - 1)) + ((1UL << (n - 1)) - 1) << offset` holds bits offset..offset+n-1. */
  lemma MaskBits(nb: nat, offset: nat, low: nat, mask: Word)
    requires 1 <= nb <= 64 && offset + nb <= 64
    requires low == Pow2(nb) - 1 && low < TWO64 && mask == Shl(low, offset)
    ensures forall j: nat :: j < 64 ==> Bit(mask, j) == (offset <= j < offset + nb)
  {
    ShlBits(low, offset);
    forall j: nat | j < 64
      ensures Bit(mask, j) == (offset <= j < offset + nb)
    {
      if offset <= j {
        LowOnesBit(nb, j - offset);
      }
    }
  }

  /** The mask covers the region's part of each word it spans. */
  lemma RegionWords(pos: nat, n: nat, index: nat, offset: nat, nb: nat, nlongs: nat, mask: Word)
    requires pos == 64 * index + offset && offset + nb <= 64
    requires forall j: nat :: j < 64 ==> Bit(mask, j) == (offset <= j < offset + nb)
    requires (nlongs == 1 && nb == n) || (offset == 0 && nb == 64 && n == 64 * nlongs)
    ensures forall k :: index <= k < index + nlongs ==> MaskOf(mask, k, pos, n)
  {
    forall k | index <= k < index + nlongs
      ensures MaskOf(mask, k, pos, n)
    {
      forall j: nat | j < 64
        ensures Bit(mask, j) == (pos <= 64 * k + j < pos + n)
      {
      }
    }
  }

  /** Either the region is inside word index, or it is nlongs whole words from there. */
  lemma RegionShape(pos: nat, order: nat, index: nat, offset: nat, nb: nat, nlongs: nat)
    requires pos % Pow2(order) == 0 && index == pos / 64 && offset == pos - index * 64
    requires nlongs == BitsToLongs(Pow2(order)) && nb == (if Pow2(order) < 64 then Pow2(order) else 64)
    ensures 1 <= nb <= 64 && offset + nb <= 64
    ensures (nlongs == 1 && nb == Pow2(order)) || (offset == 0 && nb == 64 && Pow2(order) == 64 * nlongs)
  {
    assert Pow2(6) == 64;
    if order < 6 {
      AlignedInWord(pos, order);
      Pow2Monotone(order, 5);
      assert Pow2(5) == 32;
    } else {
      AlignedWords(pos, order);
      Pow2Monotone(6, order);
    }
  }

  /** `1UL << (n - 1)`, doubled less one, is 2^n - 1 and fits a word even for n = 64. */
  lemma HalfMask(nb: nat)
    requires 1 <= nb <= 64
    ensures Shl(1, nb - 1) == Pow2(nb - 1) && 2 * Pow2(nb - 1) - 1 == Pow2(nb) - 1 < TWO64
  {
    ShlOne(nb - 1);
    Pow2Monotone(nb, 64);
    Pow2Words();
  }

  /**
   * The set-up of __reg_op: index, the first word of the region; nlongs, the
   * words it spans; and mask, its bits in each of them. A region of fewer
   * than 64 bits lies in one word; a larger one is whole words.
   */
  method RegionMask(pos: nat, order: nat) returns (index: nat, nlongs: nat, mask: Word)
    requires order < 31 && pos % Pow2(order) == 0
    ensures 64 * index <= pos && pos + Pow2(order) <= 64 * (index + nlongs) < pos + Pow2(order) + 64
    ensures forall k :: index <= k < index + nlongs ==> MaskOf(mask, k, pos, Pow2(order))
  {
    var nbitsReg := Pow2(order);
    index := pos / 64;
    var offset := pos - index * 64;
    nlongs := BitsToLongs(nbitsReg);
    var nbitsInLong := if nbitsReg < 64 then nbitsReg else 64;
    RegionShape(pos, order, index, offset, nbitsInLong, nlongs);
    HalfMask(nbitsInLong);
    mask := Shl(1, nbitsInLong - 1);
    mask := mask + (mask - 1);
    ghost var low := mask;
    mask := Shl(mask, offset);
    MaskBits(nbitsInLong, offset, low, mask);
    RegionWords(pos, nbitsReg, index, offset, nbitsInLong, nlongs, mask);
  }

  /** A word with a bit of the region under the mask: the region is not free. */
  lemma MaskedSet(m: seq<Word>, k: nat, mask: Word, pos: nat, n: nat)
    requires k < |m| && pos + n <= 64 * |m| && MaskOf(mask, k, pos, n) && And(m[k], mask) != 0
    ensures !AllClear(m, pos, pos + n)
  {
    ZeroWord(And(m[k], mask));
    var j: nat :| j < 64 && Bit(And(m[k], mask), j);
    AndBits(m[k], mask);
    TestBitWord(m, k, j);
  }

  /** Every word clear under the mask: the region is free. */
  lemma MaskedClear(m: seq<Word>, index: nat, nlongs: nat, mask: Word, pos: nat, n: nat)
    requires index + nlongs <= |m| && 64 * index <= pos && pos + n <= 64 * (index + nlongs)
    requires forall k :: index <= k < index + nlongs ==> MaskOf(mask, k, pos, n)
    requires forall k :: index <= k < index + nlongs ==> And(m[k], mask) == 0
    ensures AllClear(m, pos, pos + n)
  {
    forall i | pos <= i < pos + n
      ensures !TestBit(m, i)
    {
      TestBitAt(m, i);
      var k, j := i / 64, i % 64;
      assert 64 * k + j == i;
      assert index <= k < index + nlongs;
      assert MaskOf(mask, k, pos, n);
      assert Bit(mask, j);
      ZeroBit(j);
      AndBits(m[k], mask);
    }
  }

  /** The REG_OP_ISFREE loop: whether no bit of the region is set. */
  method RegionFree(bitmap: array<Word>, index: nat, nlongs: nat, mask: Word, ghost pos: nat, ghost n: nat)
    returns (free: bool)
    requires index + nlongs <= bitmap.Length && 64 * index <= pos && pos + n <= 64 * (index + nlongs)
    requires forall k :: index <= k < index + nlongs ==> MaskOf(mask, k, pos, n)
    ensures free == AllClear(bitmap[..], pos, pos + n)
  {
    var i := 0;
    while i < nlongs
      invariant 0 <= i <= nlongs
      invariant forall k :: index <= k < index + i ==> And(bitmap[k], mask) == 0
    {
      if And(bitmap[index + i], mask) != 0 {
        MaskedSet(bitmap[..], index + i, mask, pos, n);
        return false;
      }
      i := i + 1;
    }
    MaskedClear(bitmap[..], index, nlongs, mask, pos, n);
    return true;
  }

  /** The REG_OP_ALLOC and REG_OP_RELEASE loops: the region is set or cleared. */
  method RegionUpdate(op: RangeOp, bitmap: array<Word>, index: nat, nlongs: nat, mask: Word,
                      ghost pos: nat, ghost n: nat)
    requires index + nlongs <= bitmap.Length && 64 * index <= pos && pos + n <= 64 * (index + nlongs)
    requires forall k :: index <= k < index + nlongs ==> MaskOf(mask, k, pos, n)
    modifies bitmap
    ensures bitmap[..] == RangeWords(op, old(bitmap[..]), pos, n)
  {
    ghost var s := bitmap[..];
    for i := 0 to nlongs
      invariant bitmap[..] == Partial(op, s, pos, n, index, index + i)
    {
      UpdateWord(op, s, pos, n, index + i, mask);
      PartialStep(op, s, pos, n, index, index + i);
      bitmap[index + i] := Update(op, bitmap[index + i], mask);
    }
    PartialDone(op, s, pos, n, index, index + nlongs);
  }

  /**
   * __reg_op on the region of 2^order bits at pos: REG_OP_ISFREE returns 1
   * when no bit of it is set and 0 otherwise, REG_OP_ALLOC sets it and
   * REG_OP_RELEASE clears it.
   */
  method RegOp(bitmap: array<Word>, pos: nat, order: nat, op: RegOpKind) returns (ret: int)
    requires order < 31 && pos % Pow2(order) == 0 && pos + Pow2(order) <= 64 * bitmap.Length
    modifies bitmap
    ensures op == IsFree ==>
      bitmap[..] == old(bitmap[..]) && ret == (if AllClear(old(bitmap[..]), pos, pos + Pow2(order)) then 1 else 0)
    ensures op == Alloc ==> bitmap[..] == RangeWords(SetRange, old(bitmap[..]), pos, Pow2(order)) && ret == 0
    ensures op == Release ==> bitmap[..] == RangeWords(ClearRange, old(bitmap[..]), pos, Pow2(order)) && ret == 0
  {
    var index, nlongs, mask := RegionMask(pos, order);
    ret := 0;
    match op
    case IsFree =>
      var free := RegionFree(bitmap, index, nlongs, mask, pos, Pow2(order));
      if free {
        ret := 1;
      }
    case Alloc =>
      RegionUpdate(SetRange, bitmap, index, nlongs, mask, pos, Pow2(order));
    case Release =>
      RegionUpdate(ClearRange, bitmap, index, nlongs, mask, pos, Pow2(order));
  }

  /** The aligned region of n bits at q lies in the bitmap and has a set bit. */
  ghost predicate Taken(m: seq<Word>, q: nat, n: nat)
  {
    q + n <= 64 * |m| && !AllClear(m, q, q + n)
  }

  /**
   * bitmap_find_free_region: the first region of 2^order bits, aligned to its
   * size and within the first bits bits, that is free is allocated and its
   * position returned; when there is none, -ENOMEM and the bitmap unchanged.
   */
  method FindFreeRegion(bitmap: array<Word>, bits: int, order: nat) returns (r: int)
    requires order < 31 && bits <= 64 * bitmap.Length
    modifies bitmap
    ensures r >= 0 ==> r % Pow2(order) == 0 && r + Pow2(order) <= bits
    ensures r >= 0 ==> AllClear(old(bitmap[..]), r, r + Pow2(order))
    ensures r >= 0 ==> forall q: nat :: q < r && q % Pow2(order) == 0 ==> Taken(old(bitmap[..]), q, Pow2(order))
    ensures r >= 0 ==> bitmap[..] == RangeWords(SetRange, old(bitmap[..]), r, Pow2(order))
    ensures r < 0 ==> r == -ENOMEM && bitmap[..] == old(bitmap[..])
    ensures r < 0 ==> forall q: nat :: q + Pow2(order) <= bits && q % Pow2(order) == 0 ==> Taken(old(bitmap[..]), q, Pow2(order))
  {
    ghost var s := bitmap[..];
    var n := Pow2(order);
    var pos: nat := 0;
    ghost var c: nat := 0;
    while pos + n <= bits
      invariant pos == c * n
      invariant bitmap[..] == s
      invariant forall q: nat :: q < pos && q % n == 0 ==> Taken(s, q, n)
      decreases bits - pos
    {
      MulMod(c, n);
      var free := RegOp(bitmap, pos, order, IsFree);
      if free != 0 {
        var _ := RegOp(bitmap, pos, order, Alloc);
        return pos;
      }
      forall q: nat | q < pos + n && q % n == 0
        ensures Taken(s, q, n)
      {
        if pos <= q {
          AlignedBetween(q, pos, n);
        }
      }
      Distrib(c, 1, n);
      pos, c := pos + n, c + 1;
    }
    return -ENOMEM;
  }

  /** bitmap_release_region: the region of 2^order bits at pos is cleared. */
  method ReleaseRegion(bitmap: array<Word>, pos: nat, order: nat)
    requires order < 31 && pos % Pow2(order) == 0 && pos + Pow2(order) <= 64 * bitmap.Length
    modifies bitmap
    ensures bitmap[..] == RangeWords(ClearRange, old(bitmap[..]), pos, Pow2(order))
  {
    var _ := RegOp(bitmap, pos, order, Release);
  }

  /**
   * bitmap_allocate_region: a free region of 2^order bits at pos is set and
   * 0 returned; a region with a set bit gives -EBUSY and the bitmap unchanged.
   */
  method AllocateRegion(bitmap: array<Word>, pos: nat, order: nat) returns (r: int)
    requires order < 31 && pos % Pow2(order) == 0 && pos + Pow2(order) <= 64 * bitmap.Length
    modifies bitmap
    ensures r == 0 <==> AllClear(old(bitmap[..]), pos, pos + Pow2(order))
    ensures r != 0 ==> r == -EBUSY && bitmap[..] == old(bitmap[..])
    ensures r == 0 ==> bitmap[..] == RangeWords(SetRange, old(bitmap[..]), pos, Pow2(order))
  {
    var free := RegOp(bitmap, pos, order, IsFree);
    if free == 0 {
      return -EBUSY;
    }
    var _ := RegOp(bitmap, pos, order, Alloc);
    return 0;
  }
}

