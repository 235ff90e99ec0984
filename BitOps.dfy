/**
 * Bit searches over a bitmap (lib/bitops.c). Each search walks the words of
 * the bitmap, skipping whole words that cannot hold the bit it looks for, and
 * finishes inside one word with `__ffs`, `ffz` or `fls`. The bitmap is only
 * read.
 */
module BitOps {
  import opened Words

  /**
   * The first bit at or above `from` and below `size` whose value is `want`,
   * or `size` when there is none. This is what the forward searches return.
   */
  ghost function NextWith(m: seq<Word>, from: nat, size: nat, want: bool): (r: nat)
    requires size <= 64 * |m|
    ensures r <= size
    decreases size - from
  {
    if from >= size then size
    else if TestBit(m, from) == want then from
    else NextWith(m, from + 1, size, want)
  }

  /** NextWith is the first bit equal to `want` in [from, size), or size. */
  lemma {:induction false} NextWithSpec(m: seq<Word>, from: nat, size: nat, want: bool)
    requires size <= 64 * |m|
    ensures var r := NextWith(m, from, size, want);
      (from >= size ==> r == size) &&
      (from < size ==> from <= r <= size) &&
      (forall i :: from <= i < r ==> TestBit(m, i) != want) &&
      (r < size ==> TestBit(m, r) == want)
    decreases size - from
  {
    if from < size && TestBit(m, from) != want {
      NextWithSpec(m, from + 1, size, want);
    }
  }

  /** Bits in [lo, mid) that all differ from `want` can be skipped. */
  lemma {:induction false} NextWithSkip(m: seq<Word>, lo: nat, mid: nat, size: nat, want: bool)
    requires size <= 64 * |m| && lo <= mid <= size
    requires forall i :: lo <= i < mid ==> TestBit(m, i) != want
    ensures NextWith(m, lo, size, want) == NextWith(m, mid, size, want)
    decreases mid - lo
  {
    if lo < mid {
      NextWithSkip(m, lo + 1, mid, size, want);
    }
  }

  /**
   * The last set bit below `hi`, or `size` when there is none. This is what
   * find_last_bit is documented to return, with hi = size.
   */
  ghost function LastSet(m: seq<Word>, hi: nat, size: nat): nat
    requires hi <= size <= 64 * |m|
  {
    if hi == 0 then size
    else if TestBit(m, hi - 1) then hi - 1
    else LastSet(m, hi - 1, size)
  }

  /** LastSet is the highest set bit below hi, or size when none is set. */
  lemma {:induction false} LastSetSpec(m: seq<Word>, hi: nat, size: nat)
    requires hi <= size <= 64 * |m|
    ensures var r := LastSet(m, hi, size);
      (r == size && forall i :: 0 <= i < hi ==> !TestBit(m, i)) ||
      (r < hi && TestBit(m, r) && forall i :: r < i < hi ==> !TestBit(m, i))
  {
    if hi > 0 && !TestBit(m, hi - 1) {
      LastSetSpec(m, hi - 1, size);
    }
  }

  /** Clear bits in [mid, hi) can be skipped by the backward search. */
  lemma {:induction false} LastSetSkip(m: seq<Word>, mid: nat, hi: nat, size: nat)
    requires mid <= hi <= size <= 64 * |m|
    requires forall i :: mid <= i < hi ==> !TestBit(m, i)
    ensures LastSet(m, hi, size) == LastSet(m, mid, size)
  {
    if mid < hi {
      LastSetSkip(m, mid, hi - 1, size);
    }
  }

  /**
   * The word `w`, made from the word `v` at bit base of the bitmap, has bit j
   * equal to `want` exactly where base + j lies in [lo, hi) and bit j of v
   * equals `want`: searching w for `want` searches that part of the bitmap.
   */
  ghost predicate Window(w: Word, v: Word, base: nat, lo: nat, hi: nat, want: bool)
  {
    forall j: nat {:trigger Bit(w, j)} :: j < 64 ==>
      (Bit(w, j) == want <==> (lo <= base + j < hi && Bit(v, j) == want))
  }

  /** The word a search for `want` skips: 0 for set bits, ~0UL for clear ones. */
  function Blank(want: bool): Word
  {
    if want then Zero else Ones
  }

  /** The lowest bit of w equal to `want`: __ffs for set bits, ffz for clear ones. */
  function FirstIn(w: Word, want: bool): (r: nat)
    requires w != Blank(want)
    ensures r < 64 && Bit(w, r) == want
    ensures forall i :: 0 <= i < r ==> Bit(w, i) != want
  {
    if want then Ffs(w) else Ffz(w)
  }

  /**
   * What a window onto word k tells a forward search: the blank word means
   * nothing wanted in [lo, hi), any other word puts the first wanted bit at
   * its lowest bit equal to `want`.
   */
  lemma WindowResult(w: Word, m: seq<Word>, k: nat, base: nat, lo: nat, hi: nat, size: nat, want: bool)
    requires k < |m| && base == 64 * k && size <= 64 * |m|
    requires base <= lo <= hi <= size && hi <= base + 64
    requires Window(w, m[k], base, lo, hi, want)
    ensures w == Blank(want) ==> NextWith(m, lo, size, want) == NextWith(m, hi, size, want)
    ensures w != Blank(want) ==> NextWith(m, lo, size, want) == base + FirstIn(w, want)
  {
    if w == Blank(want) {
      WindowEmpty(w, m, k, base, lo, hi, size, want);
    } else {
      WindowFound(w, m, k, base, lo, hi, size, want);
    }
  }

  /** The blank case of WindowResult. */
  lemma WindowEmpty(w: Word, m: seq<Word>, k: nat, base: nat, lo: nat, hi: nat, size: nat, want: bool)
    requires k < |m| && base == 64 * k && size <= 64 * |m|
    requires base <= lo <= hi <= size && hi <= base + 64
    requires Window(w, m[k], base, lo, hi, want) && w == Blank(want)
    ensures NextWith(m, lo, size, want) == NextWith(m, hi, size, want)
  {
    if want {
      ZeroWord(w);
    } else {
      OnesBits();
    }
    forall i | lo <= i < hi
      ensures TestBit(m, i) != want
    {
      var j: nat := i - base;
      TestBitWord(m, k, j);
      assert Bit(w, j) != want;
    }
    NextWithSkip(m, lo, hi, size, want);
  }

  /** The case of WindowResult where w holds a wanted bit. */
  lemma WindowFound(w: Word, m: seq<Word>, k: nat, base: nat, lo: nat, hi: nat, size: nat, want: bool)
    requires k < |m| && base == 64 * k && size <= 64 * |m|
    requires base <= lo <= hi <= size && hi <= base + 64
    requires Window(w, m[k], base, lo, hi, want) && w != Blank(want)
    ensures NextWith(m, lo, size, want) == base + FirstIn(w, want)
  {
    var f := FirstIn(w, want);
    forall i | lo <= i < base + f
      ensures TestBit(m, i) != want
    {
      var j: nat := i - base;
      TestBitWord(m, k, j);
      assert Bit(w, j) != want;
    }
    TestBitWord(m, k, f);
    NextWithSkip(m, lo, base + f, size, want);
  }

  /** A whole word w of the bitmap, searched for a bit equal to `want`. */
  lemma WholeWord(m: seq<Word>, k: nat, w: Word, base: nat, next: nat, size: nat, want: bool)
    requires k < |m| && base == 64 * k && next == base + 64 && next <= size <= 64 * |m| && w == m[k]
    ensures w == Blank(want) ==> NextWith(m, base, size, want) == NextWith(m, next, size, want)
    ensures w != Blank(want) ==> NextWith(m, base, size, want) == base + FirstIn(w, want)
  {
    assert Window(w, m[k], base, base, next, want);
    WindowResult(w, m, k, base, base, next, size, want);
  }

  /** The words of a bitmap of `size` bits, BITS_TO_LONGS(size) of them, hold it. */
  lemma WordsHold(size: nat, words: nat)
    requires BitsToLongs(size) <= words
    ensures size <= 64 * words
  {
  }

  /** The word holding a partial tail of sz < 64 bits lies inside the bitmap. */
  lemma LastWord(p: nat, sz: nat, size: nat, words: nat)
    requires 64 * p + sz == size && 0 < sz < 64
    requires BitsToLongs(size) <= words
    ensures p < words
  {
    assert BitsToLongs(size) == p + 1;
  }

  // find_next_bit and find_first_bit

  /** `*p & (~0UL << off)`: the word v with the bits below off dropped. */
  lemma SetFirstWindow(v: Word, base: nat, off: nat, lo: nat, hi: nat)
    requires off < 64 && lo == base + off && base + 64 <= hi
    ensures Window(And(v, Shl(Ones, off)), v, base, lo, hi, true)
  {
    AndBits(v, Shl(Ones, off));
    ShlBits(Ones, off);
    OnesBits();
  }

  /** The first, masked, word w of find_next_bit when it is not the last word. */
  lemma SetFirstWord(m: seq<Word>, k: nat, w: Word, base: nat, off: nat, lo: nat, next: nat, size: nat)
    requires k < |m| && base == 64 * k && off < 64 && lo == base + off && next == base + 64
    requires next <= size <= 64 * |m| && w == And(m[k], Shl(Ones, off))
    ensures w == 0 ==> NextWith(m, lo, size, true) == NextWith(m, next, size, true)
    ensures w != 0 ==> NextWith(m, lo, size, true) == base + Ffs(w)
  {
    SetFirstWindow(m[k], base, off, lo, next);
    WindowResult(w, m, k, base, lo, next, size, true);
  }

  /** `tmp & (~0UL >> (BITS_PER_LONG - sz))`: the bits at and above sz are dropped. */
  lemma SetTailWindow(w: Word, v: Word, base: nat, lo: nat, sz: nat, size: nat)
    requires 0 < sz < 64 && size == base + sz
    requires Window(w, v, base, lo, base + 64, true)
    ensures Window(And(w, Shr(Ones, 64 - sz)), v, base, lo, size, true)
  {
    AndBits(w, Shr(Ones, 64 - sz));
    ShrBits(Ones, 64 - sz);
    OnesBits();
  }

  /**
   * found_first and found_middle of find_next_bit, which find_first_bit
   * repeats: `tmp` is the last word of the bitmap, whose sz low bits are bits
   * result.. of the bitmap; it is cut at the end of the bitmap and searched.
   */
  function FoundFirst(tmp: Word, result: nat, sz: nat): nat
    requires 0 < sz < 64
  {
    var t := And(tmp, Shr(Ones, 64 - sz));
    if t == 0 then result + sz else result + Ffs(t)
  }

  /**
   * found_first searches the rest of the bitmap: w0 is its last word, masked
   * below `skip` when the search started inside it.
   */
  lemma SetTailWord(m: seq<Word>, k: nat, base: nat, skip: nat, lo: nat, sz: nat, size: nat, w0: Word)
    requires k < |m| && base == 64 * k && skip < sz < 64 && lo == base + skip && size == base + sz
    requires w0 == if skip == 0 then m[k] else And(m[k], Shl(Ones, skip))
    ensures FoundFirst(w0, base, sz) == NextWith(m, lo, size, true)
  {
    if skip != 0 {
      SetFirstWindow(m[k], base, skip, lo, base + 64);
    }
    SetTailWindow(w0, m[k], base, lo, sz, size);
    WindowResult(And(w0, Shr(Ones, 64 - sz)), m, k, base, lo, size, size, true);
  }

  // find_next_zero_bit and find_first_zero_bit: the same walk looking for a
  // clear bit; the masks set the bits the search must skip.

  /** `*p | (~0UL >> (BITS_PER_LONG - off))`: the word v with the bits below off set. */
  lemma ClearFirstWindow(v: Word, base: nat, off: nat, lo: nat, hi: nat)
    requires 0 < off < 64 && lo == base + off && base + 64 <= hi
    ensures Window(Or(v, Shr(Ones, 64 - off)), v, base, lo, hi, false)
  {
    OrBits(v, Shr(Ones, 64 - off));
    ShrBits(Ones, 64 - off);
    OnesBits();
  }

  /** The first, masked, word w of find_next_zero_bit when it is not the last word. */
  lemma ClearFirstWord(m: seq<Word>, k: nat, w: Word, base: nat, off: nat, lo: nat, next: nat, size: nat)
    requires k < |m| && base == 64 * k && 0 < off < 64 && lo == base + off && next == base + 64
    requires next <= size <= 64 * |m| && w == Or(m[k], Shr(Ones, 64 - off))
    ensures w == Ones ==> NextWith(m, lo, size, false) == NextWith(m, next, size, false)
    ensures w != Ones ==> NextWith(m, lo, size, false) == base + Ffz(w)
  {
    ClearFirstWindow(m[k], base, off, lo, next);
    WindowResult(w, m, k, base, lo, next, size, false);
  }

  /** `tmp | (~0UL << sz)`: the bits at and above sz are set. */
  lemma ClearTailWindow(w: Word, v: Word, base: nat, lo: nat, sz: nat, size: nat)
    requires 0 < sz < 64 && size == base + sz
    requires Window(w, v, base, lo, base + 64, false)
    ensures Window(Or(w, Shl(Ones, sz)), v, base, lo, size, false)
  {
    OrBits(w, Shl(Ones, sz));
    ShlBits(Ones, sz);
    OnesBits();
  }

  /**
   * found_first and found_middle of find_next_zero_bit, which
   * find_first_zero_bit repeats: the last word, its bits at and above sz set,
   * searched for a clear bit.
   */
  function FoundFirstZero(tmp: Word, result: nat, sz: nat): nat
    requires 0 < sz < 64
  {
    var t := Or(tmp, Shl(Ones, sz));
    if t == Ones then result + sz else result + Ffz(t)
  }

  /** found_first of the zero searches: w0 is the last word, masked below `skip`. */
  lemma ClearTailWord(m: seq<Word>, k: nat, base: nat, skip: nat, lo: nat, sz: nat, size: nat, w0: Word)
    requires k < |m| && base == 64 * k && skip < sz < 64 && lo == base + skip && size == base + sz
    requires w0 == if skip == 0 then m[k] else Or(m[k], Shr(Ones, 64 - skip))
    ensures FoundFirstZero(w0, base, sz) == NextWith(m, lo, size, false)
  {
    if skip != 0 {
      ClearFirstWindow(m[k], base, skip, lo, base + 64);
    }
    ClearTailWindow(w0, m[k], base, lo, sz, size);
    WindowResult(Or(w0, Shl(Ones, sz)), m, k, base, lo, size, size, false);
  }

  /**
   * The word loop and the tail shared by the forward searches: from the word
   * boundary `result` = 64p, whole words are examined (`tmp` for set bits,
   * `~tmp` for clear ones) until one holds a wanted bit or fewer than 64 bits
   * remain; those are searched at found_first.
   */
  method ScanWords(addr: array<Word>, size: nat, p0: nat, result0: nat, want: bool) returns (r: nat)
    requires BitsToLongs(size) <= addr.Length && result0 == 64 * p0 && result0 <= size
    ensures size <= 64 * addr.Length
    ensures r == NextWith(addr[..], result0, size, want)
  {
    ghost var m := addr[..];
    WordsHold(size, |m|);
    var p, result := p0, result0;
    var sz: nat := size - result;
    while sz >= 64
      invariant result == 64 * p && result + sz == size
      invariant NextWith(m, result0, size, want) == NextWith(m, result, size, want)
      decreases sz
    {
      var tmp := addr[p];
      ghost var next := result + 64;
      WholeWord(m, p, tmp, result, next, size, want);
      p := p + 1;
      if tmp != Blank(want) {
        // goto found_middle
        return result + FirstIn(tmp, want);
      }
      result := result + 64;
      sz := sz - 64;
    }
    if sz == 0 {
      return result;
    }
    LastWord(p, sz, size, |m|);
    var tmp := addr[p];
    if want {
      SetTailWord(m, p, result, 0, result, sz, size, tmp);
      r := FoundFirst(tmp, result, sz);
    } else {
      ClearTailWord(m, p, result, 0, result, sz, size, tmp);
      r := FoundFirstZero(tmp, result, sz);
    }
  }

  /** find_next_bit: the first set bit at or above `offset` and below `size`, or `size` when there is none. */
  method FindNextBit(addr: array<Word>, size: nat, offset: nat) returns (r: nat)
    requires BitsToLongs(size) <= addr.Length
    ensures size <= 64 * addr.Length
    ensures r == NextWith(addr[..], offset, size, true)
  {
    ghost var m := addr[..];
    WordsHold(size, |m|);
    var p := offset / 64;
    var result := offset - offset % 64;
    if offset >= size {
      return size;
    }
    var sz: nat := size - result;
    var off := offset % 64;
    assert result == 64 * p && offset == result + off;
    if off == 0 {
      r := ScanWords(addr, size, p, result, true);
      return;
    }
    var tmp := And(addr[p], Shl(Ones, off));
    if sz < 64 {
      // goto found_first
      SetTailWord(m, p, result, off, offset, sz, size, tmp);
      return FoundFirst(tmp, result, sz);
    }
    ghost var next := result + 64;
    SetFirstWord(m, p, tmp, result, off, offset, next, size);
    if tmp != 0 {
      // goto found_middle
      return result + Ffs(tmp);
    }
    r := ScanWords(addr, size, p + 1, result + 64, true);
  }

  /** find_first_bit: the first set bit below `size`, or `size` when there is none. */
  method FindFirstBit(addr: array<Word>, size: nat) returns (r: nat)
    requires BitsToLongs(size) <= addr.Length
    ensures size <= 64 * addr.Length
    ensures r == NextWith(addr[..], 0, size, true)
  {
    r := ScanWords(addr, size, 0, 0, true);
  }

  /** find_next_zero_bit: the first clear bit at or above `offset` and below `size`, or `size`. */
  method FindNextZeroBit(addr: array<Word>, size: nat, offset: nat) returns (r: nat)
    requires BitsToLongs(size) <= addr.Length
    ensures size <= 64 * addr.Length
    ensures r == NextWith(addr[..], offset, size, false)
  {
    ghost var m := addr[..];
    WordsHold(size, |m|);
    var p := offset / 64;
    var result := offset - offset % 64;
    if offset >= size {
      return size;
    }
    var sz: nat := size - result;
    var off := offset % 64;
    assert result == 64 * p && offset == result + off;
    if off == 0 {
      r := ScanWords(addr, size, p, result, false);
      return;
    }
    var tmp := Or(addr[p], Shr(Ones, 64 - off));
    if sz < 64 {
      // goto found_first
      ClearTailWord(m, p, result, off, offset, sz, size, tmp);
      return FoundFirstZero(tmp, result, sz);
    }
    ghost var next := result + 64;
    ClearFirstWord(m, p, tmp, result, off, offset, next, size);
    if tmp != Ones {
      // ~tmp != 0: goto found_middle
      return result + Ffz(tmp);
    }
    r := ScanWords(addr, size, p + 1, result + 64, false);
  }

  /** find_first_zero_bit: the first clear bit below `size`, or `size` when there is none. */
  method FindFirstZeroBit(addr: array<Word>, size: nat) returns (r: nat)
    requires BitsToLongs(size) <= addr.Length
    ensures size <= 64 * addr.Length
    ensures r == NextWith(addr[..], 0, size, false)
  {
    r := ScanWords(addr, size, 0, 0, false);
  }

  // find_last_bit

  /**
   * What a window onto word k tells the backward search: zero means no set
   * bit in [base, hi), anything else puts the last set bit below hi at the
   * highest set bit of w, __fls(w) = fls(w) - 1.
   */
  lemma LastWindowResult(w: Word, m: seq<Word>, k: nat, base: nat, hi: nat, size: nat)
    requires k < |m| && base == 64 * k && base <= hi <= size <= 64 * |m| && hi <= base + 64
    requires Window(w, m[k], base, base, hi, true)
    ensures w == 0 ==> LastSet(m, hi, size) == LastSet(m, base, size)
    ensures w != 0 ==> LastSet(m, hi, size) == base + FlsIndex(w) < hi
  {
    if w == 0 {
      ZeroWord(w);
      forall i | base <= i < hi
        ensures !TestBit(m, i)
      {
        var j: nat := i - base;
        TestBitWord(m, k, j);
        assert !Bit(w, j);
      }
      LastSetSkip(m, base, hi, size);
    } else {
      LastWindowFound(w, m, k, base, hi, size);
    }
  }

  /** The nonzero case of LastWindowResult. */
  lemma LastWindowFound(w: Word, m: seq<Word>, k: nat, base: nat, hi: nat, size: nat)
    requires k < |m| && base == 64 * k && base <= hi <= size <= 64 * |m| && hi <= base + 64
    requires Window(w, m[k], base, base, hi, true) && w != 0
    ensures LastSet(m, hi, size) == base + FlsIndex(w) < hi
  {
    var f := FlsIndex(w);
    forall i | base + f + 1 <= i < hi
      ensures !TestBit(m, i)
    {
      var j: nat := i - base;
      TestBitWord(m, k, j);
      assert !Bit(w, j);
    }
    LastSetSkip(m, base + f + 1, hi, size);
    TestBitWord(m, k, f);
    assert Bit(w, f);
  }

  /** The partial last word of the bitmap, masked to its sz bits. */
  lemma LastPartialWord(m: seq<Word>, k: nat, base: nat, sz: nat, size: nat, w: Word)
    requires k < |m| && base == 64 * k && 0 < sz < 64 && size == base + sz && size <= 64 * |m|
    requires w == And(m[k], Shr(Ones, 64 - sz))
    ensures w == 0 ==> LastSet(m, size, size) == LastSet(m, base, size)
    ensures w != 0 ==> LastSet(m, size, size) == base + FlsIndex(w) < size
  {
    assert Window(m[k], m[k], base, base, base + 64, true);
    SetTailWindow(m[k], m[k], base, base, sz, size);
    LastWindowResult(w, m, k, base, size, size);
  }

  /** A whole word w of the bitmap, searched from its top for a set bit. */
  lemma LastWholeWord(m: seq<Word>, k: nat, w: Word, base: nat, next: nat, size: nat)
    requires k < |m| && base == 64 * k && next == base + 64 && next <= size <= 64 * |m| && w == m[k]
    ensures w == 0 ==> LastSet(m, next, size) == LastSet(m, base, size)
    ensures w != 0 ==> LastSet(m, next, size) == base + FlsIndex(w) < next
  {
    assert Window(w, m[k], base, base, next, true);
    LastWindowResult(w, m, k, base, next, size);
  }

  /**
   * What find_last_bit returns as the source writes it: it adds fls(tmp),
   * the 1-based position of the highest set bit, and so answers one past the
   * last set bit; when that bit is bit size - 1 the answer is size, the value
   * that means "no bit set".
   */
  ghost function LastSetAsWritten(m: seq<Word>, size: nat): nat
    requires size <= 64 * |m|
  {
    var l := LastSet(m, size, size);
    if l == size then size else l + 1
  }

  /** find_last_bit as written, adding the 1-based fls of the word it stops at. */
  method FindLastBitAsWritten(addr: array<Word>, size: nat) returns (r: nat)
    requires BitsToLongs(size) <= addr.Length
    ensures size <= 64 * addr.Length
    ensures r == LastSetAsWritten(addr[..], size)
  {
    ghost var m := addr[..];
    WordsHold(size, |m|);
    var words: nat := size / 64;
    if size % 64 != 0 {
      var sz := size % 64;
      LastWord(words, sz, size, |m|);
      var tmp := And(addr[words], Shr(Ones, 64 - sz));
      LastPartialWord(m, words, 64 * words, sz, size, tmp);
      if tmp != 0 {
        // goto found
        return words * 64 + Fls(tmp);
      }
    }
    while words > 0
      invariant 64 * words <= size
      invariant LastSet(m, size, size) == LastSet(m, 64 * words, size)
    {
      words := words - 1;
      var tmp := addr[words];
      ghost var base, next := 64 * words, 64 * words + 64;
      LastWholeWord(m, words, tmp, base, next, size);
      if tmp != 0 {
        return words * 64 + Fls(tmp);
      }
    }
    return size;
  }

  /**
   * The as-written search points one past the last set bit (bit 0 of a
   * 64-bit map gives 1, a clear bit), and a set bit size - 1 gives size.
   */
  lemma FindLastBitOffByOne()
    ensures LastSet([1], 64, 64) == 0 && LastSetAsWritten([1], 64) == 1 && !TestBit([1], 1)
    ensures TestBit([1], 0) && LastSetAsWritten([1], 1) == 1
  {
    var m: seq<Word> := [1];
    forall i | 1 <= i < 64
      ensures !TestBit(m, i)
    {
      HighBit(1, 1, i);
    }
    LastSetSkip(m, 1, 64, 64);
  }

  /**
   * find_last_bit with the evidently intended `__fls`, the 0-based index of
   * the highest set bit: the last set bit below size, or size when none is.
   */
  method FindLastBit(addr: array<Word>, size: nat) returns (r: nat)
    requires BitsToLongs(size) <= addr.Length
    ensures size <= 64 * addr.Length
    ensures r == LastSet(addr[..], size, size)
  {
    ghost var m := addr[..];
    WordsHold(size, |m|);
    var words: nat := size / 64;
    if size % 64 != 0 {
      var sz := size % 64;
      LastWord(words, sz, size, |m|);
      var tmp := And(addr[words], Shr(Ones, 64 - sz));
      LastPartialWord(m, words, 64 * words, sz, size, tmp);
      if tmp != 0 {
        // goto found
        return words * 64 + FlsIndex(tmp);
      }
    }
    while words > 0
      invariant 64 * words <= size
      invariant LastSet(m, size, size) == LastSet(m, 64 * words, size)
    {
      words := words - 1;
      var tmp := addr[words];
      ghost var base, next := 64 * words, 64 * words + 64;
      LastWholeWord(m, words, tmp, base, next, size);
      if tmp != 0 {
        return words * 64 + FlsIndex(tmp);
      }
    }
    return size;
  }
}
