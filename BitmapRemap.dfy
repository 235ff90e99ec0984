/**
 * The maps between bitmaps of lib/bitmap.c: the ordinal of a set bit among
 * the set bits (bitmap_pos_to_ord), its inverse (bitmap_ord_to_pos), the
 * remapping of bits that a pair of bitmaps defines (bitmap_bitremap and
 * bitmap_remap), and bitmap_onto and bitmap_fold. Each walks the set bits of
 * a bitmap with find_first_bit and find_next_bit.
 */
module BitmapRemap {
  import opened Words
  import opened Bitmap
  import opened BitOps

  // ---------------------------------------------------------------------------
  // Ordinals of set bits

  /** No set bit in [lo, hi): the weight does not grow across it. */
  lemma {:induction false} WeightFlat(m: seq<Word>, lo: nat, hi: nat)
    requires lo <= hi <= 64 * |m| && AllClear(m, lo, hi)
    ensures Weight(m, hi) == Weight(m, lo)
    decreases hi - lo
  {
    if lo < hi {
      WeightFlat(m, lo, hi - 1);
    }
  }

  /** The weight never shrinks. */
  lemma {:induction false} WeightMono(m: seq<Word>, p: nat, q: nat)
    requires p <= q <= 64 * |m|
    ensures Weight(m, p) <= Weight(m, q)
    decreases q - p
  {
    if p < q {
      WeightMono(m, p, q - 1);
    }
  }

  /** A set bit at p counts in the weight of any q above it. */
  lemma WeightAbove(m: seq<Word>, p: nat, q: nat)
    requires p < q <= 64 * |m| && TestBit(m, p)
    ensures Weight(m, p) < Weight(m, q)
  {
    WeightMono(m, p + 1, q);
  }

  /** The first set bit from 0 has no set bit below it. */
  lemma WeightFirst(m: seq<Word>, bits: nat)
    requires bits <= 64 * |m|
    ensures Weight(m, NextWith(m, 0, bits, true)) == 0
  {
    NextWithSpec(m, 0, bits, true);
    WeightFlat(m, 0, NextWith(m, 0, bits, true));
  }

  /** From a set bit to the next one the weight grows by one. */
  lemma WeightNext(m: seq<Word>, i: nat, bits: nat)
    requires i < bits <= 64 * |m| && TestBit(m, i)
    ensures Weight(m, NextWith(m, i + 1, bits, true)) == Weight(m, i) + 1
  {
    NextWithSpec(m, i + 1, bits, true);
    WeightFlat(m, i + 1, NextWith(m, i + 1, bits, true));
  }

  /**
   * What bitmap_pos_to_ord returns: how many set bits lie below pos when pos
   * is a set bit below bits, and -1 otherwise.
   */
  ghost function Ord(m: seq<Word>, pos: int, bits: nat): (n: int)
    requires bits <= 64 * |m|
    ensures n >= 0 ==> 0 <= pos < bits && TestBit(m, pos) && n < Weight(m, bits)
  {
    if pos < 0 || pos >= bits || !TestBit(m, pos) then -1
    else
      WeightAbove(m, pos, bits);
      Weight(m, pos)
  }

  /** Bit p, below bits, is the set bit with ord set bits below it. */
  ghost predicate IsNth(m: seq<Word>, bits: nat, ord: int, p: nat)
    requires bits <= 64 * |m|
  {
    p < bits && TestBit(m, p) && Weight(m, p) == ord
  }

  /** Each ordinal belongs to at most one set bit. */
  lemma NthUnique(m: seq<Word>, bits: nat, ord: int, p: nat, q: nat)
    requires bits <= 64 * |m| && IsNth(m, bits, ord, p) && IsNth(m, bits, ord, q)
    ensures p == q
  {
    if p < q {
      WeightAbove(m, p, q);
    } else if q < p {
      WeightAbove(m, q, p);
    }
  }

  /** Below the weight of the bitmap, every ordinal belongs to a set bit. */
  lemma {:induction false} NthExists(m: seq<Word>, bits: nat, ord: int)
    requires bits <= 64 * |m| && 0 <= ord < Weight(m, bits)
    ensures exists p: nat :: IsNth(m, bits, ord, p)
    decreases bits
  {
    if Weight(m, bits - 1) > ord {
      NthExists(m, bits - 1, ord);
      var p: nat :| IsNth(m, bits - 1, ord, p);
      assert IsNth(m, bits, ord, p);
    } else {
      assert IsNth(m, bits, ord, bits - 1);
    }
  }

  /** The set bit with ord set bits below it. */
  ghost function Nth(m: seq<Word>, bits: nat, ord: int): (p: nat)
    requires bits <= 64 * |m| && 0 <= ord < Weight(m, bits)
    ensures IsNth(m, bits, ord, p)
  {
    NthExists(m, bits, ord);
    var p: nat :| IsNth(m, bits, ord, p);
    p
  }

  /** Ord and Nth are inverse: the ordinal of the n-th set bit is n. */
  lemma OrdOfNth(m: seq<Word>, bits: nat, n: int)
    requires bits <= 64 * |m| && 0 <= n < Weight(m, bits)
    ensures Ord(m, Nth(m, bits, n), bits) == n
  {
  }

  /** Ord and Nth are inverse: a set bit is the set bit of its own ordinal. */
  lemma NthOfOrd(m: seq<Word>, bits: nat, p: nat)
    requires bits <= 64 * |m| && p < bits && TestBit(m, p)
    ensures 0 <= Ord(m, p, bits) < Weight(m, bits) && Nth(m, bits, Ord(m, p, bits)) == p
  {
    NthUnique(m, bits, Ord(m, p, bits), p, Nth(m, bits, Ord(m, p, bits)));
  }

  /**
   * bitmap_pos_to_ord: the number of set bits below pos when pos is a set bit
   * below bits, otherwise -1.
   */
  method PosToOrd(buf: array<Word>, pos: int, bits: nat) returns (ord: int)
    requires BitsToLongs(bits) <= buf.Length
    ensures bits <= 64 * buf.Length
    ensures ord == Ord(buf[..], pos, bits)
  {
    ghost var m := buf[..];
    WordsHold(bits, |m|);
    if pos < 0 || pos >= bits || !TestBit(buf[..], pos) {
      return -1;
    }
    var i := FindFirstBit(buf, bits);
    NextWithSpec(m, 0, bits, true);
    WeightFirst(m, bits);
    ord := 0;
    while i < pos
      invariant i <= pos && TestBit(m, i) && ord == Weight(m, i)
      decreases pos - i
    {
      WeightNext(m, i, bits);
      NextWithSpec(m, i + 1, bits, true);
      i := FindNextBit(buf, bits, i + 1);
      ord := ord + 1;
    }
  }

  /**
   * bitmap_ord_to_pos: the position of the set bit with ord set bits below
   * it; 0 when there is no such bit (ord negative or not below the weight).
   */
  method OrdToPos(buf: array<Word>, ord: int, bits: nat) returns (pos: nat)
    requires BitsToLongs(bits) <= buf.Length
    ensures bits <= 64 * buf.Length
    ensures 0 <= ord < Weight(buf[..], bits) ==> IsNth(buf[..], bits, ord, pos)
    ensures !(0 <= ord < Weight(buf[..], bits)) ==> pos == 0
  {
    ghost var m := buf[..];
    WordsHold(bits, |m|);
    pos := 0;
    if ord >= 0 && ord < bits {
      var i := FindFirstBit(buf, bits);
      NextWithSpec(m, 0, bits, true);
      WeightFirst(m, bits);
      var left := ord;
      while i < bits && left > 0
        invariant i <= bits && (i < bits ==> TestBit(m, i))
        invariant 0 <= left <= ord && Weight(m, i) == ord - left
        decreases bits - i
      {
        WeightNext(m, i, bits);
        NextWithSpec(m, i + 1, bits, true);
        i := FindNextBit(buf, bits, i + 1);
        left := left - 1;
      }
      if i < bits && left == 0 {
        pos := i;
        WeightAbove(m, i, bits);
      }
    } else if ord >= bits {
      assert Weight(m, bits) <= bits;
    }
  }

  // ---------------------------------------------------------------------------
  // The remapping of one bit

  /**
   * The map that old and new define: the n-th set bit of old goes to the
   * (n mod w)-th set bit of new, w being the weight of new; every other
   * position, and every position when w is 0, is left where it is.
   */
  ghost function RemapBit(before: seq<Word>, after: seq<Word>, bits: nat, oldbit: int): (r: int)
    requires bits <= 64 * |before| && bits <= 64 * |after|
    ensures 0 <= oldbit < bits ==> 0 <= r < bits
  {
    var n := Ord(before, oldbit, bits);
    var w := Weight(after, bits);
    if n < 0 || w == 0 then oldbit else Nth(after, bits, n % w)
  }

  /** The n-th set bit of old goes to the (n mod w)-th set bit of new. */
  lemma RemapNth(before: seq<Word>, after: seq<Word>, bits: nat, n: int)
    requires bits <= 64 * |before| && bits <= 64 * |after|
    requires 0 <= n < Weight(before, bits) && Weight(after, bits) > 0
    ensures IsNth(after, bits, n % Weight(after, bits), RemapBit(before, after, bits, Nth(before, bits, n)))
  {
  }

  /** Positions that are not set bits of old are not moved. */
  lemma RemapUnset(before: seq<Word>, after: seq<Word>, bits: nat, oldbit: int)
    requires bits <= 64 * |before| && bits <= 64 * |after|
    requires !(0 <= oldbit < bits && TestBit(before, oldbit))
    ensures RemapBit(before, after, bits, oldbit) == oldbit
  {
  }

  /** A bitmap mapped onto itself is the identity. */
  lemma RemapSame(m: seq<Word>, bits: nat, oldbit: int)
    requires bits <= 64 * |m|
    ensures RemapBit(m, m, bits, oldbit) == oldbit
  {
    if 0 <= oldbit < bits && TestBit(m, oldbit) {
      NthOfOrd(m, bits, oldbit);
      ModAtMost(Ord(m, oldbit, bits), Weight(m, bits));
    }
  }

  /** bitmap_bitremap: the position the map defined by old and new sends oldbit to. */
  method BitRemap(oldbit: int, before: array<Word>, after: array<Word>, bits: nat) returns (r: int)
    requires BitsToLongs(bits) <= before.Length && BitsToLongs(bits) <= after.Length
    ensures bits <= 64 * before.Length && bits <= 64 * after.Length
    ensures r == RemapBit(before[..], after[..], bits, oldbit)
  {
    WordsHold(bits, before.Length);
    WordsHold(bits, after.Length);
    var w := BitmapWeight(after, bits);
    var n := PosToOrd(before, oldbit, bits);
    if n < 0 || w == 0 {
      return oldbit;
    }
    var p := OrdToPos(after, n % w, bits);
    NthUnique(after[..], bits, n % w, p, Nth(after[..], bits, n % w));
    return p;
  }

  // ---------------------------------------------------------------------------
  // Maps of whole bitmaps

  /** The maps bitmap_fold and bitmap_remap apply to each set bit. */
  datatype Mapping = Folding(sz: nat) | Remapping(before: seq<Word>, after: seq<Word>)

  ghost predicate Fits(f: Mapping, bits: nat)
  {
    match f
    case Folding(sz) => sz > 0
    case Remapping(before, after) => bits <= 64 * |before| && bits <= 64 * |after|
  }

  /** j mod sz is at most j. */
  lemma ModAtMost(j: nat, sz: nat)
    requires sz > 0
    ensures j % sz <= j && (j < sz ==> j % sz == j)
  {
  }

  /** Where the map sends bit j. */
  ghost function Target(f: Mapping, bits: nat, j: nat): (t: nat)
    requires Fits(f, bits) && j < bits
    ensures t < bits
  {
    match f
    case Folding(sz) =>
      ModAtMost(j, sz);
      j % sz
    case Remapping(before, after) => RemapBit(before, after, bits, j)
  }

  /** Bit k is where the map sends one of the set bits of m below hi. */
  ghost predicate Image(f: Mapping, m: seq<Word>, bits: nat, hi: nat, k: nat)
    requires Fits(f, bits) && hi <= bits <= 64 * |m|
    decreases hi
  {
    hi > 0 && (Image(f, m, bits, hi - 1, k) || (TestBit(m, hi - 1) && Target(f, bits, hi - 1) == k))
  }

  /** Image is what it says: some set bit below hi is sent to k. */
  lemma {:induction false} ImageHas(f: Mapping, m: seq<Word>, bits: nat, hi: nat, k: nat)
    requires Fits(f, bits) && hi <= bits <= 64 * |m|
    ensures Image(f, m, bits, hi, k) <==> exists j: nat :: j < hi && TestBit(m, j) && Target(f, bits, j) == k
    decreases hi
  {
    if hi > 0 {
      ImageHas(f, m, bits, hi - 1, k);
      if TestBit(m, hi - 1) && Target(f, bits, hi - 1) == k {
        assert exists j: nat :: j < hi && TestBit(m, j) && Target(f, bits, j) == k;
      }
    }
  }

  /** Clear bits in [lo, hi) add nothing to the image. */
  lemma {:induction false} ImageFlat(f: Mapping, m: seq<Word>, bits: nat, lo: nat, hi: nat, k: nat)
    requires Fits(f, bits) && lo <= hi <= bits <= 64 * |m| && AllClear(m, lo, hi)
    ensures Image(f, m, bits, hi, k) == Image(f, m, bits, lo, k)
    decreases hi - lo
  {
    if lo < hi {
      ImageFlat(f, m, bits, lo, hi - 1, k);
    }
  }

  /**
   * From set bit i to the next set bit: the image grows by the target of i,
   * the bits between adding nothing.
   */
  lemma ImageNext(f: Mapping, m: seq<Word>, bits: nat, i: nat, k: nat)
    requires Fits(f, bits) && i < bits <= 64 * |m| && TestBit(m, i)
    ensures Image(f, m, bits, NextWith(m, i + 1, bits, true), k) == (Image(f, m, bits, i, k) || Target(f, bits, i) == k)
  {
    NextWithSpec(m, i + 1, bits, true);
    ImageFlat(f, m, bits, i + 1, NextWith(m, i + 1, bits, true), k);
  }

  /**
   * bitmap_remap: dst gets, for every set bit of src below bits, the bit the
   * map of old and new sends it to, and no other bit. When dst and src are
   * the same bitmap nothing is done.
   */
  method Remap(dst: array<Word>, src: array<Word>, before: array<Word>, after: array<Word>, bits: nat)
    requires BitsToLongs(bits) <= dst.Length && BitsToLongs(bits) <= src.Length
    requires BitsToLongs(bits) <= before.Length && BitsToLongs(bits) <= after.Length
    requires dst != before && dst != after
    modifies dst
    ensures bits <= 64 * before.Length && bits <= 64 * after.Length && bits <= 64 * src.Length
    ensures dst == src ==> dst[..] == old(dst[..])
    ensures dst != src ==> forall k :: 0 <= k < 64 * BitsToLongs(bits) ==>
      TestBit(dst[..], k) == Image(Remapping(before[..], after[..]), src[..], bits, bits, k)
    ensures forall k :: BitsToLongs(bits) <= k < dst.Length ==> dst[k] == old(dst[k])
  {
    WordsHold(bits, src.Length);
    WordsHold(bits, before.Length);
    WordsHold(bits, after.Length);
    if dst == src {
      return;
    }
    ghost var s := src[..];
    ghost var f := Remapping(before[..], after[..]);
    BitmapZero(dst, bits);
    var w := BitmapWeight(after, bits);
    var i := FindFirstBit(src, bits);
    NextWithSpec(s, 0, bits, true);
    forall k | 0 <= k < 64 * BitsToLongs(bits)
      ensures !Image(f, s, bits, i, k)
    {
      ImageFlat(f, s, bits, 0, i, k);
    }
    while i < bits
      invariant i <= bits && (i < bits ==> TestBit(s, i))
      invariant src[..] == s && f == Remapping(before[..], after[..])
      invariant forall k :: 0 <= k < 64 * BitsToLongs(bits) ==> TestBit(dst[..], k) == Image(f, s, bits, i, k)
      invariant forall k :: BitsToLongs(bits) <= k < dst.Length ==> dst[k] == old(dst[k])
      decreases bits - i
    {
      var n := PosToOrd(before, i, bits);
      var t;
      if n < 0 || w == 0 {
        t := i;
      } else {
        t := OrdToPos(after, n % w, bits);
        NthUnique(after[..], bits, n % w, t, Nth(after[..], bits, n % w));
      }
      assert t == Target(f, bits, i);
      SetBit(dst, t);
      forall k | 0 <= k < 64 * BitsToLongs(bits)
        ensures TestBit(dst[..], k) == Image(f, s, bits, NextWith(s, i + 1, bits, true), k)
      {
        ImageNext(f, s, bits, i, k);
      }
      NextWithSpec(s, i + 1, bits, true);
      i := FindNextBit(src, bits, i + 1);
    }
  }

  /**
   * bitmap_fold: dst gets bit j mod sz for every set bit j of orig below
   * bits, and no other bit. When dst and orig are the same bitmap nothing is
   * done.
   */
  method Fold(dst: array<Word>, orig: array<Word>, sz: nat, bits: nat)
    requires sz > 0
    requires BitsToLongs(bits) <= dst.Length && BitsToLongs(bits) <= orig.Length
    modifies dst
    ensures bits <= 64 * orig.Length
    ensures dst == orig ==> dst[..] == old(dst[..])
    ensures dst != orig ==> forall k :: 0 <= k < 64 * BitsToLongs(bits) ==>
      TestBit(dst[..], k) == Image(Folding(sz), orig[..], bits, bits, k)
    ensures forall k :: BitsToLongs(bits) <= k < dst.Length ==> dst[k] == old(dst[k])
  {
    WordsHold(bits, orig.Length);
    if dst == orig {
      return;
    }
    ghost var s := orig[..];
    BitmapZero(dst, bits);
    var i := FindFirstBit(orig, bits);
    NextWithSpec(s, 0, bits, true);
    forall k | 0 <= k < 64 * BitsToLongs(bits)
      ensures !Image(Folding(sz), s, bits, i, k)
    {
      ImageFlat(Folding(sz), s, bits, 0, i, k);
    }
    while i < bits
      invariant i <= bits && (i < bits ==> TestBit(s, i)) && orig[..] == s
      invariant forall k :: 0 <= k < 64 * BitsToLongs(bits) ==> TestBit(dst[..], k) == Image(Folding(sz), s, bits, i, k)
      invariant forall k :: BitsToLongs(bits) <= k < dst.Length ==> dst[k] == old(dst[k])
      decreases bits - i
    {
      ModAtMost(i, sz);
      SetBit(dst, i % sz);
      forall k | 0 <= k < 64 * BitsToLongs(bits)
        ensures TestBit(dst[..], k) == Image(Folding(sz), s, bits, NextWith(s, i + 1, bits, true), k)
      {
        ImageNext(Folding(sz), s, bits, i, k);
      }
      NextWithSpec(s, i + 1, bits, true);
      i := FindNextBit(orig, bits, i + 1);
    }
  }

  /** Folding modulo sz leaves only bits below sz. */
  lemma {:induction false} FoldBelow(m: seq<Word>, sz: nat, bits: nat, hi: nat, k: nat)
    requires sz > 0 && hi <= bits <= 64 * |m| && Image(Folding(sz), m, bits, hi, k)
    ensures k < sz
    decreases hi
  {
    if !(TestBit(m, hi - 1) && Target(Folding(sz), bits, hi - 1) == k) {
      FoldBelow(m, sz, bits, hi - 1, k);
    }
  }

  /** Folding modulo a size of at least bits copies the set bits. */
  lemma {:induction false} FoldWide(m: seq<Word>, sz: nat, bits: nat, hi: nat, k: nat)
    requires 0 < sz && bits <= sz && hi <= bits <= 64 * |m|
    ensures Image(Folding(sz), m, bits, hi, k) == (k < hi && TestBit(m, k))
    decreases hi
  {
    if hi > 0 {
      FoldWide(m, sz, bits, hi - 1, k);
      ModAtMost(hi - 1, sz);
    }
  }

  /** Remapping with old equal to new copies the set bits. */
  lemma {:induction false} RemapIdentity(m: seq<Word>, s: seq<Word>, bits: nat, hi: nat, k: nat)
    requires hi <= bits <= 64 * |m| && bits <= 64 * |s|
    ensures Image(Remapping(m, m), s, bits, hi, k) == (k < hi && TestBit(s, k))
    decreases hi
  {
    if hi > 0 {
      RemapIdentity(m, s, bits, hi - 1, k);
      RemapSame(m, bits, hi - 1);
    }
  }

  // ---------------------------------------------------------------------------
  // bitmap_onto

  /**
   * Bit n is set by bitmap_onto: n is a set bit of relmap, and the bit of
   * orig at n's ordinal in relmap is set.
   */
  ghost predicate OntoBit(orig: seq<Word>, relmap: seq<Word>, bits: nat, n: nat)
    requires bits <= 64 * |orig| && bits <= 64 * |relmap|
  {
    n < bits && TestBit(relmap, n) && TestBit(orig, Weight(relmap, n))
  }

  /** The m-th set bit of relmap is set in the result exactly when bit m of orig is. */
  lemma OntoNth(orig: seq<Word>, relmap: seq<Word>, bits: nat, m: nat)
    requires bits <= 64 * |orig| && bits <= 64 * |relmap| && m < Weight(relmap, bits)
    ensures OntoBit(orig, relmap, bits, Nth(relmap, bits, m)) == TestBit(orig, m)
  {
  }

  /** Bits of orig at or above the weight of relmap are mapped nowhere. */
  lemma OntoBelowWeight(orig: seq<Word>, relmap: seq<Word>, bits: nat, n: nat)
    requires bits <= 64 * |orig| && bits <= 64 * |relmap| && OntoBit(orig, relmap, bits, n)
    ensures Weight(relmap, n) < Weight(relmap, bits)
  {
    WeightAbove(relmap, n, bits);
  }

  /**
   * bitmap_onto: dst gets the set bits n of relmap whose ordinal in relmap is
   * a set bit of orig, and no other bit. When dst and orig are the same
   * bitmap nothing is done.
   */
  method Onto(dst: array<Word>, orig: array<Word>, relmap: array<Word>, bits: nat)
    requires BitsToLongs(bits) <= dst.Length && BitsToLongs(bits) <= orig.Length && BitsToLongs(bits) <= relmap.Length
    requires dst != relmap
    modifies dst
    ensures bits <= 64 * orig.Length && bits <= 64 * relmap.Length
    ensures dst == orig ==> dst[..] == old(dst[..])
    ensures dst != orig ==> forall k :: 0 <= k < 64 * BitsToLongs(bits) ==>
      TestBit(dst[..], k) == OntoBit(orig[..], relmap[..], bits, k)
    ensures forall k :: BitsToLongs(bits) <= k < dst.Length ==> dst[k] == old(dst[k])
  {
    WordsHold(bits, orig.Length);
    WordsHold(bits, relmap.Length);
    if dst == orig {
      return;
    }
    ghost var o := orig[..];
    ghost var r := relmap[..];
    BitmapZero(dst, bits);
    var m := 0;
    var n := FindFirstBit(relmap, bits);
    NextWithSpec(r, 0, bits, true);
    WeightFirst(r, bits);
    while n < bits
      invariant n <= bits && (n < bits ==> TestBit(r, n)) && orig[..] == o && relmap[..] == r
      invariant m == Weight(r, n)
      invariant forall k :: 0 <= k < 64 * BitsToLongs(bits) ==> TestBit(dst[..], k) == (k < n && OntoBit(o, r, bits, k))
      invariant forall k :: BitsToLongs(bits) <= k < dst.Length ==> dst[k] == old(dst[k])
      decreases bits - n
    {
      ghost var d := dst[..];
      if TestBit(orig[..], m) {
        SetBit(dst, n);
      }
      NextWithSpec(r, n + 1, bits, true);
      WeightNext(r, n, bits);
      n := FindNextBit(relmap, bits, n + 1);
      m := m + 1;
    }
  }
}
