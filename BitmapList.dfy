/**
 * bitmap_parselist of lib/bitmap.c: a bitmap written as a comma-separated
 * list of decimal bit numbers and ranges "a-b". The text is a C string: it
 * is read up to its NUL, and a NUL or a newline after an item ends the list.
 * The numbers are read with the C library's strtoul, which saturates at
 * ULONG_MAX, and the source stores them in 32-bit `unsigned` variables.
 */
module BitmapList {
  import opened Pow
  import opened Words
  import opened Bitmap
  import opened BitmapParse

  const ERANGE: int := 34
  const ULONG_MAX: nat := TWO64 - 1

  /** *bp: the string is s followed by its NUL. */
  function CharAt(s: seq<char>, i: nat): char
  {
    if i < |s| then s[i] else '\0'
  }

  predicate AllDigits(s: seq<char>, a: nat, b: nat)
    requires a <= b <= |s|
  {
    forall k :: a <= k < b ==> IsDigit(s[k])
  }

  /** The first position at or after i that holds no decimal digit. */
  function DigitsEnd(s: seq<char>, i: nat): (e: nat)
    requires i <= |s|
    ensures i <= e <= |s| && AllDigits(s, i, e) && !IsDigit(CharAt(s, e))
    decreases |s| - i
  {
    if i == |s| || !IsDigit(s[i]) then i else DigitsEnd(s, i + 1)
  }

  /** The number the decimal digits s[a..b] denote. */
  function DecValue(s: seq<char>, a: nat, b: nat): nat
    requires a <= b <= |s| && AllDigits(s, a, b)
    decreases b - a
  {
    if a == b then 0 else 10 * DecValue(s, a, b - 1) + (s[b - 1] as int - '0' as int)
  }

  /** What strtoul returns for a number: its value, or ULONG_MAX when that is larger. */
  function Saturate(v: nat): (r: Word)
    ensures r == if v < ULONG_MAX then v else ULONG_MAX
  {
    if v < ULONG_MAX then v else ULONG_MAX
  }

  /**
   * The value bitmap_parselist keeps from the digits s[a..b]: the source
   * assigns strtoul's unsigned long to an `unsigned`, keeping its low 32 bits
   * (narrow); with a wide enough variable it is strtoul's result itself.
   */
  function Kept(s: seq<char>, a: nat, b: nat, narrow: bool): nat
    requires a <= b <= |s| && AllDigits(s, a, b)
  {
    if narrow then Saturate(DecValue(s, a, b)) % TWO32 else Saturate(DecValue(s, a, b))
  }

  /** A range of bit numbers lo..hi, both included. */
  datatype Range = Range(lo: nat, hi: nat)

  /** One item of the list: a range and the position after it and its comma, or an error. */
  datatype Item = ItemError(code: int) | Item(r: Range, next: nat)

  /** What the list is: the ranges it names, or the error bitmap_parselist returns. */
  datatype Parsed = ListError(code: int) | Ranges(rs: seq<Range>)

  /** Bit k is in one of the ranges. */
  predicate Covered(rs: seq<Range>, k: nat)
  {
    |rs| > 0 && (rs[0].lo <= k <= rs[0].hi || Covered(rs[1..], k))
  }

  /** The item that starts at position i. */
  ghost function ItemAt(s: seq<char>, i: nat, nmaskbits: nat, narrow: bool): (it: Item)
    requires i <= |s|
    ensures it.Item? ==> i < it.next <= |s|
  {
    if !IsDigit(CharAt(s, i)) then ItemError(-EINVAL)
    else
      var e1 := DigitsEnd(s, i);
      var a := Kept(s, i, e1, narrow);
      if CharAt(s, e1) == '-' && !IsDigit(CharAt(s, e1 + 1)) then ItemError(-EINVAL)
      else
        var e2 := if CharAt(s, e1) == '-' then DigitsEnd(s, e1 + 1) else e1;
        var b := if CharAt(s, e1) == '-' then Kept(s, e1 + 1, e2, narrow) else a;
        if !(a <= b) then ItemError(-EINVAL)
        else if b >= nmaskbits then ItemError(-ERANGE)
        else Item(Range(a, b), if CharAt(s, e2) == ',' then e2 + 1 else e2)
  }

  function Prepend(r: Range, p: Parsed): Parsed
  {
    match p
    case ListError(c) => ListError(c)
    case Ranges(rs) => Ranges([r] + rs)
  }

  /** The list from position i on: items until one is followed by a NUL or a newline. */
  ghost function ListFrom(s: seq<char>, i: nat, nmaskbits: nat, narrow: bool): Parsed
    requires i <= |s|
    decreases |s| - i
  {
    match ItemAt(s, i, nmaskbits, narrow)
    case ItemError(c) => ListError(c)
    case Item(r, k) =>
      if CharAt(s, k) == '\0' || CharAt(s, k) == '\n' then Ranges([r])
      else Prepend(r, ListFrom(s, k, nmaskbits, narrow))
  }

  ghost function ParsedList(s: seq<char>, nmaskbits: nat, narrow: bool): Parsed
  {
    ListFrom(s, 0, nmaskbits, narrow)
  }

  // ---------------------------------------------------------------------------
  // strtoul and the range loop

  /** One more digit: strtoul's saturated value follows the saturated value before it. */
  lemma SaturateStep(v: nat, d: nat)
    ensures Saturate(10 * v + d) == Saturate(10 * Saturate(v) + d)
  {
  }

  /**
   * strtoul(s + i, &end, 10) where s[i] is a digit: the digits from i, read
   * with saturation at ULONG_MAX, and the position after them.
   */
  method StrToUL(s: seq<char>, i: nat) returns (v: Word, e: nat)
    requires i < |s| && IsDigit(s[i])
    ensures e == DigitsEnd(s, i) && v == Saturate(DecValue(s, i, e))
  {
    v, e := 0, i;
    while e < |s| && IsDigit(s[e])
      invariant i <= e <= |s| && AllDigits(s, i, e)
      invariant v == Saturate(DecValue(s, i, e))
      invariant DigitsEnd(s, i) == DigitsEnd(s, e)
      decreases |s| - e
    {
      var d := s[e] as int - '0' as int;
      SaturateStep(DecValue(s, i, e), d);
      v := if 10 * v + d < ULONG_MAX then 10 * v + d else ULONG_MAX;
      e := e + 1;
    }
  }

  /** while (a <= b) set_bit(a++, maskp): bits lo..hi become set and no others change. */
  method SetBits(bitmap: array<Word>, lo: nat, hi: nat)
    requires lo <= hi < 64 * bitmap.Length
    modifies bitmap
    ensures forall k :: 0 <= k < 64 * bitmap.Length ==>
      TestBit(bitmap[..], k) == (lo <= k <= hi || TestBit(old(bitmap[..]), k))
    ensures forall k :: hi / 64 < k < bitmap.Length ==> bitmap[k] == old(bitmap[k])
  {
    var a := lo;
    while a <= hi
      invariant lo <= a <= hi + 1
      invariant forall k :: 0 <= k < 64 * bitmap.Length ==>
        TestBit(bitmap[..], k) == (lo <= k < a || TestBit(old(bitmap[..]), k))
      invariant forall k :: hi / 64 < k < bitmap.Length ==> bitmap[k] == old(bitmap[k])
      decreases hi + 1 - a
    {
      SetBit(bitmap, a);
      a := a + 1;
    }
  }

  // ---------------------------------------------------------------------------
  // The list loop

  /** The ranges already set, then the rest of the list, make up the whole list. */
  function Appended(done: seq<Range>, rest: Parsed): Parsed
  {
    match rest
    case ListError(c) => ListError(c)
    case Ranges(rs) => Ranges(done + rs)
  }

  lemma AppendedEmpty(p: Parsed)
    ensures Appended([], p) == p
  {
    if p.Ranges? {
      assert [] + p.rs == p.rs;
    }
  }

  lemma AppendedPrepend(done: seq<Range>, r: Range, rest: Parsed)
    ensures Appended(done, Prepend(r, rest)) == Appended(done + [r], rest)
  {
    if rest.Ranges? {
      assert done + ([r] + rest.rs) == done + [r] + rest.rs;
    }
  }

  lemma {:induction false} CoveredAppend(rs: seq<Range>, r: Range, k: nat)
    ensures Covered(rs + [r], k) == (Covered(rs, k) || r.lo <= k <= r.hi)
    decreases |rs|
  {
    if |rs| > 0 {
      assert (rs + [r])[1..] == rs[1..] + [r];
      CoveredAppend(rs[1..], r, k);
    } else {
      assert (rs + [r])[1..] == [];
    }
  }

  /**
   * One item of bitmap_parselist at position i: its number or range, checked
   * and set in the bitmap, and the position after its comma. A nonzero
   * result is the item's error.
   */
  method ParseItem(s: seq<char>, bitmap: array<Word>, nmaskbits: nat, i: nat, narrow: bool)
    returns (r: int, next: nat)
    requires i <= |s| && nmaskbits <= 64 * bitmap.Length
    modifies bitmap
    ensures r != 0 <==> ItemAt(s, i, nmaskbits, narrow).ItemError?
    ensures r != 0 ==> r == ItemAt(s, i, nmaskbits, narrow).code && bitmap[..] == old(bitmap[..])
    ensures r == 0 ==> next == ItemAt(s, i, nmaskbits, narrow).next
    ensures r == 0 ==> forall k :: 0 <= k < 64 * bitmap.Length ==>
      TestBit(bitmap[..], k) == (ItemAt(s, i, nmaskbits, narrow).r.lo <= k <= ItemAt(s, i, nmaskbits, narrow).r.hi || TestBit(old(bitmap[..]), k))
    ensures forall k :: BitsToLongs(nmaskbits) <= k < bitmap.Length ==> bitmap[k] == old(bitmap[k])
  {
    if !IsDigit(CharAt(s, i)) {
      return -EINVAL, i;
    }
    var v, e := StrToUL(s, i);
    var a: nat := if narrow then v % TWO32 else v;
    var b := a;
    if CharAt(s, e) == '-' {
      if !IsDigit(CharAt(s, e + 1)) {
        return -EINVAL, e + 1;
      }
      v, e := StrToUL(s, e + 1);
      b := if narrow then v % TWO32 else v;
    }
    if !(a <= b) {
      return -EINVAL, e;
    }
    if b >= nmaskbits {
      return -ERANGE, e;
    }
    SetBits(bitmap, a, b);
    next := if CharAt(s, e) == ',' then e + 1 else e;
    r := 0;
  }

  /**
   * bitmap_parselist, with the numbers kept in 32 bits (narrow) as the source
   * has it, or whole as strtoul returns them (the corrected reading). 0 is returned, and the bitmap holds exactly the bits of
   * the listed ranges, when the list is well formed and every range lies
   * below nmaskbits; otherwise the error of the first bad item.
   */
  method ParseList(s: seq<char>, bitmap: array<Word>, nmaskbits: nat, narrow: bool) returns (r: int)
    requires BitsToLongs(nmaskbits) <= bitmap.Length
    modifies bitmap
    ensures r == 0 || r == -EINVAL || r == -ERANGE
    ensures r == 0 <==> ParsedList(s, nmaskbits, narrow).Ranges?
    ensures r != 0 ==> r == ParsedList(s, nmaskbits, narrow).code
    ensures r == 0 ==> forall k :: 0 <= k < 64 * BitsToLongs(nmaskbits) ==>
      TestBit(bitmap[..], k) == Covered(ParsedList(s, nmaskbits, narrow).rs, k)
    ensures forall k :: BitsToLongs(nmaskbits) <= k < bitmap.Length ==> bitmap[k] == old(bitmap[k])
  {
    var lim := BitsToLongs(nmaskbits);
    ZeroWords(bitmap, 0, lim);
    forall k | 0 <= k < 64 * lim
      ensures !TestBit(bitmap[..], k)
    {
      TestBitAt(bitmap[..], k);
      ZeroBit(k % 64);
    }
    ghost var whole := bitmap[..];
    var i: nat := 0;
    ghost var done: seq<Range> := [];
    AppendedEmpty(ParsedList(s, nmaskbits, narrow));
    var more := true;
    while more
      invariant i <= |s|
      invariant ParsedList(s, nmaskbits, narrow) == Appended(done, if more then ListFrom(s, i, nmaskbits, narrow) else Ranges([]))
      invariant forall k :: 0 <= k < 64 * lim ==> TestBit(bitmap[..], k) == Covered(done, k)
      invariant forall k :: lim <= k < bitmap.Length ==> bitmap[k] == old(bitmap[k])
      decreases |s| - i + (if more then 1 else 0)
    {
      ghost var it := ItemAt(s, i, nmaskbits, narrow);
      var err, next := ParseItem(s, bitmap, nmaskbits, i, narrow);
      if err != 0 {
        return err;
      }
      AppendedPrepend(done, it.r, ListFrom(s, next, nmaskbits, narrow));
      assert [it.r] + [] == [it.r];
      forall k | 0 <= k < 64 * lim
        ensures TestBit(bitmap[..], k) == Covered(done + [it.r], k)
      {
        CoveredAppend(done, it.r, k);
      }
      done := done + [it.r];
      i := next;
      more := CharAt(s, i) != '\0' && CharAt(s, i) != '\n';
    }
    assert done + [] == done;
    return 0;
  }

  // ---------------------------------------------------------------------------
  // What the list promises, and where the 32-bit variables break it

  /** Every range of an accepted list is ordered and lies below nmaskbits. */
  lemma {:induction false} ListBounds(s: seq<char>, i: nat, nmaskbits: nat, narrow: bool)
    requires i <= |s|
    ensures ListFrom(s, i, nmaskbits, narrow).Ranges? ==>
      forall k :: 0 <= k < |ListFrom(s, i, nmaskbits, narrow).rs| ==>
        ListFrom(s, i, nmaskbits, narrow).rs[k].lo <= ListFrom(s, i, nmaskbits, narrow).rs[k].hi < nmaskbits
    decreases |s| - i
  {
    var it := ItemAt(s, i, nmaskbits, narrow);
    if it.Item? && !(CharAt(s, it.next) == '\0' || CharAt(s, it.next) == '\n') {
      ListBounds(s, it.next, nmaskbits, narrow);
    }
  }

  /**
   * Read whole, a first number at or above nmaskbits makes the list an error:
   * it is either above the end of its range (EINVAL) or too large (ERANGE).
   */
  lemma FirstTooLarge(s: seq<char>, nmaskbits: nat)
    requires nmaskbits < TWO32 && 0 < |s| && IsDigit(s[0])
    requires DecValue(s, 0, DigitsEnd(s, 0)) >= nmaskbits
    ensures ParsedList(s, nmaskbits, false).ListError?
  {
  }

  /**
   * As written, "4294967296" with nmaskbits = 1 is accepted as bit 0: the
   * number, 2^32, is kept in an `unsigned` and becomes 0. Read whole it is
   * refused with ERANGE.
   */
  lemma TruncatedNumber()
    ensures ParsedList("4294967296", 1, true) == Ranges([Range(0, 0)])
    ensures ParsedList("4294967296", 1, false) == ListError(-ERANGE)
  {
    var s := "4294967296";
    assert DigitsEnd(s, 0) == 10;
    assert DecValue(s, 0, 1) == 4;
    assert DecValue(s, 0, 2) == 42;
    assert DecValue(s, 0, 3) == 429;
    assert DecValue(s, 0, 4) == 4294;
    assert DecValue(s, 0, 5) == 42949;
    assert DecValue(s, 0, 6) == 429496;
    assert DecValue(s, 0, 7) == 4294967;
    assert DecValue(s, 0, 8) == 42949672;
    assert DecValue(s, 0, 9) == 429496729;
    assert DecValue(s, 0, 10) == 4294967296;
  }
}
