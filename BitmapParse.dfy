/**
 * __bitmap_parse of lib/bitmap.c: a bitmap written as groups of hex digits.
 * Commas split the text into chunks of exactly 32 bits each, the last chunk
 * the least significant; leading and trailing whitespace is accepted, and
 * the text ends at a NUL or at the end of the buffer.
 */
module BitmapParse {
  import opened Pow
  import opened Words
  import opened Bitmap
  import opened BitmapShift

  const EINVAL: int := 22
  const EOVERFLOW: int := 75
  const TWO32: nat := 0x1_0000_0000

  datatype Option<T> = None | Some(value: T)

  /** isspace in the C locale. */
  predicate IsSpace(c: char)
  {
    c == ' ' || c == '\t' || c == '\n' || c == '\U{B}' || c == '\U{C}' || c == '\r'
  }

  predicate IsDigit(c: char)
  {
    '0' <= c <= '9'
  }

  predicate IsXDigit(c: char)
  {
    IsDigit(c) || 'a' <= c <= 'f' || 'A' <= c <= 'F'
  }

  /** unhex: the value of a hex digit, either case. */
  function Unhex(c: char): (d: nat)
    requires IsXDigit(c)
    ensures d < 16
  {
    if IsDigit(c) then c as int - '0' as int
    else if 'a' <= c <= 'f' then c as int - 'a' as int + 10
    else c as int - 'A' as int + 10
  }

  /** The characters a..b of s are all hex digits. */
  predicate AllHex(s: seq<char>, a: nat, b: nat)
    requires a <= b <= |s|
  {
    forall k :: a <= k < b ==> IsXDigit(s[k])
  }

  /** The number the hex digits s[a..b] denote. */
  function HexValue(s: seq<char>, a: nat, b: nat): nat
    requires a <= b <= |s| && AllHex(s, a, b)
    decreases b - a
  {
    if a == b then 0 else 16 * HexValue(s, a, b - 1) + Unhex(s[b - 1])
  }

  /** The chunks in order, most significant first, read as one number in base 2^32. */
  function ValueFrom(acc: nat, cs: seq<nat>): nat
    decreases |cs|
  {
    if |cs| == 0 then acc else ValueFrom(acc * TWO32 + cs[0], cs[1..])
  }

  /** The first NUL at or after i, or the end of the buffer: where the text ends. */
  function NulFrom(buf: seq<char>, i: nat): (e: nat)
    requires i <= |buf|
    ensures i <= e <= |buf| && (e < |buf| ==> buf[e] == '\0')
    ensures forall k :: i <= k < e ==> buf[k] != '\0'
    decreases |buf| - i
  {
    if i == |buf| || buf[i] == '\0' then i else NulFrom(buf, i + 1)
  }

  /** The first character at or after i, and before n, that is not whitespace. */
  function SpaceEnd(s: seq<char>, n: nat, i: nat): (e: nat)
    requires i <= n <= |s|
    ensures i <= e <= n && (e < n ==> !IsSpace(s[e]))
    ensures forall k :: i <= k < e ==> IsSpace(s[k])
    decreases n - i
  {
    if i == n || !IsSpace(s[i]) then i else SpaceEnd(s, n, i + 1)
  }

  /** The first character at or after i, and before n, that is not a hex digit. */
  function HexEnd(s: seq<char>, n: nat, i: nat): (e: nat)
    requires i <= n <= |s|
    ensures i <= e <= n && (e < n ==> !IsXDigit(s[e]))
    ensures forall k :: i <= k < e ==> IsXDigit(s[k])
    decreases n - i
  {
    if i == n || !IsXDigit(s[i]) then i else HexEnd(s, n, i + 1)
  }

  /** The characters a..b of s are all whitespace. */
  predicate AllSpace(s: seq<char>, a: nat, b: nat)
    requires a <= b <= |s|
  {
    forall k :: a <= k < b ==> IsSpace(s[k])
  }

  function Then(prefix: seq<nat>, rest: Option<seq<nat>>): Option<seq<nat>>
  {
    match rest
    case None => None
    case Some(cs) => Some(prefix + cs)
  }

  /**
   * The chunks of the text s[..n] from position g on: a group of hex digits
   * denoting less than 2^32, then either only whitespace, or a comma and the
   * next group. A comma that is the very last character of a buffer without
   * a NUL ends the text as well (openEnd): the chunk loop stops on an
   * exhausted buffer before looking for the group after it.
   */
  ghost function Groups(s: seq<char>, n: nat, g: nat, openEnd: bool): Option<seq<nat>>
    requires n <= |s|
    decreases n - g
  {
    if g > n then None else
    var e := HexEnd(s, n, g);
    if e == g || HexValue(s, g, e) >= TWO32 then None
    else if AllSpace(s, e, n) then Some([HexValue(s, g, e)])
    else if s[e] != ',' then None
    else if e + 1 == n && openEnd then Some([HexValue(s, g, e)])
    else Then([HexValue(s, g, e)], Groups(s, n, e + 1, openEnd))
  }

  /** The chunks a buffer holds, when it is well formed; its text ends at the first NUL. */
  ghost function ParsedChunks(buf: seq<char>): Option<seq<nat>>
  {
    var n := NulFrom(buf, 0);
    Groups(buf, n, SpaceEnd(buf, n, 0), n == |buf|)
  }

  /** The number a well-formed buffer denotes. */
  ghost function ParsedValue(buf: seq<char>): nat
  {
    match ParsedChunks(buf)
    case None => 0
    case Some(cs) => ValueFrom(0, cs)
  }

  /** What __bitmap_parse accepts: well-formed text whose number fits in nmaskbits bits. */
  ghost predicate HexAccepts(buf: seq<char>, nmaskbits: nat)
  {
    ParsedChunks(buf).Some? && ValueFrom(0, ParsedChunks(buf).value) < Pow2(nmaskbits)
  }

  // Facts about the grammar, one shape of text each.

  /** No hex digit where a group must start. */
  lemma NoGroup(s: seq<char>, n: nat, g: nat, oe: bool)
    requires g <= n <= |s| && (g == n || !IsXDigit(s[g]))
    ensures Groups(s, n, g, oe) == None
  {
  }

  /** A group followed by a character that is neither a comma nor trailing whitespace. */
  lemma BadAfterGroup(s: seq<char>, n: nat, g: nat, e: nat, q: nat, oe: bool)
    requires g <= e <= q < n <= |s|
    requires AllHex(s, g, e)
    requires !IsXDigit(s[e]) && s[e] != ',' && !IsSpace(s[q])
    ensures Groups(s, n, g, oe) == None
  {
    HexEndAt(s, n, g, e);
  }

  /** A group whose digits already denote 2^32 or more. */
  lemma GroupTooBig(s: seq<char>, n: nat, g: nat, q: nat, oe: bool)
    requires g <= q <= n <= |s|
    requires AllHex(s, g, q)
    requires HexValue(s, g, q) >= TWO32
    ensures Groups(s, n, g, oe) == None
  {
    var e := HexEnd(s, n, g);
    assert q <= e;
    HexPrefix(s, g, q, e);
  }

  /** A group, then whitespace to the end of the text. */
  lemma LastGroup(s: seq<char>, n: nat, g: nat, e: nat, oe: bool)
    requires g < e <= n <= |s|
    requires AllHex(s, g, e)
    requires HexValue(s, g, e) < TWO32
    requires AllSpace(s, e, n)
    ensures Groups(s, n, g, oe) == Some([HexValue(s, g, e)])
  {
    HexEndAt(s, n, g, e);
  }

  /** A group, then a comma. */
  lemma CommaGroup(s: seq<char>, n: nat, g: nat, e: nat, oe: bool)
    requires g < e < n <= |s| && s[e] == ','
    requires AllHex(s, g, e)
    requires HexValue(s, g, e) < TWO32
    ensures Groups(s, n, g, oe) ==
      if e + 1 == n && oe then Some([HexValue(s, g, e)])
      else Then([HexValue(s, g, e)], Groups(s, n, e + 1, oe))
  {
    HexEndAt(s, n, g, e);
    assert !AllSpace(s, e, n) by { assert !IsSpace(s[e]); }
  }

  lemma {:induction false} HexEndAt(s: seq<char>, n: nat, g: nat, e: nat)
    requires g <= e <= n <= |s|
    requires AllHex(s, g, e)
    requires e == n || !IsXDigit(s[e])
    ensures HexEnd(s, n, g) == e
    decreases e - g
  {
    if g < e {
      HexEndAt(s, n, g + 1, e);
    }
  }

  lemma {:induction false} SpaceEndAt(s: seq<char>, n: nat, g: nat, e: nat)
    requires g <= e <= n <= |s|
    requires AllSpace(s, g, e)
    requires e == n || !IsSpace(s[e])
    ensures SpaceEnd(s, n, g) == e
    decreases e - g
  {
    if g < e {
      SpaceEndAt(s, n, g + 1, e);
    }
  }

  /** Fewer digits never denote a larger number. */
  lemma {:induction false} HexPrefix(s: seq<char>, a: nat, q: nat, b: nat)
    requires a <= q <= b <= |s| && AllHex(s, a, b)
    ensures HexValue(s, a, q) <= HexValue(s, a, b)
    decreases b - q
  {
    if q < b {
      HexPrefix(s, a, q, b - 1);
    }
  }

  lemma {:induction false} ValueAppend(acc: nat, a: seq<nat>, b: seq<nat>)
    ensures ValueFrom(acc, a + b) == ValueFrom(ValueFrom(acc, a), b)
    decreases |a|
  {
    if |a| > 0 {
      assert (a + b)[1..] == a[1..] + b;
      ValueAppend(acc * TWO32 + a[0], a[1..], b);
    } else {
      assert a + b == b;
    }
  }

  lemma {:induction false} ValueGrows(acc: nat, cs: seq<nat>)
    ensures acc <= ValueFrom(acc, cs)
    decreases |cs|
  {
    if |cs| > 0 {
      ValueGrows(acc * TWO32 + cs[0], cs[1..]);
    }
  }

  /** The bits of a * 2^n + c, for c below 2^n: the n bits of c under those of a. */
  lemma {:induction false} ConcatBit(a: nat, c: nat, n: nat, j: nat)
    requires c < Pow2(n)
    ensures Bit(a * Pow2(n) + c, j) == if j < n then Bit(c, j) else Bit(a, j - n)
    decreases n
  {
    if n > 0 {
      var v := a * Pow2(n) + c;
      assert a * Pow2(n) == 2 * (a * Pow2(n - 1));
      assert v / 2 == a * Pow2(n - 1) + c / 2 && v % 2 == c % 2;
      if j > 0 {
        ConcatBit(a, c / 2, n - 1, j - 1);
      }
    }
  }

  /** A set bit j makes a number at least 2^j. */
  lemma {:induction false} BitLower(v: nat, j: nat)
    requires Bit(v, j)
    ensures Pow2(j) <= v
  {
    if j > 0 {
      BitLower(v / 2, j - 1);
    }
  }

  /** A number below 2^n with no bit from r to n - 1 is below 2^r. */
  lemma {:induction false} NoHighBits(v: nat, n: nat, r: nat)
    requires v < Pow2(n)
    requires forall i :: r <= i < n ==> !Bit(v, i)
    ensures v < Pow2(r)
    decreases r
  {
    if n <= r {
      Pow2Monotone(n, r);
    } else if r == 0 {
      ZeroBits(0);
      forall i | 0 <= i < n
        ensures Bit(v, i) == Bit(0, i)
      {
        ZeroBit(i);
      }
      SameBits(v, 0, n);
    } else {
      forall i | r - 1 <= i < n - 1
        ensures !Bit(v / 2, i)
      {
        assert Bit(v, i + 1) == Bit(v / 2, i);
      }
      NoHighBits(v / 2, n - 1, r - 1);
    }
  }

  /** fls(w) = nbits_to_hold_value(w): 2^(fls(w)-1) <= w < 2^fls(w) for w > 0. */
  lemma FlsBounds(w: Word)
    requires w > 0
    ensures 1 <= Fls(w) && Pow2(Fls(w) - 1) <= w < Pow2(Fls(w))
  {
    Pow2Words();
    BitLower(w, Fls(w) - 1);
    NoHighBits(w, 64, Fls(w));
  }

  /** A further chunk adds 32 bits to the number's length. */
  lemma ChunkLength(v: nat, chunk: nat, nbits: nat)
    requires 1 <= nbits && Pow2(nbits - 1) <= v < Pow2(nbits) && chunk < TWO32
    ensures Pow2(nbits + 31) <= v * TWO32 + chunk < Pow2(nbits + 32)
  {
    Pow2Words();
    Pow2Add(nbits - 1, 32);
    Pow2Add(nbits, 32);
    MulMono(Pow2(nbits - 1), v, TWO32);
    MulMono(v + 1, Pow2(nbits), TWO32);
    Distrib(v, 1, TWO32);
  }

  /**
   * The bitmap after the shift by 32 and `*maskp |= chunk` holds v * 2^32 + chunk,
   * when that number fits in nmaskbits bits.
   */
  lemma AppendChunk(m: seq<Word>, m2: seq<Word>, v: nat, chunk: Word, nmaskbits: nat, lim: nat)
    requires 1 <= |m| && lim <= |m| && chunk < TWO32 && v * TWO32 + chunk < Pow2(nmaskbits)
    requires forall i :: 0 <= i < 64 * lim ==> TestBit(m, i) == (i < nmaskbits && 32 <= i && Bit(v, i - 32))
    requires m2 == m[0 := Or(m[0], chunk)]
    ensures forall i :: 0 <= i < 64 * lim ==> TestBit(m2, i) == Bit(v * TWO32 + chunk, i)
  {
    forall i | 0 <= i < 64 * lim
      ensures TestBit(m2, i) == Bit(v * TWO32 + chunk, i)
    {
      AppendChunkBit(m, m2, v, chunk, v * TWO32 + chunk, nmaskbits, i);
    }
  }

  lemma AppendChunkBit(m: seq<Word>, m2: seq<Word>, v: nat, chunk: Word, x: nat, nmaskbits: nat, i: nat)
    requires 1 <= |m| && i < 64 * |m| && chunk < TWO32 && x == v * TWO32 + chunk && x < Pow2(nmaskbits)
    requires TestBit(m, i) == (i < nmaskbits && 32 <= i && Bit(v, i - 32))
    requires m2 == m[0 := Or(m[0], chunk)]
    ensures TestBit(m2, i) == Bit(x, i)
  {
    Pow2Words();
    ConcatBit(v, chunk, 32, i);
    if i < 64 {
      OrBits(m[0], chunk);
      assert TestBit(m2, i) == (Bit(m[0], i) || Bit(chunk, i));
      assert TestBit(m, i) == Bit(m[0], i);
    } else {
      assert m2[1..] == m[1..];
      assert TestBit(m2, i) == TestBit(m[1..], i - 64) == TestBit(m, i);
    }
    if i >= nmaskbits {
      HighBit(x, nmaskbits, i);
      HighBit(chunk, nmaskbits, i);
    } else if i >= 32 {
      HighBit(chunk, 32, i);
    }
  }

  /**
   * Where the group of a chunk read from pos0 must start in the grammar:
   * after the leading whitespace for the first chunk.
   */
  function Start(buf: seq<char>, n: nat, pos0: nat): nat
    requires pos0 <= n <= |buf|
  {
    if pos0 == 0 then SpaceEnd(buf, n, 0) else pos0
  }

  /**
   * The chunks of the text from the chunk v on, when the chunk loop stopped
   * at pos on the character c: more follow only after a comma inside the buffer.
   */
  ghost function AfterChunk(buf: seq<char>, n: nat, oe: bool, v: nat, pos: nat, c: char): Option<seq<nat>>
    requires n <= |buf|
  {
    if pos < |buf| && c == ',' then Then([v], Groups(buf, n, pos, oe)) else Some([v])
  }

  /**
   * What the chunk loop has read from pos0 up to q: whitespace, then ndigits
   * hex digits from dStart, then whitespace. Only the first chunk may start
   * with whitespace before its digits.
   */
  ghost predicate Scanned(buf: seq<char>, n: nat, pos0: nat, dStart: nat, ndigits: nat, q: nat)
  {
    pos0 <= dStart <= dStart + ndigits <= q <= n <= |buf| &&
    AllSpace(buf, pos0, dStart) && AllHex(buf, dStart, dStart + ndigits) &&
    AllSpace(buf, dStart + ndigits, q) &&
    (ndigits == 0 ==> dStart == q) && (ndigits > 0 && pos0 > 0 ==> dStart == pos0)
  }

  /** The group the chunk has read so far begins where the grammar expects it. */
  lemma ScannedStart(buf: seq<char>, n: nat, pos0: nat, dStart: nat, ndigits: nat, q: nat)
    requires Scanned(buf, n, pos0, dStart, ndigits, q) && ndigits > 0
    ensures Start(buf, n, pos0) == dStart
  {
    if pos0 == 0 {
      SpaceEndAt(buf, n, 0, dStart);
    }
  }

  /** A non-NUL character after whitespace, after some digit of the text: embedded whitespace. */
  lemma EmbeddedSpace(buf: seq<char>, n: nat, oe: bool, pos0: nat, dStart: nat, ndigits: nat, q: nat)
    requires Scanned(buf, n, pos0, dStart, ndigits, q) && pos0 < q < n
    requires !IsSpace(buf[q]) && IsSpace(buf[q - 1]) && (pos0 == 0 ==> ndigits > 0)
    ensures Groups(buf, n, Start(buf, n, pos0), oe) == None
  {
    if ndigits > 0 {
      ScannedStart(buf, n, pos0, dStart, ndigits, q);
      BadAfterGroup(buf, n, dStart, dStart + ndigits, q, oe);
    } else {
      NoGroup(buf, n, pos0, oe);
    }
  }

  /** A character that is neither whitespace, a hex digit nor a comma. */
  lemma BadChar(buf: seq<char>, n: nat, oe: bool, pos0: nat, dStart: nat, ndigits: nat, q: nat)
    requires Scanned(buf, n, pos0, dStart, ndigits, q) && q < n
    requires !IsSpace(buf[q]) && !IsXDigit(buf[q]) && buf[q] != ','
    ensures Groups(buf, n, Start(buf, n, pos0), oe) == None
  {
    if ndigits > 0 {
      ScannedStart(buf, n, pos0, dStart, ndigits, q);
      BadAfterGroup(buf, n, dStart, dStart + ndigits, q, oe);
    } else if pos0 == 0 {
      SpaceEndAt(buf, n, 0, q);
      NoGroup(buf, n, q, oe);
    } else {
      NoGroup(buf, n, pos0, oe);
    }
  }

  /** A digit met when the chunk is already 2^28 or more: the group denotes 2^32 or more. */
  lemma TooBig(buf: seq<char>, n: nat, oe: bool, pos0: nat, dStart: nat, ndigits: nat, q: nat)
    requires Scanned(buf, n, pos0, dStart, ndigits, q) && q < n
    requires q == pos0 || !IsSpace(buf[q - 1])
    requires IsXDigit(buf[q]) && HexValue(buf, dStart, dStart + ndigits) >= 0x1000_0000
    ensures Groups(buf, n, Start(buf, n, pos0), oe) == None
  {
    assert ndigits > 0;
    assert dStart + ndigits == q;
    ScannedStart(buf, n, pos0, dStart, ndigits, q);
    GroupTooBig(buf, n, dStart, q + 1, oe);
  }

  /**
   * The chunk loop has stopped at pos: at the end of the buffer, or just past
   * a NUL or a comma. The chunk's group and what follows it.
   */
  lemma Finish(buf: seq<char>, n: nat, oe: bool, pos0: nat, dStart: nat, ndigits: nat, pos: nat, c: char, chunk: nat, broke: bool)
    requires n == NulFrom(buf, 0) && oe == (n == |buf|)
    requires broke ==> 0 < pos <= |buf| && ChunkAt(buf, n, pos0, dStart, ndigits, pos - 1, chunk)
    requires broke ==> buf[pos - 1] == c && (c == '\0' || c == ',')
    requires broke && c == ',' && ndigits > 0 ==> pos - 1 == pos0 || !IsSpace(buf[pos - 2])
    requires !broke ==> pos == |buf| && ChunkAt(buf, n, pos0, dStart, ndigits, pos, chunk)
    ensures ndigits == 0 ==> Groups(buf, n, Start(buf, n, pos0), oe) == None
    ensures ndigits > 0 ==> pos0 < pos && chunk < TWO32
    ensures ndigits > 0 && pos < |buf| && c == ',' ==> pos <= n
    ensures ndigits > 0 ==> Groups(buf, n, Start(buf, n, pos0), oe) == AfterChunk(buf, n, oe, chunk, pos, c)
  {
    var q := if broke then pos - 1 else pos;
    if ndigits == 0 {
      if pos0 == 0 {
        SpaceEndAt(buf, n, 0, q);
        NoGroup(buf, n, q, oe);
      } else {
        NoGroup(buf, n, pos0, oe);
      }
    } else {
      ScannedStart(buf, n, pos0, dStart, ndigits, q);
      if broke && c == ',' {
        assert dStart + ndigits == q;
        CommaGroup(buf, n, dStart, dStart + ndigits, oe);
      } else {
        LastGroup(buf, n, dStart, dStart + ndigits, oe);
      }
    }
  }

  /** The state of the chunk loop at q: what it has read, and the value of the digits. */
  ghost predicate ChunkAt(buf: seq<char>, n: nat, pos0: nat, dStart: nat, ndigits: nat, q: nat, chunk: nat)
  {
    Scanned(buf, n, pos0, dStart, ndigits, q) && chunk == HexValue(buf, dStart, dStart + ndigits) && chunk < TWO32
  }

  /** Whitespace read: before the digits it moves their start along. */
  lemma ScanSpace(buf: seq<char>, n: nat, pos0: nat, dStart: nat, ndigits: nat, q: nat, chunk: nat)
    requires ChunkAt(buf, n, pos0, dStart, ndigits, q, chunk) && q < n && IsSpace(buf[q])
    ensures ChunkAt(buf, n, pos0, if ndigits == 0 then q + 1 else dStart, ndigits, q + 1, chunk)
  {
  }

  /** A digit read after anything but whitespace, or before any digit of the text. */
  lemma ScanDigit(buf: seq<char>, n: nat, pos0: nat, dStart: nat, ndigits: nat, q: nat, chunk: nat)
    requires ChunkAt(buf, n, pos0, dStart, ndigits, q, chunk) && q < n && IsXDigit(buf[q])
    requires ndigits > 0 || pos0 > 0 ==> q == pos0 || !IsSpace(buf[q - 1])
    requires chunk < 0x1000_0000
    ensures ChunkAt(buf, n, pos0, dStart, ndigits + 1, q + 1, chunk * 16 + Unhex(buf[q]))
  {
    assert dStart + ndigits == q;
  }

  /** What one character does to the chunk loop. */
  datatype Step = Next | Stop | Fail(err: int)

  /**
   * One pass of the chunk loop, on the character at q, where oldC is the
   * character before it (or the one before the chunk): whitespace is skipped,
   * a digit is added to chunk, a NUL or a comma ends the chunk, and embedded
   * whitespace, another character, or a hex digit met when chunk already
   * has a bit at or above 2^28 (a ninth significant digit), is an error
   * whose text is not well formed from pos0.
   */
  method ScanStep(buf: seq<char>, q: nat, oldC: char, chunk: Word, ndigits: nat, totaldigits: nat,
                  ghost n: nat, ghost oe: bool, ghost pos0: nat, ghost dStart: nat)
    returns (act: Step, chunk': Word, ndigits': nat, totaldigits': nat, ghost dStart': nat)
    requires n == NulFrom(buf, 0) && q < |buf|
    requires ChunkAt(buf, n, pos0, dStart, ndigits, q, chunk)
    requires totaldigits >= ndigits && (totaldigits == ndigits <==> pos0 == 0)
    requires q > pos0 ==> oldC == buf[q - 1]
    requires q == pos0 ==> !IsSpace(oldC)
    ensures act.Fail? ==> (act.err == -EINVAL || act.err == -EOVERFLOW) && Groups(buf, n, Start(buf, n, pos0), oe) == None
    ensures act == Next ==> ChunkAt(buf, n, pos0, dStart', ndigits', q + 1, chunk')
    ensures act == Next ==> totaldigits' - ndigits' == totaldigits - ndigits
    ensures act == Stop ==> (buf[q] == '\0' || buf[q] == ',')
    ensures act == Stop ==> chunk' == chunk && ndigits' == ndigits && totaldigits' == totaldigits && dStart' == dStart
    ensures act == Stop && buf[q] == ',' && ndigits > 0 ==> q == pos0 || !IsSpace(buf[q - 1])
  {
    var c := buf[q];
    chunk', ndigits', totaldigits', dStart' := chunk, ndigits, totaldigits, dStart;
    assert q < n || c == '\0';
    if IsSpace(c) {
      ScanSpace(buf, n, pos0, dStart, ndigits, q, chunk);
      if ndigits == 0 {
        dStart' := q + 1;
      }
      return Next, chunk', ndigits', totaldigits', dStart';
    }
    if totaldigits > 0 && c != '\0' && IsSpace(oldC) {
      // embedded whitespace
      EmbeddedSpace(buf, n, oe, pos0, dStart, ndigits, q);
      return Fail(-EINVAL), chunk', ndigits', totaldigits', dStart';
    }
    if c == '\0' || c == ',' {
      return Stop, chunk', ndigits', totaldigits', dStart';
    }
    if !IsXDigit(c) {
      BadChar(buf, n, oe, pos0, dStart, ndigits, q);
      return Fail(-EINVAL), chunk', ndigits', totaldigits', dStart';
    }
    if chunk >= 0x1000_0000 {
      // chunk & ~((1UL << (CHUNKSZ - 4)) - 1): no room for four more bits
      TooBig(buf, n, oe, pos0, dStart, ndigits, q);
      return Fail(-EOVERFLOW), chunk', ndigits', totaldigits', dStart';
    }
    ScanDigit(buf, n, pos0, dStart, ndigits, q, chunk);
    chunk' := chunk * 16 + Unhex(c);
    ndigits' := ndigits + 1;
    totaldigits' := totaldigits + 1;
    act := Next;
  }

  /**
   * The inner loop of __bitmap_parse: reads one chunk from pos0, where c0 is
   * the character before it, or 0 at the start. On an error the text is not
   * well formed from there; otherwise the loop stopped at the end of the
   * buffer (broke false) or just past a NUL or a comma, having read
   * whitespace and the digits of chunk from dStart.
   */
  method ScanChunk(buf: seq<char>, pos0: nat, c0: char, totaldigits0: nat, ghost n: nat, ghost oe: bool)
    returns (err: int, pos: nat, c: char, chunk: Word, ndigits: nat, totaldigits: nat, ghost dStart: nat, ghost broke: bool)
    requires n == NulFrom(buf, 0) && pos0 <= n
    requires !IsSpace(c0) && (pos0 == 0 <==> totaldigits0 == 0)
    ensures err == 0 || err == -EINVAL || err == -EOVERFLOW
    ensures err != 0 ==> Groups(buf, n, Start(buf, n, pos0), oe) == None
    ensures err == 0 ==> pos0 <= pos <= |buf| && totaldigits == totaldigits0 + ndigits
    ensures err == 0 && broke ==> 0 < pos && ChunkAt(buf, n, pos0, dStart, ndigits, pos - 1, chunk)
    ensures err == 0 && broke ==> buf[pos - 1] == c && (c == '\0' || c == ',')
    ensures err == 0 && broke && c == ',' && ndigits > 0 ==> pos - 1 == pos0 || !IsSpace(buf[pos - 2])
    ensures err == 0 && !broke ==> pos == |buf| && ChunkAt(buf, n, pos0, dStart, ndigits, pos, chunk)
  {
    dStart := pos0;
    pos, c, chunk, ndigits, totaldigits := pos0, c0, 0, 0, totaldigits0;
    err := 0;
    broke := false;
    while pos < |buf|
      invariant ChunkAt(buf, n, pos0, dStart, ndigits, pos, chunk)
      invariant totaldigits == totaldigits0 + ndigits
      invariant pos > pos0 ==> c == buf[pos - 1]
      invariant pos == pos0 ==> c == c0
      decreases |buf| - pos
    {
      var oldC := c;
      var act;
      act, chunk, ndigits, totaldigits, dStart := ScanStep(buf, pos, oldC, chunk, ndigits, totaldigits, n, oe, pos0, dStart);
      c := buf[pos];
      pos := pos + 1;
      if act == Stop {
        broke := true;
        break;
      }
      if act.Fail? {
        return act.err, pos, c, chunk, ndigits, totaldigits, dStart, broke;
      }
    }
  }

  /** One chunk of __bitmap_parse and what the grammar says of the text from pos0 on. */
  method ReadChunk(buf: seq<char>, pos0: nat, c0: char, totaldigits0: nat, ghost n: nat, ghost oe: bool)
    returns (err: int, pos: nat, c: char, chunk: Word, ndigits: nat, totaldigits: nat)
    requires n == NulFrom(buf, 0) && oe == (n == |buf|) && pos0 <= n
    requires !IsSpace(c0) && (pos0 == 0 <==> totaldigits0 == 0)
    ensures err == 0 || err == -EINVAL || err == -EOVERFLOW
    ensures err != 0 || ndigits == 0 ==> Groups(buf, n, Start(buf, n, pos0), oe) == None
    ensures err == 0 && ndigits > 0 ==> pos0 < pos <= |buf| && chunk < TWO32 && totaldigits > 0
    ensures err == 0 && ndigits > 0 && pos < |buf| && c == ',' ==> pos <= n
    ensures err == 0 && ndigits > 0 ==> Groups(buf, n, Start(buf, n, pos0), oe) == AfterChunk(buf, n, oe, chunk, pos, c)
  {
    ghost var dStart, broke;
    err, pos, c, chunk, ndigits, totaldigits, dStart, broke := ScanChunk(buf, pos0, c0, totaldigits0, n, oe);
    if err == 0 {
      Finish(buf, n, oe, pos0, dStart, ndigits, pos, c, chunk, broke);
    }
  }

  lemma ThenEmpty(rest: Option<seq<nat>>)
    ensures Then([], rest) == rest
  {
    if rest.Some? {
      assert [] + rest.value == rest.value;
    }
  }

  lemma ThenThen(done: seq<nat>, v: nat, rest: Option<seq<nat>>)
    ensures Then(done, Then([v], rest)) == Then(done + [v], rest)
  {
    if rest.Some? {
      assert done + ([v] + rest.value) == done + [v] + rest.value;
    }
  }

  /** The chunks read so far, then the rest, denote a number at least as large as those read. */
  lemma {:induction false} ValueOfPrefix(done: seq<nat>, cs: seq<nat>)
    ensures ValueFrom(0, done) <= ValueFrom(0, done + cs)
  {
    ValueAppend(0, done, cs);
    ValueGrows(ValueFrom(0, done), cs);
  }

  /** A number that takes nbits bits fits in nmaskbits bits just when nbits <= nmaskbits. */
  lemma LengthFits(v: nat, nbits: nat, nmaskbits: nat)
    requires 1 <= nbits && Pow2(nbits - 1) <= v < Pow2(nbits)
    ensures v < Pow2(nmaskbits) <==> nbits <= nmaskbits
  {
    if nbits <= nmaskbits {
      Pow2Monotone(nbits, nmaskbits);
    } else {
      Pow2Monotone(nmaskbits, nbits - 1);
    }
  }

  /** The bitmap's first lim words hold the number v. */
  ghost predicate Holds(m: seq<Word>, lim: nat, v: nat)
    requires lim <= |m|
  {
    forall i :: 0 <= i < 64 * lim ==> TestBit(m, i) == Bit(v, i)
  }

  /** nbits is the length of v in bits, counted as __bitmap_parse counts it over nchunks chunks. */
  ghost predicate Length(nchunks: nat, nbits: nat, v: nat)
  {
    (nchunks == 0 ==> v == 0 && nbits == 0) &&
    (nchunks > 0 ==> 1 <= nbits && Pow2(nbits - 1) <= v < Pow2(nbits))
  }

  /**
   * The body of __bitmap_parse's chunk loop after a chunk other than a
   * leading zero: shift the bitmap up by 32 bits, or the chunk in and count
   * its bits. overflow says the new number does not fit in nmaskbits bits.
   */
  method AddChunk(bitmap: array<Word>, nmaskbits: nat, chunk: Word, nchunks: nat, nbits: nat, ghost v: nat)
    returns (overflow: bool, nchunks': nat, nbits': nat)
    requires 1 <= bitmap.Length && chunk < TWO32 && !(nchunks == 0 && chunk == 0)
    requires Built(nmaskbits, bitmap[..], nchunks, nbits, v)
    modifies bitmap
    ensures overflow <==> v * TWO32 + chunk >= Pow2(nmaskbits)
    ensures !overflow ==> Built(nmaskbits, bitmap[..], nchunks', nbits', v * TWO32 + chunk)
    ensures forall k :: 1 <= k && BitsToLongs(nmaskbits) <= k < bitmap.Length ==> bitmap[k] == old(bitmap[k])
  {
    ghost var m := bitmap[..];
    var lim := BitsToLongs(nmaskbits);
    ShiftLeft(bitmap, bitmap, 32, nmaskbits);
    ghost var m1 := bitmap[..];
    forall i | 0 <= i < 64 * lim
      ensures TestBit(m1, i) == (i < nmaskbits && 32 <= i && Bit(v, i - 32))
    {
      assert TestBit(m1, i) == ShiftedLeft(m, nmaskbits, 32, i);
    }
    bitmap[0] := Or(bitmap[0], chunk);
    nchunks' := nchunks + 1;
    if nchunks' == 1 {
      FlsBounds(chunk);
      nbits' := nbits + Fls(chunk);
    } else {
      ChunkLength(v, chunk, nbits);
      nbits' := nbits + 32;
    }
    LengthFits(v * TWO32 + chunk, nbits', nmaskbits);
    overflow := nbits' > nmaskbits;
    if !overflow {
      AppendChunk(m1, bitmap[..], v, chunk, nmaskbits, lim);
    }
  }

  /**
   * Where __bitmap_parse is in the text, before a chunk (more) or at the end:
   * the chunks done so far and the rest of the text's chunks make up what
   * the text holds.
   */
  ghost predicate Reading(buf: seq<char>, n: nat, oe: bool, pos: nat, c: char, totaldigits: nat,
                          more: bool, done: seq<nat>, rest: Option<seq<nat>>)
  {
    n == NulFrom(buf, 0) && oe == (n == |buf|) &&
    pos <= |buf| && (more ==> pos <= n) && (pos == 0 <==> totaldigits == 0) && (more ==> !IsSpace(c)) &&
    ParsedChunks(buf) == Then(done, rest) &&
    (more ==> rest == Groups(buf, n, Start(buf, n, pos), oe)) && (!more ==> rest == Some([]))
  }

  /** What __bitmap_parse has built: the bitmap holds v, and nbits is its length. */
  ghost predicate Built(nmaskbits: nat, m: seq<Word>, nchunks: nat, nbits: nat, v: nat)
  {
    BitsToLongs(nmaskbits) <= |m| && Length(nchunks, nbits, v) && nbits <= nmaskbits &&
    Holds(m, BitsToLongs(nmaskbits), v)
  }

  /** A chunk read: the text from the position after it. */
  lemma ReadingNext(buf: seq<char>, n: nat, oe: bool, pos: nat, c: char, totaldigits: nat, done: seq<nat>,
                    rest: Option<seq<nat>>, pos': nat, c': char, chunk: nat, totaldigits': nat)
    requires Reading(buf, n, oe, pos, c, totaldigits, true, done, rest)
    requires pos < pos' <= |buf| && totaldigits' > 0
    requires pos' < |buf| && c' == ',' ==> pos' <= n
    requires Groups(buf, n, Start(buf, n, pos), oe) == AfterChunk(buf, n, oe, chunk, pos', c')
    ensures Reading(buf, n, oe, pos', c', totaldigits', pos' < |buf| && c' == ',', done + [chunk],
                    if pos' < |buf| && c' == ',' then Groups(buf, n, Start(buf, n, pos'), oe) else Some([]))
  {
    ThenThen(done, chunk, if pos' < |buf| && c' == ',' then Groups(buf, n, pos', oe) else Some([]));
    assert [chunk] + [] == [chunk];
  }

  /**
   * One pass of __bitmap_parse's outer loop: read a chunk and, unless it is a
   * leading zero, shift it into the bitmap. A nonzero result is the error
   * __bitmap_parse returns; the text is then not accepted.
   */
  method NextChunk(buf: seq<char>, bitmap: array<Word>, nmaskbits: nat, pos: nat, c: char, totaldigits: nat,
                   nchunks: nat, nbits: nat, ghost n: nat, ghost oe: bool, ghost done: seq<nat>, ghost rest: Option<seq<nat>>)
    returns (r: int, pos': nat, c': char, totaldigits': nat, nchunks': nat, nbits': nat, more': bool,
             ghost done': seq<nat>, ghost rest': Option<seq<nat>>)
    requires 1 <= bitmap.Length
    requires Reading(buf, n, oe, pos, c, totaldigits, true, done, rest)
    requires Built(nmaskbits, bitmap[..], nchunks, nbits, ValueFrom(0, done))
    modifies bitmap
    ensures r == 0 || r == -EINVAL || r == -EOVERFLOW
    ensures r != 0 ==> !HexAccepts(buf, nmaskbits)
    ensures r == -EINVAL ==> ParsedChunks(buf) == None
    ensures r == 0 ==> pos < pos' && Reading(buf, n, oe, pos', c', totaldigits', more', done', rest')
    ensures r == 0 ==> Built(nmaskbits, bitmap[..], nchunks', nbits', ValueFrom(0, done'))
    ensures forall k :: 1 <= k && BitsToLongs(nmaskbits) <= k < bitmap.Length ==> bitmap[k] == old(bitmap[k])
  {
    var err, chunk, ndigits;
    err, pos', c', chunk, ndigits, totaldigits' := ReadChunk(buf, pos, c, totaldigits, n, oe);
    nchunks', nbits', done', rest' := nchunks, nbits, done, rest;
    if err != 0 {
      return err, pos', c', totaldigits', nchunks', nbits', false, done', rest';
    }
    if ndigits == 0 {
      return -EINVAL, pos', c', totaldigits', nchunks', nbits', false, done', rest';
    }
    ghost var v := ValueFrom(0, done);
    ValueAppend(0, done, [chunk]);
    ReadingNext(buf, n, oe, pos, c, totaldigits, done, rest, pos', c', chunk, totaldigits');
    more' := pos' < |buf| && c' == ',';
    done' := done + [chunk];
    rest' := if more' then Groups(buf, n, Start(buf, n, pos'), oe) else Some([]);
    if nchunks == 0 && chunk == 0 {
      assert ValueFrom(0, done') == 0;
      return 0, pos', c', totaldigits', nchunks', nbits', more', done', rest';
    }
    var overflow;
    overflow, nchunks', nbits' := AddChunk(bitmap, nmaskbits, chunk, nchunks, nbits, v);
    if overflow {
      if rest'.Some? {
        ValueOfPrefix(done', rest'.value);
      }
      return -EOVERFLOW, pos', c', totaldigits', nchunks', nbits', more', done', rest';
    }
    r := 0;
  }

  /**
   * __bitmap_parse: the bitmap holds the number the text denotes, and 0 is
   * returned, exactly when the text is well formed and its number fits in
   * nmaskbits bits. -EINVAL is returned only for malformed text, so a well
   * formed text fails with -EOVERFLOW exactly when its number is too large.
   * A malformed text may fail with either code: the first error met in the
   * scan wins, and a group of more than 32 bits, or a prefix of groups
   * already too large, is met as -EOVERFLOW before a later syntax error.
   * Only the words that hold nmaskbits bits are written, and word 0, which
   * `*maskp |= chunk` writes even when nmaskbits is 0.
   */
  method BitmapParseHex(buf: seq<char>, bitmap: array<Word>, nmaskbits: nat) returns (r: int)
    requires 1 <= bitmap.Length && BitsToLongs(nmaskbits) <= bitmap.Length
    modifies bitmap
    ensures r == 0 || r == -EINVAL || r == -EOVERFLOW
    ensures r == 0 <==> HexAccepts(buf, nmaskbits)
    ensures r == -EINVAL ==> ParsedChunks(buf) == None
    ensures ParsedChunks(buf).Some? ==> (r == -EOVERFLOW <==> ValueFrom(0, ParsedChunks(buf).value) >= Pow2(nmaskbits))
    ensures r == 0 ==> forall i :: 0 <= i < 64 * BitsToLongs(nmaskbits) ==> TestBit(bitmap[..], i) == Bit(ParsedValue(buf), i)
    ensures forall k :: 1 <= k && BitsToLongs(nmaskbits) <= k < bitmap.Length ==> bitmap[k] == old(bitmap[k])
  {
    ghost var n := NulFrom(buf, 0);
    ghost var oe := n == |buf|;
    var lim := BitsToLongs(nmaskbits);
    ZeroWords(bitmap, 0, lim);
    forall i | 0 <= i < 64 * lim
      ensures TestBit(bitmap[..], i) == Bit(0, i)
    {
      TestBitAt(bitmap[..], i);
      ZeroBit(i % 64);
      ZeroBit(i);
    }
    var nchunks: nat, nbits: nat, totaldigits: nat, c: char := 0, 0, 0, '\0';
    var pos: nat := 0;
    ghost var done: seq<nat> := [];
    ghost var rest := ParsedChunks(buf);
    ThenEmpty(rest);
    var more := true;
    while more
      invariant Reading(buf, n, oe, pos, c, totaldigits, more, done, rest)
      invariant Built(nmaskbits, bitmap[..], nchunks, nbits, ValueFrom(0, done))
      invariant forall k :: 1 <= k && lim <= k < bitmap.Length ==> bitmap[k] == old(bitmap[k])
      decreases |buf| - pos + (if more then 1 else 0)
    {
      r, pos, c, totaldigits, nchunks, nbits, more, done, rest :=
        NextChunk(buf, bitmap, nmaskbits, pos, c, totaldigits, nchunks, nbits, n, oe, done, rest);
      if r != 0 {
        return r;
      }
    }
    assert done + [] == done;
    if nchunks > 0 {
      LengthFits(ValueFrom(0, done), nbits, nmaskbits);
    }
    return 0;
  }
}
