/** Powers of two, shared by the word-level models. */
module Pow {
  function Pow2(n: nat): (r: nat)
    ensures r >= 1
  {
    if n == 0 then 1 else 2 * Pow2(n - 1)
  }

  lemma {:induction false} Pow2Add(a: nat, b: nat)
    ensures Pow2(a + b) == Pow2(a) * Pow2(b)
  {
    if a > 0 {
      Pow2Add(a - 1, b);
    }
  }

  lemma {:induction false} Pow2Monotone(a: nat, b: nat)
    requires a <= b
    ensures Pow2(a) <= Pow2(b)
  {
    if a < b {
      Pow2Monotone(a, b - 1);
    }
  }

  lemma Pow2Words()
    ensures Pow2(32) == 0x1_0000_0000 && Pow2(64) == 0x1_0000_0000_0000_0000
  {
    assert Pow2(2) == 4;
    Pow2Double(2, 4);
    Pow2Double(4, 16);
    Pow2Double(8, 0x100);
    Pow2Double(16, 0x1_0000);
    Pow2Double(32, 0x1_0000_0000);
  }

  lemma Pow2Double(k: nat, v: nat)
    requires Pow2(k) == v
    ensures Pow2(2 * k) == v * v
  {
    Pow2Add(k, k);
  }

  /** The powers the hash functions and the word helpers use, as literals. */
  lemma Pow2Facts()
    ensures Pow2(2) == 4 && Pow2(3) == 8 && Pow2(4) == 16 && Pow2(6) == 64
    ensures Pow2(16) == 0x1_0000 && Pow2(18) == 0x4_0000 && Pow2(19) == 0x8_0000
    ensures Pow2(22) == 0x40_0000 && Pow2(25) == 0x200_0000 && Pow2(29) == 0x2000_0000
    ensures Pow2(31) == 0x8000_0000 && Pow2(32) == 0x1_0000_0000 && Pow2(33) == 0x2_0000_0000
    ensures Pow2(51) == 0x8_0000_0000_0000 && Pow2(54) == 0x40_0000_0000_0000
    ensures Pow2(57) == 0x200_0000_0000_0000 && Pow2(61) == 0x2000_0000_0000_0000
    ensures Pow2(63) == 0x8000_0000_0000_0000 && Pow2(64) == 0x1_0000_0000_0000_0000
  {
    assert Pow2(8) == 0x100;
    Pow2Add(8, 8);
    Pow2Add(16, 2);
    Pow2Add(16, 3);
    Pow2Add(16, 6);
    Pow2Add(16, 9);
    Pow2Add(16, 13);
    Pow2Add(16, 15);
    Pow2Add(16, 16);
    Pow2Add(32, 1);
    Pow2Add(32, 19);
    Pow2Add(32, 22);
    Pow2Add(32, 25);
    Pow2Add(32, 29);
    Pow2Add(32, 31);
    Pow2Add(32, 32);
  }

  /** h < a * b implies h / b < a, and h / b brackets h between multiples of b. */
  lemma DivBelow(h: nat, a: nat, b: nat)
    requires b >= 1 && h < a * b
    ensures h / b < a
    ensures (h / b) * b <= h < (h / b + 1) * b
  {
    var q := h / b;
    if q >= a {
      MulMono(a, q, b);
      assert false;
    }
  }

  /** `x >> k` on an unsigned value. */
  function ShrNat(x: nat, k: nat): nat
  {
    Quot(x, Pow2(k))
  }

  /** Unsigned division. */
  function Quot(x: nat, d: nat): nat
    requires d >= 1
  {
    x / d
  }

  /** Dropping the low `shift` bits of a value below 2^(bits + shift) leaves a value below 2^bits. */
  lemma TopBits(h: nat, bits: nat, shift: nat)
    requires h < Pow2(bits + shift)
    ensures ShrNat(h, shift) < Pow2(bits)
    ensures ShrNat(h, shift) * Pow2(shift) <= h < (ShrNat(h, shift) + 1) * Pow2(shift)
  {
    Pow2Add(bits, shift);
    DivBelow(h, Pow2(bits), Pow2(shift));
  }

  /** TopBits for a w-bit word, w being 32 or 64 in the callers, shifted right by w - bits. */
  lemma TopOfWord(h: nat, bits: nat, w: nat, wsize: nat)
    requires wsize == Pow2(w) && 1 <= bits <= w && h < wsize
    ensures ShrNat(h, w - bits) < Pow2(bits) <= wsize
    ensures ShrNat(h, w - bits) * Pow2(w - bits) <= h < (ShrNat(h, w - bits) + 1) * Pow2(w - bits)
  {
    Pow2Monotone(bits, w);
    TopBits(h, bits, w - bits);
  }

  lemma MulMono(a: nat, q: nat, b: nat)
    requires a <= q
    ensures a * b <= q * b
  {
  }

  lemma Distrib(a: nat, d: nat, n: nat)
    ensures (a + d) * n == a * n + d * n
  {
  }

  /** x = a * n + r with r < n fixes the quotient and the remainder. */
  lemma DivModUnique(x: nat, a: nat, r: nat, n: nat)
    requires n >= 1 && r < n && x == a * n + r
    ensures x / n == a && x % n == r
  {
    var a', r' := x / n, x % n;
    assert x == a' * n + r';
    if a > a' {
      MulMono(1, a - a', n);
      Distrib(a', a - a', n);
      assert false;
    } else if a < a' {
      MulMono(1, a' - a, n);
      Distrib(a, a' - a, n);
      assert false;
    }
  }

  lemma MulMod(c: nat, n: nat)
    requires n >= 1
    ensures (c * n) % n == 0 && (c * n) / n == c
  {
    DivModUnique(c * n, c, 0, n);
  }

  /** Two multiples of n less than n apart are equal. */
  lemma AlignedBetween(q: nat, p: nat, n: nat)
    requires n >= 1 && q % n == 0 && p % n == 0 && p <= q < p + n
    ensures q == p
  {
    var a, c := q / n, p / n;
    assert q == a * n && p == c * n;
    if a > c {
      MulMono(c + 1, a, n);
      Distrib(c, 1, n);
    } else if a < c {
      MulMono(a + 1, c, n);
      Distrib(a, 1, n);
    }
  }
}
