/** 32-bit words: the host's int and unsigned int as two's complement integers. */
module Words {
  const W: int := 0x1_0000_0000          // 2^32
  const HALF: int := 0x8000_0000         // 2^31
  const WW: int := 0x1_0000_0000_0000_0000   // 2^64

  type Word = x: int | 0 <= x < 0x1_0000_0000              // unsigned int
  type Int32 = x: int | -0x8000_0000 <= x < 0x8000_0000    // int

  /** The bit pattern of an int. */
  function Unsigned(x: Int32): Word { if x < 0 then x + W else x }

  /** The int with a given bit pattern. */
  function Signed(w: Word): Int32 { if w >= HALF then w - W else w }

  /** Wrap-around of 32-bit arithmetic. */
  function Wrap(x: int): Word { x % W }

  function DivRoundUp(n: nat, s: nat): nat
    requires s > 0
  {
    n / s + if n % s > 0 then 1 else 0
  }

  lemma AtLeast(k: int, p: int)
    requires k >= 1 && p >= 1
    ensures k * p >= p
  {}

  /** A quotient is determined by its bounds. */
  lemma QuotientIs(x: int, p: int, q: int)
    requires p >= 1 && q * p <= x < q * p + p
    ensures x / p == q
  {
    var d := x / p;
    assert x == d * p + x % p;
    assert (d - q) * p == d * p - q * p;
    assert (q - d) * p == q * p - d * p;
    if d > q { AtLeast(d - q, p); }
    if d < q { AtLeast(q - d, p); }
  }
}

/** The shift-and-add multiplier Mult of machine/mipssim.cc. */
module Multiplier {
  import opened Words

  function Pow2(n: nat): nat { if n == 0 then 1 else 2 * Pow2(n - 1) }

  lemma {:induction false} Pow2Monotone(m: nat, n: nat)
    requires m <= n
    ensures 1 <= Pow2(m) <= Pow2(n)
  {
    if m < n {
      Pow2Monotone(m, n - 1);
    } else if m > 0 {
      Pow2Monotone(m - 1, m - 1);
    }
  }

  lemma Pow2Values()
    ensures Pow2(32) == W && Pow2(64) == WW
  {
    assert Pow2(8) == 256;
    assert Pow2(16) == 0x10000;
    assert Pow2(24) == 0x100_0000;
    assert Pow2(32) == W;
    assert Pow2(40) == 0x100 * W;
    assert Pow2(48) == 0x10000 * W;
    assert Pow2(56) == 0x100_0000 * W;
  }

  /** -a on the host: two's complement negation of a 32-bit int. */
  function Negate(a: Int32): Int32 { if a == -0x8000_0000 then a else -a }

  /** x * y by repeated addition; keeps non-linear terms out of the loop below. */
  ghost function Times(x: nat, y: nat): nat { if x == 0 then 0 else y + Times(x - 1, y) }

  lemma {:induction false} TimesIsProduct(x: nat, y: nat)
    ensures Times(x, y) == x * y
  {
    if x > 0 {
      TimesIsProduct(x - 1, y);
      assert x * y == (x - 1) * y + y;
    }
  }

  /** One round on acc + rest * bb: the low bit of rest decides whether bb is added. */
  lemma OneRound(acc: int, rest: nat, bb: nat)
    ensures acc + Times(rest, bb) == acc + (if rest % 2 == 1 then bb else 0) + Times(rest / 2, 2 * bb)
  {
    var q := rest / 2;
    TimesIsProduct(rest, bb);
    TimesIsProduct(q, 2 * bb);
    assert rest == 2 * q + rest % 2;
    assert rest * bb == q * (2 * bb) + (rest % 2) * bb;
  }

  lemma DoubleFits(bb: nat, i: nat)
    requires i < 32 && bb < Pow2(32 + i)
    ensures 2 * bb < Pow2(33 + i) && 2 * bb < WW
  {
    assert Pow2(33 + i) == 2 * Pow2(32 + i);
    Pow2Monotone(33 + i, 64);
    Pow2Values();
  }

  /** lo += bLo, with the carry found by comparing, then hi += bHi; exact when the sum fits. */
  method AddDouble(hi: Word, lo: Word, bHi: Word, bLo: Word) returns (h: Word, l: Word)
    requires hi * W + lo + bHi * W + bLo < WW
    ensures h * W + l == hi * W + lo + bHi * W + bLo
  {
    h := hi;
    l := Wrap(lo + bLo);
    assert l == if lo + bLo < W then lo + bLo else lo + bLo - W;
    if l < bLo {
      h := Wrap(h + 1);
    }
    h := Wrap(h + bHi);
  }

  /** Shift bHi:bLo left by one; exact when the result fits. */
  method ShiftDouble(bHi: Word, bLo: Word) returns (h: Word, l: Word)
    requires 2 * (bHi * W + bLo) < WW
    ensures h * W + l == 2 * (bHi * W + bLo)
  {
    h := Wrap(2 * bHi);
    if bLo >= HALF {
      h := h + 1;
    }
    l := Wrap(2 * bLo);
  }

  /** The two's complement of hi:lo. */
  method NegateDouble(hi: Word, lo: Word) returns (h: Word, l: Word)
    ensures h * W + l == (-(hi * W + lo)) % WW
  {
    h := W - 1 - hi;
    l := Wrap(W - 1 - lo + 1);
    if l == 0 {
      h := Wrap(h + 1);
    }
    ghost var x := hi * W + lo;
    assert (-x) % WW == if x == 0 then 0 else WW - x;
  }

  lemma ProductBound(x: nat, y: nat, m: nat, n: nat)
    requires x <= m && y <= n
    ensures x * y <= m * n
  {
    assert x * y <= m * y;
    assert m * y <= m * n;
  }

  lemma ProductFits(x: Word, y: Word)
    ensures 0 <= x * y < WW
  {
    ProductBound(x, y, 0xffff_ffff, 0xffff_ffff);
  }

  /** The arithmetic shift keeps the sign of x, so for a negative x ones come in from the left;
      the bits not consumed yet are still those of the pattern, for all 32 rounds. */
  predicate Remaining(x: Int32, rest: nat, ones: bool, i: nat) {
    i <= 32 && x == rest - (if ones then Pow2(32 - i) else 0)
  }

  lemma ShiftRemaining(x: Int32, rest: nat, ones: bool, i: nat)
    requires i < 32 && Remaining(x, rest, ones, i) && rest < Pow2(32 - i)
    ensures Remaining(x / 2, rest / 2, ones, i + 1) && x % 2 == rest % 2 && rest / 2 < Pow2(31 - i)
    ensures x == 1 ==> rest == 1
  {
    assert Pow2(32 - i) == 2 * Pow2(31 - i);
  }

  /** The main loop of Mult: check the bits of a one at a time and add in a shifted b. */
  method MultiplyPatterns(a: Int32, b: Int32) returns (hi: Word, lo: Word)
    ensures hi * W + lo == Times(Unsigned(a), Unsigned(b)) < WW
  {
    var x := a;
    var bLo: Word, bHi: Word := Unsigned(b), 0;
    lo, hi := 0, 0;
    ghost var rest: nat, bb: nat := Unsigned(a), Unsigned(b);
    ghost var product := Times(rest, bb);
    assert product < WW by {
      TimesIsProduct(Unsigned(a), Unsigned(b));
      ProductFits(Unsigned(a), Unsigned(b));
    }
    assert Pow2(32) == W by { Pow2Values(); }
    var i := 0;
    while i < 32
      invariant 0 <= i <= 32
      invariant Remaining(x, rest, a < 0, i) && rest < Pow2(32 - i)
      invariant bHi * W + bLo == bb < Pow2(32 + i)
      invariant hi * W + lo + Times(rest, bb) == product
    {
      ShiftRemaining(x, rest, a < 0, i);
      OneRound(hi * W + lo, rest, bb);
      if x % 2 == 1 {
        hi, lo := AddDouble(hi, lo, bHi, bLo);
        if x == 1 {
          return;
        }
      }
      DoubleFits(bb, i);
      bHi, bLo := ShiftDouble(bHi, bLo);
      x := x / 2;
      rest, bb := rest / 2, 2 * bb;
      i := i + 1;
    }
    assert rest == 0;
  }

  /** Signs and magnitudes. */
  lemma SignedProduct(a: Int32, b: Int32)
    ensures var x := if a < 0 then Negate(a) else a;
            var y := if b < 0 then Negate(b) else b;
            var p: int := Times(Unsigned(x), Unsigned(y));
            a * b == if (a < 0) != (b < 0) then -p else p
  {
    var x := if a < 0 then Negate(a) else a;
    var y := if b < 0 then Negate(b) else b;
    TimesIsProduct(Unsigned(x), Unsigned(y));
    var p: int, q: int := if a < 0 then -(a as int) else a, if b < 0 then -(b as int) else b;
    assert a * b == if (a < 0) != (b < 0) then -(p * q) else p * q;
  }

  /** The exact double-word product that Mult is to deliver. */
  function DoubleProduct(a: Int32, b: Int32, signedArith: bool): int {
    if signedArith then (a as int) * (b as int) else (Unsigned(a) as int) * (Unsigned(b) as int)
  }

  lemma ProductZero(a: Int32, b: Int32, signedArith: bool)
    requires a == 0 || b == 0
    ensures DoubleProduct(a, b, signedArith) == 0
  {}

  /** Mult leaves in hi and lo the exact double-word product: of the two ints if signedArith,
      of the two bit patterns otherwise. */
  method Mult(a: Int32, b: Int32, signedArith: bool) returns (hiOut: Int32, loOut: Int32)
    ensures Unsigned(hiOut) * W + Unsigned(loOut) == DoubleProduct(a, b, signedArith) % WW
  {
    if a == 0 || b == 0 {
      ProductZero(a, b, signedArith);
      return 0, 0;
    }
    var negative := false;
    var x, y := a, b;
    if signedArith {
      if x < 0 {
        negative := !negative;
        x := Negate(x);
      }
      if y < 0 {
        negative := !negative;
        y := Negate(y);
      }
    }
    ghost var p: int := Times(Unsigned(x), Unsigned(y));
    assert DoubleProduct(a, b, signedArith) == if negative then -p else p by {
      SignedProduct(a, b);
      TimesIsProduct(Unsigned(a), Unsigned(b));
    }
    var hi, lo := MultiplyPatterns(x, y);
    if negative {
      hi, lo := NegateDouble(hi, lo);
    }
    hiOut, loOut := Signed(hi), Signed(lo);
  }
}
