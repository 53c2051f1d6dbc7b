/** The word-packed bit map of userprog/bitmap.cc. */
module BitMaps {
  import opened Words
  import opened Multiplier

  const BITS_IN_WORD: nat := 32

  // ---- What the operations mean on a sequence of bits ----

  /** The index of the first clear bit, or -1. */
  function FirstClear(bits: seq<bool>): (r: int)
    ensures -1 <= r < |bits|
    ensures r >= 0 ==> !bits[r] && forall i :: 0 <= i < r ==> bits[i]
    ensures r == -1 <==> forall i :: 0 <= i < |bits| ==> bits[i]
  {
    FirstClearFrom(bits, 0)
  }

  function FirstClearFrom(bits: seq<bool>, from: nat): (r: int)
    requires from <= |bits|
    ensures r == -1 || from <= r < |bits|
    ensures r >= 0 ==> !bits[r] && forall i :: from <= i < r ==> bits[i]
    ensures r == -1 <==> forall i :: from <= i < |bits| ==> bits[i]
    decreases |bits| - from
  {
    if from == |bits| then -1
    else if !bits[from] then from
    else FirstClearFrom(bits, from + 1)
  }

  function CountClear(bits: seq<bool>): nat {
    if bits == [] then 0 else CountClear(bits[..|bits| - 1]) + if bits[|bits| - 1] then 0 else 1
  }

  /** Marking a clear bit uses up one, and clearing a marked bit gives one back. */
  lemma {:induction false} CountClearUpdate(bits: seq<bool>, i: nat, b: bool)
    requires i < |bits|
    ensures CountClear(bits[i := b]) == CountClear(bits) - (if bits[i] then 0 else 1) + (if b then 0 else 1)
  {
    var n := |bits| - 1;
    if i == n {
      assert bits[i := b][..n] == bits[..n];
    } else {
      assert bits[i := b][..n] == bits[..n][i := b];
      CountClearUpdate(bits[..n], i, b);
    }
  }

  lemma {:induction false} AllClear(bits: seq<bool>)
    requires forall i :: 0 <= i < |bits| ==> !bits[i]
    ensures CountClear(bits) == |bits|
  {
    if bits != [] { AllClear(bits[..|bits| - 1]); }
  }

  lemma {:induction false} CountClearBound(bits: seq<bool>)
    ensures CountClear(bits) <= |bits|
  {
    if bits != [] { CountClearBound(bits[..|bits| - 1]); }
  }

  lemma {:induction false} CountClearZero(bits: seq<bool>)
    ensures CountClear(bits) == 0 <==> forall i :: 0 <= i < |bits| ==> bits[i]
  {
    if bits != [] {
      CountClearZero(bits[..|bits| - 1]);
      assert forall i :: 0 <= i < |bits| - 1 ==> bits[..|bits| - 1][i] == bits[i];
    }
  }

  // ---- Bits inside a word ----

  /** w & (1 << k) != 0: binary digit k of w. */
  predicate TestBit(w: nat, k: nat) {
    if k == 0 then w % 2 == 1 else TestBit(w / 2, k - 1)
  }

  lemma QuotientOfHalf(w: nat, p: nat)
    requires p >= 1
    ensures w / (2 * p) == w / 2 / p
  {
    var v := w / 2;
    var q := v / p;
    assert v == p * q + v % p;
    assert q * (2 * p) == 2 * (p * q);
    QuotientIs(w, 2 * p, q);
  }

  lemma {:induction false} TestBitIs(w: nat, k: nat)
    ensures Pow2(k) >= 1 && TestBit(w, k) == (w / Pow2(k) % 2 == 1)
  {
    Pow2Monotone(k, k);
    if k > 0 {
      TestBitIs(w / 2, k - 1);
      QuotientOfHalf(w, Pow2(k - 1));
    }
  }

  /** The digits of a number below those of another one. */
  lemma {:induction false} DigitsSplit(high: nat, low: nat, n: nat, k: nat)
    requires low < Pow2(n)
    ensures TestBit(high * Pow2(n) + low, k) == if k < n then TestBit(low, k) else TestBit(high, k - n)
  {
    if n > 0 {
      var x, p := high * Pow2(n) + low, Pow2(n - 1);
      assert x == 2 * (high * p) + low;
      assert x / 2 == high * p + low / 2 && x % 2 == low % 2;
      if k > 0 { DigitsSplit(high, low / 2, n - 1, k - 1); }
    }
  }

  /** w | (1 << k) if b, and w & ~(1 << k) otherwise: digit k replaced, the others kept. */
  function WithBit(w: nat, k: nat, b: bool): nat {
    if k == 0 then w - w % 2 + (if b then 1 else 0) else 2 * WithBit(w / 2, k - 1, b) + w % 2
  }

  lemma {:induction false} WithBitDigits(w: nat, k: nat, b: bool, j: nat)
    ensures TestBit(WithBit(w, k, b), j) == if j == k then b else TestBit(w, j)
  {
    var r := WithBit(w, k, b);
    if k == 0 {
      assert r / 2 == w / 2;
    } else {
      assert r / 2 == WithBit(w / 2, k - 1, b) && r % 2 == w % 2;
      if j > 0 { WithBitDigits(w / 2, k - 1, b, j - 1); }
    }
  }

  lemma Halves(w: nat, l: nat)
    requires w < 2 * l
    ensures w / 2 < l && w - w % 2 + 1 < 2 * l && w % 2 <= 1
  {}

  lemma {:induction false} WithBitFits(w: nat, k: nat, b: bool, n: nat)
    requires k < n && w < Pow2(n)
    ensures WithBit(w, k, b) < Pow2(n)
  {
    Halves(w, Pow2(n - 1));
    if k > 0 { WithBitFits(w / 2, k - 1, b, n - 1); }
  }

  function MarkBit(w: Word, k: nat): Word
    requires k < BITS_IN_WORD
  {
    Pow2Values();
    WithBitFits(w, k, true, 32);
    WithBit(w, k, true)
  }

  function ClearBit(w: Word, k: nat): Word
    requires k < BITS_IN_WORD
  {
    Pow2Values();
    WithBitFits(w, k, false, 32);
    WithBit(w, k, false)
  }

  function NumWords(numBits: nat): nat {
    numBits / BITS_IN_WORD + if numBits % BITS_IN_WORD > 0 then 1 else 0
  }

  /** The bits that a sequence of words stands for. */
  function BitsOf(words: seq<Word>, numBits: nat): (bits: seq<bool>)
    requires NumWords(numBits) == |words|
    ensures |bits| == numBits
  {
    seq(numBits, i requires 0 <= i < numBits => TestBit(words[i / BITS_IN_WORD], i % BITS_IN_WORD))
  }

  lemma MarkWord(words: seq<Word>, numBits: nat, which: nat)
    requires NumWords(numBits) == |words| && which < numBits
    ensures var w := which / BITS_IN_WORD;
      BitsOf(words[w := MarkBit(words[w], which % BITS_IN_WORD)], numBits) == BitsOf(words, numBits)[which := true]
  {
    forall i | 0 <= i < numBits {
      WithBitDigits(words[which / BITS_IN_WORD], which % BITS_IN_WORD, true, i % BITS_IN_WORD);
    }
  }

  lemma ClearWord(words: seq<Word>, numBits: nat, which: nat)
    requires NumWords(numBits) == |words| && which < numBits
    ensures var w := which / BITS_IN_WORD;
      BitsOf(words[w := ClearBit(words[w], which % BITS_IN_WORD)], numBits) == BitsOf(words, numBits)[which := false]
  {
    forall i | 0 <= i < numBits {
      WithBitDigits(words[which / BITS_IN_WORD], which % BITS_IN_WORD, false, i % BITS_IN_WORD);
    }
  }

  class BitMap {
    const numBits: nat
    const words: array<Word>     // the field map of the source

    ghost predicate Valid() { words.Length == NumWords(numBits) }

    ghost function Bits(): (bits: seq<bool>)
      reads words
      requires Valid()
      ensures |bits| == numBits
    {
      BitsOf(words[..], numBits)
    }

    /** The new array holds garbage; every bit is cleared one by one. */
    constructor (nitems: nat)
      ensures Valid() && fresh(words) && numBits == nitems
      ensures forall i :: 0 <= i < numBits ==> !Bits()[i]
    {
      numBits := nitems;
      words := new Word[NumWords(nitems)];
      new;
      for i := 0 to numBits
        invariant forall j :: 0 <= j < i ==> !Bits()[j]
      {
        Clear(i);
      }
    }

    method Mark(which: nat)
      requires Valid() && which < numBits
      modifies words
      ensures Bits() == old(Bits())[which := true]
    {
      MarkWord(words[..], numBits, which);
      var w := which / BITS_IN_WORD;
      words[w] := MarkBit(words[w], which % BITS_IN_WORD);
      assert words[..] == old(words[..])[w := MarkBit(old(words[w]), which % BITS_IN_WORD)];
    }

    method Clear(which: nat)
      requires Valid() && which < numBits
      modifies words
      ensures Bits() == old(Bits())[which := false]
    {
      ClearWord(words[..], numBits, which);
      var w := which / BITS_IN_WORD;
      words[w] := ClearBit(words[w], which % BITS_IN_WORD);
      assert words[..] == old(words[..])[w := ClearBit(old(words[w]), which % BITS_IN_WORD)];
    }

    method Test(which: nat) returns (r: bool)
      requires Valid() && which < numBits
      ensures r == Bits()[which]
    {
      r := TestBit(words[which / BITS_IN_WORD], which % BITS_IN_WORD);
    }

    /** Find and allocate the first clear bit. */
    method Find() returns (r: int)
      requires Valid()
      modifies words
      ensures r == FirstClear(old(Bits()))
      ensures Bits() == if r == -1 then old(Bits()) else old(Bits())[r := true]
    {
      for i := 0 to numBits
        invariant words[..] == old(words[..])
        invariant forall j :: 0 <= j < i ==> Bits()[j]
      {
        var taken := Test(i);
        if !taken {
          Mark(i);
          return i;
        }
      }
      assert old(Bits()) == Bits();
      assert FirstClear(old(Bits())) == -1;
      return -1;
    }

    method NumClear() returns (count: nat)
      requires Valid()
      ensures count == CountClear(Bits())
    {
      count := 0;
      for i := 0 to numBits
        invariant count == CountClear(Bits()[..i])
      {
        assert Bits()[..i + 1][..i] == Bits()[..i];
        var taken := Test(i);
        if !taken {
          count := count + 1;
        }
      }
      assert Bits()[..numBits] == Bits();
    }
  }
}
