/** Single bits of a 32-bit bitmap word: `w & (1 << k)`, `w |= (1 << k)` and `w &= ~(1 << k)`. */
module Bits {
  import opened Codec

  /** w & (1 << k) is nonzero */
  predicate Bit(w: nat, k: nat)
    decreases k
  {
    if k == 0 then w % 2 == 1 else Bit(w / 2, k - 1)
  }

  /** w | (1 << k) */
  function SetBit(w: nat, k: nat): (r: nat)
    decreases k
  {
    if k == 0 then (if w % 2 == 1 then w else w + 1) else 2 * SetBit(w / 2, k - 1) + w % 2
  }

  /** w & ~(1 << k) */
  function ClearBit(w: nat, k: nat): (r: nat)
    decreases k
  {
    if k == 0 then (if w % 2 == 1 then w - 1 else w) else 2 * ClearBit(w / 2, k - 1) + w % 2
  }

  function Pow2(n: nat): (r: nat)
    ensures r >= 1
  {
    if n == 0 then 1 else 2 * Pow2(n - 1)
  }

  /** The powers of 2 within a byte. */
  function Power(k: nat): nat
    requires k < 8
  {
    [1, 2, 4, 8, 16, 32, 64, 128][k]
  }

  /** Bit k of a byte is the digit of 2^k. */
  lemma BitOfByte(b: nat, k: nat)
    requires k < 8
    ensures Bit(b, k) <==> b / Power(k) % 2 == 1
  {
    var b2 := b / 2 / 2;
    var b4 := b2 / 2 / 2;
    var b6 := b4 / 2 / 2;
    LowBits(b);
    LowBits(b2);
    LowBits(b4);
    LowBits(b6);
    TwoBits(b, k);
    TwoBits(b2, k - 2);
    TwoBits(b4, k - 4);
    Halves(b);
  }

  lemma LowBits(b: nat)
    ensures (Bit(b, 0) <==> b % 2 == 1) && (Bit(b, 1) <==> b / 2 % 2 == 1)
  {
  }

  lemma TwoBits(b: nat, k: int)
    ensures k >= 2 ==> Bit(b, k) == Bit(b / 2 / 2, k - 2)
  {
    if k >= 2 {
      assert Bit(b, k) == Bit(b / 2, k - 1);
    }
  }

  lemma Halves(b: nat)
    ensures b / 4 == b / 2 / 2 && b / 8 == b / 4 / 2 && b / 16 == b / 8 / 2 && b / 32 == b / 16 / 2
    ensures b / 64 == b / 32 / 2 && b / 128 == b / 64 / 2
  {
  }

  /** The bits of a number over 2^n are those of its low part, then those of its high part. */
  lemma {:induction false} BitOfSum(low: nat, high: nat, n: nat, k: nat)
    requires low < Pow2(n)
    ensures Bit(low + Pow2(n) * high, k) <==> if k < n then Bit(low, k) else Bit(high, k - n)
    decreases n
  {
    if n > 0 {
      var w := low + Pow2(n) * high;
      assert w == low + 2 * (Pow2(n - 1) * high);
      assert w / 2 == low / 2 + Pow2(n - 1) * high && w % 2 == low % 2;
      if k > 0 {
        BitOfSum(low / 2, high, n - 1, k - 1);
      }
    }
  }

  /** A bit of a word is a bit of one of its four bytes. */
  lemma BitOfWord(s: seq<Byte>, i: nat, k: nat)
    requires i + 4 <= |s| && k < 32
    ensures Bit(WordAt(s, i), k) <==> Bit(s[i + k / 8], k % 8)
  {
    var b0, b1, b2, b3: nat := s[i], s[i + 1], s[i + 2], s[i + 3];
    assert Pow2(8) == 0x100;
    BitOfSum(b0, b1 + 0x100 * (b2 + 0x100 * b3), 8, k);
    if k >= 8 {
      BitOfSum(b1, b2 + 0x100 * b3, 8, k - 8);
      if k >= 16 {
        BitOfSum(b2, b3, 8, k - 16);
      }
    }
  }

  lemma {:induction false} BitOfSet(w: nat, k: nat, i: nat)
    ensures Bit(SetBit(w, k), i) <==> i == k || Bit(w, i)
    decreases k
  {
    if k > 0 && i > 0 {
      BitOfSet(w / 2, k - 1, i - 1);
      assert SetBit(w, k) / 2 == SetBit(w / 2, k - 1);
    }
  }

  lemma {:induction false} BitOfClear(w: nat, k: nat, i: nat)
    ensures Bit(ClearBit(w, k), i) <==> i != k && Bit(w, i)
    decreases k
  {
    if k > 0 && i > 0 {
      BitOfClear(w / 2, k - 1, i - 1);
      assert ClearBit(w, k) / 2 == ClearBit(w / 2, k - 1);
    }
  }

  /** Setting a clear bit of a byte adds its power, clearing a set one subtracts it. */
  lemma {:induction false} SetAdds(b: nat, k: nat)
    requires k < 8
    ensures !Bit(b, k) ==> SetBit(b, k) == b + Power(k)
    ensures Bit(b, k) ==> ClearBit(b, k) + Power(k) == b
    decreases k
  {
    if k > 0 {
      SetAdds(b / 2, k - 1);
      assert Power(k) == 2 * Power(k - 1);
    }
  }

  lemma {:induction false} ClearOfSet(w: nat, k: nat)
    requires !Bit(w, k)
    ensures ClearBit(SetBit(w, k), k) == w
  {
    if k > 0 {
      ClearOfSet(w / 2, k - 1);
    }
  }

  lemma {:induction false} SetInRange(w: nat, k: nat, n: nat)
    requires w < Pow2(n) && k < n
    ensures SetBit(w, k) < Pow2(n) && ClearBit(w, k) < Pow2(n)
  {
    if k > 0 {
      SetInRange(w / 2, k - 1, n - 1);
    }
  }

  lemma Pow2Of32()
    ensures Pow2(32) == 0x1_0000_0000
  {
    assert Pow2(8) == 0x100;
    assert Pow2(16) == 0x1_0000;
    assert Pow2(24) == 0x100_0000;
  }

  function SetWord(w: Word, k: nat): Word
    requires k < 32
  {
    Pow2Of32();
    SetInRange(w, k, 32);
    SetBit(w, k)
  }

  function ClearWord(w: Word, k: nat): Word
    requires k < 32
  {
    Pow2Of32();
    SetInRange(w, k, 32);
    ClearBit(w, k)
  }

  /** Equal low bits make equal values: a word is the set of its bits. */
  lemma {:induction false} BitsDetermine(v: nat, w: nat, n: nat)
    requires v < Pow2(n) && w < Pow2(n)
    requires forall i: nat :: i < n ==> (Bit(v, i) <==> Bit(w, i))
    ensures v == w
  {
    if n > 0 {
      assert Bit(v, 0) <==> Bit(w, 0);
      forall i: nat | i < n - 1 ensures Bit(v / 2, i) <==> Bit(w / 2, i) {
        assert Bit(v, i + 1) <==> Bit(w, i + 1);
      }
      BitsDetermine(v / 2, w / 2, n - 1);
    }
  }

  lemma {:induction false} AllOnes(n: nat, i: nat)
    requires i < n
    ensures Bit(Pow2(n) - 1, i)
  {
    assert (Pow2(n) - 1) / 2 == Pow2(n - 1) - 1;
    if i > 0 {
      AllOnes(n - 1, i - 1);
    }
  }

  predicate Full(w: Word) {
    forall i :: 0 <= i < 32 ==> Bit(w, i)
  }

  /** A word is skipped by the scan exactly when all of its 32 bits are set. */
  lemma FullWord(w: Word)
    ensures w == 0xFFFF_FFFF <==> Full(w)
  {
    Pow2Of32();
    var ones: nat := Pow2(32) - 1;
    forall i | 0 <= i < 32 ensures Bit(ones, i) {
      AllOnes(32, i);
    }
    if Full(w) {
      BitsDetermine(ones, w, 32);
    }
  }
}
