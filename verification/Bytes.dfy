/** Numbers from 0 to 255 as bytes. The source holds both as JavaScript numbers. */
module Bytes {
  import opened Bits

  /** The number with the n lowest bits of v, as a byte. */
  function LowBits(v: nat, n: nat): bv8
    decreases n
  {
    if n == 0 then 0 else (LowBits(v / 2, n - 1) << 1) | (if v % 2 == 1 then 1 else 0)
  }

  /** The value of the n lowest bits of b. */
  function BitsValue(b: bv8, n: nat): nat
    decreases n
  {
    if n == 0 then 0 else 2 * BitsValue(b >> 1, n - 1) + (if b & 1 == 1 then 1 else 0)
  }

  function PowerOfTwo(n: nat): nat {
    if n == 0 then 1 else 2 * PowerOfTwo(n - 1)
  }

  function ToByte(v: nat): bv8 {
    LowBits(v, 8)
  }

  function FromByte(b: bv8): nat {
    BitsValue(b, 8)
  }

  lemma ShiftedPair(b: bv8, bit: bv8)
    requires b & 0x80 == 0 && (bit == 0 || bit == 1)
    ensures Half((b << 1) | bit) == b && ((b << 1) | bit) & 1 == bit
  {
  }

  lemma TopBitFree(b: bv8, n: nat)
    requires FitsIn(b, n) && n <= 7
    ensures b & 0x80 == 0
  {
    FitsMore(b, n, 7);
  }

  lemma {:induction false} FitsMore(b: bv8, n: nat, m: nat)
    requires FitsIn(b, n) && n <= m
    ensures FitsIn(b, m)
    decreases m
  {
    if n > 0 {
      FitsMore(Half(b), n - 1, m - 1);
    } else if m > 0 {
      FitsMore(0, 0, m - 1);
    }
  }

  lemma LowBitsStep(v: nat, n: nat, bit: nat)
    requires n > 0 && bit < 2
    ensures LowBits(2 * v + bit, n) == (LowBits(v, n - 1) << 1) | (if bit == 1 then 1 else 0)
  {
    assert (2 * v + bit) / 2 == v && (2 * v + bit) % 2 == bit;
  }

  lemma BitsValueStep(b: bv8, n: nat)
    requires n > 0
    ensures BitsValue(b, n) == 2 * BitsValue(Half(b), n - 1) + (if b & 1 == 1 then 1 else 0)
  {
  }

  lemma FitsStep(b: bv8, n: nat)
    ensures n > 0 ==> (FitsIn(b, n) <==> FitsIn(Half(b), n - 1))
    ensures n == 0 ==> (FitsIn(b, n) <==> b == 0) && BitsValue(b, n) == 0 && LowBits(0, n) == 0
  {
  }

  lemma {:induction false} LowBitsValue(v: nat, n: nat)
    requires n <= 8 && v < PowerOfTwo(n)
    ensures FitsIn(LowBits(v, n), n) && BitsValue(LowBits(v, n), n) == v
    decreases n
  {
    hide LowBits, BitsValue, FitsIn;
    FitsStep(LowBits(v, n), n);
    if n > 0 {
      var rest := LowBits(v / 2, n - 1);
      LowBitsValue(v / 2, n - 1);
      LowBitsStep(v / 2, n, v % 2);
      TopBitFree(rest, n - 1);
      ShiftedPair(rest, if v % 2 == 1 then 1 else 0);
      hide Half;
      BitsValueStep(LowBits(v, n), n);
    }
  }

  /** Numbers below 256 survive the conversion to a byte and back. */
  lemma FromToByte(v: nat)
    requires v < 256
    ensures FromByte(ToByte(v)) == v
  {
    assert PowerOfTwo(8) == 256;
    LowBitsValue(v, 8);
  }

  lemma {:induction false} BitsComeBack(b: bv8, n: nat)
    requires FitsIn(b, n)
    ensures BitsValue(b, n) < PowerOfTwo(n) && LowBits(BitsValue(b, n), n) == b
    decreases n
  {
    hide LowBits, BitsValue, FitsIn, Half;
    FitsStep(b, n);
    if n > 0 {
      BitsComeBack(Half(b), n - 1);
      BitsValueStep(b, n);
      LowBitsStep(BitsValue(Half(b), n - 1), n, if b & 1 == 1 then 1 else 0);
      HalfAndBit(b);
    }
  }

  lemma HalfAndBit(b: bv8)
    ensures (Half(b) << 1) | (if b & 1 == 1 then 1 else 0) == b
  {
  }

  lemma AllFit(b: bv8)
    ensures FitsIn(b, 8)
  {
    assert Half(Half(Half(Half(Half(Half(Half(Half(b)))))))) == 0;
  }

  /** Bytes are numbers below 256, and survive the conversion to a number and back. */
  lemma ToFromByte(b: bv8)
    ensures FromByte(b) < 256 && ToByte(FromByte(b)) == b
  {
    assert PowerOfTwo(8) == 256;
    AllFit(b);
    BitsComeBack(b, 8);
  }

  lemma ToByteInjective(v: nat, w: nat)
    requires v < 256 && w < 256 && ToByte(v) == ToByte(w)
    ensures v == w
  {
    FromToByte(v);
    FromToByte(w);
  }

  lemma ToByteNonzero(v: nat)
    requires 0 < v < 256
    ensures ToByte(v) != 0
  {
    FromToByte(v);
    FromToByte(0);
    assert FromByte(0) == 0 by { ZeroValue(8); }
  }

  lemma {:induction false} ZeroValue(n: nat)
    ensures BitsValue(0, n) == 0
    decreases n
  {
    if n > 0 {
      ZeroValue(n - 1);
    }
  }
}
