/** Unsigned LEB128 in 32-bit arithmetic: packages/bcs/src/uleb.ts. The format is the one of
    section 7.6 of DWARF 5. */
module Uleb {

  import opened Octets

  const TWO_31: int := 0x8000_0000
  const TWO_32: int := 0x1_0000_0000

  function Pow2(n: nat): (p: nat)
    ensures p > 0
  {
    if n == 0 then 1 else 2 * Pow2(n - 1)
  }

  /** n, shifted left by the power p. */
  function Times(n: nat, p: nat): nat {
    n * p
  }

  lemma {:induction false} Pow2Adds(m: nat, n: nat)
    ensures Pow2(m + n) == Pow2(m) * Pow2(n)
  {
    if m > 0 {
      Pow2Adds(m - 1, n);
    }
  }

  lemma {:induction false} Pow2Monotonic(m: nat, n: nat)
    requires m <= n
    ensures Pow2(m) <= Pow2(n)
  {
    if m < n {
      Pow2Monotonic(m, n - 1);
    }
  }

  /** A number as the 32-bit signed integer that the source's bitwise operators convert it to. */
  function ToInt32(x: int): (r: int)
    ensures -TWO_31 <= r < TWO_31
    ensures 0 <= x < TWO_31 ==> r == x
    ensures r % 128 == x % 128
  {
    (x + TWO_31) % TWO_32 - TWO_31
  }

  // ---------- ulebEncode ----------

  /** What num >>= 7 leaves: an arithmetic shift of the 32-bit value. */
  function ShiftRight7(num: int): (r: int)
    ensures 0 <= num < TWO_31 ==> r == num / 128
    ensures num > 0 ==> r < num
  {
    ToInt32(num) / 128
  }

  function Groups(num: int): seq<Byte>
    decreases if num > 0 then num else 0
  {
    if num <= 0 then []
    else
      var next := ShiftRight7(num);
      [num % 128 + if next != 0 then 128 else 0] + Groups(next)
  }

  function UlebEncode(num: int): seq<Byte> {
    if num == 0 then [0] else Groups(num)
  }

  method UlebEncodeLoop(number: int) returns (arr: seq<Byte>)
    ensures arr == UlebEncode(number)
  {
    hide ShiftRight7, ToInt32, Groups;
    arr := [];
    if number == 0 {
      return [0];
    }
    var num := number;
    while num > 0
      invariant arr + Groups(num) == Groups(number)
      decreases if num > 0 then num else 0
    {
      GroupsStep(num);
      var group := num % 128;
      num := ShiftRight7(num);
      if num != 0 {
        group := group + 128;
      }
      arr := arr + [group];
    }
    NotPositive(num);
  }

  lemma GroupsStep(num: int)
    requires num > 0
    ensures var next := ShiftRight7(num); Groups(num) == [num % 128 + if next != 0 then 128 else 0] + Groups(next)
  {
    hide ShiftRight7;
  }

  lemma NotPositive(num: int)
    requires num <= 0
    ensures Groups(num) == []
  {
  }

  // ---------- ulebDecode ----------

  /** Bitwise or. */
  function Or(a: nat, b: nat): nat
    decreases a + b
  {
    if a == 0 then b else if b == 0 then a
    else 2 * Or(a / 2, b / 2) + (if a % 2 == 1 || b % 2 == 1 then 1 else 0)
  }

  /** Bit i of a number. */
  ghost predicate Bit(n: nat, i: nat) {
    if i == 0 then n % 2 == 1 else Bit(n / 2, i - 1)
  }

  lemma {:induction false} ZeroBits(i: nat)
    ensures !Bit(0, i)
  {
    if i > 0 {
      ZeroBits(i - 1);
    }
  }

  lemma {:induction false} OrIsBitwise(a: nat, b: nat, i: nat)
    ensures Bit(Or(a, b), i) <==> Bit(a, i) || Bit(b, i)
    decreases i
  {
    ZeroBits(i);
    if i > 0 && a > 0 && b > 0 {
      OrIsBitwise(a / 2, b / 2, i - 1);
      assert Or(a, b) / 2 == Or(a / 2, b / 2);
    }
  }

  /** The seven payload bits, shifted left within 32 bits; the shift distance counts modulo 32. */
  function ShiftedGroup(group: nat, shift: nat): nat {
    Times(group, Pow2(shift % 32)) % TWO_32
  }

  /** The byte at an index; past the end the source reads undefined, which acts as zero. */
  function ByteAt(bytes: seq<Byte>, i: nat): Byte {
    if i < |bytes| then bytes[i] else 0
  }

  /** The loop of ulebDecode from byte number at, over the unsigned 32-bit total. */
  function DecodeFrom(bytes: seq<Byte>, at: nat, total: nat, shift: nat): (nat, nat)
    decreases |bytes| - at
  {
    var byte := ByteAt(bytes, at);
    var next := Or(total, ShiftedGroup(byte % 128, shift));
    if byte < 128 then (next, at + 1) else DecodeFrom(bytes, at + 1, next, shift + 7)
  }

  datatype DecodedNumber = DecodedNumber(value: int, length: nat)

  function UlebDecode(bytes: seq<Byte>): DecodedNumber {
    var (total, length) := DecodeFrom(bytes, 0, 0, 0);
    DecodedNumber(ToInt32(total), length)
  }

  method UlebDecodeLoop(bytes: seq<Byte>) returns (r: DecodedNumber)
    ensures r == UlebDecode(bytes)
  {
    var total, shift, len := 0, 0, 0;
    while true
      invariant DecodeFrom(bytes, 0, 0, 0) == DecodeFrom(bytes, len, total, shift)
      decreases |bytes| - len
    {
      var byte := ByteAt(bytes, len);
      len := len + 1;
      total := Or(total, ShiftedGroup(byte % 128, shift));
      if byte < 128 {
        break;
      }
      shift := shift + 7;
    }
    r := DecodedNumber(ToInt32(total), len);
  }

  // ---------- The codec on the numbers below 2^31, and only on those ----------

  lemma TimesLaws(a: nat, b: nat, p: nat)
    ensures Times(1, p) == p && Times(0, p) == 0
    ensures a <= b ==> Times(a, p) <= Times(b, p)
    ensures p >= 1 ==> Times(a, p) >= a
    ensures Times(a, 2 * p) == 2 * Times(a, p)
  {
  }

  lemma SplitProduct(group: nat, rest: nat, p: nat)
    ensures Times(group + 128 * rest, p) == Times(group, p) + Times(rest, 128 * p)
  {
    assert (128 * rest) * p == rest * (128 * p);
  }

  /** Bits that do not overlap can be added. */
  lemma {:induction false} OrOfDisjoint(a: nat, c: nat, s: nat)
    requires a < Pow2(s)
    ensures Or(a, Times(c, Pow2(s))) == a + Times(c, Pow2(s))
  {
    hide Times;
    TimesLaws(c, c, 1);
    TimesLaws(c, c, Pow2(s));
    if s > 0 && a > 0 && c > 0 {
      TimesLaws(c, c, Pow2(s - 1));
      OrOfDisjoint(a / 2, c, s - 1);
    } else if s == 0 {
      assert a == 0;
    } else if c == 0 {
      ZeroTimes(Pow2(s));
    }
  }

  lemma ZeroTimes(p: nat)
    ensures Times(0, p) == 0
  {
  }

  lemma PowerOf31()
    ensures Pow2(31) == TWO_31
  {
    assert Pow2(8) == 256;
    Pow2Adds(8, 8);
    Pow2Adds(8, 7);
    assert Pow2(7) == 128;
    Pow2Adds(16, 15);
  }

  lemma ShiftBelow31(n: nat, shift: nat)
    requires n > 0 && Times(n, Pow2(shift)) < TWO_31
    ensures shift < 31
  {
    assert Pow2(31) == TWO_31 by { PowerOf31(); }
    hide Pow2, Times;
    TimesLaws(1, n, Pow2(shift));
    if shift >= 31 {
      Pow2Monotonic(31, shift);
    }
  }

  /** No step of decoding a number below 2^31 overflows: the shifted group fits in 31 bits. */
  lemma GroupFits(n: nat, shift: nat, group: nat)
    requires n > 0 && Times(n, Pow2(shift)) < TWO_31 && group <= n
    ensures shift < 31 && ShiftedGroup(group, shift) == Times(group, Pow2(shift))
  {
    ShiftBelow31(n, shift);
    hide Pow2, Times;
    TimesLaws(group, n, Pow2(shift));
    assert shift % 32 == shift;
  }

  lemma SevenMore(shift: nat)
    ensures Pow2(shift + 7) == 128 * Pow2(shift)
  {
    Pow2Adds(7, shift);
    assert Pow2(7) == 128;
  }

  /** What one more group adds to the bound on the bits seen so far. */
  lemma BoundGrows(total: nat, group: nat, p: nat)
    requires total < p && group < 128
    ensures total + Times(group, p) < 128 * p
  {
    TimesLaws(group, 127, p);
    assert Times(127, p) == 127 * p;
  }

  /** The total after one more group, and what is left to decode. */
  lemma OneGroup(n: nat, total: nat, shift: nat)
    requires n > 0 && total < Pow2(shift) && total + Times(n, Pow2(shift)) < TWO_31
    ensures n < TWO_31
    ensures Or(total, ShiftedGroup(n % 128, shift)) == total + Times(n % 128, Pow2(shift)) < Pow2(shift + 7)
    ensures total + Times(n % 128, Pow2(shift)) + Times(n / 128, Pow2(shift + 7)) == total + Times(n, Pow2(shift))
  {
    hide Or, ShiftedGroup, Pow2, Times;
    var p, group, rest := Pow2(shift), n % 128, n / 128;
    TimesLaws(n, n, p);
    GroupFits(n, shift, group);
    OrOfDisjoint(total, group, shift);
    SplitProduct(group, rest, p);
    SevenMore(shift);
    BoundGrows(total, group, p);
  }

  lemma GroupsUnfold(n: nat)
    requires 0 < n < TWO_31
    ensures Groups(n) == if n / 128 == 0 then [n % 128] else [n % 128 + 128] + Groups(n / 128)
  {
    assert ShiftRight7(n) == n / 128;
    hide ShiftRight7;
    assert Groups(0) == [];
  }

  lemma {:induction false} DecodeGroups(bytes: seq<Byte>, at: nat, n: nat, suffix: seq<Byte>, total: nat, shift: nat)
    requires n > 0 && total < Pow2(shift) && total + Times(n, Pow2(shift)) < TWO_31
    requires at <= |bytes| && bytes[at..] == Groups(n) + suffix
    ensures DecodeFrom(bytes, at, total, shift) == (total + Times(n, Pow2(shift)), at + |Groups(n)|)
    decreases n
  {
    hide Or, ShiftedGroup, Pow2, Times, Groups;
    OneGroup(n, total, shift);
    GroupsUnfold(n);
    ZeroTimes(Pow2(shift + 7));
    assert bytes[at] == Groups(n)[0];
    if n / 128 > 0 {
      assert bytes[at + 1..] == bytes[at..][1..];
      assert bytes[at + 1..] == Groups(n / 128) + suffix;
      DecodeGroups(bytes, at + 1, n / 128, suffix, total + Times(n % 128, Pow2(shift)), shift + 7);
    }
  }

  /** Decoding an encoded number, whatever follows it, gives the number and the encoded length. */
  lemma DecodeInvertsEncode(n: nat, suffix: seq<Byte>)
    requires n < TWO_31
    ensures UlebDecode(UlebEncode(n) + suffix) == DecodedNumber(n, |UlebEncode(n)|)
  {
    var bytes := UlebEncode(n) + suffix;
    assert bytes[0..] == bytes;
    if n > 0 {
      assert Pow2(0) == 1 && Times(n, 1) == n;
      DecodeGroups(bytes, 0, n, suffix, 0, 0);
    } else {
      assert Or(0, ShiftedGroup(0, 0)) == 0;
    }
  }

  /** The codec is the identity on exactly the numbers from 0 up to 2^31 - 1: the 32-bit shifts lose
      every larger number, and a negative number encodes to nothing. */
  lemma RoundTripsExactlyBelow2To31(n: int)
    ensures (forall suffix: seq<Byte> :: UlebDecode(UlebEncode(n) + suffix) == DecodedNumber(n, |UlebEncode(n)|)) <==>
        0 <= n < 0x8000_0000
  {
    if 0 <= n < TWO_31 {
      forall suffix: seq<Byte> ensures UlebDecode(UlebEncode(n) + suffix) == DecodedNumber(n, |UlebEncode(n)|) {
        DecodeInvertsEncode(n, suffix);
      }
    } else {
      var nothing: seq<Byte> := [];
      assert UlebDecode(UlebEncode(n) + nothing) != DecodedNumber(n, |UlebEncode(n)|) by {
        if n < 0 {
          assert UlebEncode(n) + nothing == [];
          assert DecodeFrom([], 0, 0, 0) == (Or(0, ShiftedGroup(0, 0)), 1);
        }
      }
    }
  }

  /** The number that the low seven bits of some bytes stand for, the first ones least significant. */
  function GroupValue(bytes: seq<Byte>): nat {
    if bytes == [] then 0 else bytes[0] % 128 + 128 * GroupValue(bytes[1..])
  }

  lemma OneAnyGroup(total: nat, group: nat, rest: nat, shift: nat)
    requires shift <= 28 && total < Pow2(shift) && group < 128
    requires total + Times(group + 128 * rest, Pow2(shift)) < TWO_31
    ensures Or(total, ShiftedGroup(group, shift)) == total + Times(group, Pow2(shift)) < Pow2(shift + 7)
    ensures total + Times(group, Pow2(shift)) + Times(rest, Pow2(shift + 7))
         == total + Times(group + 128 * rest, Pow2(shift))
  {
    hide Or, Pow2, Times;
    var p := Pow2(shift);
    TimesLaws(group, group + 128 * rest, p);
    OrOfDisjoint(total, group, shift);
    SplitProduct(group, rest, p);
    SevenMore(shift);
    BoundGrows(total, group, p);
  }

  lemma {:induction false} DecodeAnyGroups(bytes: seq<Byte>, at: nat, k: nat, total: nat, shift: nat)
    requires at <= k < |bytes| && shift + 7 * (k - at) <= 28
    requires bytes[k] < 128 && forall i :: at <= i < k ==> bytes[i] >= 128
    requires total < Pow2(shift) && total + Times(GroupValue(bytes[at..k + 1]), Pow2(shift)) < TWO_31
    ensures DecodeFrom(bytes, at, total, shift) ==
            (total + Times(GroupValue(bytes[at..k + 1]), Pow2(shift)), k + 1)
    decreases k - at
  {
    hide Or, ShiftedGroup, Pow2, Times;
    var (group, groups) := (bytes[at] % 128, bytes[at..k + 1]);
    assert groups[1..] == bytes[at + 1..k + 1];
    var rest := GroupValue(bytes[at + 1..k + 1]);
    OneAnyGroup(total, group, rest, shift);
    if at < k {
      DecodeAnyGroups(bytes, at + 1, k, total + Times(group, Pow2(shift)), shift + 7);
    } else {
      ZeroTimes(Pow2(shift + 7));
    }
  }

  /** Any bytes that begin with up to five groups, padded or not, decode to the number that they stand
      for if it is below 2^31, and to their count. */
  lemma DecodesGroups(bytes: seq<Byte>, k: nat)
    requires k < |bytes| && k <= 4 && bytes[k] < 128 && forall i :: 0 <= i < k ==> bytes[i] >= 128
    requires GroupValue(bytes[..k + 1]) < 0x8000_0000
    ensures UlebDecode(bytes) == DecodedNumber(GroupValue(bytes[..k + 1]), k + 1)
  {
    assert bytes[0..k + 1] == bytes[..k + 1];
    assert Pow2(0) == 1 && Times(GroupValue(bytes[..k + 1]), 1) == GroupValue(bytes[..k + 1]);
    DecodeAnyGroups(bytes, 0, k, 0, 0);
  }

  lemma PaddingGroup(bytes: seq<Byte>, at: nat, shift: nat)
    requires at < |bytes| && bytes[at] == 128
    ensures DecodeFrom(bytes, at, 0, shift) == DecodeFrom(bytes, at + 1, 0, shift + 7)
  {
    ZeroTimes(Pow2(shift % 32));
    assert Or(0, ShiftedGroup(0, shift)) == 0;
  }

  lemma LastGroup(bytes: seq<Byte>, at: nat, shift: nat, n: nat)
    requires at < |bytes| && bytes[at] == n < 128
    ensures DecodeFrom(bytes, at, 0, shift) == (ShiftedGroup(n, shift), at + 1)
  {
    hide ShiftedGroup;
  }

  lemma ShiftedByThree(n: nat)
    requires n < 128
    ensures ShiftedGroup(n, 35) == 8 * n
  {
    assert Pow2(3) == 8;
    hide Pow2;
    assert Times(n, 8) == 8 * n;
  }

  /** Behind five groups the shift distance starts again: a sixth group is shifted by 3 and not by 35. */
  lemma SixthGroupWraps(group: Byte)
    requires group < 128
    ensures UlebDecode([128, 128, 128, 128, 128, group]) == DecodedNumber(8 * group, 6)
  {
    hide DecodeFrom;
    var bytes := [128, 128, 128, 128, 128, group];
    PaddingGroup(bytes, 0, 0);
    PaddingGroup(bytes, 1, 7);
    PaddingGroup(bytes, 2, 14);
    PaddingGroup(bytes, 3, 21);
    PaddingGroup(bytes, 4, 28);
    LastGroup(bytes, 5, 35, group);
    ShiftedByThree(group);
  }

  function Pow128(n: nat): (p: nat)
    ensures p > 0
  {
    if n == 0 then 1 else 128 * Pow128(n - 1)
  }

  /** No shorter encoding has room for the number. */
  lemma {:induction false} EncodingIsMinimal(n: nat)
    requires n < TWO_31
    ensures 1 <= |UlebEncode(n)| <= 5
    ensures n < Pow128(|UlebEncode(n)|)
    ensures |UlebEncode(n)| > 1 ==> n >= Pow128(|UlebEncode(n)| - 1)
  {
    if n > 0 {
      GroupsAreMinimal(n);
      assert Pow128(5) > TWO_31;
      if |Groups(n)| > 5 {
        Pow128Monotonic(5, |Groups(n)| - 1);
      }
    }
  }

  lemma {:induction false} Pow128Monotonic(m: nat, n: nat)
    requires m <= n
    ensures Pow128(m) <= Pow128(n)
  {
    if m < n {
      Pow128Monotonic(m, n - 1);
    }
  }

  lemma {:induction false} GroupsAreMinimal(n: nat)
    requires 0 < n < TWO_31
    ensures |Groups(n)| >= 1 && Pow128(|Groups(n)| - 1) <= n < Pow128(|Groups(n)|)
    decreases n
  {
    var rest := n / 128;
    assert ShiftRight7(n) == rest;
    if rest > 0 {
      GroupsAreMinimal(rest);
    } else {
      assert Groups(0) == [];
      assert Pow128(1) == 128;
    }
  }
}
