/** Hexadecimal text: fromHex and toHex of packages/utils/src/hex.ts, and the normal form of addresses
    of packages/typescript/src/utils/sui-types.ts. */
module Hex {
  import opened Numbers
  import opened Octets
  import opened Results

  /** Lower case of a Latin letter. No other character has a hexadecimal digit or an x as lower case. */
  function Lower(c: char): char {
    if 'A' <= c <= 'Z' then c - 'A' + 'a' else c
  }

  function LowerText(t: string): (r: string)
    ensures |r| == |t| && forall i :: 0 <= i < |r| ==> r[i] == Lower(t[i])
  {
    seq(|t|, i requires 0 <= i < |t| => Lower(t[i]))
  }

  function WithoutPrefix(t: string): string {
    if |t| >= 2 && t[0] == '0' && t[1] == 'x' then t[2..] else t
  }

  /** Pairs of digits as bytes; None when a character is no digit. */
  function PairsToBytes(t: string): Option<seq<Byte>>
    requires |t| % 2 == 0
  {
    if t == [] then Some([])
    else
      match (DigitValue(Lower(t[0])), DigitValue(Lower(t[1])), PairsToBytes(t[2..]))
      case (Some(high), Some(low), Some(rest)) => if high < 16 && low < 16 then Some([16 * high + low] + rest) else None
      case _ => None
  }

  /** None stands for a throw. */
  function FromHex(t: string): Option<seq<Byte>> {
    var digits := WithoutPrefix(t);
    PairsToBytes(if |digits| % 2 == 0 then digits else "0" + digits)
  }

  function ToHex(bytes: seq<Byte>): string {
    if bytes == [] then [] else PadStart(ToText(bytes[0], 16), 2) + ToHex(bytes[1..])
  }

  const ADDRESS_LENGTH: nat := 32

  function NormalizeAddress(t: string): string {
    "0x" + PadStart(WithoutPrefix(LowerText(t)), 2 * ADDRESS_LENGTH)
  }

  // ---------- The conversions invert each other ----------

  predicate LowerHex(t: string) {
    forall i :: 0 <= i < |t| ==> DigitValue(t[i]).Some?
  }

  lemma DigitOf(c: char)
    requires DigitValue(c).Some?
    ensures DigitValue(c).value < 16 && DigitChar(DigitValue(c).value) == c && Lower(c) == c && c != 'x'
  {
  }

  lemma PairOfByte(byte: Byte)
    ensures PadStart(ToText(byte, 16), 2) == [DigitChar(byte / 16), DigitChar(byte % 16)]
  {
    var high, low := byte / 16, byte % 16;
    assert ToText(byte, 16) == if byte < 16 then [DigitChar(low)] else [DigitChar(high)] + [DigitChar(low)];
    assert Zeros(1) == [DigitChar(0)];
  }

  lemma ToHexStep(byte: Byte, rest: seq<Byte>)
    ensures ToHex([byte] + rest) == [DigitChar(byte / 16), DigitChar(byte % 16)] + ToHex(rest)
  {
    hide PadStart, ToText, DigitChar;
    PairOfByte(byte);
    assert ([byte] + rest)[1..] == rest;
  }

  lemma DigitCharIsDigit(d: nat)
    requires d < 16
    ensures DigitValue(DigitChar(d)) == Some(d) && Lower(DigitChar(d)) == DigitChar(d)
  {
    DigitValueInverts(d);
    DigitOf(DigitChar(d));
  }

  /** Bytes come back from their text, which has two lower-case digits for each. */
  lemma {:induction false} BytesComeBack(bytes: seq<Byte>)
    ensures |ToHex(bytes)| == 2 * |bytes| && LowerHex(ToHex(bytes))
    ensures PairsToBytes(ToHex(bytes)) == Some(bytes)
    decreases |bytes|
  {
    hide DigitChar, DigitValue, Lower, ToHex;
    if bytes == [] {
      assert ToHex([]) == [] by {
        EmptyToHex();
      }
    } else {
      var byte, rest := bytes[0], bytes[1..];
      BytesComeBack(rest);
      assert bytes == [byte] + rest;
      ToHexStep(byte, rest);
      DigitCharIsDigit(byte / 16);
      DigitCharIsDigit(byte % 16);
      assert ToHex(bytes)[2..] == ToHex(rest);
      assert 16 * (byte / 16) + byte % 16 == byte;
    }
  }

  lemma EmptyToHex()
    ensures ToHex([]) == []
  {
  }

  /** Text of lower-case digits comes back from its bytes. */
  lemma {:induction false} DigitsComeBack(t: string)
    requires |t| % 2 == 0 && LowerHex(t)
    ensures PairsToBytes(t).Some? && |PairsToBytes(t).value| == |t| / 2 && ToHex(PairsToBytes(t).value) == t
    decreases |t|
  {
    hide DigitChar, DigitValue, Lower, ToHex;
    if t == [] {
      EmptyToHex();
    } else {
      assert LowerHex(t[2..]);
      DigitsComeBack(t[2..]);
      DigitOf(t[0]);
      DigitOf(t[1]);
      var high, low := DigitValue(t[0]).value, DigitValue(t[1]).value;
      var rest := PairsToBytes(t[2..]).value;
      ToHexStep(16 * high + low, rest);
      assert (16 * high + low) / 16 == high && (16 * high + low) % 16 == low;
      assert t == [t[0], t[1]] + t[2..];
    }
  }

  lemma NoPrefix(t: string)
    requires LowerHex(t)
    ensures WithoutPrefix(t) == t && LowerText(t) == t
  {
    hide DigitValue, Lower;
    forall i | 0 <= i < |t| ensures t[i] != 'x' && Lower(t[i]) == t[i] {
      DigitOf(t[i]);
    }
  }

  /** fromHex inverts toHex. */
  lemma FromToHex(bytes: seq<Byte>)
    ensures FromHex(ToHex(bytes)) == Some(bytes)
  {
    hide PairsToBytes, ToHex, LowerHex;
    BytesComeBack(bytes);
    NoPrefix(ToHex(bytes));
  }

  // ---------- What the text looks like ----------

  /** The text has two characters for each byte: the high digit and the low digit, in lower case. */
  lemma HexFormat(bytes: seq<Byte>, i: nat)
    requires i < |bytes|
    ensures var (t, high, low) := (ToHex(bytes), bytes[i] / 16, bytes[i] % 16);
            && |t| == 2 * |bytes|
            && t[2 * i] == (if high < 10 then '0' + high as char else 'a' + (high - 10) as char)
            && t[2 * i + 1] == (if low < 10 then '0' + low as char else 'a' + (low - 10) as char)
  {
    hide ToHex, DigitChar;
    DigitFormat(bytes[i] / 16);
    DigitFormat(bytes[i] % 16);
    HexAt(bytes, i);
  }

  lemma {:induction false} HexAt(bytes: seq<Byte>, i: nat)
    requires i < |bytes|
    ensures var t := ToHex(bytes);
            |t| == 2 * |bytes| && t[2 * i] == DigitChar(bytes[i] / 16) && t[2 * i + 1] == DigitChar(bytes[i] % 16)
    decreases |bytes|
  {
    hide *;
    var rest := bytes[1..];
    assert bytes == [bytes[0]] + rest;
    ToHexStep(bytes[0], rest);
    BytesComeBack(bytes);
    if i > 0 {
      HexAt(rest, i - 1);
      assert bytes[i] == rest[i - 1];
    }
  }

  /** The same text up to the case of the letters a to f. */
  ghost predicate UpToCase(t: string, digits: string) {
    && |t| == |digits|
    && forall i :: 0 <= i < |t| ==>
         t[i] == digits[i] || ('a' <= digits[i] <= 'f' && t[i] as int == digits[i] as int - 'a' as int + 'A' as int)
  }

  lemma CaseIsLowered(t: string, digits: string)
    requires LowerHex(digits) && UpToCase(t, digits)
    ensures LowerText(t) == digits
  {
    forall i | 0 <= i < |t| ensures LowerText(t)[i] == digits[i] {
      DigitOf(digits[i]);
    }
  }

  /** Upper and lower case, with or without the prefix 0x, read alike, and an odd number of digits reads
      as if a zero came first. */
  lemma ReadsAlike(t: string, digits: string)
    requires LowerHex(digits) && UpToCase(t, digits)
    ensures FromHex(t) == FromHex("0x" + t) == FromHex(digits)
    ensures |t| % 2 == 1 ==> FromHex(t) == FromHex("0" + t)
    ensures FromHex(t).Some? && |FromHex(t).value| == (|t| + 1) / 2
  {
    CaseIsLowered(t, digits);
    hide UpToCase;
    NoPrefix(digits);
    forall i | 0 <= i < |t| ensures t[i] != 'x' {
      assert digits[i] == Lower(t[i]);
      DigitOf(digits[i]);
    }
    assert WithoutPrefix(t) == t;
    assert ("0x" + t)[2..] == t;
    var zero := "0" + t;
    assert LowerText(zero) == "0" + digits && LowerHex("0" + digits);
    NoPrefix("0" + digits);
    assert WithoutPrefix(zero) == zero;
    var (even, lower) := (if |t| % 2 == 0 then t else zero, if |t| % 2 == 0 then digits else "0" + digits);
    assert LowerText(even) == lower && LowerHex(lower);
    PairsIgnoreCase(even, lower);
    DigitsComeBack(lower);
  }

  lemma {:induction false} PairsIgnoreCase(t: string, digits: string)
    requires LowerText(t) == digits && |t| % 2 == 0 && LowerHex(digits)
    ensures PairsToBytes(t) == PairsToBytes(digits)
    decreases |t|
  {
    hide DigitValue, Lower;
    if t != [] {
      assert digits[0] == Lower(t[0]) && digits[1] == Lower(t[1]);
      DigitOf(digits[0]);
      DigitOf(digits[1]);
      assert LowerText(t[2..]) == digits[2..];
      PairsIgnoreCase(t[2..], digits[2..]);
    }
  }

  // ---------- Addresses ----------

  function AddressBytes(t: string): Option<seq<Byte>> {
    FromHex(NormalizeAddress(t))
  }

  function AddressText(bytes: seq<Byte>): string {
    NormalizeAddress(ToHex(bytes))
  }

  lemma PadStartAdds(t: string, width: nat)
    ensures |PadStart(t, width)| >= width && |PadStart(t, width)| >= |t|
    ensures forall i :: 0 <= i < |PadStart(t, width)| ==> PadStart(t, width)[i] == '0' || PadStart(t, width)[i] in t
    ensures |t| >= width ==> PadStart(t, width) == t
  {
  }

  lemma NormalText(t: string, digits: string)
    requires digits == PadStart(WithoutPrefix(LowerText(t)), 2 * ADDRESS_LENGTH)
    ensures |digits| >= 64 && NormalizeAddress(t) == "0x" + digits && WithoutPrefix("0x" + digits) == digits
    ensures forall i :: 0 <= i < |digits| ==> Lower(digits[i]) == digits[i]
  {
    var lower := LowerText(t);
    PadStartAdds(WithoutPrefix(lower), 64);
    assert ("0x" + digits)[2..] == digits;
    hide PadStart;
    forall i | 0 <= i < |digits| ensures Lower(digits[i]) == digits[i] {
      if digits[i] != '0' {
        assert digits[i] in WithoutPrefix(lower);
        assert digits[i] in lower;
        var k :| 0 <= k < |lower| && lower[k] == digits[i];
      }
    }
  }

  lemma {:induction false} AllDigits(t: string)
    requires |t| % 2 == 0 && PairsToBytes(t).Some?
    ensures |PairsToBytes(t).value| == |t| / 2
    ensures forall i :: 0 <= i < |t| ==> DigitValue(Lower(t[i])).Some?
    decreases |t|
  {
    hide DigitValue, Lower;
    if t != [] {
      AllDigits(t[2..]);
      assert forall i :: 2 <= i < |t| ==> t[i] == t[2..][i - 2];
    }
  }

  /** An address of 32 bytes comes back in its normal form. */
  lemma AddressComesBack(t: string)
    requires AddressBytes(t).Some? && |AddressBytes(t).value| == ADDRESS_LENGTH
    ensures AddressText(AddressBytes(t).value) == NormalizeAddress(t)
  {
    var digits := PadStart(WithoutPrefix(LowerText(t)), 2 * ADDRESS_LENGTH);
    NormalText(t, digits);
    hide PadStart, LowerText, DigitValue, Lower, ToHex;
    var padded := if |digits| % 2 == 0 then digits else "0" + digits;
    AllDigits(padded);
    assert |digits| == 64;
    assert LowerHex(digits);
    hide PairsToBytes;
    DigitsComeBack(digits);
    NoPrefix(digits);
    PadStartAdds(digits, 64);
  }

  /** The 32 bytes of an address come back from its text. */
  lemma AddressBytesComeBack(bytes: seq<Byte>)
    requires |bytes| == ADDRESS_LENGTH
    ensures AddressBytes(AddressText(bytes)) == Some(bytes)
    ensures NormalizeAddress(AddressText(bytes)) == AddressText(bytes)
  {
    var digits := ToHex(bytes);
    BytesComeBack(bytes);
    NoPrefix(digits);
    PadStartAdds(digits, 64);
    hide ToHex, PairsToBytes, PadStart, DigitValue, LowerText, Lower, WithoutPrefix;
    assert AddressText(bytes) == "0x" + digits;
    PrefixedDigits(digits);
  }

  lemma PrefixedDigits(digits: string)
    requires LowerHex(digits) && |digits| == 64
    ensures WithoutPrefix("0x" + digits) == digits && NormalizeAddress("0x" + digits) == "0x" + digits
  {
    NoPrefix(digits);
    PadStartAdds(digits, 64);
    hide PadStart, DigitValue, LowerHex;
    var t := "0x" + digits;
    assert t[2..] == digits;
    assert LowerText(t) == t by {
      forall i | 0 <= i < |t| ensures Lower(t[i]) == t[i] {
        if i >= 2 {
          assert t[i] == digits[i - 2] == LowerText(digits)[i - 2];
        }
      }
    }
  }

  predicate IsAddress(text: string) {
    AddressBytes(text).Some? && |AddressBytes(text).value| == ADDRESS_LENGTH
  }

  lemma NormalizeTwice(t: string)
    requires IsAddress(t)
    ensures NormalizeAddress(NormalizeAddress(t)) == NormalizeAddress(t)
  {
    hide NormalizeAddress, FromHex, ToHex;
    AddressComesBack(t);
    AddressBytesComeBack(AddressBytes(t).value);
  }

  /** The normal form has 0x and at least 64 digits, so no shorter text is in normal form. */
  lemma ShortIsNotNormal(t: string)
    requires |t| < 2 + 2 * ADDRESS_LENGTH
    ensures NormalizeAddress(t) != t
  {
    PadStartAdds(WithoutPrefix(LowerText(t)), 2 * ADDRESS_LENGTH);
  }

  /** The normal form of up to 64 digits, in either case and with or without 0x, is 0x, zeros up to a
      length of 64 digits, and the digits in lower case. */
  lemma AddressFormat(t: string, digits: string)
    requires LowerHex(digits) && UpToCase(t, digits) && |t| <= 64
    ensures NormalizeAddress(t) == "0x" + seq(64 - |t|, _ => '0') + digits
    ensures NormalizeAddress("0x" + t) == NormalizeAddress(t)
  {
    CaseIsLowered(t, digits);
    NoPrefix(digits);
    hide DigitValue, UpToCase;
    assert Lower('0') == '0' && Lower('x') == 'x';
    assert LowerText("0x" + t) == "0x" + digits;
    assert ("0x" + digits)[2..] == digits;
    assert Zeros(64 - |t|) == seq(64 - |t|, _ => '0');
    assert |t| == 64 ==> Zeros(0) + digits == digits;
  }
}
