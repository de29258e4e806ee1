/** Integers as little-endian bytes and as digits: toLittleEndian of packages/bcs/src/writer.ts and
    the wide reads of packages/bcs/src/reader.ts, which go through padded hexadecimal text. */
module Numbers {
  import opened Octets
  import opened Uleb
  import opened Results

  // ---------- Little-endian bytes ----------

  function FromLittleEndian(bytes: seq<Byte>): nat {
    if bytes == [] then 0 else bytes[0] + 256 * FromLittleEndian(bytes[1..])
  }

  lemma {:induction false} LittleEndianInverts(v: nat, n: nat)
    requires v < Pow256(n)
    ensures FromLittleEndian(LittleEndian(v, n)) == v
  {
    if n > 0 {
      LittleEndianInverts(v / 256, n - 1);
      assert LittleEndian(v, n)[1..] == LittleEndian(v / 256, n - 1);
    }
  }

  lemma DivideTwice(v: nat, b: nat)
    requires b > 0
    ensures v / 256 / b == v / (256 * b)
  {
    var q := v / 256;
    var s, t := q / b, q % b;
    QuotientOf(q, b, s, t);
    FactorOut(s, b);
    assert v == Times(s, 256 * b) + (256 * t + v % 256);
    hide Times;
    UniqueQuotient(v, 256 * b, s, 256 * t + v % 256);
  }

  lemma QuotientOf(q: nat, b: nat, s: nat, t: nat)
    requires b > 0 && s == q / b && t == q % b
    ensures q == Times(s, b) + t
  {
  }

  lemma FactorOut(s: nat, b: nat)
    ensures Times(s, 256 * b) == 256 * Times(s, b)
  {
  }

  lemma Grows(s: nat, t: nat, m: nat)
    requires s < t
    ensures Times(s, m) + m <= Times(t, m)
  {
    assert Times(t, m) == Times(s, m) + m + Times(t - s - 1, m);
  }

  lemma UniqueQuotient(v: nat, m: nat, s: nat, r: nat)
    requires r < m && v == Times(s, m) + r
    ensures v / m == s
  {
    QuotientOf(v, m, v / m, v % m);
    if v / m < s {
      Grows(v / m, s, m);
    } else if s < v / m {
      Grows(s, v / m, m);
    }
  }

  /** Byte i of an encoding is digit i of the number in base 256. */
  lemma {:induction false} LittleEndianAt(v: nat, n: nat, i: nat)
    requires i < n
    ensures LittleEndian(v, n)[i] == v / Pow256(i) % 256
  {
    if i > 0 {
      LittleEndianAt(v / 256, n - 1, i - 1);
      DivideTwice(v, Pow256(i - 1));
    }
  }

  lemma {:induction false} FromLittleEndianBound(bytes: seq<Byte>)
    ensures FromLittleEndian(bytes) < Pow256(|bytes|)
  {
    if bytes != [] {
      FromLittleEndianBound(bytes[1..]);
    }
  }

  /** The value of a concatenation: the second part is worth 256^|a| times its own value. */
  lemma {:induction false} FromLittleEndianConcat(a: seq<Byte>, b: seq<Byte>)
    ensures FromLittleEndian(a + b) == FromLittleEndian(a) + Pow256(|a|) * FromLittleEndian(b)
  {
    if a == [] {
      assert a + b == b;
    } else {
      FromLittleEndianConcat(a[1..], b);
      assert (a + b)[1..] == a[1..] + b;
      Moves256(Pow256(|a| - 1), FromLittleEndian(b));
    }
  }

  lemma Moves256(p: nat, x: nat)
    ensures 256 * (p * x) == (256 * p) * x
  {
  }

  /** The loop that peels bytes off a big integer into a buffer of the given size; a typed array
      ignores writes past its end. */
  method ToLittleEndian(bigint: int, size: nat) returns (result: array<Byte>)
    ensures fresh(result) && result[..] == LittleEndian(if bigint > 0 then bigint else 0, size)
  {
    result := new Byte[size](_ => 0);
    var rest := if bigint > 0 then bigint else 0;
    ghost var whole := LittleEndian(rest, size);
    var i := 0;
    assert whole[0..] == whole;
    hide LittleEndian;
    while rest > 0
      invariant fresh(result) && result.Length == size && rest >= 0
      invariant i <= size ==> result[..i] == whole[..i] && whole[i..] == LittleEndian(rest, size - i)
      invariant i > size ==> result[..] == whole
      invariant forall k :: i <= k < size ==> result[k] == 0
      decreases rest
    {
      if i < size {
        ghost var before := result[..i];
        result[i] := rest % 256;
        assert result[..i] == before;
        LittleEndianStep(rest, size - i);
        assert whole[i] == whole[i..][0] == rest % 256 && whole[i + 1..] == whole[i..][1..];
        assert result[..i + 1] == whole[..i + 1];
      } else if i == size {
        assert result[..] == result[..i] && whole == whole[..i];
      }
      rest := rest / 256;
      i := i + 1;
    }
    if i <= size {
      FilledWithZeros(result[..], whole, i);
    }
  }

  lemma LittleEndianStep(v: nat, n: nat)
    requires n > 0
    ensures LittleEndian(v, n)[0] == v % 256 && LittleEndian(v, n)[1..] == LittleEndian(v / 256, n - 1)
  {
  }

  lemma FilledWithZeros(bytes: seq<Byte>, whole: seq<Byte>, i: nat)
    requires i <= |bytes| == |whole| && bytes[..i] == whole[..i] && whole[i..] == LittleEndian(0, |whole| - i)
    requires forall k :: i <= k < |bytes| ==> bytes[k] == 0
    ensures bytes == whole
  {
    ZeroBytes(|whole| - i);
    forall k | 0 <= k < |bytes| ensures bytes[k] == whole[k] {
      if k < i {
        assert bytes[..i][k] == whole[..i][k];
      } else {
        assert whole[k] == whole[i..][k - i];
      }
    }
  }

  lemma {:induction false} ZeroBytes(n: nat)
    ensures forall k :: 0 <= k < n ==> LittleEndian(0, n)[k] == 0
  {
    if n > 0 {
      ZeroBytes(n - 1);
    }
  }

  // ---------- Digits ----------

  const DIGITS := "0123456789abcdef"

  function DigitChar(d: nat): char
    requires d < 16
  {
    DIGITS[d]
  }

  function DigitValue(c: char): Option<nat> {
    if '0' <= c <= '9' then Some(c as nat - '0' as nat)
    else if 'a' <= c <= 'f' then Some(c as nat - 'a' as nat + 10)
    else None
  }

  lemma DigitValueInverts(d: nat)
    requires d < 16
    ensures DigitValue(DigitChar(d)) == Some(d)
  {
  }

  /** Number.prototype.toString with a radix. */
  function ToText(n: nat, radix: nat): (s: string)
    requires 2 <= radix <= 16
    ensures |s| > 0
  {
    if n < radix then [DigitChar(n)] else ToText(n / radix, radix) + [DigitChar(n % radix)]
  }

  /** The value of a text of digits, as BigInt reads it; the empty text is zero. */
  function FromText(s: string, radix: nat): Option<nat>
    requires 2 <= radix <= 16
  {
    if s == [] then Some(0)
    else
      match (FromText(s[..|s| - 1], radix), DigitValue(s[|s| - 1]))
      case (Some(n), Some(d)) => if d < radix then Some(Times(n, radix) + d) else None
      case _ => None
  }

  lemma QuotientAndDigit(n: nat, radix: nat)
    requires radix > 0
    ensures Times(n / radix, radix) + n % radix == n
  {
  }

  lemma FromTextSnoc(s: string, q: nat, d: nat, radix: nat)
    requires 2 <= radix <= 16 && d < radix && FromText(s, radix) == Some(q)
    ensures FromText(s + [DigitChar(d)], radix) == Some(Times(q, radix) + d)
  {
    hide DigitValue, DigitChar, Times;
    DigitValueInverts(d);
    var t := s + [DigitChar(d)];
    assert t[..|t| - 1] == s;
  }

  lemma {:induction false} FromToText(n: nat, radix: nat)
    requires 2 <= radix <= 16
    ensures FromText(ToText(n, radix), radix) == Some(n)
  {
    hide FromText, DigitChar, Times;
    if n < radix {
      assert FromText([], radix) == Some(0) by { FromEmptyText(radix); }
      FromTextSnoc([], 0, n, radix);
      ZeroTimes(radix);
      assert [] + [DigitChar(n)] == ToText(n, radix);
    } else {
      FromToText(n / radix, radix);
      QuotientAndDigit(n, radix);
      FromTextSnoc(ToText(n / radix, radix), n / radix, n % radix, radix);
    }
  }

  lemma FromEmptyText(radix: nat)
    requires 2 <= radix <= 16
    ensures FromText([], radix) == Some(0)
  {
  }

  function Power(b: nat, n: nat): (p: nat)
    ensures b > 0 ==> p > 0
  {
    if n == 0 then 1 else b * Power(b, n - 1)
  }

  /** Digit i of a number, the last one first. */
  function Digit(n: nat, radix: nat, i: nat): (d: nat)
    requires 2 <= radix
    ensures d < radix
  {
    n / Power(radix, i) % radix
  }

  /** The text of a number has one character for each digit, the last one first: 0 to 9 for the digits
      below ten and a to f for the others. Only the text of zero begins with a zero. */
  lemma TextFormat(n: nat, radix: nat, i: nat)
    requires 2 <= radix <= 16
    ensures var (s, d) := (ToText(n, radix), Digit(n, radix, i));
            && (i < |s| ==> s[|s| - 1 - i] == if d < 10 then '0' + d as char else 'a' + (d - 10) as char)
            && n < Power(radix, |s|) && (|s| > 1 ==> n >= Power(radix, |s| - 1))
  {
    hide DigitChar, ToText, Power, Digit;
    TextLength(n, radix);
    if i < |ToText(n, radix)| {
      TextDigit(n, radix, i);
      DigitFormat(Digit(n, radix, i));
    }
  }

  lemma PowerOne(radix: nat)
    ensures Power(radix, 1) == radix && Power(radix, 0) == 1
  {
    assert Power(radix, 1) == radix * Power(radix, 0);
  }

  lemma TextUnfolds(n: nat, radix: nat)
    requires 2 <= radix <= 16
    ensures |ToText(n, radix)| == if n < radix then 1 else |ToText(n / radix, radix)| + 1
  {
  }

  lemma {:induction false} TextLength(n: nat, radix: nat)
    requires 2 <= radix <= 16
    ensures var k := |ToText(n, radix)|; n < Power(radix, k) && (k > 1 ==> n >= Power(radix, k - 1))
  {
    TextUnfolds(n, radix);
    PowerOne(radix);
    hide *;
    if n >= radix {
      var q := Quotient(n, radix);
      TextLength(q, radix);
      PowerBounds(n, radix, |ToText(q, radix)|);
    }
  }

  function Quotient(n: nat, radix: nat): (q: nat)
    requires radix >= 2
    ensures q == n / radix && (n > 0 ==> q < n)
  {
    n / radix
  }

  lemma {:induction false} TextDigit(n: nat, radix: nat, i: nat)
    requires 2 <= radix <= 16 && i < |ToText(n, radix)|
    ensures ToText(n, radix)[|ToText(n, radix)| - 1 - i] == DigitChar(Digit(n, radix, i))
    decreases i
  {
    hide DigitChar;
    if i > 0 {
      var (s, init) := (ToText(n, radix), ToText(n / radix, radix));
      assert s == init + [DigitChar(n % radix)];
      assert Power(radix, i) == radix * Power(radix, i - 1);
      hide Power, ToText;
      TextDigit(n / radix, radix, i - 1);
      DivideThenDivide(n, radix, Power(radix, i - 1));
    }
  }

  lemma DigitFormat(d: nat)
    requires d < 16
    ensures DigitChar(d) == if d < 10 then '0' + d as char else 'a' + (d - 10) as char
  {
  }

  lemma PowerBounds(n: nat, radix: nat, k: nat)
    requires radix > 0 && n / radix < Power(radix, k) && k > 0
    ensures n < Power(radix, k + 1)
    ensures n / radix >= Power(radix, k - 1) ==> n >= Power(radix, k)
  {
    assert Power(radix, k + 1) == radix * Power(radix, k) && Power(radix, k) == radix * Power(radix, k - 1);
    hide Power;
    Scaled(n, radix, Power(radix, k));
    Scaled(n, radix, Power(radix, k - 1));
  }

  lemma Scaled(n: nat, radix: nat, p: nat)
    requires radix > 0
    ensures n / radix < p ==> n < radix * p
    ensures n / radix >= p ==> n >= radix * p
  {
    var (q, r) := (n / radix, n % radix);
    assert n == radix * q + r;
    if q < p {
      assert radix * (q + 1) <= radix * p;
    } else {
      assert radix * p <= radix * q;
    }
  }

  lemma DivideThenDivide(v: nat, a: nat, b: nat)
    requires a > 0 && b > 0
    ensures a * b > 0 && v / a / b == v / (a * b)
  {
    var (q, r) := (v / a, v % a);
    var (s, t) := (q / b, q % b);
    QuotientOf(v, a, q, r);
    QuotientOf(q, b, s, t);
    Regroup(s, b, t, a);
    Below(a, b, t, r);
    hide Times;
    UniqueQuotient(v, a * b, s, a * t + r);
  }

  lemma Regroup(s: nat, b: nat, t: nat, a: nat)
    ensures Times(Times(s, b) + t, a) == Times(s, a * b) + a * t
  {
    assert (s * b) * a == s * (a * b);
  }

  lemma Below(a: nat, b: nat, t: nat, r: nat)
    requires t < b && r < a
    ensures a * t + r < a * b
  {
    assert a * (t + 1) <= a * b;
  }

  function Zeros(n: nat): (s: string)
    ensures |s| == n && forall i :: 0 <= i < n ==> s[i] == '0'
  {
    seq(n, _ => '0')
  }

  /** String.prototype.padStart with zeros. */
  function PadStart(s: string, width: nat): string {
    if |s| >= width then s else Zeros(width - |s|) + s
  }

  function Pow16(n: nat): (p: nat)
    ensures p > 0
  {
    if n == 0 then 1 else 16 * Pow16(n - 1)
  }

  lemma TimesSixteen(n: nat, p: nat)
    ensures Times(Times(n, p), 16) == Times(n, 16 * p) && Times(n, 1) == n
  {
    assert (n * p) * 16 == n * (16 * p);
  }

  lemma TimesAdds(a: nat, b: nat, p: nat)
    ensures Times(a + b, p) == Times(a, p) + Times(b, p)
  {
  }

  /** Reading digits after other digits. */
  lemma {:induction false} FromTextConcat(a: string, b: string)
    requires FromText(a, 16).Some? && FromText(b, 16).Some?
    ensures FromText(a + b, 16) == Some(Times(FromText(a, 16).value, Pow16(|b|)) + FromText(b, 16).value)
    decreases |b|
  {
    hide DigitValue, Times;
    var n := FromText(a, 16).value;
    if b == [] {
      assert a + b == a;
      TimesSixteen(n, 1);
    } else {
      var init := b[..|b| - 1];
      FromTextConcat(a, init);
      assert (a + b)[..|a + b| - 1] == a + init;
      TimesSixteen(n, Pow16(|init|));
      TimesAdds(Times(n, Pow16(|init|)), FromText(init, 16).value, 16);
    }
  }

  lemma {:induction false} FromZeros(n: nat)
    ensures FromText(Zeros(n), 16) == Some(0)
  {
    if n > 0 {
      ZeroTimes(16);
      FromZeros(n - 1);
      assert Zeros(n)[..n - 1] == Zeros(n - 1);
    }
  }

  lemma {:induction false} HexLength(n: nat, width: nat)
    requires width > 0 && n < Pow16(width)
    ensures |ToText(n, 16)| <= width
  {
    if n >= 16 {
      assert width > 1 by { assert Pow16(1) == 16; }
      HexLength(n / 16, width - 1);
    }
  }

  /** What a wide read makes of a high and a low half. */
  function JoinHex(high: nat, low: nat, width: nat): Option<nat> {
    FromText(ToText(high, 16) + PadStart(ToText(low, 16), width), 16)
  }

  /** Joining the halves as text is joining them as numbers. */
  lemma JoinHexIsSum(high: nat, low: nat, width: nat)
    requires width > 0 && low < Pow16(width)
    ensures JoinHex(high, low, width) == Some(Times(high, Pow16(width)) + low)
  {
    hide ToText, Times, FromText;
    var text := ToText(low, 16);
    HexLength(low, width);
    FromToText(low, 16);
    FromToText(high, 16);
    var padded := PadStart(text, width);
    ZeroTimes(Pow16(|text|));
    if |text| < width {
      FromZeros(width - |text|);
      FromTextConcat(Zeros(width - |text|), text);
    }
    assert FromText(padded, 16) == Some(low) && |padded| == width;
    FromTextConcat(ToText(high, 16), padded);
  }

  lemma {:induction false} Pow16Is256(n: nat)
    ensures Pow16(2 * n) == Pow256(n)
  {
    if n > 0 {
      Pow16Is256(n - 1);
      assert Pow16(2 * n) == 16 * (16 * Pow16(2 * n - 2));
    }
  }

  /** A wide read of 2 * n bytes, from the reads of its two halves, has the little-endian value. */
  lemma WideRead(low: seq<Byte>, high: seq<Byte>)
    requires |low| == |high| > 0
    ensures JoinHex(FromLittleEndian(high), FromLittleEndian(low), 2 * |low|) == Some(FromLittleEndian(low + high))
  {
    hide JoinHex, FromLittleEndian;
    FromLittleEndianBound(low);
    Pow16Is256(|low|);
    JoinHexIsSum(FromLittleEndian(high), FromLittleEndian(low), 2 * |low|);
    FromLittleEndianConcat(low, high);
    assert FromLittleEndian(high) * Pow256(|low|) == Pow256(|low|) * FromLittleEndian(high);
  }
}
