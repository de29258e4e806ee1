/** What shares below the threshold of packages/seal/src/shamir.ts tell about the secret: nothing. */
module Secrecy {
  import opened Bytes
  import opened GF256
  import opened Polynomials
  import opened Interpolation
  import opened Results
  import opened Shamir

  /** For each candidate byte there is exactly one choice of random coefficients under which the
      shares held, one fewer than the threshold, have the values they have. */
  lemma FewerSharesRevealNothing(points: seq<Element>, values: seq<Element>, candidate: Element)
    returns (random: seq<Element>)
    requires |points| == |values| && Distinct(points) && 0 !in points
    ensures |random| == |points|
    ensures forall i :: 0 <= i < |points| ==> Horner([candidate] + random, points[i]) == values[i]
    ensures forall other: seq<Element> ::
              |other| == |points| && (forall i :: 0 <= i < |points| ==>
                  Horner([candidate] + other, points[i]) == values[i])
              ==> other == random
  {
    hide Mul, Add, Horner, Evaluate, Interpolation.Interpolate;
    var n := |points| + 1;
    var xs, ys := [0] + points, [candidate] + values;
    var coordinates := seq(n, i requires 0 <= i < n => Coordinate(xs[i], ys[i]));
    assert Xs(coordinates) == xs;
    InterpolateCorrect(coordinates);
    var p := Interpolation.Interpolate(coordinates).value;
    EvaluateIsHorner(p);
    var c := Pad(p.coefficients, n);
    random := c[1..];
    forall i | 0 <= i < n ensures Horner(c, xs[i]) == ys[i] {
      PadKeepsValue(p.coefficients, n, xs[i]);
      assert coordinates[i].x == xs[i] && coordinates[i].y == ys[i];
    }
    assert Horner(c, xs[0]) == ys[0];
    HornerAtZero(c);
    assert c == [candidate] + random;
    forall i | 0 <= i < |points| ensures Horner(c, points[i]) == values[i] {
      assert xs[i + 1] == points[i] && ys[i + 1] == values[i];
    }
    forall other: seq<Element> | |other| == |points| &&
        forall i :: 0 <= i < |points| ==> Horner([candidate] + other, points[i]) == values[i]
      ensures other == random
    {
      OnlyOneChoice(points, candidate, random, other);
    }
  }

  lemma OnlyOneChoice(points: seq<Element>, candidate: Element, r: seq<Element>, s: seq<Element>)
    requires |r| == |s| == |points| && Distinct(points) && 0 !in points
    requires forall i :: 0 <= i < |points| ==> Horner([candidate] + r, points[i]) == Horner([candidate] + s, points[i])
    ensures r == s
  {
    hide Horner;
    var c, d := [candidate] + r, [candidate] + s;
    var xs := [0] + points;
    HornerAtZero(c);
    HornerAtZero(d);
    forall i | 0 <= i < |xs| ensures Horner(c, xs[i]) == Horner(d, xs[i]) {
      if i > 0 {
        assert xs[i] == points[i - 1];
      }
    }
    DeterminedByValues(c, d, xs);
    assert r == c[1..] && s == d[1..];
  }

  /** The random values that give the coefficients listed for each byte. */
  function RandomnessOf(coefficients: seq<seq<Element>>): Randomness {
    (b: nat, k: nat) => if b < |coefficients| && k < |coefficients[b]| then coefficients[b][k] else 0
  }

  function PointsOf(held: seq<Share>): (r: seq<Element>)
    requires forall i :: 0 <= i < |held| ==> 0 <= held[i].index
    ensures |r| == |held| && forall i :: 0 <= i < |r| ==> r[i] == ToByte(held[i].index)
  {
    seq(|held|, i requires 0 <= i < |held| => ToByte(held[i].index))
  }

  function ValuesOf(held: seq<Share>, b: nat): (r: seq<Element>)
    requires forall i :: 0 <= i < |held| ==> b < |held[i].share|
    ensures |r| == |held| && forall i :: 0 <= i < |r| ==> r[i] == held[i].share[b]
  {
    seq(|held|, i requires 0 <= i < |held| => held[i].share[b])
  }

  /** The polynomial with these coefficients has the values of byte b of the shares held. */
  ghost predicate Fits(c: seq<Element>, held: seq<Share>, b: nat)
    requires forall i :: 0 <= i < |held| ==> 0 <= held[i].index && b < |held[i].share|
  {
    forall i :: 0 <= i < |held| ==> Horner(c, ToByte(held[i].index)) == held[i].share[b]
  }

  /** The coefficients of the one polynomial with this constant term that explains byte b of the shares. */
  ghost predicate ExplainsByte(held: seq<Share>, constant: Element, coefficients: seq<Element>, b: nat)
    requires forall i :: 0 <= i < |held| ==> 0 <= held[i].index && b < |held[i].share|
  {
    && |coefficients| == |held|
    && Fits([constant] + coefficients, held, b)
    && forall other: seq<Element> :: |other| == |held| && Fits([constant] + other, held, b) ==> other == coefficients
  }

  lemma FitsPoints(c: seq<Element>, held: seq<Share>, b: nat)
    requires forall i :: 0 <= i < |held| ==> 0 <= held[i].index && b < |held[i].share|
    ensures Fits(c, held, b) <==> forall i :: 0 <= i < |held| ==> Horner(c, PointsOf(held)[i]) == ValuesOf(held, b)[i]
  {
    hide Horner, ToByte;
    var points, values := PointsOf(held), ValuesOf(held, b);
    assert forall i :: 0 <= i < |held| ==> points[i] == ToByte(held[i].index) && values[i] == held[i].share[b];
  }

  lemma ExplainByte(held: seq<Share>, constant: Element, b: nat) returns (coefficients: seq<Element>)
    requires forall i :: 0 <= i < |held| ==> 1 <= held[i].index <= 255 && b < |held[i].share|
    requires forall i, j :: 0 <= i < j < |held| ==> held[i].index != held[j].index
    ensures ExplainsByte(held, constant, coefficients, b)
  {
    hide Horner, ToByte, Fits, PointsOf, ValuesOf;
    DistinctPoints(held);
    coefficients := FewerSharesRevealNothing(PointsOf(held), ValuesOf(held, b), constant);
    FitsPoints([constant] + coefficients, held, b);
    forall other: seq<Element> | |other| == |held| && Fits([constant] + other, held, b)
      ensures other == coefficients
    {
      FitsPoints([constant] + other, held, b);
    }
  }

  lemma {:induction false} ExplainEveryByte(held: seq<Share>, candidate: seq<Element>, n: nat)
    returns (coefficients: seq<seq<Element>>)
    requires forall i :: 0 <= i < |held| ==> 1 <= held[i].index <= 255 && |held[i].share| == |candidate|
    requires forall i, j :: 0 <= i < j < |held| ==> held[i].index != held[j].index
    requires n <= |candidate|
    ensures |coefficients| == n
    ensures forall b :: 0 <= b < n ==> ExplainsByte(held, candidate[b], coefficients[b], b)
  {
    hide ExplainsByte;
    if n == 0 {
      coefficients := [];
    } else {
      var init := ExplainEveryByte(held, candidate, n - 1);
      var last := ExplainByte(held, candidate[n - 1], n - 1);
      coefficients := init + [last];
    }
  }

  lemma DistinctPoints(held: seq<Share>)
    requires forall i :: 0 <= i < |held| ==> 1 <= held[i].index <= 255
    requires forall i, j :: 0 <= i < j < |held| ==> held[i].index != held[j].index
    ensures Distinct(PointsOf(held)) && 0 !in PointsOf(held)
  {
    hide ToByte;
    forall i, j | 0 <= i < j < |held|
      ensures PointsOf(held)[i] != PointsOf(held)[j]
    {
      if ToByte(held[i].index) == ToByte(held[j].index) {
        ToByteInjective(held[i].index, held[j].index);
      }
    }
    forall i | 0 <= i < |held|
      ensures PointsOf(held)[i] != 0
    {
      ToByteNonzero(held[i].index);
    }
  }

  /** Byte b of a share is the value of the polynomial with the candidate byte and the random values. */
  lemma ShareByte(secret: seq<Element>, threshold: int, random: Randomness, index: nat, b: nat)
    requires threshold >= 1 && b < |secret|
    ensures EvaluateAll(SamplePolynomials(secret, threshold - 1, random), ToByte(index))[b]
         == Horner([secret[b]] + RandomCoefficients(random, b, threshold - 1), ToByte(index))
  {
    hide Horner, ToByte;
    EvaluateConstructed([secret[b]] + RandomCoefficients(random, b, threshold - 1), ToByte(index));
  }

  /** A split of the secret with these random values has the shares held among its shares. */
  ghost predicate Yields(held: seq<Share>, secret: seq<Element>, threshold: int, total: int, random: Randomness) {
    && Split(secret, threshold, total, random).Success?
    && forall i :: 0 <= i < |held| ==> held[i] in Split(secret, threshold, total, random).value
  }

  lemma FitsSplit(held: seq<Share>, secret: seq<Element>, threshold: int, total: int, random: Randomness)
    requires 1 <= threshold <= total <= 255
    requires forall i :: 0 <= i < |held| ==> 1 <= held[i].index <= total && |held[i].share| == |secret|
    ensures Yields(held, secret, threshold, total, random) <==>
            (forall b :: 0 <= b < |secret| ==>
               Fits([secret[b]] + RandomCoefficients(random, b, threshold - 1), held, b))
  {
    hide EvaluateAll, Horner, ToByte, RandomCoefficients;
    SplitSucceeds(secret, threshold, total, random);
    var polynomials := SamplePolynomials(secret, threshold - 1, random);
    SharesUpToShape(polynomials, total);
    var all := Split(secret, threshold, total, random).value;
    forall i, b | 0 <= i < |held| && 0 <= b < |secret|
      ensures all[held[i].index - 1].share[b]
           == Horner([secret[b]] + RandomCoefficients(random, b, threshold - 1), ToByte(held[i].index))
    {
      ShareByte(secret, threshold, random, held[i].index, b);
    }
    forall i | 0 <= i < |held|
      ensures held[i] in all <==> held[i].share == all[held[i].index - 1].share
    {
      if held[i] in all {
        var k :| 0 <= k < |all| && all[k] == held[i];
      } else {
        assert all[held[i].index - 1] in all;
      }
    }
    if forall b :: 0 <= b < |secret| ==> Fits([secret[b]] + RandomCoefficients(random, b, threshold - 1), held, b) {
      forall i | 0 <= i < |held|
        ensures held[i].share == all[held[i].index - 1].share
      {
        forall b | 0 <= b < |secret|
          ensures held[i].share[b] == all[held[i].index - 1].share[b]
        {
          assert Fits([secret[b]] + RandomCoefficients(random, b, threshold - 1), held, b);
        }
      }
    }
  }

  /** Shares with distinct indices. */
  ghost predicate DistinctShares(held: seq<Share>, total: int, bytes: nat) {
    && (forall i :: 0 <= i < |held| ==> 1 <= held[i].index <= total && |held[i].share| == bytes)
    && (forall i, j :: 0 <= i < j < |held| ==> held[i].index != held[j].index)
  }

  /** Any shares below the threshold, whatever their values, are shares of a split of every secret of
      their length: there are random values under which a split of that secret has them. */
  lemma SharesFitEverySecret(held: seq<Share>, threshold: int, total: int, candidate: seq<Element>)
    returns (explanation: Randomness)
    requires 1 <= threshold <= total <= 255 && |held| < threshold && DistinctShares(held, total, |candidate|)
    ensures Yields(held, candidate, threshold, total, explanation)
  {
    hide Split, Horner, ToByte, EvaluateAll, Yields;
    var coefficients := ExplainEveryByte(held, candidate, |candidate|);
    explanation := RandomnessOf(coefficients);
    var n := threshold - 1;
    forall b | 0 <= b < |candidate|
      ensures Fits([candidate[b]] + RandomCoefficients(explanation, b, n), held, b)
    {
      assert ExplainsByte(held, candidate[b], coefficients[b], b);
      var c := [candidate[b]] + coefficients[b];
      assert [candidate[b]] + RandomCoefficients(explanation, b, n) == Pad(c, threshold);
      forall i | 0 <= i < |held|
        ensures Horner(Pad(c, threshold), ToByte(held[i].index)) == held[i].share[b]
      {
        PadKeepsValue(c, threshold, ToByte(held[i].index));
      }
    }
    FitsSplit(held, candidate, threshold, total, explanation);
  }

  /** Shares of a split, one fewer than its threshold, fit every secret of the same length. */
  lemma HeldSharesFitEverySecret(held: seq<Share>, secret: seq<Element>, threshold: int, total: int, random: Randomness,
                                 candidate: seq<Element>)
    returns (explanation: Randomness)
    requires Yields(held, secret, threshold, total, random) && Distinct(held) && |held| == threshold - 1
    requires |candidate| == |secret|
    ensures Yields(held, candidate, threshold, total, explanation)
  {
    explanation := TooFewSharesFitEverySecret(held, secret, threshold, total, random, candidate);
  }

  /** Any number of shares below the threshold fits every secret of the same length. */
  lemma TooFewSharesFitEverySecret(held: seq<Share>, secret: seq<Element>, threshold: int, total: int,
                                   random: Randomness, candidate: seq<Element>)
    returns (explanation: Randomness)
    requires Yields(held, secret, threshold, total, random) && Distinct(held) && |held| < threshold
    requires |candidate| == |secret|
    ensures Yields(held, candidate, threshold, total, explanation)
  {
    SharesOfSplit(held, secret, threshold, total, random);
    hide EvaluateAll, Split;
    explanation := SharesFitEverySecret(held, threshold, total, candidate);
  }

  ghost predicate SameCoefficients(a: Randomness, b: Randomness, bytes: nat, degree: nat) {
    forall i :: 0 <= i < bytes ==> RandomCoefficients(a, i, degree) == RandomCoefficients(b, i, degree)
  }

  /** The coefficients that explain them are determined, so every secret of the same length has exactly
      one explanation. */
  lemma ExplanationIsUnique(held: seq<Share>, secret: seq<Element>, threshold: int, total: int, random: Randomness,
                            other: Randomness)
    requires Distinct(held) && |held| == threshold - 1
    requires Yields(held, secret, threshold, total, random) && Yields(held, secret, threshold, total, other)
    ensures SameCoefficients(random, other, |secret|, threshold - 1)
  {
    SharesOfSplit(held, secret, threshold, total, random);
    hide Split, Horner, ToByte, EvaluateAll, Fits, Yields;
    var coefficients := ExplainEveryByte(held, secret, |secret|);
    FitsSplit(held, secret, threshold, total, random);
    FitsSplit(held, secret, threshold, total, other);
    var n := threshold - 1;
    forall b | 0 <= b < |secret|
      ensures RandomCoefficients(random, b, n) == RandomCoefficients(other, b, n)
    {
      assert ExplainsByte(held, secret[b], coefficients[b], b);
      assert Fits([secret[b]] + RandomCoefficients(random, b, n), held, b);
      assert Fits([secret[b]] + RandomCoefficients(other, b, n), held, b);
    }
  }

  // ---------- All explanations are equally many ----------

  function Shifted(r: Randomness, e: Randomness, f: Randomness): Randomness {
    (b: nat, k: nat) => Add(r(b, k), Add(e(b, k), f(b, k)))
  }

  /** Shifting twice gives the same random values, so shifting is a bijection. */
  lemma ShiftedTwice(r: Randomness, e: Randomness, f: Randomness, b: nat, k: nat)
    ensures Shifted(Shifted(r, e, f), e, f)(b, k) == r(b, k)
  {
    hide Add;
    XorTwice(r(b, k), Add(e(b, k), f(b, k)));
  }

  lemma XorTwice(x: Element, d: Element)
    ensures Add(Add(x, d), d) == x
  {
    hide Add;
    AddLaws(x, d, d);
    AddLaws(d, d, d);
  }

  lemma HornerOfThree(c: seq<Element>, d: seq<Element>, e: seq<Element>, sum: seq<Element>, x: Element)
    requires |c| == |d| == |e| == |sum|
    requires forall i :: 0 <= i < |c| ==> sum[i] == Add(c[i], Add(d[i], e[i]))
    ensures Horner(sum, x) == Add(Horner(c, x), Add(Horner(d, x), Horner(e, x)))
  {
    hide Horner, Add;
    var rest := seq(|c|, i requires 0 <= i < |c| => Add(d[i], e[i]));
    HornerOfSum(d, e, rest, x);
    HornerOfSum(c, rest, sum, x);
  }

  ghost predicate SameIndices(held: seq<Share>, other: seq<Share>) {
    |held| == |other| && forall i :: 0 <= i < |held| ==> held[i].index == other[i].index
  }

  lemma ShiftedFits(held: seq<Share>, other: seq<Share>, s: Element, c: Element, degree: nat, e: Randomness,
                    f: Randomness, r: Randomness, b: nat)
    requires forall i :: 0 <= i < |held| ==> 0 <= held[i].index && b < |held[i].share|
    requires forall i :: 0 <= i < |other| ==> b < |other[i].share|
    requires SameIndices(held, other)
    requires Fits([s] + RandomCoefficients(e, b, degree), held, b)
    requires Fits([c] + RandomCoefficients(f, b, degree), other, b)
    ensures Fits([s] + RandomCoefficients(r, b, degree), held, b) <==>
            Fits([c] + RandomCoefficients(Shifted(r, e, f), b, degree), other, b)
  {
    hide Horner, ToByte, Add;
    var rs, es, fs := [s] + RandomCoefficients(r, b, degree), [s] + RandomCoefficients(e, b, degree),
                      [c] + RandomCoefficients(f, b, degree);
    var sum := [c] + RandomCoefficients(Shifted(r, e, f), b, degree);
    assert Add(s, Add(s, c)) == c by {
      XorCancels(s, s, c);
    }
    forall i | 0 <= i < |held|
      ensures Horner(rs, ToByte(held[i].index)) == held[i].share[b] <==>
              Horner(sum, ToByte(other[i].index)) == other[i].share[b]
    {
      var x := ToByte(held[i].index);
      HornerOfThree(rs, es, fs, sum, x);
      XorCancels(Horner(rs, x), held[i].share[b], other[i].share[b]);
    }
  }

  lemma XorCancels(r: Element, h: Element, o: Element)
    ensures Add(r, Add(h, o)) == o <==> r == h
  {
    hide Add;
    AddLaws(r, h, o);
    AddLaws(o, o, o);
    XorTwice(Add(r, h), o);
  }

  /** Take any two secrets of one length and any two lists of shares with the same indices: if both are
      possible, then one shift of the random values turns the explanations of the first by the first
      secret into exactly those of the second by the second secret. So shares below the threshold have
      the same number of explanations by every secret, and all their values are equally likely. */
  lemma EquallyManyExplanations(held: seq<Share>, secret: seq<Element>, other: seq<Share>, candidate: seq<Element>,
                                threshold: int, total: int, e: Randomness, f: Randomness, r: Randomness)
    requires 1 <= threshold <= total <= 255 && |secret| == |candidate| && SameIndices(held, other)
    requires DistinctShares(held, total, |secret|) && DistinctShares(other, total, |candidate|)
    requires Yields(held, secret, threshold, total, e) && Yields(other, candidate, threshold, total, f)
    ensures Yields(held, secret, threshold, total, r) <==>
            Yields(other, candidate, threshold, total, Shifted(r, e, f))
  {
    hide Fits, Yields, RandomCoefficients, Shifted;
    FitsSplit(held, secret, threshold, total, e);
    FitsSplit(other, candidate, threshold, total, f);
    FitsSplit(held, secret, threshold, total, r);
    FitsSplit(other, candidate, threshold, total, Shifted(r, e, f));
    forall b | 0 <= b < |secret|
      ensures Fits([secret[b]] + RandomCoefficients(r, b, threshold - 1), held, b) <==>
              Fits([candidate[b]] + RandomCoefficients(Shifted(r, e, f), b, threshold - 1), other, b)
    {
      ShiftedFits(held, other, secret[b], candidate[b], threshold - 1, e, f, r, b);
    }
  }

  // ---------- Combining too few shares ----------

  /** The shares of a split with the given indices. */
  function Chosen(secret: seq<Element>, threshold: int, total: int, random: Randomness, indices: seq<nat>)
    : (r: seq<Share>)
    requires 1 <= threshold <= total <= 255
    requires forall i :: 0 <= i < |indices| ==> 1 <= indices[i] <= total
    ensures Yields(r, secret, threshold, total, random) && |r| == |indices|
    ensures forall i :: 0 <= i < |r| ==> r[i].index == indices[i] && |r[i].share| == |secret|
  {
    SplitSucceeds(secret, threshold, total, random);
    SharesUpToShape(SamplePolynomials(secret, threshold - 1, random), total);
    var all := Split(secret, threshold, total, random).value;
    seq(|indices|, i requires 0 <= i < |indices| => all[indices[i] - 1])
  }

  /** Combining shares that are too few can give every value: for every secret and every value of its
      length there are random values under which the shares with these indices combine to that value. */
  lemma TooFewSharesCombineToEverything(secret: seq<Element>, threshold: int, total: int, indices: seq<nat>,
                                        value: seq<Element>)
    returns (random: Randomness)
    requires 1 <= threshold <= total <= 255 && 0 < |indices| < threshold && |value| == |secret|
    requires Distinct(indices) && forall i :: 0 <= i < |indices| ==> 1 <= indices[i] <= total
    ensures Combine(Chosen(secret, threshold, total, random, indices)) == Success(value)
  {
    var held := Chosen(value, |indices|, total, RandomnessOf([]), indices);
    CombineRecoversSecret(held, value, |indices|, total, RandomnessOf([]));
    random := SharesFitEverySecret(held, threshold, total, secret);
    hide Combine, Split;
    var chosen := Chosen(secret, threshold, total, random, indices);
    assert chosen == held by {
      SharesWithIndex(chosen, held, secret, threshold, total, random);
    }
  }

  lemma SharesWithIndex(a: seq<Share>, b: seq<Share>, secret: seq<Element>, threshold: int, total: int,
                        random: Randomness)
    requires Yields(a, secret, threshold, total, random) && Yields(b, secret, threshold, total, random)
    requires SameIndices(a, b)
    ensures a == b
  {
    hide EvaluateAll;
    SplitSucceeds(secret, threshold, total, random);
    SharesUpToShape(SamplePolynomials(secret, threshold - 1, random), total);
    var all := Split(secret, threshold, total, random).value;
    forall i | 0 <= i < |a|
      ensures a[i] == b[i]
    {
      var k :| 0 <= k < |all| && all[k] == a[i];
      var l :| 0 <= l < |all| && all[l] == b[i];
    }
  }

  ghost predicate Combinable(a: seq<Coordinate>) {
    |a| > 0 && Distinct(Xs(a)) && forall i :: 0 <= i < |a| ==> a[i].x != 0
  }

  ghost predicate SumOf(sum: seq<Coordinate>, a: seq<Coordinate>, b: seq<Coordinate>, c: seq<Coordinate>) {
    && |sum| == |a| == |b| == |c|
    && forall i :: 0 <= i < |a| ==>
         a[i].x == b[i].x == c[i].x && sum[i] == Coordinate(a[i].x, Add(a[i].y, Add(b[i].y, c[i].y)))
  }

  /** The coefficients of the one polynomial through the coordinates. */
  lemma Through(a: seq<Coordinate>) returns (c: seq<Element>)
    requires Combinable(a)
    ensures |c| == |a| && CombineAtZero(a) == Success(Horner(c, 0))
    ensures forall i :: 0 <= i < |a| ==> Horner(c, a[i].x) == a[i].y
  {
    InterpolateCorrect(a);
    CombineIsInterpolationAtZero(a);
    hide Interpolation.Interpolate, CombineAtZero, Horner, Evaluate;
    var p := Interpolation.Interpolate(a).value;
    EvaluateIsHorner(p);
    c := Pad(p.coefficients, |a|);
    forall x ensures Horner(c, x) == Evaluate(p, x) {
      PadKeepsValue(p.coefficients, |a|, x);
    }
  }

  lemma CombineOfSum(sum: seq<Coordinate>, a: seq<Coordinate>, b: seq<Coordinate>, c: seq<Coordinate>)
    requires Combinable(a) && SumOf(sum, a, b, c)
    ensures Combinable(b) && Combinable(c) && Combinable(sum)
    ensures CombineAtZero(a).Success? && CombineAtZero(b).Success? && CombineAtZero(c).Success?
    ensures CombineAtZero(sum)
            == Success(Add(CombineAtZero(a).value, Add(CombineAtZero(b).value, CombineAtZero(c).value)))
  {
    assert Xs(b) == Xs(a) && Xs(c) == Xs(a) && Xs(sum) == Xs(a);
    hide CombineAtZero, Horner, Add;
    var p := Through(a);
    var q := Through(b);
    var r := Through(c);
    var all := seq(|a|, i requires 0 <= i < |a| => Add(p[i], Add(q[i], r[i])));
    forall i | 0 <= i < |sum|
      ensures sum[i].y == Horner(all, sum[i].x)
    {
      HornerOfThree(p, q, r, all, a[i].x);
    }
    HornerOfThree(p, q, r, all, 0);
    InterpolationRecovers(all, sum, 0);
    CombineIsInterpolationAtZero(sum);
  }

  /** Byte b of shares, as coordinates. */
  function ByteCoordinates(held: seq<Share>, b: nat): (r: seq<Coordinate>)
    requires forall i :: 0 <= i < |held| ==> 0 <= held[i].index && b < |held[i].share|
    ensures |r| == |held|
    ensures forall i :: 0 <= i < |held| ==> r[i] == Coordinate(ToByte(held[i].index), held[i].share[b])
  {
    seq(|held|, i requires 0 <= i < |held| => Coordinate(ToByte(held[i].index), held[i].share[b]))
  }

  lemma ByteCombinable(held: seq<Share>, total: int, bytes: nat, b: nat)
    requires 0 < |held| && total <= 255 && DistinctShares(held, total, bytes) && b < bytes
    ensures Combinable(ByteCoordinates(held, b))
  {
    hide ToByte;
    DistinctPoints(held);
    assert Xs(ByteCoordinates(held, b)) == PointsOf(held);
    assert forall i :: 0 <= i < |held| ==> PointsOf(held)[i] != 0;
  }

  lemma DistinctSharesValidate(held: seq<Share>, total: int, bytes: nat)
    requires 0 < |held| && total <= 255 && DistinctShares(held, total, bytes)
    ensures ValidateShares(held).Success?
    ensures var internal := ValidateShares(held).value;
            && |internal| == |held| && SameLengths(internal) && |internal[0].share| == bytes
            && forall b :: 0 <= b < bytes ==> CoordinatesAt(internal, b) == ByteCoordinates(held, b)
  {
    hide ToByte;
    HasDuplicatesIsRepetition(Indices(held));
    assert ValidateShares(held).Success?;
    ValidatedShares(held);
  }

  /** Combining works byte by byte. */
  lemma CombineByBytes(held: seq<Share>, total: int, bytes: nat)
    requires 0 < |held| && total <= 255 && DistinctShares(held, total, bytes)
    ensures Combine(held).Success? && |Combine(held).value| == bytes
    ensures forall b :: 0 <= b < bytes ==> CombineAtZero(ByteCoordinates(held, b)) == Success(Combine(held).value[b])
  {
    DistinctSharesValidate(held, total, bytes);
    var internal := ValidateShares(held).value;
    hide CombineAtZero, ToByte, ValidateShares, CombineBytes, CoordinatesAt, ByteCoordinates, DistinctShares;
    hide Combinable;
    forall b | 0 <= b < bytes
      ensures CombineAtZero(ByteCoordinates(held, b)).Success?
    {
      ByteCombinable(held, total, bytes, b);
      var _ := Through(ByteCoordinates(held, b));
    }
    var value := seq(bytes, b requires 0 <= b < bytes => CombineAtZero(CoordinatesAt(internal, b)).value);
    CombineBytesOf(internal, value, bytes);
    assert value[..bytes] == value;
  }

  /** The coefficients of the polynomial for byte b. */
  function Coefficients(secret: seq<Element>, degree: nat, random: Randomness, b: nat): (r: seq<Element>)
    requires b < |secret|
    ensures |r| == degree + 1
  {
    [secret[b]] + RandomCoefficients(random, b, degree)
  }

  lemma ShiftedCoefficients(secret: seq<Element>, degree: nat, r: Randomness, e: Randomness, f: Randomness, b: nat)
    requires b < |secret|
    ensures var sum := Coefficients(secret, degree, Shifted(r, e, f), b);
            forall i :: 0 <= i < |sum| ==>
              sum[i] == Add(Coefficients(secret, degree, r, b)[i],
                            Add(Coefficients(secret, degree, e, b)[i], Coefficients(secret, degree, f, b)[i]))
  {
    hide Add;
    XorCancels(secret[b], secret[b], secret[b]);
  }

  /** Coordinates on the polynomial with these coefficients. */
  ghost predicate OnCurve(a: seq<Coordinate>, c: seq<Element>, xs: seq<Element>) {
    |a| == |xs| && forall i :: 0 <= i < |a| ==> a[i] == Coordinate(xs[i], Horner(c, xs[i]))
  }

  lemma SumOfCurves(sum: seq<Coordinate>, a: seq<Coordinate>, b: seq<Coordinate>, c: seq<Coordinate>,
                    all: seq<Element>, p: seq<Element>, q: seq<Element>, r: seq<Element>, xs: seq<Element>)
    requires OnCurve(sum, all, xs) && OnCurve(a, p, xs) && OnCurve(b, q, xs) && OnCurve(c, r, xs)
    requires |p| == |q| == |r| == |all|
    requires forall i :: 0 <= i < |p| ==> all[i] == Add(p[i], Add(q[i], r[i]))
    ensures SumOf(sum, a, b, c)
  {
    hide Horner, Add;
    forall i | 0 <= i < |sum|
      ensures sum[i] == Coordinate(a[i].x, Add(a[i].y, Add(b[i].y, c[i].y)))
    {
      HornerOfThree(p, q, r, all, xs[i]);
    }
  }

  /** Shifting the random values shifts every byte of every share. */
  lemma ChosenShifts(secret: seq<Element>, threshold: int, total: int, e: Randomness, f: Randomness, r: Randomness,
                     indices: seq<nat>, b: nat)
    requires 1 <= threshold <= total <= 255 && b < |secret|
    requires forall i :: 0 <= i < |indices| ==> 1 <= indices[i] <= total
    ensures SumOf(ByteCoordinates(Chosen(secret, threshold, total, Shifted(r, e, f), indices), b),
                  ByteCoordinates(Chosen(secret, threshold, total, r, indices), b),
                  ByteCoordinates(Chosen(secret, threshold, total, e, indices), b),
                  ByteCoordinates(Chosen(secret, threshold, total, f, indices), b))
  {
    hide *;
    var n := threshold - 1;
    ChosenByte(secret, threshold, total, r, indices, b);
    ChosenByte(secret, threshold, total, e, indices, b);
    ChosenByte(secret, threshold, total, f, indices, b);
    ChosenByte(secret, threshold, total, Shifted(r, e, f), indices, b);
    ShiftedCoefficients(secret, n, r, e, f, b);
    SumOfCurves(ByteCoordinates(Chosen(secret, threshold, total, Shifted(r, e, f), indices), b),
                ByteCoordinates(Chosen(secret, threshold, total, r, indices), b),
                ByteCoordinates(Chosen(secret, threshold, total, e, indices), b),
                ByteCoordinates(Chosen(secret, threshold, total, f, indices), b),
                Coefficients(secret, n, Shifted(r, e, f), b), Coefficients(secret, n, r, b),
                Coefficients(secret, n, e, b), Coefficients(secret, n, f, b), Points(indices));
  }

  function Points(indices: seq<nat>): (r: seq<Element>)
    ensures |r| == |indices| && forall i :: 0 <= i < |r| ==> r[i] == ToByte(indices[i])
  {
    seq(|indices|, i requires 0 <= i < |indices| => ToByte(indices[i]))
  }

  lemma ChosenByte(secret: seq<Element>, threshold: int, total: int, random: Randomness, indices: seq<nat>, b: nat)
    requires 1 <= threshold <= total <= 255 && b < |secret|
    requires forall i :: 0 <= i < |indices| ==> 1 <= indices[i] <= total
    ensures OnCurve(ByteCoordinates(Chosen(secret, threshold, total, random, indices), b),
                    Coefficients(secret, threshold - 1, random, b), Points(indices))
  {
    hide Horner, ToByte;
    var held := Chosen(secret, threshold, total, random, indices);
    assert Yields(held, secret, threshold, total, random);
    hide Chosen, Yields;
    FitsSplit(held, secret, threshold, total, random);
    assert Fits([secret[b]] + RandomCoefficients(random, b, threshold - 1), held, b);
  }

  /** What the shares of a split with the given indices combine to. */
  function Combined(secret: seq<Element>, threshold: int, total: int, random: Randomness, indices: seq<nat>)
    : (r: seq<Element>)
    requires 1 <= threshold <= total <= 255 && 0 < |indices| && Distinct(indices)
    requires forall i :: 0 <= i < |indices| ==> 1 <= indices[i] <= total
    ensures Combine(Chosen(secret, threshold, total, random, indices)) == Success(r) && |r| == |secret|
  {
    CombineByBytes(Chosen(secret, threshold, total, random, indices), total, |secret|);
    Combine(Chosen(secret, threshold, total, random, indices)).value
  }

  lemma CombinedByte(secret: seq<Element>, threshold: int, total: int, random: Randomness, indices: seq<nat>, b: nat)
    requires 1 <= threshold <= total <= 255 && 0 < |indices| && Distinct(indices) && b < |secret|
    requires forall i :: 0 <= i < |indices| ==> 1 <= indices[i] <= total
    ensures var c := ByteCoordinates(Chosen(secret, threshold, total, random, indices), b);
            Combinable(c) && CombineAtZero(c) == Success(Combined(secret, threshold, total, random, indices)[b])
  {
    hide Combine, CombineAtZero, Yields, ByteCoordinates, Combinable, Chosen, Combined;
    var held := Chosen(secret, threshold, total, random, indices);
    CombineByBytes(held, total, |secret|);
    ByteCombinable(held, total, |secret|, b);
  }

  lemma CombinedByteShifts(secret: seq<Element>, threshold: int, total: int, indices: seq<nat>, e: Randomness,
                           f: Randomness, r: Randomness, b: nat)
    requires 1 <= threshold <= total <= 255 && 0 < |indices| && Distinct(indices) && b < |secret|
    requires forall i :: 0 <= i < |indices| ==> 1 <= indices[i] <= total
    ensures Combined(secret, threshold, total, r, indices)[b] == Combined(secret, threshold, total, e, indices)[b] <==>
            Combined(secret, threshold, total, Shifted(r, e, f), indices)[b]
            == Combined(secret, threshold, total, f, indices)[b]
  {
    hide *;
    CombinedByte(secret, threshold, total, r, indices, b);
    CombinedByte(secret, threshold, total, e, indices, b);
    CombinedByte(secret, threshold, total, f, indices, b);
    CombinedByte(secret, threshold, total, Shifted(r, e, f), indices, b);
    ChosenShifts(secret, threshold, total, e, f, r, indices, b);
    CombineOfSum(ByteCoordinates(Chosen(secret, threshold, total, Shifted(r, e, f), indices), b),
                 ByteCoordinates(Chosen(secret, threshold, total, r, indices), b),
                 ByteCoordinates(Chosen(secret, threshold, total, e, indices), b),
                 ByteCoordinates(Chosen(secret, threshold, total, f, indices), b));
    XorCancels(Combined(secret, threshold, total, r, indices)[b], Combined(secret, threshold, total, e, indices)[b],
               Combined(secret, threshold, total, f, indices)[b]);
  }

  /** Every value that shares combine to is equally likely: the shift that turns some random values
      under which they combine to one value into some under which they combine to another turns exactly
      the former into the latter. */
  lemma CombinedValuesEquallyLikely(secret: seq<Element>, threshold: int, total: int, indices: seq<nat>,
                                    e: Randomness, f: Randomness, r: Randomness)
    requires 1 <= threshold <= total <= 255 && 0 < |indices| && Distinct(indices)
    requires forall i :: 0 <= i < |indices| ==> 1 <= indices[i] <= total
    ensures Combined(secret, threshold, total, r, indices) == Combined(secret, threshold, total, e, indices) <==>
            Combined(secret, threshold, total, Shifted(r, e, f), indices)
            == Combined(secret, threshold, total, f, indices)
  {
    hide *;
    var vr, ve := Combined(secret, threshold, total, r, indices), Combined(secret, threshold, total, e, indices);
    var vf := Combined(secret, threshold, total, f, indices);
    var vs := Combined(secret, threshold, total, Shifted(r, e, f), indices);
    forall b | 0 <= b < |secret|
      ensures vr[b] == ve[b] <==> vs[b] == vf[b]
    {
      CombinedByteShifts(secret, threshold, total, indices, e, f, r, b);
    }
  }
}
