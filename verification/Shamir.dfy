/** Secret sharing over GF(2^8), byte by byte: split, combine and interpolate of
    packages/seal/src/shamir.ts. The random coefficients are a parameter of split. */
module Shamir {
  import opened Bytes
  import opened GF256
  import opened Polynomials
  import opened Interpolation
  import opened Results

  datatype ShamirError =
    | InvalidThreshold
    | InvalidFieldElement
    | NoShares
    | UnequalLengths
    | RepeatedIndices
    | NotInterpolated(error: InterpolationError)

  /** A share of a secret, as it leaves and enters the library: the index is any number. */
  datatype Share = Share(index: int, share: seq<Element>)

  datatype InternalShare = InternalShare(index: Element, share: seq<Element>)

  /** Random coefficient k of the polynomial for byte b of the secret. */
  type Randomness = (nat, nat) -> Element

  /** The constructor of a field element, which throws outside 0..255. */
  function NewElement(value: int): Result<Element, ShamirError> {
    if value < 0 || value >= 256 then Failure(InvalidFieldElement) else Success(ToByte(value))
  }

  // ---------- split ----------

  function RandomCoefficients(random: Randomness, b: nat, n: nat): (r: seq<Element>)
    ensures |r| == n
  {
    seq(n, k requires k >= 0 => random(b, k))
  }

  function SamplePolynomial(constant: Element, degree: nat, random: Randomness, b: nat): Polynomial {
    FromCoefficients([constant] + RandomCoefficients(random, b, degree))
  }

  /** One polynomial for each byte of the secret. */
  function SamplePolynomials(secret: seq<Element>, degree: nat, random: Randomness): (p: seq<Polynomial>)
    ensures |p| == |secret|
    ensures forall b :: 0 <= b < |p| ==> p[b] == SamplePolynomial(secret[b], degree, random, b)
  {
    seq(|secret|, b requires 0 <= b < |secret| => SamplePolynomial(secret[b], degree, random, b))
  }

  function EvaluateAll(polynomials: seq<Polynomial>, x: Element): (r: seq<Element>)
    ensures |r| == |polynomials| && forall b :: 0 <= b < |r| ==> r[b] == Evaluate(polynomials[b], x)
  {
    seq(|polynomials|, b requires 0 <= b < |polynomials| => Evaluate(polynomials[b], x))
  }

  /** The shares with the indices 1 to n; index 0 is reserved for the secret. */
  function SharesUpTo(polynomials: seq<Polynomial>, n: nat): Result<seq<Share>, ShamirError> {
    if n == 0 then Success([])
    else
      var shares :- SharesUpTo(polynomials, n - 1);
      var index :- NewElement(n);
      Success(shares + [Share(n, EvaluateAll(polynomials, index))])
  }

  function Split(secret: seq<Element>, threshold: int, total: int, random: Randomness)
    : Result<seq<Share>, ShamirError>
  {
    if threshold > total || threshold < 1 || total > 256 then Failure(InvalidThreshold)
    else SharesUpTo(SamplePolynomials(secret, threshold - 1, random), total)
  }

  lemma {:induction false} SharesUpToShape(polynomials: seq<Polynomial>, n: nat)
    ensures SharesUpTo(polynomials, n).Success? <==> n <= 255
    ensures n <= 255 ==>
              && |SharesUpTo(polynomials, n).value| == n
              && forall i :: 0 <= i < n ==>
                   SharesUpTo(polynomials, n).value[i] == Share(i + 1, EvaluateAll(polynomials, ToByte(i + 1)))
  {
    hide Evaluate, EvaluateAll, ToByte;
    if n > 0 {
      SharesUpToShape(polynomials, n - 1);
    }
  }

  /** The guard lets a total of 256 through, but the share with index 256 cannot be built: split
      succeeds exactly for thresholds from 1 to the total and totals up to 255. */
  lemma SplitSucceeds(secret: seq<Element>, threshold: int, total: int, random: Randomness)
    ensures Split(secret, threshold, total, random).Success? <==> 1 <= threshold <= total <= 255
    ensures 1 <= threshold <= 256 && total == 256 ==>
              Split(secret, threshold, total, random) == Failure(InvalidFieldElement)
  {
    hide EvaluateAll, ToByte, SamplePolynomials;
    if 1 <= threshold <= total <= 256 {
      var polynomials := SamplePolynomials(secret, threshold - 1, random);
      SharesUpToShape(polynomials, total);
      if total == 256 {
        SharesUpToShape(polynomials, 255);
      }
    }
  }

  // ---------- validateShares, combine and interpolate ----------

  predicate AllEqual(s: seq<nat>) {
    |s| == 0 || forall i :: 0 <= i < |s| ==> s[i] == s[0]
  }

  function Lengths(shares: seq<Share>): (r: seq<nat>)
    ensures |r| == |shares| && forall i :: 0 <= i < |r| ==> r[i] == |shares[i].share|
  {
    seq(|shares|, i requires 0 <= i < |shares| => |shares[i].share|)
  }

  function Indices(shares: seq<Share>): (r: seq<int>)
    ensures |r| == |shares| && forall i :: 0 <= i < |r| ==> r[i] == shares[i].index
  {
    seq(|shares|, i requires 0 <= i < |shares| => shares[i].index)
  }

  function ToInternal(shares: seq<Share>): (r: Result<seq<InternalShare>, ShamirError>)
    ensures r.Success? <==> forall i :: 0 <= i < |shares| ==> 0 <= shares[i].index < 256
    ensures r.Success? ==> |r.value| == |shares|
    ensures r.Success? ==> forall i :: 0 <= i < |shares| ==>
                                         r.value[i] == InternalShare(ToByte(shares[i].index), shares[i].share)
    ensures r.Failure? ==> r.error == InvalidFieldElement
  {
    if shares == [] then Success([])
    else
      var n := |shares| - 1;
      var init :- ToInternal(shares[..n]);
      var index :- NewElement(shares[n].index);
      Success(init + [InternalShare(index, shares[n].share)])
  }

  function ValidateShares(shares: seq<Share>): Result<seq<InternalShare>, ShamirError> {
    if |shares| < 1 then Failure(NoShares)
    else if !AllEqual(Lengths(shares)) then Failure(UnequalLengths)
    else if HasDuplicates(Indices(shares)) then Failure(RepeatedIndices)
    else ToInternal(shares)
  }

  ghost predicate SameLengths(shares: seq<InternalShare>) {
    forall i :: 0 <= i < |shares| ==> |shares[i].share| == |shares[0].share|
  }

  lemma ValidatedShares(shares: seq<Share>)
    requires ValidateShares(shares).Success?
    ensures var internal := ValidateShares(shares).value;
            |internal| == |shares| && |internal| > 0 && SameLengths(internal)
  {
    var internal := ValidateShares(shares).value;
    forall i | 0 <= i < |internal| ensures |internal[i].share| == |internal[0].share| {
      assert Lengths(shares)[i] == Lengths(shares)[0];
    }
  }

  /** The coordinates that the shares give for byte b of the secret. */
  function CoordinatesAt(shares: seq<InternalShare>, b: nat): (r: seq<Coordinate>)
    requires SameLengths(shares) && |shares| > 0 && b < |shares[0].share|
    ensures |r| == |shares|
    ensures forall i :: 0 <= i < |r| ==> r[i] == Coordinate(shares[i].index, shares[i].share[b])
  {
    seq(|shares|, i requires 0 <= i < |shares| => Coordinate(shares[i].index, shares[i].share[b]))
  }

  function CombineBytes(shares: seq<InternalShare>, n: nat): Result<seq<Element>, ShamirError>
    requires SameLengths(shares) && |shares| > 0 && n <= |shares[0].share|
  {
    if n == 0 then Success([])
    else
      var bytes :- CombineBytes(shares, n - 1);
      match CombineAtZero(CoordinatesAt(shares, n - 1))
      case Failure(e) => Failure(NotInterpolated(e))
      case Success(v) => Success(bytes + [v])
  }

  function Combine(shares: seq<Share>): Result<seq<Element>, ShamirError> {
    var internal :- ValidateShares(shares);
    ValidatedShares(shares);
    CombineBytes(internal, |internal[0].share|)
  }

  function InterpolateBytes(shares: seq<InternalShare>, n: nat): Result<seq<Polynomial>, ShamirError>
    requires SameLengths(shares) && |shares| > 0 && n <= |shares[0].share|
  {
    if n == 0 then Success([])
    else
      var polynomials :- InterpolateBytes(shares, n - 1);
      match Interpolation.Interpolate(CoordinatesAt(shares, n - 1))
      case Failure(e) => Failure(NotInterpolated(e))
      case Success(p) => Success(polynomials + [p])
  }

  /** The polynomials behind the function that the source's interpolate returns. */
  function InterpolateShares(shares: seq<Share>): Result<seq<Polynomial>, ShamirError> {
    var internal :- ValidateShares(shares);
    ValidatedShares(shares);
    InterpolateBytes(internal, |internal[0].share|)
  }

  /** The function that the source's interpolate returns. */
  function ShareAt(polynomials: seq<Polynomial>, x: int): Result<seq<Element>, ShamirError> {
    var index :- NewElement(x);
    Success(EvaluateAll(polynomials, index))
  }

  // ---------- Any threshold of distinct shares determines the secret and every other share ----------

  /** The shares are distinct, enough, and all come from one split. */
  ghost predicate EnoughShares(shares: seq<Share>, secret: seq<Element>, threshold: int, total: int, random: Randomness)
  {
    && Split(secret, threshold, total, random).Success?
    && |shares| >= threshold
    && Distinct(shares)
    && forall i :: 0 <= i < |shares| ==> shares[i] in Split(secret, threshold, total, random).value
  }

  /** Any distinct shares of a split have distinct nonzero indices, and are the values there of the
      polynomials that it sampled. */
  lemma SharesOfSplit(shares: seq<Share>, secret: seq<Element>, threshold: int, total: int, random: Randomness)
    requires Split(secret, threshold, total, random).Success? && Distinct(shares)
    requires forall i :: 0 <= i < |shares| ==> shares[i] in Split(secret, threshold, total, random).value
    ensures 1 <= threshold <= total <= 255
    ensures var polynomials := SamplePolynomials(secret, threshold - 1, random);
            forall i :: 0 <= i < |shares| ==>
                          && 1 <= shares[i].index <= total
                          && shares[i] == Share(shares[i].index, EvaluateAll(polynomials, ToByte(shares[i].index)))
    ensures forall i, j :: 0 <= i < j < |shares| ==> shares[i].index != shares[j].index
  {
    hide EvaluateAll, ToByte;
    SplitSucceeds(secret, threshold, total, random);
    var polynomials := SamplePolynomials(secret, threshold - 1, random);
    SharesUpToShape(polynomials, total);
    var all := Split(secret, threshold, total, random).value;
    forall i | 0 <= i < |shares|
      ensures 1 <= shares[i].index <= total
      ensures shares[i] == Share(shares[i].index, EvaluateAll(polynomials, ToByte(shares[i].index)))
    {
      var k :| 0 <= k < |all| && all[k] == shares[i];
    }
  }

  lemma SplitShares(shares: seq<Share>, secret: seq<Element>, threshold: int, total: int, random: Randomness)
    requires EnoughShares(shares, secret, threshold, total, random)
    ensures 1 <= threshold <= total <= 255 && |shares| > 0
    ensures var polynomials := SamplePolynomials(secret, threshold - 1, random);
            forall i :: 0 <= i < |shares| ==>
                          && 1 <= shares[i].index <= total
                          && shares[i] == Share(shares[i].index, EvaluateAll(polynomials, ToByte(shares[i].index)))
    ensures forall i, j :: 0 <= i < j < |shares| ==> shares[i].index != shares[j].index
  {
    SharesOfSplit(shares, secret, threshold, total, random);
  }

  lemma SplitSharesValidate(shares: seq<Share>, secret: seq<Element>, threshold: int, total: int, random: Randomness)
    requires EnoughShares(shares, secret, threshold, total, random)
    ensures ValidateShares(shares).Success?
    ensures var internal := ValidateShares(shares).value;
            && |internal| == |shares| && SameLengths(internal) && |internal[0].share| == |secret|
            && forall i :: 0 <= i < |shares| ==> internal[i] == InternalShare(ToByte(shares[i].index), shares[i].share)
  {
    hide Evaluate, ToByte;
    SplitShares(shares, secret, threshold, total, random);
    HasDuplicatesIsRepetition(Indices(shares));
    forall i | 0 <= i < |shares| ensures |shares[i].share| == |secret| {
    }
  }

  /** The coordinates for byte b lie on the polynomial that split sampled for that byte. */
  lemma SplitCoordinates(shares: seq<Share>, secret: seq<Element>, threshold: int, total: int, random: Randomness,
                         b: nat)
    requires EnoughShares(shares, secret, threshold, total, random) && b < |secret|
    ensures ValidateShares(shares).Success? && |shares| > 0
    ensures var internal := ValidateShares(shares).value;
            var c := SamplePolynomial(secret[b], threshold - 1, random, b).coefficients;
            && |internal| == |shares| && SameLengths(internal) && b < |internal[0].share|
            && var coordinates := CoordinatesAt(internal, b);
               && |c| <= |coordinates|
               && Distinct(Xs(coordinates))
               && (forall i :: 0 <= i < |coordinates| ==> coordinates[i].x != 0)
               && (forall i :: 0 <= i < |coordinates| ==> coordinates[i].y == Horner(c, coordinates[i].x))
  {
    hide Horner, ToByte;
    SplitShares(shares, secret, threshold, total, random);
    SplitSharesValidate(shares, secret, threshold, total, random);
    var internal := ValidateShares(shares).value;
    var coordinates := CoordinatesAt(internal, b);
    var polynomials := SamplePolynomials(secret, threshold - 1, random);
    forall i | 0 <= i < |coordinates|
      ensures coordinates[i].x != 0 && coordinates[i].y == Evaluate(polynomials[b], coordinates[i].x)
    {
      ToByteNonzero(shares[i].index);
      assert internal[i].share[b] == EvaluateAll(polynomials, ToByte(shares[i].index))[b];
    }
    forall i, j | 0 <= i < j < |coordinates| ensures Xs(coordinates)[i] != Xs(coordinates)[j] {
      if ToByte(shares[i].index) == ToByte(shares[j].index) {
        ToByteInjective(shares[i].index, shares[j].index);
      }
    }
  }

  lemma HornerAtZero(c: seq<Element>)
    requires |c| > 0
    ensures Horner(c, 0) == c[0]
  {
    hide Mul, Add;
    MulUnits(Horner(c[1..], 0));
    AddLaws(c[0], 0, 0);
  }

  lemma ValueAtZeroIsConstant(constant: Element, degree: nat, random: Randomness, b: nat)
    ensures Evaluate(SamplePolynomial(constant, degree, random, b), 0) == constant
  {
    hide Horner;
    var c := [constant] + RandomCoefficients(random, b, degree);
    EvaluateConstructed(c, 0);
    HornerAtZero(c);
  }

  /** What one byte position of the shares determines: the sampled polynomial and the secret byte. */
  lemma ByteRecovered(shares: seq<Share>, secret: seq<Element>, threshold: int, total: int, random: Randomness,
                      internal: seq<InternalShare>, b: nat, x: Element)
    requires EnoughShares(shares, secret, threshold, total, random) && b < |secret|
    requires ValidateShares(shares) == Success(internal)
    ensures |internal| > 0 && SameLengths(internal) && b < |internal[0].share| && threshold >= 1
    ensures var coordinates := CoordinatesAt(internal, b);
            && CombineAtZero(coordinates) == Success(secret[b])
            && Interpolation.Interpolate(coordinates).Success?
            && Evaluate(Interpolation.Interpolate(coordinates).value, x) ==
               Evaluate(SamplePolynomial(secret[b], threshold - 1, random, b), x)
  {
    hide *;
    SplitShares(shares, secret, threshold, total, random);
    SplitCoordinates(shares, secret, threshold, total, random, b);
    var coordinates := CoordinatesAt(internal, b);
    var p := SamplePolynomial(secret[b], threshold - 1, random, b);
    assert forall y :: Evaluate(p, y) == Horner(p.coefficients, y) by { EvaluateIsHorner(p); }
    InterpolationRecovers(p.coefficients, coordinates, 0);
    InterpolationRecovers(p.coefficients, coordinates, x);
    CombineIsInterpolationAtZero(coordinates);
    ValueAtZeroIsConstant(secret[b], threshold - 1, random, b);
  }

  lemma EvaluateIsHorner(p: Polynomial)
    ensures forall x :: Evaluate(p, x) == Horner(p.coefficients, x)
  {
    hide Horner;
  }

  lemma {:induction false} CombineBytesOf(internal: seq<InternalShare>, secret: seq<Element>, n: nat)
    requires SameLengths(internal) && |internal| > 0 && n <= |secret| == |internal[0].share|
    requires forall b :: 0 <= b < |secret| ==> CombineAtZero(CoordinatesAt(internal, b)) == Success(secret[b])
    ensures CombineBytes(internal, n) == Success(secret[..n])
  {
    hide CombineAtZero, CoordinatesAt;
    if n > 0 {
      CombineBytesOf(internal, secret, n - 1);
      assert secret[..n] == secret[..n - 1] + [secret[n - 1]];
    }
  }

  /** Combining any distinct shares of a split, at least as many as its threshold, in any order,
      returns exactly the secret, whatever the random coefficients were. */
  lemma CombineRecoversSecret(shares: seq<Share>, secret: seq<Element>, threshold: int, total: int, random: Randomness)
    requires EnoughShares(shares, secret, threshold, total, random)
    ensures Combine(shares) == Success(secret)
  {
    SplitSharesValidate(shares, secret, threshold, total, random);
    SplitShares(shares, secret, threshold, total, random);
    var internal := ValidateShares(shares).value;
    hide CombineBytes, ValidateShares, EnoughShares, CombineAtZero, Evaluate, SamplePolynomial;
    forall b | 0 <= b < |secret| ensures CombineAtZero(CoordinatesAt(internal, b)) == Success(secret[b]) {
      ByteRecovered(shares, secret, threshold, total, random, internal, b, 0);
    }
    CombineBytesOf(internal, secret, |secret|);
    assert secret[..|secret|] == secret;
  }

  lemma {:induction false} InterpolateBytesOf(internal: seq<InternalShare>, n: nat)
    requires SameLengths(internal) && |internal| > 0 && n <= |internal[0].share|
    requires forall b :: 0 <= b < n ==> Interpolation.Interpolate(CoordinatesAt(internal, b)).Success?
    ensures InterpolateBytes(internal, n).Success? && |InterpolateBytes(internal, n).value| == n
    ensures forall b :: 0 <= b < n ==>
                          InterpolateBytes(internal, n).value[b]
                              == Interpolation.Interpolate(CoordinatesAt(internal, b)).value
  {
    hide Interpolation.Interpolate, CoordinatesAt;
    if n > 0 {
      InterpolateBytesOf(internal, n - 1);
    }
  }

  /** The polynomials that enough shares interpolate to have the values of the sampled ones, everywhere. */
  lemma InterpolateRecoversPolynomials(shares: seq<Share>, secret: seq<Element>, threshold: int, total: int,
                                       random: Randomness, x: Element)
    requires EnoughShares(shares, secret, threshold, total, random)
    ensures InterpolateShares(shares).Success? && threshold >= 1
    ensures EvaluateAll(InterpolateShares(shares).value, x)
        == EvaluateAll(SamplePolynomials(secret, threshold - 1, random), x)
  {
    SplitSharesValidate(shares, secret, threshold, total, random);
    SplitShares(shares, secret, threshold, total, random);
    var internal := ValidateShares(shares).value;
    hide InterpolateBytes, ValidateShares, EnoughShares, Evaluate, SamplePolynomial, Interpolation.Interpolate,
        CombineAtZero;
    forall b | 0 <= b < |secret|
      ensures Interpolation.Interpolate(CoordinatesAt(internal, b)).Success?
      ensures Evaluate(Interpolation.Interpolate(CoordinatesAt(internal, b)).value, x) ==
              Evaluate(SamplePolynomial(secret[b], threshold - 1, random, b), x)
    {
      ByteRecovered(shares, secret, threshold, total, random, internal, b, x);
    }
    InterpolateBytesOf(internal, |secret|);
  }

  /** Interpolating any distinct shares of a split, at least as many as its threshold, gives every
      share of that split back, including those that were not supplied. */
  lemma InterpolateRecoversShares(shares: seq<Share>, secret: seq<Element>, threshold: int, total: int,
                                  random: Randomness, other: Share)
    requires EnoughShares(shares, secret, threshold, total, random)
    requires other in Split(secret, threshold, total, random).value
    ensures InterpolateShares(shares).Success?
    ensures ShareAt(InterpolateShares(shares).value, other.index) == Success(other.share)
  {
    SplitSucceeds(secret, threshold, total, random);
    SharesUpToShape(SamplePolynomials(secret, threshold - 1, random), total);
    var all := Split(secret, threshold, total, random).value;
    var k :| 0 <= k < |all| && all[k] == other;
    hide InterpolateShares, EnoughShares, EvaluateAll, ToByte;
    InterpolateRecoversPolynomials(shares, secret, threshold, total, random, ToByte(other.index));
  }

  // ---------- combine against interpolate, on any shares ----------

  ghost predicate HasZeroIndex(shares: seq<InternalShare>) {
    exists i :: 0 <= i < |shares| && shares[i].index == 0
  }

  lemma {:induction false} InterpolatedBytes(internal: seq<InternalShare>, n: nat)
    requires SameLengths(internal) && |internal| > 0 && n <= |internal[0].share|
    ensures InterpolateBytes(internal, n).Success? ==> |InterpolateBytes(internal, n).value| == n
  {
    hide Interpolation.Interpolate, CoordinatesAt;
    if n > 0 {
      InterpolatedBytes(internal, n - 1);
    }
  }

  lemma {:induction false} CombineBytesAgree(internal: seq<InternalShare>, n: nat)
    requires SameLengths(internal) && |internal| > 0 && n <= |internal[0].share|
    requires InterpolateBytes(internal, n).Success?
    ensures CombineBytes(internal, n) ==
            if n > 0 && HasZeroIndex(internal) then Failure(NotInterpolated(DivisionByZero))
            else Success(EvaluateAll(InterpolateBytes(internal, n).value, 0))
  {
    hide CombineAtZero, Interpolation.Interpolate, Evaluate;
    if n > 0 {
      CombineBytesAgree(internal, n - 1);
      InterpolatedBytes(internal, n - 1);
      var coordinates := CoordinatesAt(internal, n - 1);
      CombineIsInterpolationAtZero(coordinates);
      assert forall i :: 0 <= i < |internal| ==> coordinates[i].x == internal[i].index;
      if HasZeroIndex(internal) {
        var i :| 0 <= i < |internal| && internal[i].index == 0;
        assert coordinates[i].x == 0;
      }
      var init, all := InterpolateBytes(internal, n - 1).value, InterpolateBytes(internal, n).value;
      assert all[..n - 1] == init;
      assert EvaluateAll(all, 0) == EvaluateAll(init, 0) + [Evaluate(all[n - 1], 0)];
    }
  }

  /** Combining any shares that interpolate gives the value at zero of what they interpolate to, except
      that it fails on a share with index zero, unless the shares are empty. */
  lemma CombineIsInterpolateAtZero(shares: seq<Share>)
    requires InterpolateShares(shares).Success?
    ensures Combine(shares) ==
            if |shares[0].share| > 0 && 0 in Indices(shares) then Failure(NotInterpolated(DivisionByZero))
            else ShareAt(InterpolateShares(shares).value, 0)
  {
    ValidatedShares(shares);
    var internal := ValidateShares(shares).value;
    CombineBytesAgree(internal, |internal[0].share|);
    ZeroIndices(shares, internal);
    hide CombineBytes, InterpolateBytes, EvaluateAll, ToInternal, AllEqual, HasDuplicates, ToByte, HasZeroIndex;
    assert ToByte(0) == 0 by { ZeroByte(); }
  }

  lemma ZeroByte()
    ensures ToByte(0) == 0
  {
  }

  lemma ZeroIndices(shares: seq<Share>, internal: seq<InternalShare>)
    requires |internal| == |shares|
    requires forall i :: 0 <= i < |shares| ==>
              0 <= shares[i].index < 256 && internal[i] == InternalShare(ToByte(shares[i].index), shares[i].share)
    ensures HasZeroIndex(internal) <==> 0 in Indices(shares)
  {
    hide ToByte;
    ZeroByte();
    if 0 in Indices(shares) {
      var i :| 0 <= i < |shares| && Indices(shares)[i] == 0;
      assert internal[i].index == 0;
    }
    if HasZeroIndex(internal) {
      var i :| 0 <= i < |internal| && internal[i].index == 0;
      if shares[i].index != 0 {
        ToByteNonzero(shares[i].index);
      }
      assert Indices(shares)[i] == 0;
    }
  }

  // ---------- Which shares are refused ----------

  /** Why shares are refused, the first reason that applies; None if they are not. */
  ghost function Refusal(shares: seq<Share>): Option<ShamirError> {
    if shares == [] then Some(NoShares)
    else if exists i :: 0 <= i < |shares| && |shares[i].share| != |shares[0].share| then Some(UnequalLengths)
    else if exists i, j :: 0 <= i < j < |shares| && shares[i].index == shares[j].index then Some(RepeatedIndices)
    else if exists i :: 0 <= i < |shares| && !(0 <= shares[i].index <= 255) then Some(InvalidFieldElement)
    else None
  }

  lemma ValidatesExactly(shares: seq<Share>)
    ensures match Refusal(shares)
            case Some(e) => ValidateShares(shares) == Failure(e)
            case None => ValidateShares(shares).Success?
  {
    hide ToByte, ToInternal;
    HasDuplicatesIsRepetition(Indices(shares));
    if shares != [] {
      assert forall i :: 0 <= i < |shares| ==> Lengths(shares)[i] == |shares[i].share|;
      assert forall i :: 0 <= i < |shares| ==> Indices(shares)[i] == shares[i].index;
      if i :| 0 <= i < |shares| && |shares[i].share| != |shares[0].share| {
        assert Lengths(shares)[i] != Lengths(shares)[0];
      }
      if i, j :| 0 <= i < j < |shares| && shares[i].index == shares[j].index {
        assert Indices(shares)[i] == Indices(shares)[j];
      }
    }
  }

  /** Interpolating accepts exactly the shares that are at least one, of one length, with different
      indices from 0 to 255; combining refuses, of those, only a share with index 0 that is not empty. */
  lemma RefusesExactly(shares: seq<Share>)
    ensures match Refusal(shares)
            case Some(e) => InterpolateShares(shares) == Failure(e) && Combine(shares) == Failure(e)
            case None =>
              && InterpolateShares(shares).Success?
              && (Combine(shares).Success? <==>
                    shares[0].share == [] || forall i :: 0 <= i < |shares| ==> shares[i].index != 0)
  {
    ValidatesExactly(shares);
    if Refusal(shares).None? {
      ValidatedShares(shares);
      var internal := ValidateShares(shares).value;
      DistinctCoordinates(shares, internal);
      hide ValidateShares, InterpolateBytes, CombineBytes, ShareAt, CoordinatesAt, Interpolation.Interpolate;
      InterpolateBytesOf(internal, |internal[0].share|);
      CombineIsInterpolateAtZero(shares);
      assert 0 in Indices(shares) <==> exists i :: 0 <= i < |shares| && shares[i].index == 0 by {
        if i :| 0 <= i < |shares| && shares[i].index == 0 {
          assert Indices(shares)[i] == 0;
        }
      }
      ZeroShareExists(InterpolateShares(shares).value);
    }
  }

  lemma ZeroShareExists(polynomials: seq<Polynomial>)
    ensures ShareAt(polynomials, 0).Success?
  {
  }

  lemma DistinctCoordinates(shares: seq<Share>, internal: seq<InternalShare>)
    requires Refusal(shares).None? && ValidateShares(shares) == Success(internal)
    requires |internal| == |shares| && |internal| > 0 && SameLengths(internal)
    ensures |internal[0].share| == |shares[0].share|
    ensures forall b :: 0 <= b < |internal[0].share| ==> Interpolation.Interpolate(CoordinatesAt(internal, b)).Success?
  {
    hide ToByte, Interpolation.Interpolate;
    forall b | 0 <= b < |internal[0].share|
      ensures Interpolation.Interpolate(CoordinatesAt(internal, b)).Success?
    {
      var coordinates := CoordinatesAt(internal, b);
      InterpolateCorrect(coordinates);
      forall i, j | 0 <= i < j < |coordinates| ensures Xs(coordinates)[i] != Xs(coordinates)[j] {
        if ToByte(shares[i].index) == ToByte(shares[j].index) {
          ToByteInjective(shares[i].index, shares[j].index);
        }
      }
    }
  }
}
