/** Interpolation over GF(2^8): Polynomial.interpolate and Polynomial.combine of
    packages/seal/src/shamir.ts, and the argument that a polynomial is determined by its values. */
module Interpolation {
  import opened GF256
  import opened Polynomials
  import opened Results

  datatype InterpolationError = NoCoordinates | RepeatedX | DivisionByZero

  predicate HasDuplicates<T(==)>(s: seq<T>) {
    |set x | x in s| != |s|
  }

  ghost predicate Distinct<T>(s: seq<T>) {
    forall i, j :: 0 <= i < j < |s| ==> s[i] != s[j]
  }

  /** Comparing the size of the set with the length detects exactly the repeated elements. */
  lemma {:induction false} HasDuplicatesIsRepetition<T>(s: seq<T>)
    ensures HasDuplicates(s) <==> !Distinct(s)
    ensures |set x | x in s| <= |s|
  {
    if s != [] {
      var init, last := s[..|s| - 1], s[|s| - 1];
      HasDuplicatesIsRepetition(init);
      assert s == init + [last];
      assert (set x | x in s) == (set x | x in init) + {last};
      if last in init {
        assert (set x | x in s) == (set x | x in init);
      }
    }
  }

  function Xs(coordinates: seq<Coordinate>): (xs: seq<Element>)
    ensures |xs| == |coordinates| && forall i :: 0 <= i < |xs| ==> xs[i] == coordinates[i].x
  {
    seq(|coordinates|, i requires 0 <= i < |coordinates| => coordinates[i].x)
  }

  // ---------- A polynomial has no more roots than its degree ----------

  /** The quotient of the polynomial by x - r. */
  function Quotient(c: seq<Element>, r: Element): (q: seq<Element>)
    ensures |q| == if |c| == 0 then 0 else |c| - 1
  {
    if |c| <= 1 then [] else [Horner(c[1..], r)] + Quotient(c[1..], r)
  }

  lemma {:induction false} DivideByLinear(c: seq<Element>, r: Element, x: Element)
    ensures Horner(c, x) == Add(Mul(Horner(Quotient(c, r), x), Add(x, r)), Horner(c, r))
    decreases |c|, 1
  {
    hide Mul, Add;
    MulUnits(x);
    MulUnits(r);
    MulUnits(Add(x, r));
    if |c| == 0 {
      AddLaws(0, 0, 0);
    } else if |c| == 1 {
      assert Horner(c[1..], x) == 0 && Horner(c[1..], r) == 0;
      AddLaws(c[0], 0, 0);
      AddLaws(0, c[0], 0);
    } else {
      DivideByLinearStep(c, r, x);
    }
  }

  lemma {:induction false} DivideByLinearStep(c: seq<Element>, r: Element, x: Element)
    requires |c| > 1
    ensures Horner(c, x) == Add(Mul(Horner(Quotient(c, r), x), Add(x, r)), Horner(c, r))
    decreases |c|, 0
  {
    hide Mul, Add;
    var tail := c[1..];
    var q, tr := Horner(Quotient(tail, r), x), Horner(tail, r);
    DivideByLinear(tail, r, x);
    assert Quotient(c, r)[1..] == Quotient(tail, r);
    // (q * (x + r) + tr) * x + c0  ==  (q * x + tr) * (x + r) + (tr * r + c0)
    MulDistributesLeft(Mul(q, Add(x, r)), tr, x);
    MulDistributesLeft(Mul(q, x), tr, Add(x, r));
    MulDistributes(tr, x, r);
    MulSwapsLast(q, Add(x, r), x);
    Rearrange(Mul(Mul(q, x), Add(x, r)), Mul(tr, x), Mul(tr, r), c[0]);
  }

  lemma Rearrange(a: Element, b: Element, d: Element, e: Element)
    ensures Add(Add(a, b), e) == Add(Add(a, Add(b, d)), Add(d, e))
  {
  }

  lemma {:induction false} ZeroQuotient(c: seq<Element>, r: Element)
    requires forall i :: 0 <= i < |Quotient(c, r)| ==> Quotient(c, r)[i] == 0
    requires Horner(c, r) == 0
    ensures forall i :: 0 <= i < |c| ==> c[i] == 0
  {
    hide Mul, Add;
    if |c| > 0 {
      MulUnits(r);
      AddLaws(0, c[0], 0);
      if |c| == 1 {
        assert Horner(c[1..], r) == 0;
      } else {
        var q := Quotient(c, r);
        assert q[0] == Horner(c[1..], r);
        assert q[1..] == Quotient(c[1..], r);
        ZeroQuotient(c[1..], r);
      }
    }
  }

  /** A polynomial with as many distinct roots as coefficients has only zero coefficients. */
  lemma {:induction false} TooManyRoots(c: seq<Element>, roots: seq<Element>)
    requires |c| <= |roots| && Distinct(roots)
    requires forall i :: 0 <= i < |roots| ==> Horner(c, roots[i]) == 0
    ensures forall i :: 0 <= i < |c| ==> c[i] == 0
    decreases |c|
  {
    hide Mul, Add;
    if |c| > 0 {
      var r, rest := roots[0], roots[1..];
      var q := Quotient(c, r);
      forall i | 0 <= i < |rest| ensures Horner(q, rest[i]) == 0 {
        var x := rest[i];
        assert x == roots[i + 1];
        DivideByLinear(c, r, x);
        AddLaws(Mul(Horner(q, x), Add(x, r)), 0, 0);
        AddLaws(x, r, 0);
        if Horner(q, x) != 0 {
          MulNonzero(Horner(q, x), Add(x, r));
        }
      }
      TooManyRoots(q, rest);
      ZeroQuotient(c, r);
    }
  }

  /** Two polynomials with at most n coefficients that agree at n points are the same. */
  lemma DeterminedByValues(c: seq<Element>, d: seq<Element>, points: seq<Element>)
    requires |c| == |d| <= |points| && Distinct(points)
    requires forall i :: 0 <= i < |points| ==> Horner(c, points[i]) == Horner(d, points[i])
    ensures c == d
  {
    hide Mul, Add;
    var e := seq(|c|, i requires 0 <= i < |c| => Add(c[i], d[i]));
    forall i | 0 <= i < |points| ensures Horner(e, points[i]) == 0 {
      HornerOfSum(c, d, e, points[i]);
      AddLaws(Horner(c, points[i]), Horner(d, points[i]), 0);
    }
    TooManyRoots(e, points);
    forall i | 0 <= i < |c| ensures c[i] == d[i] {
      assert e[i] == 0;
      AddLaws(c[i], d[i], 0);
    }
  }

  // ---------- Polynomial.interpolate ----------

  /** The product over the first n coordinates other than j of (x - x_i) / (x_j - x_i). */
  function Basis(coordinates: seq<Coordinate>, j: nat, n: nat): Polynomial
    requires n <= |coordinates| && j < |coordinates| && Distinct(Xs(coordinates))
  {
    if n == 0 then One()
    else
      var product := Basis(coordinates, j, n - 1);
      if n - 1 == j then product
      else
        var xi, xj := Xs(coordinates)[n - 1], Xs(coordinates)[j];
        DifferenceNonzero(xi, xj);
        Times(product, DivideBy(MonicLinear(Neg(xi)), Sub(xj, xi)))
  }

  lemma DifferenceNonzero(a: Element, b: Element)
    requires a != b
    ensures Sub(a, b) != 0 && Sub(b, a) != 0
  {
  }

  /** The sum over the first n coordinates of y_j times the basis polynomial of j. */
  function InterpolateFirst(coordinates: seq<Coordinate>, n: nat): Polynomial
    requires n <= |coordinates| && Distinct(Xs(coordinates))
  {
    if n == 0 then Zero()
    else
      Plus(InterpolateFirst(coordinates, n - 1),
           Scale(Basis(coordinates, n - 1, |coordinates|), coordinates[n - 1].y))
  }

  function Interpolate(coordinates: seq<Coordinate>): Result<Polynomial, InterpolationError> {
    if |coordinates| < 1 then Failure(NoCoordinates)
    else if HasDuplicates(Xs(coordinates)) then Failure(RepeatedX)
    else
      HasDuplicatesIsRepetition(Xs(coordinates));
      Success(InterpolateFirst(coordinates, |coordinates|))
  }

  /** The value of a basis polynomial, as a product of quotients. */
  function BasisValue(coordinates: seq<Coordinate>, j: nat, n: nat, x: Element): Element
    requires n <= |coordinates| && j < |coordinates| && Distinct(Xs(coordinates))
  {
    if n == 0 then 1
    else if n - 1 == j then BasisValue(coordinates, j, n - 1, x)
    else
      var xi, xj := Xs(coordinates)[n - 1], Xs(coordinates)[j];
      DifferenceNonzero(xi, xj);
      Mul(BasisValue(coordinates, j, n - 1, x), Mul(Add(x, xi), Div(1, Sub(xj, xi))))
  }

  lemma HornerOfConstant(a: Element, x: Element)
    ensures Horner([a], x) == a
  {
    hide Mul, Add;
    var c: seq<Element> := [a];
    assert c[1..] == [] && Horner(c[1..], x) == 0;
    MulUnits(x);
    AddLaws(a, 0, 0);
  }

  lemma EvaluateMonicLinear(c: Element, x: Element)
    ensures Evaluate(MonicLinear(c), x) == Add(x, c) && |MonicLinear(c).coefficients| == 2
  {
    hide Mul, Add;
    HornerOfConstant(1, x);
    assert [c, 1][1..] == [1];
    MulUnits(x);
    EvaluateConstructed([c, 1], x);
  }

  lemma {:induction false} BasisHasBasisValue(coordinates: seq<Coordinate>, j: nat, n: nat, x: Element)
    requires n <= |coordinates| && j < |coordinates| && Distinct(Xs(coordinates))
    ensures Evaluate(Basis(coordinates, j, n), x) == BasisValue(coordinates, j, n, x)
  {
    hide Mul, Add, Div, MonicLinear, Times, DivideBy, Scale;
    if n == 0 {
      HornerOfConstant(1, x);
      EvaluateConstructed([1], x);
    } else {
      BasisHasBasisValue(coordinates, j, n - 1, x);
      if n - 1 != j {
        var xi, xj := Xs(coordinates)[n - 1], Xs(coordinates)[j];
        DifferenceNonzero(xi, xj);
        var d := Sub(xj, xi);
        EvaluateTimes(Basis(coordinates, j, n - 1), DivideBy(MonicLinear(Neg(xi)), d), x);
        EvaluateDivideByUnfolds(MonicLinear(Neg(xi)), d, x);
        EvaluateMonicLinear(Neg(xi), x);
      }
    }
  }

  lemma EvaluateDivideByUnfolds(p: Polynomial, s: Element, x: Element)
    requires s != 0
    ensures Evaluate(DivideBy(p, s), x) == Mul(Evaluate(p, x), Div(1, s))
  {
    EvaluateScale(p, Div(1, s), x);
    hide Mul, Add, Div, Scale;
  }

  /** A basis polynomial is one at its own coordinate and zero at the others. */
  lemma {:induction false} BasisValueAt(coordinates: seq<Coordinate>, j: nat, n: nat, k: nat)
    requires n <= |coordinates| && j < |coordinates| && k < |coordinates| && Distinct(Xs(coordinates))
    ensures k == j ==> BasisValue(coordinates, j, n, Xs(coordinates)[k]) == 1
    ensures k != j && k < n ==> BasisValue(coordinates, j, n, Xs(coordinates)[k]) == 0
  {
    hide Mul, Add, Div, Sub;
    if n > 0 {
      BasisValueAt(coordinates, j, n - 1, k);
      if n - 1 != j {
        var xi, xj, xk := Xs(coordinates)[n - 1], Xs(coordinates)[j], Xs(coordinates)[k];
        DifferenceNonzero(xi, xj);
        var previous := BasisValue(coordinates, j, n - 1, xk);
        var inverse := Div(1, Sub(xj, xi));
        MulUnits(Mul(Add(xk, xi), inverse));
        if k == j {
          DivMul(1, Sub(xj, xi));
          SubIsAdd(xj, xi);
          MulCommutes(Add(xj, xi), inverse);
        } else if k == n - 1 {
          AddLaws(xi, xi, 0);
          MulUnits(inverse);
          MulUnits(previous);
        }
      }
    }
  }

  lemma SubIsAdd(a: Element, b: Element)
    ensures Sub(a, b) == Add(a, b)
  {
    hide Add;
  }

  lemma ArithmeticLengths(p: Polynomial, q: Polynomial, s: Element)
    ensures |Times(p, q).coefficients| <= Degree(p) + Degree(q) + 1
    ensures |Plus(p, q).coefficients| <= Max(Degree(p), Degree(q)) + 1
    ensures |Scale(p, s).coefficients| <= |p.coefficients|
  {
    hide Mul, Add;
  }

  lemma {:induction false} BasisLength(coordinates: seq<Coordinate>, j: nat, n: nat)
    requires n <= |coordinates| && j < |coordinates| && Distinct(Xs(coordinates))
    ensures |Basis(coordinates, j, n).coefficients| <= if n <= j then n + 1 else n
    decreases n
  {
    hide Mul, Add, Div, Times, Scale, MonicLinear;
    if n > 0 {
      BasisLength(coordinates, j, n - 1);
      if n - 1 != j {
        var xi, xj := Xs(coordinates)[n - 1], Xs(coordinates)[j];
        DifferenceNonzero(xi, xj);
        var linear := MonicLinear(Neg(xi));
        EvaluateMonicLinear(Neg(xi), 0);
        ArithmeticLengths(linear, linear, Div(1, Sub(xj, xi)));
        ArithmeticLengths(Basis(coordinates, j, n - 1), DivideBy(linear, Sub(xj, xi)), 0);
      }
    }
  }

  lemma {:induction false} InterpolateFirstLength(coordinates: seq<Coordinate>, n: nat)
    requires n <= |coordinates| && |coordinates| > 0 && Distinct(Xs(coordinates))
    ensures |InterpolateFirst(coordinates, n).coefficients| <= |coordinates|
  {
    hide Mul, Add, Div, Plus, Scale, Basis;
    if n > 0 {
      var basis := Basis(coordinates, n - 1, |coordinates|);
      InterpolateFirstLength(coordinates, n - 1);
      BasisLength(coordinates, n - 1, |coordinates|);
      ArithmeticLengths(basis, basis, coordinates[n - 1].y);
      ArithmeticLengths(InterpolateFirst(coordinates, n - 1), Scale(basis, coordinates[n - 1].y), 0);
    }
  }

  /** The value of the first n terms of the interpolation. */
  function TermSum(coordinates: seq<Coordinate>, n: nat, x: Element): Element
    requires n <= |coordinates| && Distinct(Xs(coordinates))
  {
    if n == 0 then 0
    else Add(TermSum(coordinates, n - 1, x),
             Mul(BasisValue(coordinates, n - 1, |coordinates|, x), coordinates[n - 1].y))
  }

  lemma {:induction false} InterpolateFirstValue(coordinates: seq<Coordinate>, n: nat, x: Element)
    requires n <= |coordinates| && Distinct(Xs(coordinates))
    ensures Evaluate(InterpolateFirst(coordinates, n), x) == TermSum(coordinates, n, x)
  {
    hide Mul, Add, Div, Basis, BasisValue, Plus, Scale;
    if n == 0 {
      EvaluateConstructed([], x);
    } else {
      InterpolateFirstValue(coordinates, n - 1, x);
      var basis := Basis(coordinates, n - 1, |coordinates|);
      EvaluatePlus(InterpolateFirst(coordinates, n - 1), Scale(basis, coordinates[n - 1].y), x);
      EvaluateScale(basis, coordinates[n - 1].y, x);
      BasisHasBasisValue(coordinates, n - 1, |coordinates|, x);
    }
  }

  lemma {:induction false} TermSumAt(coordinates: seq<Coordinate>, n: nat, k: nat)
    requires n <= |coordinates| && k < |coordinates| && Distinct(Xs(coordinates))
    ensures TermSum(coordinates, n, Xs(coordinates)[k]) == if k < n then coordinates[k].y else 0
  {
    hide Mul, Add, Div, BasisValue;
    if n > 0 {
      TermSumAt(coordinates, n - 1, k);
      BasisValueAt(coordinates, n - 1, |coordinates|, k);
      MulUnits(coordinates[n - 1].y);
      AddLaws(0, coordinates[n - 1].y, 0);
      AddLaws(coordinates[k].y, 0, 0);
      AddLaws(0, 0, 0);
    }
  }

  /** Interpolation fails exactly on no coordinates or a repeated x. Otherwise the polynomial has
      degree below the number of coordinates and passes through every one of them. */
  lemma InterpolateCorrect(coordinates: seq<Coordinate>)
    ensures Interpolate(coordinates).Failure? <==> coordinates == [] || !Distinct(Xs(coordinates))
    ensures Interpolate(coordinates).Success? ==>
              var p := Interpolate(coordinates).value;
              && |p.coefficients| <= |coordinates|
              && forall k :: 0 <= k < |coordinates| ==> Evaluate(p, coordinates[k].x) == coordinates[k].y
  {
    hide Mul, Add, Div, InterpolateFirst, Evaluate, Horner;
    HasDuplicatesIsRepetition(Xs(coordinates));
    if Interpolate(coordinates).Success? {
      var n := |coordinates|;
      InterpolateFirstLength(coordinates, n);
      forall k | 0 <= k < n ensures Evaluate(InterpolateFirst(coordinates, n), coordinates[k].x) == coordinates[k].y {
        InterpolateFirstValue(coordinates, n, Xs(coordinates)[k]);
        TermSumAt(coordinates, n, k);
      }
    }
  }

  // ---------- Polynomial.combine ----------

  /** The source's division, which throws on a zero divisor. */
  function TryDiv(a: Element, b: Element): Result<Element, InterpolationError> {
    if b == 0 then Failure(DivisionByZero) else Success(Div(a, b))
  }

  /** The product of x_i - x_j over the first n coordinates other than j. */
  function Differences(coordinates: seq<Coordinate>, j: nat, n: nat): Element
    requires n <= |coordinates| && j < |coordinates|
  {
    if n == 0 then 1
    else if n - 1 == j then Differences(coordinates, j, n - 1)
    else Mul(Differences(coordinates, j, n - 1), Sub(coordinates[n - 1].x, coordinates[j].x))
  }

  function QuotientSum(coordinates: seq<Coordinate>, n: nat): Result<Element, InterpolationError>
    requires n <= |coordinates|
  {
    if n == 0 then Success(0)
    else
      var sum :- QuotientSum(coordinates, n - 1);
      var c := coordinates[n - 1];
      var term :- TryDiv(c.y, Mul(c.x, Differences(coordinates, n - 1, |coordinates|)));
      Success(Add(sum, term))
  }

  function XProduct(coordinates: seq<Coordinate>, n: nat): Element
    requires n <= |coordinates|
  {
    if n == 0 then 1 else Mul(XProduct(coordinates, n - 1), coordinates[n - 1].x)
  }

  /** The value at zero of the interpolated polynomial, computed without building it. */
  function CombineAtZero(coordinates: seq<Coordinate>): Result<Element, InterpolationError> {
    if |coordinates| < 1 then Failure(NoCoordinates)
    else if HasDuplicates(Xs(coordinates)) then Failure(RepeatedX)
    else
      var quotient :- QuotientSum(coordinates, |coordinates|);
      Success(Mul(XProduct(coordinates, |coordinates|), quotient))
  }

  lemma {:induction false} DifferencesNonzero(coordinates: seq<Coordinate>, j: nat, n: nat)
    requires n <= |coordinates| && j < |coordinates| && Distinct(Xs(coordinates))
    ensures Differences(coordinates, j, n) != 0
  {
    hide Mul, Sub;
    if n > 0 {
      DifferencesNonzero(coordinates, j, n - 1);
      if n - 1 != j {
        assert Xs(coordinates)[n - 1] != Xs(coordinates)[j];
        DifferenceNonzero(coordinates[n - 1].x, coordinates[j].x);
        MulNonzero(Differences(coordinates, j, n - 1), Sub(coordinates[n - 1].x, coordinates[j].x));
      }
    }
  }

  /** The product of the first n x values other than x_j. */
  function XProductExcept(coordinates: seq<Coordinate>, j: nat, n: nat): Element
    requires n <= |coordinates| && j < |coordinates|
  {
    if n == 0 then 1
    else if n - 1 == j then XProductExcept(coordinates, j, n - 1)
    else Mul(XProductExcept(coordinates, j, n - 1), coordinates[n - 1].x)
  }

  lemma {:induction false} XProductSplits(coordinates: seq<Coordinate>, j: nat, n: nat)
    requires n <= |coordinates| && j < |coordinates|
    ensures XProduct(coordinates, n) ==
            if j < n then Mul(coordinates[j].x, XProductExcept(coordinates, j, n))
                else XProductExcept(coordinates, j, n)
  {
    hide Mul;
    if n > 0 {
      XProductSplits(coordinates, j, n - 1);
      if n - 1 == j {
        MulCommutes(XProduct(coordinates, n - 1), coordinates[j].x);
      } else if j < n {
        MulAssociates(coordinates[j].x, XProductExcept(coordinates, j, n - 1), coordinates[n - 1].x);
      }
    }
  }

  /** At zero, the basis value times the product of differences is the product of the other xs. */
  lemma {:induction false} BasisValueAtZero(coordinates: seq<Coordinate>, j: nat, n: nat)
    requires n <= |coordinates| && j < |coordinates| && Distinct(Xs(coordinates))
    ensures Mul(BasisValue(coordinates, j, n, 0), Differences(coordinates, j, n)) == XProductExcept(coordinates, j, n)
  {
    hide Mul, Add, Div, Sub;
    if n == 0 {
      MulUnits(1);
    } else {
      BasisValueAtZero(coordinates, j, n - 1);
      if n - 1 != j {
        var xi, xj := Xs(coordinates)[n - 1], Xs(coordinates)[j];
        DifferenceNonzero(xi, xj);
        var d := Sub(xj, xi);
        var inverse := Div(1, d);
        assert Sub(xi, xj) == d by {
          SubIsAdd(xi, xj);
          SubIsAdd(xj, xi);
          AddLaws(xi, xj, 0);
        }
        AddLaws(xi, 0, 0);
        MulPairs(BasisValue(coordinates, j, n - 1, 0), Mul(xi, inverse), Differences(coordinates, j, n - 1), d);
        MulAssociates(xi, inverse, d);
        DivMul(1, d);
        MulUnits(xi);
      }
    }
  }

  /** The sum of quotients, scaled by the product of all xs, is the sum of the basis terms at zero. */
  lemma {:induction false} QuotientSumIsTermSum(coordinates: seq<Coordinate>, n: nat)
    requires n <= |coordinates| && Distinct(Xs(coordinates))
    requires forall i :: 0 <= i < |coordinates| ==> coordinates[i].x != 0
    ensures QuotientSum(coordinates, n).Success?
    ensures Mul(XProduct(coordinates, |coordinates|), QuotientSum(coordinates, n).value) == TermSum(coordinates, n, 0)
  {
    hide Mul, Add, Div, BasisValue, Differences, XProduct, XProductExcept;
    var all := |coordinates|;
    if n == 0 {
      MulUnits(XProduct(coordinates, all));
    } else {
      QuotientSumIsTermSum(coordinates, n - 1);
      var j, c := n - 1, coordinates[n - 1];
      var p, q := Differences(coordinates, j, all), XProductExcept(coordinates, j, all);
      DifferencesNonzero(coordinates, j, all);
      MulNonzero(c.x, p);
      BasisValueAtZero(coordinates, j, all);
      XProductSplits(coordinates, j, all);
      CancelDenominator(c.x, q, p, BasisValue(coordinates, j, all, 0), c.y);
      MulCommutes(c.y, BasisValue(coordinates, j, all, 0));
      MulDistributes(XProduct(coordinates, all), QuotientSum(coordinates, n - 1).value, Div(c.y, Mul(c.x, p)));
    }
  }

  lemma {:induction false} QuotientSumFailsAtZero(coordinates: seq<Coordinate>, n: nat, i: nat)
    requires i < n <= |coordinates| && coordinates[i].x == 0
    ensures QuotientSum(coordinates, n) == Failure(DivisionByZero)
  {
    hide Mul, Add, Div;
    if i < n - 1 {
      QuotientSumFailsAtZero(coordinates, n - 1, i);
    } else {
      var c := coordinates[n - 1];
      MulUnits(Differences(coordinates, n - 1, |coordinates|));
      if QuotientSum(coordinates, n - 1).Failure? {
        QuotientSumOnlyDividesByZero(coordinates, n - 1);
      }
    }
  }

  lemma {:induction false} QuotientSumOnlyDividesByZero(coordinates: seq<Coordinate>, n: nat)
    requires n <= |coordinates|
    ensures QuotientSum(coordinates, n).Failure? ==> QuotientSum(coordinates, n).error == DivisionByZero
  {
    hide Mul, Add, Div;
    if n > 0 {
      QuotientSumOnlyDividesByZero(coordinates, n - 1);
    }
  }

  /** The fast combination agrees with interpolation, evaluated at zero, on all coordinates with
      nonzero xs; when some x is zero it fails although interpolation succeeds. */
  lemma CombineIsInterpolationAtZero(coordinates: seq<Coordinate>)
    ensures Interpolate(coordinates).Failure? ==> CombineAtZero(coordinates) == Failure(Interpolate(coordinates).error)
    ensures Interpolate(coordinates).Success? ==>
              CombineAtZero(coordinates) ==
              if exists i :: 0 <= i < |coordinates| && coordinates[i].x == 0 then Failure(DivisionByZero)
              else Success(Evaluate(Interpolate(coordinates).value, 0))
  {
    hide Mul, Add, Div, InterpolateFirst, QuotientSum, TermSum, XProduct, Evaluate;
    HasDuplicatesIsRepetition(Xs(coordinates));
    var n := |coordinates|;
    if Interpolate(coordinates).Success? {
      if i :| 0 <= i < n && coordinates[i].x == 0 {
        QuotientSumFailsAtZero(coordinates, n, i);
      } else {
        QuotientSumIsTermSum(coordinates, n);
        InterpolateFirstValue(coordinates, n, 0);
      }
    }
  }

  /** Any interpolation through n points of a polynomial with at most n coefficients has its values
      everywhere. */
  lemma InterpolationRecovers(c: seq<Element>, coordinates: seq<Coordinate>, x: Element)
    requires 0 < |coordinates| && |c| <= |coordinates| && Distinct(Xs(coordinates))
    requires forall i :: 0 <= i < |coordinates| ==> coordinates[i].y == Horner(c, coordinates[i].x)
    ensures Interpolate(coordinates).Success? && Evaluate(Interpolate(coordinates).value, x) == Horner(c, x)
  {
    hide Mul, Add, Div, Horner, Interpolate;
    InterpolateCorrect(coordinates);
    var n, p := |coordinates|, Interpolate(coordinates).value;
    var cs, ps := Pad(c, n), Pad(p.coefficients, n);
    forall i | 0 <= i < n ensures Horner(cs, Xs(coordinates)[i]) == Horner(ps, Xs(coordinates)[i]) {
      PadKeepsValue(c, n, coordinates[i].x);
      PadKeepsValue(p.coefficients, n, coordinates[i].x);
    }
    DeterminedByValues(cs, ps, Xs(coordinates));
    PadKeepsValue(c, n, x);
    PadKeepsValue(p.coefficients, n, x);
  }
}
