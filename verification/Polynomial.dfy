/** Polynomials over GF(2^8): the class Polynomial of packages/seal/src/shamir.ts. */
module Polynomials {
  import opened GF256

  /** A polynomial. The first coefficient is the constant term. */
  datatype Polynomial = Polynomial(coefficients: seq<Element>)

  datatype Coordinate = Coordinate(x: Element, y: Element)

  // ---------- Construction ----------

  ghost predicate Trimmed(c: seq<Element>) {
    |c| == 0 || c[|c| - 1] != 0
  }

  /** The coefficients without their trailing zeros. */
  function Trim(c: seq<Element>): (t: seq<Element>)
    ensures Trimmed(t) && t <= c
    ensures forall i :: |t| <= i < |c| ==> c[i] == 0
  {
    if |c| > 0 && c[|c| - 1] == 0 then Trim(c[..|c| - 1]) else c
  }

  function FromCoefficients(c: seq<Element>): Polynomial {
    Polynomial(Trim(c))
  }

  /** The constructor, which pops trailing zeros off a copy of the coefficients. */
  method New(coefficients: seq<Element>) returns (p: Polynomial)
    ensures p == FromCoefficients(coefficients)
    ensures Trimmed(p.coefficients) && p.coefficients <= coefficients
    ensures forall i :: |p.coefficients| <= i < |coefficients| ==> coefficients[i] == 0
  {
    var c := coefficients;
    while |c| > 0 && c[|c| - 1] == 0
      invariant c <= coefficients && Trim(c) == Trim(coefficients)
    {
      c := c[..|c| - 1];
    }
    p := Polynomial(c);
  }

  function Degree(p: Polynomial): nat {
    if |p.coefficients| == 0 then 0 else |p.coefficients| - 1
  }

  function Coefficient(p: Polynomial, i: nat): Element {
    if i >= |p.coefficients| then 0 else p.coefficients[i]
  }

  function MonicLinear(c: Element): Polynomial {
    FromCoefficients([c, 1])
  }

  function Zero(): Polynomial {
    FromCoefficients([])
  }

  function One(): Polynomial {
    FromCoefficients([1])
  }

  // ---------- Evaluation ----------

  /** Folding the reversed coefficients with sum * x + coefficient. */
  function Horner(c: seq<Element>, x: Element): Element {
    if c == [] then 0 else Add(Mul(Horner(c[1..], x), x), c[0])
  }

  function Evaluate(p: Polynomial, x: Element): Element {
    Horner(p.coefficients, x)
  }

  function Power(x: Element, n: nat): Element {
    if n == 0 then 1 else Mul(Power(x, n - 1), x)
  }

  /** The value of a polynomial by definition: the sum of coefficient times power. */
  function PowerSum(c: seq<Element>, x: Element, from: nat): Element {
    if c == [] then 0 else Add(Mul(c[0], Power(x, from)), PowerSum(c[1..], x, from + 1))
  }

  lemma {:induction false} PowerSumShift(c: seq<Element>, x: Element, from: nat)
    ensures PowerSum(c, x, from + 1) == Mul(PowerSum(c, x, from), x)
  {
    hide Mul, Add;
    if c == [] {
      MulUnits(x);
    } else {
      PowerSumShift(c[1..], x, from + 1);
      MulAssociates(c[0], Power(x, from), x);
      MulDistributesLeft(Mul(c[0], Power(x, from)), PowerSum(c[1..], x, from + 1), x);
    }
  }

  lemma {:induction false} HornerIsPowerSum(c: seq<Element>, x: Element)
    ensures Horner(c, x) == PowerSum(c, x, 0)
  {
    hide Mul, Add;
    if c != [] {
      HornerIsPowerSum(c[1..], x);
      PowerSumShift(c[1..], x, 0);
      MulUnits(c[0]);
      AddLaws(c[0], PowerSum(c[1..], x, 1), 0);
    }
  }

  lemma {:induction false} HornerAppendZero(c: seq<Element>, x: Element)
    ensures Horner(c + [0], x) == Horner(c, x)
  {
    hide Mul, Add;
    if c == [] {
      MulUnits(x);
      AddLaws(0, 0, 0);
    } else {
      HornerAppendZero(c[1..], x);
      assert (c + [0])[1..] == c[1..] + [0];
    }
  }

  /** Trimming does not change the value anywhere. */
  lemma {:induction false} TrimKeepsValue(c: seq<Element>, x: Element)
    ensures Horner(Trim(c), x) == Horner(c, x)
  {
    if |c| > 0 && c[|c| - 1] == 0 {
      TrimKeepsValue(c[..|c| - 1], x);
      HornerAppendZero(c[..|c| - 1], x);
      assert c == c[..|c| - 1] + [0];
    }
  }

  /** The coefficients, padded with zeros to n of them. */
  function Pad(c: seq<Element>, n: nat): (r: seq<Element>)
    requires |c| <= n
    ensures |r| == n && c <= r && forall i :: |c| <= i < n ==> r[i] == 0
  {
    c + seq(n - |c|, _ => 0)
  }

  lemma {:induction false} PadKeepsValue(c: seq<Element>, n: nat, x: Element)
    requires |c| <= n
    ensures Horner(Pad(c, n), x) == Horner(c, x)
    decreases n
  {
    hide Mul, Add, Horner;
    if |c| == n {
      assert Pad(c, n) == c;
    } else {
      PadKeepsValue(c, n - 1, x);
      HornerAppendZero(Pad(c, n - 1), x);
      assert Pad(c, n) == Pad(c, n - 1) + [0];
    }
  }

  // ---------- Arithmetic ----------

  function Max(a: nat, b: nat): nat {
    if a < b then b else a
  }

  function Sums(p: Polynomial, q: Polynomial): (r: seq<Element>)
    ensures |r| == Max(Degree(p), Degree(q)) + 1
    ensures forall i :: 0 <= i < |r| ==> r[i] == Add(Coefficient(p, i), Coefficient(q, i))
  {
    seq(Max(Degree(p), Degree(q)) + 1, i requires i >= 0 => Add(Coefficient(p, i), Coefficient(q, i)))
  }

  function Plus(p: Polynomial, q: Polynomial): Polynomial {
    FromCoefficients(Sums(p, q))
  }

  function Scale(p: Polynomial, s: Element): Polynomial {
    FromCoefficients(seq(|p.coefficients|, i requires 0 <= i < |p.coefficients| => Mul(p.coefficients[i], s)))
  }

  /** Division by a scalar; the source throws when it is zero. */
  function DivideBy(p: Polynomial, s: Element): Polynomial
    requires s != 0
  {
    Scale(p, Div(1, s))
  }

  /** Coefficient i of the product, summed over the first n pairs of factors. */
  function Convolution(p: Polynomial, q: Polynomial, i: nat, n: nat): Element
    requires n <= i + 1
  {
    if n == 0 then 0
    else
      var sum := Convolution(p, q, i, n - 1);
      var j := n - 1;
      if j <= Degree(p) && i - j <= Degree(q) then Add(sum, Mul(Coefficient(p, j), Coefficient(q, i - j))) else sum
  }

  function Times(p: Polynomial, q: Polynomial): Polynomial {
    FromCoefficients(seq(Degree(p) + Degree(q) + 1, i requires i >= 0 => Convolution(p, q, i, i + 1)))
  }

  /** Multiplication as the source runs it, with an inner loop that accumulates each coefficient. */
  method Multiply(p: Polynomial, q: Polynomial) returns (r: Polynomial)
    ensures r == Times(p, q)
  {
    var degree := Degree(p) + Degree(q);
    var coefficients: seq<Element> := [];
    for i := 0 to degree + 1
      invariant |coefficients| == i
      invariant forall k :: 0 <= k < i ==> coefficients[k] == Convolution(p, q, k, k + 1)
    {
      var sum := 0;
      for j := 0 to i + 1
        invariant sum == Convolution(p, q, i, j)
      {
        if j <= Degree(p) && i - j <= Degree(q) {
          sum := Add(sum, Mul(Coefficient(p, j), Coefficient(q, i - j)));
        }
      }
      coefficients := coefficients + [sum];
    }
    assert coefficients == seq(degree + 1, i requires i >= 0 => Convolution(p, q, i, i + 1));
    r := New(coefficients);
  }

  lemma {:induction false} HornerOfSum(c: seq<Element>, d: seq<Element>, e: seq<Element>, x: Element)
    requires |c| == |d| == |e|
    requires forall i :: 0 <= i < |c| ==> e[i] == Add(c[i], d[i])
    ensures Horner(e, x) == Add(Horner(c, x), Horner(d, x))
  {
    hide Mul, Add;
    if c == [] {
      AddLaws(0, 0, 0);
    } else {
      HornerOfSum(c[1..], d[1..], e[1..], x);
      var hc, hd := Horner(c[1..], x), Horner(d[1..], x);
      MulDistributesLeft(hc, hd, x);
      AddPairs(Mul(hc, x), Mul(hd, x), c[0], d[0]);
    }
  }

  lemma {:induction false} HornerOfScaled(c: seq<Element>, s: Element, e: seq<Element>, x: Element)
    requires |c| == |e|
    requires forall i :: 0 <= i < |c| ==> e[i] == Mul(c[i], s)
    ensures Horner(e, x) == Mul(Horner(c, x), s)
  {
    hide Mul, Add;
    if c == [] {
      MulUnits(s);
    } else {
      HornerOfScaled(c[1..], s, e[1..], x);
      MulSwapsLast(Horner(c[1..], x), s, x);
      MulDistributesLeft(Mul(Horner(c[1..], x), x), c[0], s);
    }
  }

  lemma EvaluateConstructed(c: seq<Element>, x: Element)
    ensures Evaluate(FromCoefficients(c), x) == Horner(c, x)
  {
    TrimKeepsValue(c, x);
  }

  lemma EvaluatePlus(p: Polynomial, q: Polynomial, x: Element)
    ensures Evaluate(Plus(p, q), x) == Add(Evaluate(p, x), Evaluate(q, x))
  {
    hide Mul, Add, Horner, Pad, FromCoefficients, Sums;
    var n := Max(Degree(p), Degree(q)) + 1;
    PadKeepsValue(p.coefficients, n, x);
    PadKeepsValue(q.coefficients, n, x);
    HornerOfSum(Pad(p.coefficients, n), Pad(q.coefficients, n), Sums(p, q), x);
    EvaluateConstructed(Sums(p, q), x);
  }

  lemma EvaluateScale(p: Polynomial, s: Element, x: Element)
    ensures Evaluate(Scale(p, s), x) == Mul(Evaluate(p, x), s)
  {
    hide Mul, Add;
    var e := seq(|p.coefficients|, i requires 0 <= i < |p.coefficients| => Mul(p.coefficients[i], s));
    HornerOfScaled(p.coefficients, s, e, x);
    EvaluateConstructed(e, x);
  }

  lemma EvaluateDivideBy(p: Polynomial, s: Element, x: Element)
    requires s != 0
    ensures Mul(Evaluate(DivideBy(p, s), x), s) == Evaluate(p, x)
  {
    hide Mul, Add, Div;
    EvaluateScale(p, Div(1, s), x);
    MulAssociates(Evaluate(p, x), Div(1, s), s);
    DivMul(1, s);
    MulUnits(Evaluate(p, x));
  }

  // ---------- The product of two polynomials ----------

  function At(c: seq<Element>, i: nat): Element {
    if i < |c| then c[i] else 0
  }

  /** The sum of c[j] * d[i - j] over the first n indices j. */
  function ProductSum(c: seq<Element>, d: seq<Element>, i: nat, n: nat): Element
    requires n <= i + 1
  {
    if n == 0 then 0 else Add(ProductSum(c, d, i, n - 1), Mul(At(c, n - 1), At(d, i - (n - 1))))
  }

  /** The guard in the source's inner loop skips only terms that are zero. */
  lemma {:induction false} ConvolutionIsProductSum(p: Polynomial, q: Polynomial, i: nat, n: nat)
    requires n <= i + 1
    ensures Convolution(p, q, i, n) == ProductSum(p.coefficients, q.coefficients, i, n)
  {
    hide Mul, Add;
    if n > 0 {
      ConvolutionIsProductSum(p, q, i, n - 1);
      var j := n - 1;
      if !(j <= Degree(p) && i - j <= Degree(q)) {
        MulUnits(At(p.coefficients, j));
        MulUnits(At(q.coefficients, i - j));
        AddLaws(ProductSum(p.coefficients, q.coefficients, i, n - 1), 0, 0);
      }
    }
  }

  lemma {:induction false} ProductSumShift(c: seq<Element>, d: seq<Element>, i: nat, n: nat)
    requires |c| > 0 && n <= i
    ensures ProductSum(c, d, i, n + 1) ==
            Add(Mul(c[0], At(d, i)), if i == 0 then 0 else ProductSum(c[1..], d, i - 1, n))
  {
    hide Mul, Add;
    var first := Mul(c[0], At(d, i));
    if n == 0 {
      assert ProductSum(c, d, i, 0) == 0;
      AddLaws(first, 0, 0);
    } else {
      ProductSumShift(c, d, i, n - 1);
      AddLaws(first, ProductSum(c[1..], d, i - 1, n - 1), Mul(At(c, n), At(d, i - n)));
      assert At(c, n) == At(c[1..], n - 1);
    }
  }

  lemma {:induction false} ProductSumOfNothing(d: seq<Element>, i: nat, n: nat)
    requires n <= i + 1
    ensures ProductSum([], d, i, n) == 0
  {
    hide Mul, Add;
    if n > 0 {
      ProductSumOfNothing(d, i, n - 1);
      MulUnits(At(d, i - (n - 1)));
      AddLaws(0, 0, 0);
    }
  }

  lemma {:induction false} HornerOfZeros(c: seq<Element>, x: Element)
    requires forall i :: 0 <= i < |c| ==> c[i] == 0
    ensures Horner(c, x) == 0
  {
    hide Mul, Add;
    if c != [] {
      HornerOfZeros(c[1..], x);
      MulUnits(x);
      AddLaws(0, 0, 0);
    }
  }

  /** Coefficients that are products of sums describe the product of the values. */
  lemma {:induction false} HornerOfProduct(c: seq<Element>, d: seq<Element>, e: seq<Element>, x: Element)
    requires |c| == 0 || |e| >= |c| + |d| - 1
    requires forall i :: 0 <= i < |e| ==> e[i] == ProductSum(c, d, i, i + 1)
    ensures Horner(e, x) == Mul(Horner(c, x), Horner(d, x))
    decreases |c|
  {
    hide Mul, Add;
    MulUnits(Horner(d, x));
    if c == [] {
      forall i | 0 <= i < |e| ensures e[i] == 0 { ProductSumOfNothing(d, i, i + 1); }
      HornerOfZeros(e, x);
    } else if e == [] {
      assert d == [];
      MulUnits(Horner(c, x));
    } else {
      HornerOfProductStep(c, d, e, x);
    }
  }

  lemma {:induction false} HornerOfProductStep(c: seq<Element>, d: seq<Element>, e: seq<Element>, x: Element)
    requires |c| > 0 && |e| > 0 && |e| >= |c| + |d| - 1
    requires forall i :: 0 <= i < |e| ==> e[i] == ProductSum(c, d, i, i + 1)
    ensures Horner(e, x) == Mul(Horner(c, x), Horner(d, x))
    decreases |c|, 0
  {
    hide Mul, Add;
    var tail := seq(|e| - 1, i requires i >= 0 => ProductSum(c[1..], d, i, i + 1));
    var rest := [0] + tail;
    var first := seq(|e|, i requires i >= 0 => Mul(At(d, i), c[0]));
    forall i | 0 <= i < |e| ensures e[i] == Add(first[i], rest[i]) {
      ProductSumShift(c, d, i, i);
      MulCommutes(c[0], At(d, i));
      assert i > 0 ==> rest[i] == tail[i - 1];
    }
    HornerOfSum(first, rest, e, x);
    HornerOfScaled(Pad(d, |e|), c[0], first, x);
    PadKeepsValue(d, |e|, x);
    HornerOfProduct(c[1..], d, tail, x);
    assert rest[1..] == tail;
    var vc, vd := Horner(c[1..], x), Horner(d, x);
    AddLaws(Mul(Mul(vc, vd), x), 0, 0);
    AddLaws(Mul(vd, c[0]), Mul(Mul(vc, vd), x), 0);
    MulSwapsLast(vc, vd, x);
    MulCommutes(vd, c[0]);
    MulDistributesLeft(Mul(vc, x), c[0], vd);
  }

  lemma EvaluateTimes(p: Polynomial, q: Polynomial, x: Element)
    ensures Evaluate(Times(p, q), x) == Mul(Evaluate(p, x), Evaluate(q, x))
  {
    hide Mul, Add;
    var c, d := p.coefficients, q.coefficients;
    var n := Degree(p) + Degree(q) + 1;
    var e := seq(n, i requires i >= 0 => Convolution(p, q, i, i + 1));
    forall i | 0 <= i < n ensures e[i] == ProductSum(c, d, i, i + 1) {
      ConvolutionIsProductSum(p, q, i, i + 1);
    }
    HornerOfProduct(c, d, e, x);
    EvaluateConstructed(e, x);
  }
}
