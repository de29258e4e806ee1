/** The Rijndael field GF(2^8) with generator g = 0x03, as packages/seal/src/shamir.ts builds it
    from a table of powers and a table of logarithms. The field is the one of section 4.2 of
    FIPS 197: polynomials over two elements, reduced by x^8 + x^4 + x^3 + x + 1. */
module GF256 {
  import opened Bits
  import opened GF256Tables

  /** A field element. The source keeps it as a number that its constructor confines to 0..255. */
  type Element = bv8

  /** An exponent of the generator. The source computes with exponents up to 2 * 254, so nine
      bits hold every value without wrapping around. */
  type Exponent = bv9

  function Log(a: Element): Exponent
    requires a != 0
  {
    LogTable(a - 1) as bv9
  }

  /** An exponent modulo the order of the generator. */
  function Reduce(x: Exponent): (r: Exponent)
    ensures r < 255
  {
    x % 255
  }

  /** The exponent of a product. */
  function Sum(x: Exponent, y: Exponent): Exponent {
    x + y
  }

  /** The exponent of an inverse. */
  function Complement(x: Exponent): Exponent {
    255 - x
  }

  function Exp(x: Exponent): Element {
    ExpTable(Reduce(x) as bv8)
  }

  function Add(a: Element, b: Element): Element {
    a ^ b
  }

  /** Subtraction is addition in a binary field. */
  function Sub(a: Element, b: Element): Element {
    Add(a, b)
  }

  function Neg(a: Element): Element {
    a
  }

  function Mul(a: Element, b: Element): Element {
    if a == 0 || b == 0 then 0 else Exp(Sum(Log(a), Log(b)))
  }

  /** The source throws when the divisor is zero, because zero has no logarithm. */
  function Div(a: Element, b: Element): Element
    requires b != 0
  {
    Mul(a, Exp(Complement(Log(b))))
  }

  // ---------- The tables, checked entry by entry ----------

  /** Every nonzero element is the power of the generator that its logarithm names. */
  lemma PowerOfLogEntry(a: Element)
    requires a != 0
    ensures LogTable(a - 1) < 255 && ExpTable(LogTable(a - 1)) == a
  {
  }

  lemma LogOfPowerEntry(i: bv8)
    requires i < 255
    ensures ExpTable(i) != 0 && LogTable(ExpTable(i) - 1) == i
  {
  }

  function ShiftUp(a: Element): Element {
    a << 1
  }

  /** What x^8 reduces to, when shifting a up produces it. */
  function Overflow(a: Element): Element {
    if a & 0x80 != 0 then 0x1b else 0
  }

  /** Multiplication by x in the polynomial representation. */
  function Double(a: Element): Element {
    Add(ShiftUp(a), Overflow(a))
  }

  /** Multiplication by the generator, x + 1. */
  function Triple(a: Element): Element {
    a ^ Double(a)
  }

  lemma LogOfTripleEntry(a: Element)
    requires a != 0
    ensures Triple(a) != 0 && LogTable(a - 1) < 255
    ensures LogTable(Triple(a) - 1) == if LogTable(a - 1) == 254 then 0 else LogTable(a - 1) + 1
  {
  }

  // ---------- Logarithms and powers ----------

  lemma LogEntry(a: Element)
    requires a != 0
    ensures Log(a) == LogTable(a - 1) as Exponent
  {
    hide LogTable;
  }

  lemma ReducedEntry(i: bv8)
    requires i < 255
    ensures i as Exponent < 255 && Reduce(i as Exponent) as bv8 == i
  {
  }

  lemma ExpEntry(i: bv8)
    requires i < 255
    ensures Exp(i as Exponent) == ExpTable(i)
  {
    ReducedEntry(i);
    hide ExpTable, Reduce;
  }

  lemma ExpOfLog(a: Element)
    requires a != 0
    ensures Log(a) < 255 && Exp(Log(a)) == a
  {
    hide *;
    PowerOfLogEntry(a);
    LogEntry(a);
    ReducedEntry(LogTable(a - 1));
    ExpEntry(LogTable(a - 1));
  }

  lemma ReducedExponent(x: Exponent)
    ensures Reduce(x) as bv8 < 255 && (Reduce(x) as bv8) as Exponent == Reduce(x)
  {
  }

  lemma LogOfExp(x: Exponent)
    ensures Exp(x) != 0 && Log(Exp(x)) == Reduce(x)
  {
    hide ExpTable, LogTable;
    ReducedExponent(x);
    var i := Reduce(x) as bv8;
    LogOfPowerEntry(i);
    assert Exp(x) == ExpTable(i);
    assert Log(ExpTable(i)) == LogTable(ExpTable(i) - 1) as Exponent;
  }

  /** Tripling moves an element one step along the cycle of powers. */
  lemma LogOfTriple(a: Element)
    requires a != 0
    ensures Triple(a) != 0
    ensures Log(Triple(a)) == if Log(a) == 254 then 0 else Log(a) + 1
  {
    LogOfTripleEntry(a);
    hide ExpTable, LogTable, Triple;
  }

  lemma LogInjective(a: Element, b: Element)
    requires a != 0 && b != 0 && Log(a) == Log(b)
    ensures a == b
  {
    ExpOfLog(a);
    ExpOfLog(b);
  }

  // ---------- Multiplication of polynomials, by shift and add ----------

  /** The lowest bit of b times a. */
  function LowTerm(a: Element, b: Element): Element {
    if b & 1 != 0 then a else 0
  }

  /** The sum of a * x^k over the bits k of b that are set, for the n lowest bits of b. */
  function ShiftAndAdd(a: Element, b: Element, n: nat): Element
    decreases n
  {
    if n == 0 then 0 else Add(LowTerm(a, b), ShiftAndAdd(Double(a), Half(b), n - 1))
  }

  /** Multiplication in the polynomial representation of the field. */
  function Product(a: Element, b: Element): Element {
    ShiftAndAdd(a, b, 8)
  }

  lemma ShiftUpIsLinear(a: Element, b: Element)
    ensures ShiftUp(Add(a, b)) == Add(ShiftUp(a), ShiftUp(b))
  {
  }

  lemma OverflowIsLinear(a: Element, b: Element)
    ensures Overflow(Add(a, b)) == Add(Overflow(a), Overflow(b))
  {
    assert (a ^ b) & 0x80 == (a & 0x80) ^ (b & 0x80);
    if a & 0x80 != 0 && b & 0x80 != 0 {
      assert a & 0x80 == 0x80 && b & 0x80 == 0x80;
    }
  }

  lemma DoubleIsLinear(a: Element, b: Element)
    ensures Double(Add(a, b)) == Add(Double(a), Double(b))
  {
    hide Add, ShiftUp, Overflow;
    ShiftUpIsLinear(a, b);
    OverflowIsLinear(a, b);
    AddPairs(ShiftUp(a), ShiftUp(b), Overflow(a), Overflow(b));
  }

  lemma LowTermIsLinear(a: Element, b: Element, c: Element)
    ensures Half(Add(b, c)) == Add(Half(b), Half(c))
    ensures LowTerm(a, Add(b, c)) == Add(LowTerm(a, b), LowTerm(a, c))
  {
    assert (b ^ c) >> 1 == (b >> 1) ^ (c >> 1);
    assert (b ^ c) & 1 == (b & 1) ^ (c & 1);
    if b & 1 != 0 && c & 1 != 0 {
      assert b & 1 == 1 && c & 1 == 1;
    }
  }

  lemma LowTermOfDouble(a: Element, b: Element)
    ensures LowTerm(Double(a), b) == Double(LowTerm(a, b)) && Double(0) == 0
  {
  }

  lemma AddPairs(p: Element, q: Element, r: Element, s: Element)
    ensures Add(Add(p, q), Add(r, s)) == Add(Add(p, r), Add(q, s))
    ensures Add(p, 0) == p && Add(0, p) == p && Add(p, p) == 0
  {
  }

  lemma {:induction false} DoubleOfShiftAndAdd(a: Element, b: Element, n: nat)
    ensures ShiftAndAdd(Double(a), b, n) == Double(ShiftAndAdd(a, b, n))
    decreases n
  {
    hide Double, LowTerm, Half, Add;
    LowTermOfDouble(a, b);
    if n > 0 {
      DoubleOfShiftAndAdd(Double(a), Half(b), n - 1);
      DoubleIsLinear(LowTerm(a, b), ShiftAndAdd(Double(a), Half(b), n - 1));
    }
  }

  lemma {:induction false} ShiftAndAddDistributes(a: Element, b: Element, c: Element, n: nat)
    ensures ShiftAndAdd(a, Add(b, c), n) == Add(ShiftAndAdd(a, b, n), ShiftAndAdd(a, c, n))
    decreases n
  {
    hide Double, LowTerm, Half, Add;
    if n == 0 {
      AddPairs(0, 0, 0, 0);
    } else {
      LowTermIsLinear(a, b, c);
      ShiftAndAddDistributes(Double(a), Half(b), Half(c), n - 1);
      AddPairs(LowTerm(a, b), ShiftAndAdd(Double(a), Half(b), n - 1),
               LowTerm(a, c), ShiftAndAdd(Double(a), Half(c), n - 1));
    }
  }

  /** What the bits h reduce to when doubling has carried them all out. */
  function Folded(h: Element): Element {
    h ^ (h << 1) ^ (h << 3) ^ (h << 4)
  }

  lemma DoubledThrice(a: Element)
    ensures Double(a) == (a << 1) ^ Folded(a >> 7)
    ensures Double(Double(Double(a))) == (a << 3) ^ Folded(a >> 5)
    ensures Double(Double(Double(Double(a)))) == (a << 4) ^ Folded(a >> 4)
  {
  }

  /** x^8 reduces to x^4 + x^3 + x + 1. */
  lemma Reduction(a: Element, a4: Element)
    requires a4 == Double(Double(Double(Double(a))))
    ensures Double(Double(Double(Double(a4)))) == a ^ Double(a) ^ Double(Double(Double(a))) ^ a4
  {
    DoubledThrice(a);
    DoubledThrice(a4);
    hide Double;
  }

  lemma {:induction false} HighZeroBitsAddNothing(a: Element, b: Element, n: nat)
    requires FitsIn(b, n)
    ensures ShiftAndAdd(a, b, n + 1) == ShiftAndAdd(a, b, n)
    decreases n
  {
    if n == 0 {
      AddPairs(0, 0, 0, 0);
      assert ShiftAndAdd(Double(a), Half(b), 0) == 0;
    } else {
      hide Double, LowTerm, Half, Add;
      HighZeroBitsAddNothing(Double(a), Half(b), n - 1);
    }
  }

  lemma TopBit(b: Element)
    ensures b == Add(b & 0x7f, b & 0x80) && Half(b << 1) == b & 0x7f && (b << 1) & 1 == 0
    ensures b & 0x80 == 0 || b & 0x80 == 0x80
    ensures Double(b) == Add(b << 1, if b & 0x80 == 0 then 0 else 0x1b)
  {
  }

  lemma LowSevenBitsFit(b: Element)
    ensures FitsIn(b & 0x7f, 7)
  {
    assert Half(Half(Half(Half(Half(Half(Half(b & 0x7f))))))) == 0;
  }

  lemma OddStep(a: Element, b: Element, n: nat)
    requires b & 1 == 1 && n > 0
    ensures ShiftAndAdd(a, b, n) == Add(a, ShiftAndAdd(Double(a), b >> 1, n - 1))
  {
    hide Double;
  }

  lemma EvenStep(a: Element, b: Element, n: nat)
    requires b & 1 == 0 && n > 0
    ensures ShiftAndAdd(a, b, n) == ShiftAndAdd(Double(a), b >> 1, n - 1)
  {
    hide Double;
    AddPairs(ShiftAndAdd(Double(a), b >> 1, n - 1), 0, 0, 0);
  }

  lemma {:induction false} ProductWithZero(a: Element, n: nat)
    ensures ShiftAndAdd(a, 0, n) == 0
    decreases n
  {
    if n > 0 {
      EvenStep(a, 0, n);
      hide Double;
      ProductWithZero(Double(a), n - 1);
    }
  }

  lemma ProductWithOne(a: Element)
    ensures Product(a, 1) == a
  {
    OddStep(a, 1, 8);
    ProductWithZero(Double(a), 7);
    hide Double, ShiftAndAdd;
  }

  lemma ProductWithReducer(a: Element)
    ensures Product(a, 0x1b) == a ^ Double(a) ^ Double(Double(Double(a))) ^ Double(Double(Double(Double(a))))
  {
    var a1 := Double(a);
    var a2 := Double(a1);
    var a3 := Double(a2);
    var a4 := Double(a3);
    hide Double, ShiftAndAdd;
    OddStep(a, 0x1b, 8);
    OddStep(a1, 0x0d, 7);
    EvenStep(a2, 0x06, 6);
    OddStep(a3, 0x03, 5);
    OddStep(a4, 0x01, 4);
    ProductWithZero(Double(a4), 3);
  }

  lemma ProductWithTopBit(a: Element)
    ensures Product(a, 0x80) == Double(Double(Double(Double(Double(Double(Double(a)))))))
  {
    var a1 := Double(a);
    var a2 := Double(a1);
    var a3 := Double(a2);
    var a4 := Double(a3);
    var a5 := Double(a4);
    var a6 := Double(a5);
    var a7 := Double(a6);
    hide Double, ShiftAndAdd;
    EvenStep(a, 0x80, 8);
    EvenStep(a1, 0x40, 7);
    EvenStep(a2, 0x20, 6);
    EvenStep(a3, 0x10, 5);
    EvenStep(a4, 0x08, 4);
    EvenStep(a5, 0x04, 3);
    EvenStep(a6, 0x02, 2);
    OddStep(a7, 0x01, 1);
    ProductWithZero(Double(a7), 0);
  }

  lemma ProductWithHighBit(a: Element)
    ensures Product(Double(a), 0x80) == Product(a, 0x1b)
  {
    hide *;
    Reduction(a, Double(Double(Double(Double(a)))));
    ProductWithReducer(a);
    ProductWithTopBit(Double(a));
  }

  lemma ProductWithShifted(a: Element, b: Element)
    ensures Product(a, b << 1) == Product(Double(a), b & 0x7f)
  {
    TopBit(b);
    LowSevenBitsFit(b);
    HighZeroBitsAddNothing(Double(a), b & 0x7f, 7);
    AddPairs(ShiftAndAdd(Double(a), b & 0x7f, 7), 0, 0, 0);
    assert LowTerm(a, b << 1) == 0;
    hide Double, LowTerm, Half, Add;
    assert ShiftAndAdd(a, b << 1, 8) == Add(LowTerm(a, b << 1), ShiftAndAdd(Double(a), Half(b << 1), 7));
  }

  /** Shifting b up carries its highest bit out, as what x^8 reduces to. */
  lemma ProductWithOverflow(a: Element, b: Element)
    ensures Product(a, Overflow(b)) == Product(Double(a), b & 0x80)
  {
    TopBit(b);
    ProductWithHighBit(a);
    ProductWithZero(a, 8);
    ProductWithZero(Double(a), 8);
    hide Double, ShiftAndAdd;
  }

  lemma ProductDistributes(a: Element, b: Element, c: Element)
    ensures Product(a, Add(b, c)) == Add(Product(a, b), Product(a, c))
  {
    ShiftAndAddDistributes(a, b, c, 8);
    hide Add, ShiftAndAdd;
  }

  lemma DoubledProduct(a: Element, b: Element)
    ensures Product(Double(a), b) == Double(Product(a, b))
  {
    DoubleOfShiftAndAdd(a, b, 8);
    hide Double, ShiftAndAdd;
  }

  lemma ProductOfParts(a: Element, b: Element, low: Element, high: Element, shifted: Element, carry: Element)
    requires b == Add(low, high) && Double(b) == Add(shifted, carry)
    requires Product(a, shifted) == Product(Double(a), low) && Product(a, carry) == Product(Double(a), high)
    ensures Product(a, Double(b)) == Double(Product(a, b))
  {
    hide *;
    ProductDistributes(Double(a), low, high);
    ProductDistributes(a, shifted, carry);
    DoubledProduct(a, b);
  }

  lemma DoubleIsShift(b: Element)
    ensures Double(b) == Add(b << 1, Overflow(b)) && b == Add(b & 0x7f, b & 0x80)
  {
  }

  /** Doubling either factor doubles the product. */
  lemma ProductWithDouble(a: Element, b: Element)
    ensures Product(a, Double(b)) == Double(Product(a, b))
  {
    hide *;
    DoubleIsShift(b);
    ProductWithShifted(a, b);
    ProductWithOverflow(a, b);
    ProductOfParts(a, b, b & 0x7f, b & 0x80, b << 1, Overflow(b));
  }

  lemma ProductWithTriple(a: Element, b: Element)
    ensures Product(a, Triple(b)) == Triple(Product(a, b))
  {
    ProductWithDouble(a, b);
    ShiftAndAddDistributes(a, b, Double(b), 8);
    hide Double, ShiftAndAdd;
  }

  lemma ProductWithLowTerm(a: Element, b: Element, c: Element)
    ensures Product(a, LowTerm(b, c)) == LowTerm(Product(a, b), c)
  {
    hide ShiftAndAdd;
    ProductWithZero(a, 8);
  }

  lemma {:induction false} ProductOfShiftAndAdd(a: Element, b: Element, c: Element, n: nat)
    ensures Product(a, ShiftAndAdd(b, c, n)) == ShiftAndAdd(Product(a, b), c, n)
    decreases n
  {
    hide Double, LowTerm, Half, Add;
    if n == 0 {
      ProductWithZero(a, 8);
    } else {
      var rest := ShiftAndAdd(Double(b), Half(c), n - 1);
      ProductOfShiftAndAdd(a, Double(b), Half(c), n - 1);
      ProductWithDouble(a, b);
      ShiftAndAddDistributes(a, LowTerm(b, c), rest, 8);
      ProductWithLowTerm(a, b, c);
    }
  }

  lemma ProductAssociates(a: Element, b: Element, c: Element)
    ensures Product(Product(a, b), c) == Product(a, Product(b, c))
  {
    hide Double, ShiftAndAdd;
    ProductOfShiftAndAdd(a, b, c, 8);
  }

  // ---------- Table multiplication is polynomial multiplication ----------

  /** The sum of two exponents, reduced modulo the order of the generator. */
  function CyclicSum(x: Exponent, y: Exponent): Exponent {
    if x + y < 255 then x + y else x + y - 255
  }

  lemma ReduceSum(x: Exponent, y: Exponent)
    requires x < 255 && y < 255
    ensures Reduce(Sum(x, y)) == CyclicSum(x, y)
  {
  }

  lemma CyclicSumZero(x: Exponent)
    requires x < 255
    ensures CyclicSum(x, 0) == x
  {
  }

  lemma CyclicSumSteps(x: Exponent, y: Exponent)
    requires x < 255 && 0 < y < 255
    ensures CyclicSum(x, y - 1) < 255
    ensures CyclicSum(x, y) == if CyclicSum(x, y - 1) == 254 then 0 else CyclicSum(x, y - 1) + 1
  {
  }

  lemma LogOfPredecessor(b: Element, c: Element)
    requires b != 0 && Log(b) != 0 && c == Exp(Log(b) - 1)
    ensures c != 0 && Log(c) == Log(b) - 1 && Triple(c) == b
  {
    ExpOfLog(b);
    ReduceSmall(Log(b) - 1);
    LogOfExp(Log(b) - 1);
    LogOfTriple(c);
    hide Log, Exp, Triple;
    LogInjective(Triple(c), b);
  }

  lemma ReduceSmall(x: Exponent)
    requires x < 255
    ensures Reduce(x) == x
  {
  }

  lemma LogOfOne(b: Element)
    requires b != 0 && Log(b) == 0
    ensures b == 1
  {
    ExpOfLog(b);
    LogOfTripleEntry(1);
  }

  lemma LogOfProductStep(a: Element, b: Element, c: Element, x: Exponent, y: Exponent)
    requires x < 255 && 0 < y < 255 && Triple(c) == b
    requires Product(a, c) != 0 && Log(Product(a, c)) == CyclicSum(x, y - 1)
    ensures Product(a, b) != 0 && Log(Product(a, b)) == CyclicSum(x, y)
  {
    hide *;
    ProductWithTriple(a, c);
    LogOfTriple(Product(a, c));
    CyclicSumSteps(x, y);
  }

  lemma {:induction false} LogOfProduct(a: Element, b: Element)
    requires a != 0 && b != 0
    ensures Product(a, b) != 0 && Log(Product(a, b)) == CyclicSum(Log(a), Log(b))
    decreases Log(b)
  {
    hide Log, Exp, Product, CyclicSum, Triple;
    ExpOfLog(a);
    ExpOfLog(b);
    if Log(b) == 0 {
      LogOfOne(b);
      ProductWithOne(a);
      CyclicSumZero(Log(a));
    } else {
      var c := Exp(Log(b) - 1);
      LogOfPredecessor(b, c);
      LogOfProduct(a, c);
      LogOfProductStep(a, b, c, Log(a), Log(b));
    }
  }

  lemma MulUnfolds(a: Element, b: Element)
    requires a != 0 && b != 0
    ensures Mul(a, b) == Exp(Sum(Log(a), Log(b)))
  {
    hide Log, Exp;
  }

  lemma ReducedLogSum(a: Element, b: Element)
    requires a != 0 && b != 0
    ensures Reduce(Sum(Log(a), Log(b))) == CyclicSum(Log(a), Log(b))
  {
    hide *;
    ExpOfLog(a);
    ExpOfLog(b);
    ReduceSum(Log(a), Log(b));
  }

  lemma LogOfMul(a: Element, b: Element)
    requires a != 0 && b != 0
    ensures Mul(a, b) != 0 && Log(Mul(a, b)) == CyclicSum(Log(a), Log(b))
  {
    hide *;
    ReducedLogSum(a, b);
    MulUnfolds(a, b);
    LogOfExp(Sum(Log(a), Log(b)));
  }

  /** The table-driven multiplication is multiplication in the field of section 4.2 of FIPS 197. */
  lemma MulIsProduct(a: Element, b: Element)
    ensures Mul(a, b) == Product(a, b)
  {
    if a == 0 {
      ZeroTimes(b, 8);
      hide ShiftAndAdd;
    } else if b == 0 {
      ProductWithZero(a, 8);
      hide ShiftAndAdd;
    } else {
      hide *;
      LogOfMul(a, b);
      LogOfProduct(a, b);
      LogInjective(Mul(a, b), Product(a, b));
    }
  }

  lemma {:induction false} ZeroTimes(b: Element, n: nat)
    ensures ShiftAndAdd(0, b, n) == 0
    decreases n
  {
    if n > 0 {
      ZeroTimes(Half(b), n - 1);
    }
  }

  // ---------- The field laws ----------

  lemma MulCommutes(a: Element, b: Element)
    ensures Mul(a, b) == Mul(b, a)
  {
    hide Log, Exp;
  }

  lemma MulAssociates(a: Element, b: Element, c: Element)
    ensures Mul(Mul(a, b), c) == Mul(a, Mul(b, c))
  {
    hide Mul, Product;
    MulIsProduct(a, b);
    MulIsProduct(b, c);
    MulIsProduct(Mul(a, b), c);
    MulIsProduct(a, Mul(b, c));
    ProductAssociates(a, b, c);
  }

  lemma MulDistributes(a: Element, b: Element, c: Element)
    ensures Mul(a, Add(b, c)) == Add(Mul(a, b), Mul(a, c))
  {
    hide Mul, Add, ShiftAndAdd;
    MulIsProduct(a, b);
    MulIsProduct(a, c);
    MulIsProduct(a, Add(b, c));
    ShiftAndAddDistributes(a, b, c, 8);
  }

  lemma MulUnits(a: Element)
    ensures Mul(a, 1) == a && Mul(1, a) == a && Mul(a, 0) == 0 && Mul(0, a) == 0
  {
    MulIsProduct(a, 1);
    ProductWithOne(a);
    MulCommutes(a, 1);
    hide Product, Log, Exp;
  }

  lemma MulNonzero(a: Element, b: Element)
    requires a != 0 && b != 0
    ensures Mul(a, b) != 0
  {
    MulIsProduct(a, b);
    LogOfProduct(a, b);
    hide Mul, Product, Log, Exp;
  }

  lemma ComplementaryExponents(x: Exponent)
    requires x < 255
    ensures CyclicSum(x, Reduce(Complement(x))) == 0
  {
  }

  /** The element the source multiplies by in order to divide by b is the inverse of b. */
  lemma InverseOf(b: Element)
    requires b != 0
    ensures Mul(b, Exp(Complement(Log(b)))) == 1
  {
    hide *;
    var inverse := Exp(Complement(Log(b)));
    ExpOfLog(b);
    LogOfExp(Complement(Log(b)));
    ComplementaryExponents(Log(b));
    LogOfMul(b, inverse);
    LogOfOne(Mul(b, inverse));
  }

  /** Division undoes multiplication. */
  lemma DivMul(a: Element, b: Element)
    requires b != 0
    ensures Mul(Div(a, b), b) == a
    ensures Div(Mul(a, b), b) == a
  {
    var inverse := Exp(Complement(Log(b)));
    InverseOf(b);
    hide Mul, Exp, Log;
    MulCommutes(b, inverse);
    MulAssociates(a, inverse, b);
    MulAssociates(a, b, inverse);
    MulUnits(a);
  }

  lemma AddLaws(a: Element, b: Element, c: Element)
    ensures Add(a, b) == Add(b, a) && Add(Add(a, b), c) == Add(a, Add(b, c))
    ensures Add(a, 0) == a && Add(0, a) == a && Add(a, a) == 0
    ensures Add(a, b) == 0 <==> a == b
  {
  }

  lemma MulDistributesLeft(a: Element, b: Element, c: Element)
    ensures Mul(Add(a, b), c) == Add(Mul(a, c), Mul(b, c))
  {
    hide Mul, Add;
    MulCommutes(Add(a, b), c);
    MulCommutes(a, c);
    MulCommutes(b, c);
    MulDistributes(c, a, b);
  }

  lemma MulPairs(a: Element, b: Element, c: Element, d: Element)
    ensures Mul(Mul(a, b), Mul(c, d)) == Mul(Mul(a, c), Mul(b, d))
  {
    hide Mul;
    MulAssociates(a, b, Mul(c, d));
    MulAssociates(b, c, d);
    MulCommutes(b, c);
    MulAssociates(c, b, d);
    MulAssociates(a, c, Mul(b, d));
  }

  lemma MulSwapsLast(a: Element, b: Element, c: Element)
    ensures Mul(Mul(a, b), c) == Mul(Mul(a, c), b)
  {
    hide Mul;
    MulAssociates(a, b, c);
    MulCommutes(b, c);
    MulAssociates(a, c, b);
  }

  /** Dividing by a product divides by its factors, and a common factor cancels. */
  lemma CancelDenominator(x: Element, q: Element, p: Element, basis: Element, y: Element)
    requires x != 0 && p != 0 && Mul(basis, p) == q && Mul(x, p) != 0
    ensures Mul(Mul(x, q), Div(y, Mul(x, p))) == Mul(y, basis)
  {
    hide Mul, Div;
    var t := Div(y, Mul(x, p));
    DivMul(y, Mul(x, p));
    MulCommutes(basis, p);
    MulAssociates(x, p, basis);
    MulCommutes(Mul(Mul(x, p), basis), t);
    MulAssociates(t, Mul(x, p), basis);
  }
}
