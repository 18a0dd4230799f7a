/**
 A-priori bounds of finite unscaled dot products: the common grid, the width of
 a signed grid accumulator, and the significand that covers it.
 */
module AccumulatorBounds {
  import opened ExactArithmetic
  import opened FloatAccumulator
  import opened MacError
  import opened Quantum
  import opened Operands
  import opened SaturatingRegister
  import opened Results

  datatype Bounds = Bounds(productQuantum: Fraction, magnitude: real, integerBound: int, dyadic: bool, width: nat,
                           exponent: int, precision: nat)

  /** bounds: everything the report derives from the finite codes and the reduction length. */
  function BoundsOf(domain: seq<Coded>, k: int): Result<Bounds>
    requires |domain| > 0
  {
    if k < 1 then Failure("reduction length must be a positive integer")
    else
      var quantum := QuantumOf(Fractions(domain));
      var square := Product(quantum, quantum);
      var magnitude := Site(k, Times(MaximumMagnitude(domain), MaximumMagnitude(domain)));
      if square.numerator <= 0 then Failure("the finite codes have no positive quantum")
      else
        PositiveValue(square);
        var integerBound := Ceil(magnitude / square.Value());
        var lowest := Reduce(square);
        ReducePositive(square);
        var exponent := LowExponent(lowest.numerator) as int - LowExponent(lowest.denominator) as int;
        Success(Bounds(square, magnitude, integerBound, IsPowerOfTwo(lowest.denominator),
                       BitLength(AbsInt(integerBound)) + 1, exponent,
                       BitLength(AbsInt((magnitude / Pow2(exponent)).Floor))))
  }

  lemma PositiveValue(q: Fraction)
    requires q.numerator > 0
    ensures q.Value() > 0.0
  {
  }

  /** covers: a float format whose significand and exponents hold the whole grid. */
  predicate Covers(b: Bounds, precisionBits: int, minimum: int, maximumExponent: int) {
    b.precision <= precisionBits && b.exponent >= minimum
    && b.magnitude <= (2.0 - Pow2(1 - precisionBits)) * Pow2(maximumExponent)
  }

  /** A format covers the grid exactly when it has the step, and the magnitude fits its range and its significand. */
  lemma CoversExactly(domain: seq<Coded>, k: int, b: Bounds, f: FloatFormat)
    requires |domain| > 0 && BoundsOf(domain, k) == Success(b)
    ensures Covers(b, f.mantissa + 1, f.MinExponent() - f.mantissa, f.MaxExponent()) <==>
      && b.exponent >= f.MinExponent() - f.mantissa && b.magnitude <= f.MaxFinite()
      && b.magnitude < Site(IntPow2(f.mantissa + 1), Pow2(b.exponent))
  {
    PrecisionSmallest(domain, k, b, f.mantissa + 1);
    LargestCovered(f);
    hide BoundsOf, Pow2, IntPow2, FloatFormat.MaxFinite, FloatFormat.MinExponent, FloatFormat.MaxExponent, Site;
  }

  /** There are no bounds exactly without terms or without a positive quantum, when all codes are zero. */
  lemma BoundsFail(domain: seq<Coded>, k: int)
    requires |domain| > 0
    ensures BoundsOf(domain, k).Failure? <==>
      k <= 0 || QuantumOf(Fractions(domain)).Value() == 0.0
  {
    var quantum := QuantumOf(Fractions(domain));
    hide QuantumOf, MaximumMagnitude, Reduce, Product, LowExponent, IsPowerOfTwo, Pow2, BitLength, Fraction.Value;
    ProductValue(quantum, quantum);
    SquareSign(quantum.Value(), Product(quantum, quantum).Value());
    PositiveNumerator(Product(quantum, quantum));
  }

  lemma SquareSign(v: real, square: real)
    requires square == v * v
    ensures square > 0.0 <==> v != 0.0
  {
    if v < 0.0 {
      Scale(v, 0.0, 0.0 - v, 0.0 - square, 0.0);
    } else if v > 0.0 {
      Scale(0.0, v, v, 0.0, square);
    } else {
      assert square == 0.0;
    }
  }

  lemma PositiveNumerator(q: Fraction)
    ensures q.numerator > 0 <==> q.Value() > 0.0
  {
  }

  lemma TermBound(domain: seq<Coded>, x: real, w: real)
    requires |domain| > 0 && IsOperand(domain, x) && IsOperand(domain, w)
    ensures Abs(Times(x, w)) <= Times(MaximumMagnitude(domain), MaximumMagnitude(domain))
  {
    hide QuantumOf, Fraction.Value, MaximumMagnitude, OnLattice, IsOperand;
    OperandBound(domain, x);
    OperandBound(domain, w);
    AbsProduct(x, w);
    BoundedProduct(Abs(x), Abs(w), MaximumMagnitude(domain));
  }

  lemma BoundedProduct(a: real, b: real, m: real)
    requires 0.0 <= a <= m && 0.0 <= b <= m
    ensures a * b <= m * m
  {
    assert (m - a) * b >= 0.0;
    assert m * (m - b) >= 0.0;
  }

  /** Products of finite codes are grid sites, and any prefix of k of them stays within the magnitude. */
  lemma PrefixOnGrid(domain: seq<Coded>, k: int, b: Bounds, xs: seq<real>, ws: seq<real>, n: nat)
    requires |domain| > 0 && BoundsOf(domain, k) == Success(b)
    requires |xs| == |ws| == k && AreOperands(domain, xs) && AreOperands(domain, ws) && n <= k
    ensures forall i :: 0 <= i < n ==> OnLattice(Products(xs, ws)[..n][i], b.productQuantum.Value())
    ensures AbsSum(Products(xs, ws)[..n]) <= b.magnitude
  {
    hide QuantumOf, MaximumMagnitude, OnLattice, Fraction.Value, Reduce, Product, Times, Site, IsPowerOfTwo;
    var quantum := QuantumOf(Fractions(domain));
    ProductValue(quantum, quantum);
    var ps, square := Products(xs, ws), Times(MaximumMagnitude(domain), MaximumMagnitude(domain));
    forall i | 0 <= i < k
      ensures OnLattice(ps[i], b.productQuantum.Value()) && Abs(ps[i]) <= square
    {
      OperandBound(domain, xs[i]);
      OperandBound(domain, ws[i]);
      LatticeTimes(xs[i], ws[i], quantum.Value(), quantum.Value(), b.productQuantum.Value());
      TermBound(domain, xs[i], ws[i]);
    }
    AbsSumBelow(ps[..n], square);
    SquareNonnegative(domain);
    SitesGrow(n, k, square);
  }

  lemma SquareNonnegative(domain: seq<Coded>)
    requires |domain| > 0
    ensures Times(MaximumMagnitude(domain), MaximumMagnitude(domain)) >= 0.0
  {
  }

  lemma SitesGrow(n: nat, k: nat, x: real)
    requires n <= k && x >= 0.0
    ensures Site(n, x) <= Site(k, x)
  {
    assert (k as real - n as real) * x >= 0.0;
  }

  /** Every prefix of every length-k reduction is a grid integer that fits the reported width. */
  lemma WidthHolds(domain: seq<Coded>, k: int, b: Bounds, xs: seq<real>, ws: seq<real>, n: nat) returns (i: int)
    requires |domain| > 0 && BoundsOf(domain, k) == Success(b)
    requires |xs| == |ws| == k && AreOperands(domain, xs) && AreOperands(domain, ws) && n <= k
    ensures Sum(Products(xs, ws)[..n]) == Site(i, b.productQuantum.Value())
    ensures -b.integerBound <= i <= b.integerBound && Fits(b.width, i)
  {
    PrefixOnGrid(domain, k, b, xs, ws, n);
    hide QuantumOf, MaximumMagnitude, Fraction.Value, Reduce, Product, Products, Sum, AbsSum, LowExponent, IsPowerOfTwo,
         Pow2, IntPow2, BitLength;
    var ps, q := Products(xs, ws)[..n], b.productQuantum.Value();
    PositiveValue(b.productQuantum);
    SumOnLattice(ps, q);
    SumBelowAbsSum(ps);
    i :| Sum(ps) == Site(i, q);
    BoundedIndex(i, q, b.magnitude, b.integerBound);
    BelowBitLength(AbsInt(b.integerBound));
  }

  /** A register of that width holds every sum of k products of finite codes. */
  ghost predicate HoldsSums(domain: seq<Coded>, k: nat, q: real, w: Width) {
    forall xs, ws, i :: |xs| == |ws| == k && AreOperands(domain, xs) && AreOperands(domain, ws) && IsSum(xs, ws, q, i)
      ==> Fits(w, i)
  }

  ghost predicate IsSum(xs: seq<real>, ws: seq<real>, q: real, i: int)
    requires |xs| == |ws|
  {
    Sum(Products(xs, ws)) == Site(i, q)
  }

  /** The reported width is the smallest that holds every sum: k times the largest square is one of them. */
  lemma WidthSmallest(domain: seq<Coded>, k: int, b: Bounds, w: Width)
    requires |domain| > 0 && BoundsOf(domain, k) == Success(b)
    ensures HoldsSums(domain, k, b.productQuantum.Value(), w) <==> w >= b.width
  {
    PositiveValue(b.productQuantum);
    var q := b.productQuantum.Value();
    if w >= b.width {
      forall xs, ws, i |
        |xs| == |ws| == k && AreOperands(domain, xs) && AreOperands(domain, ws) && IsSum(xs, ws, q, i)
        ensures Fits(w, i)
      {
        var j := WidthHolds(domain, k, b, xs, ws, k);
        hide BoundsOf, Fits, Products, Sum, AreOperands;
        assert Products(xs, ws)[..k] == Products(xs, ws);
        SameSite(i, j, q);
        WiderFits(b.width, w, i);
      }
    } else {
      var x, i := LargestSum(domain, k, b);
      hide BoundsOf, Products, Sum, IsOperand, BitLength, IntPow2, Fraction.Value;
      var xs := seq(k, _ => x);
      assert IsSum(xs, xs, q, i);
      BitLengthFits(AbsInt(b.integerBound), w - 1);
      IntPow2Monotone(w - 1, w);
      assert !Fits(w, i);
    }
  }

  lemma SameSite(i: int, j: int, q: real)
    requires q > 0.0 && Site(i, q) == Site(j, q)
    ensures i == j
  {
    SiteSum(i, j, q);
    assert (i - j) as real * q == 0.0;
  }

  lemma {:induction false} SumOfSame(x: real, k: nat)
    ensures Sum(seq(k, _ => x)) == Site(k, x)
  {
    if k > 0 {
      SumOfSame(x, k - 1);
      assert seq(k, _ => x)[..k - 1] == seq(k - 1, _ => x);
      SiteSum(k - 1, 1, x);
    }
  }

  /** k times the square of the largest code. */
  lemma LargestSum(domain: seq<Coded>, k: int, b: Bounds) returns (x: real, i: int)
    requires |domain| > 0 && BoundsOf(domain, k) == Success(b)
    ensures k >= 1 && IsOperand(domain, x) && IsSum(seq(k, _ => x), seq(k, _ => x), b.productQuantum.Value(), i)
    ensures i == b.integerBound >= 0
  {
    var j := LargestAttained(Fractions(domain));
    x := domain[j].value.Value();
    PositiveValue(b.productQuantum);
    hide QuantumOf, Fraction.Value, Reduce, Product, LargestMagnitude, LowExponent, IsPowerOfTwo, Pow2, IntPow2,
         BitLength, Sum, Times, Products, Site;
    var xs, q := seq(k, _ => x), b.productQuantum.Value();
    assert IsOperand(domain, x) && AreOperands(domain, xs);
    i := WidthHolds(domain, k, b, xs, xs, k);
    SquareOfMagnitude(x, MaximumMagnitude(domain));
    assert Products(xs, xs)[..k] == seq(k, _ => Times(x, x));
    assert Products(xs, xs)[..k] == Products(xs, xs);
    SumOfSame(Times(x, x), k);
    assert Site(i, q) == b.magnitude;
    SiteCeiling(i, q, b.magnitude, b.integerBound);
    SquareNonnegative(domain);
    SitesGrow(0, k, Times(x, x));
    NoSites(Times(x, x));
    NonnegativeQuotient(b.magnitude, q);
  }

  lemma SquareOfMagnitude(x: real, m: real)
    requires Abs(x) == m
    ensures Times(x, x) == Times(m, m)
  {
  }

  lemma SiteCeiling(i: int, q: real, magnitude: real, limit: int)
    requires q > 0.0 && Site(i, q) == magnitude && limit == Ceil(magnitude / q)
    ensures i == limit
  {
    var l := magnitude / q;
    assert l * q == i as real * q;
    assert (l - i as real) * q == 0.0;
  }

  /** The precision is the least number of bits p with the magnitude below 2^p steps. */
  lemma PrecisionSmallest(domain: seq<Coded>, k: int, b: Bounds, p: nat)
    requires |domain| > 0 && BoundsOf(domain, k) == Success(b)
    ensures b.precision <= p <==> b.magnitude < Site(IntPow2(p), Pow2(b.exponent))
  {
    BoundsMeaning(domain, k, b);
    hide BoundsOf, IntPow2, Pow2, BitLength;
    var units, step := b.magnitude / Pow2(b.exponent), Pow2(b.exponent);
    BitLengthFits(AbsInt(units.Floor), p);
    BelowSteps(units, step, b.magnitude, IntPow2(p));
  }

  lemma BelowSteps(units: real, step: real, magnitude: real, n: nat)
    requires step > 0.0 && units == magnitude / step && units >= 0.0
    ensures AbsInt(units.Floor) < n <==> magnitude < Site(n, step)
  {
    assert units * step == magnitude;
    Scale(units, n as real, step, magnitude, Site(n, step));
    Scale(n as real, units, step, Site(n, step), magnitude);
  }

  lemma BoundedIndex(i: int, q: real, magnitude: real, limit: int)
    requires q > 0.0 && Abs(Site(i, q)) <= magnitude && limit == Ceil(magnitude / q)
    ensures -limit <= i <= limit
  {
    var l := magnitude / q;
    assert l * q == magnitude;
    Scale(i as real, l, q, Site(i, q), magnitude);
    Scale(-l, i as real, q, -magnitude, Site(i, q));
  }

  /** (2 - 2^(1-p)) * 2^E is the largest finite value of a p-bit significand. */
  lemma LargestCovered(f: FloatFormat)
    ensures (2.0 - Pow2(1 - (f.mantissa + 1))) * Pow2(f.MaxExponent()) == f.MaxFinite()
  {
    hide Pow2, IntPow2, FloatFormat.MaxExponent;
    var m: int, e := f.mantissa, f.MaxExponent();
    IntPow2Real(f.mantissa + 1);
    Pow2Add(m + 1, e - m);
    Pow2Step(e);
    Pow2Add(0 - m, e);
    assert (m + 1) + (e - m) == e + 1 && 0 - m + e == e - m && 1 - (m + 1) == 0 - m;
    TwoForms(Pow2(m + 1), Pow2(e - m), Pow2(0 - m), Pow2(e), Pow2(e + 1));
  }

  lemma TwoForms(a: real, s: real, t: real, e: real, d: real)
    requires d == a * s && d == 2.0 * e && s == t * e
    ensures (2.0 - t) * e == (a - 1.0) * s
  {
  }

  /** When the grid is covered, the sequential reduction in that format never rounds. */
  lemma CoveredReductionIsExact(domain: seq<Coded>, k: int, b: Bounds, f: FloatFormat, xs: seq<real>, ws: seq<real>,
                                n: nat)
    requires |domain| > 0 && BoundsOf(domain, k) == Success(b) && b.dyadic && f.Valid()
    requires Covers(b, f.mantissa + 1, f.MinExponent() - f.mantissa, f.MaxExponent())
    requires |xs| == |ws| == k && AreOperands(domain, xs) && AreOperands(domain, ws) && n <= k
    ensures Reduced(f, Products(xs, ws)[..n]) == Finite(Sum(Products(xs, ws)[..n]))
  {
    PrefixOnGrid(domain, k, b, xs, ws, n);
    CoveredGrid(domain, k, b, f);
    hide ExactGrid, Covers, BoundsOf, OnLattice, FloatFormat.Valid;
    ReductionExact(f, b.productQuantum, b.magnitude, Products(xs, ws)[..n]);
  }

  lemma CoveredGrid(domain: seq<Coded>, k: int, b: Bounds, f: FloatFormat)
    requires |domain| > 0 && BoundsOf(domain, k) == Success(b) && b.dyadic
    requires Covers(b, f.mantissa + 1, f.MinExponent() - f.mantissa, f.MaxExponent())
    ensures ExactGrid(f, b.productQuantum, b.magnitude) == Success(true)
  {
    BoundsMeaning(domain, k, b);
    CoversMeaning(b, f);
    hide BoundsOf, Covers, ExactGrid, Reduce, LowExponent, IsPowerOfTwo, Pow2, IntPow2, BitLength,
         FloatFormat.MaxFinite, FloatFormat.MinExponent, FloatFormat.MaxExponent, Fraction.Value;
    var lowest := Reduce(b.productQuantum);
    var odd, e := DyadicStep(lowest);
    UnitsCovered(b.magnitude / Pow2(e), b.precision, f.mantissa + 1);
    GridFromParts(f, b.productQuantum, b.magnitude, Pow2(e));
  }

  lemma CoversMeaning(b: Bounds, f: FloatFormat)
    requires Covers(b, f.mantissa + 1, f.MinExponent() - f.mantissa, f.MaxExponent())
    ensures b.precision <= f.mantissa + 1 && b.magnitude <= f.MaxFinite()
    ensures Pow2(b.exponent) >= Pow2(f.MinExponent() - f.mantissa)
  {
    hide Pow2, IntPow2, FloatFormat.MaxFinite, FloatFormat.MinExponent, FloatFormat.MaxExponent;
    LargestCovered(f);
    Pow2Monotone(f.MinExponent() - f.mantissa, b.exponent);
  }

  /** The checks of the exact grid, one by one. */
  lemma GridFromParts(f: FloatFormat, q: Fraction, maximum: real, step: real)
    requires q.numerator > 0 && maximum >= 0.0 && Reduce(q).numerator > 0 && IsPowerOfTwo(Reduce(q).denominator)
    requires step == Fraction(IntPow2(LowExponent(Reduce(q).numerator)), Reduce(q).denominator).Value() && step > 0.0
    requires step >= Pow2(f.MinExponent() - f.mantissa) && maximum <= f.MaxFinite()
    requires maximum / step <= IntPow2(f.mantissa + 1) as real
    ensures ExactGrid(f, q, maximum) == Success(true)
  {
    hide Reduce, LowExponent, IsPowerOfTwo, Pow2, IntPow2, FloatFormat.MaxFinite, FloatFormat.MinExponent,
         Fraction.Value;
  }

  /** What the reported exponent and precision of a dyadic quantum are. */
  lemma BoundsMeaning(domain: seq<Coded>, k: int, b: Bounds)
    requires |domain| > 0 && BoundsOf(domain, k) == Success(b)
    ensures b.productQuantum.numerator > 0 && b.magnitude >= 0.0 && Reduce(b.productQuantum).numerator > 0
    ensures b.exponent == LowExponent(Reduce(b.productQuantum).numerator) as int
                          - LowExponent(Reduce(b.productQuantum).denominator) as int
    ensures b.dyadic == IsPowerOfTwo(Reduce(b.productQuantum).denominator)
    ensures b.magnitude / Pow2(b.exponent) >= 0.0
    ensures b.precision == BitLength(AbsInt((b.magnitude / Pow2(b.exponent)).Floor))
  {
    hide QuantumOf, MaximumMagnitude, Fraction.Value, Reduce, Product, LowExponent, IsPowerOfTwo, Pow2, IntPow2,
         BitLength, Times, Site;
    var x := Times(MaximumMagnitude(domain), MaximumMagnitude(domain));
    SquareNonnegative(domain);
    SitesGrow(0, k, x);
    NoSites(x);
    ReducePositive(b.productQuantum);
    NonnegativeQuotient(b.magnitude, Pow2(b.exponent));
  }

  /** A number of units of that bit length is at most the full significand. */
  lemma UnitsCovered(units: real, precision: nat, bits: nat)
    requires units >= 0.0 && precision == BitLength(AbsInt(units.Floor)) && precision <= bits
    ensures units <= IntPow2(bits) as real
  {
    hide IntPow2, BitLength;
    BelowBitLength(AbsInt(units.Floor));
    IntPow2Monotone(precision, bits);
  }

  lemma NoSites(x: real)
    ensures Site(0, x) == 0.0
  {
  }

  lemma NonnegativeQuotient(a: real, b: real)
    requires a >= 0.0 && b > 0.0
    ensures a / b >= 0.0
  {
  }
}
