/**
 Exact fractions with a numerator and a denominator, the gcd step ("quantum")
 of a finite set of them, and the sufficient test that a bounded lattice is
 exactly representable in a float accumulator.
 */
module Quantum {
  import opened ExactArithmetic
  import opened IntArithmetic
  import opened FloatAccumulator
  import opened Results

  datatype Fraction = Fraction(numerator: int, denominator: Positive) {
    function Value(): real {
      numerator as real / denominator as real
    }
  }

  function AbsInt(n: int): nat { if n < 0 then -n else n }

  // ----- gcd and lcm -----

  function Gcd(a: nat, b: nat): (g: nat)
    ensures (a > 0 || b > 0) ==> g > 0
    decreases b
  {
    if b == 0 then a else Gcd(b, a % b)
  }

  function Multiple(k: int, d: int): int { k * d }

  ghost predicate Divides(d: int, n: int) { exists k: int :: n == Multiple(k, d) }

  lemma DividesCombination(d: int, a: int, b: int, q: int)
    requires Divides(d, a) && Divides(d, b)
    ensures Divides(d, a * q + b)
  {
    var i: int :| a == Multiple(i, d);
    var j: int :| b == Multiple(j, d);
    assert a * q + b == Multiple(i * q + j, d);
  }

  lemma {:induction false} GcdDivides(a: nat, b: nat)
    ensures Divides(Gcd(a, b), a) && Divides(Gcd(a, b), b)
    decreases b
  {
    if b == 0 {
      assert a == Multiple(1, a) && 0 == Multiple(0, a);
    } else {
      GcdDivides(b, a % b);
      DividesCombination(Gcd(b, a % b), b, a % b, a / b);
      assert a == b * (a / b) + a % b;
    }
  }

  /** Bezout: the gcd is an integer combination, so every common divisor divides it. */
  lemma {:induction false} Bezout(a: nat, b: nat) returns (x: int, y: int)
    ensures Gcd(a, b) == x * a + y * b
    decreases b
  {
    if b == 0 {
      x, y := 1, 0;
    } else {
      var u, v := Bezout(b, a % b);
      x, y := v, u - v * (a / b);
      var q, r := a / b, a % b;
      assert a == b * q + r;
      assert v * a == v * (b * q) + v * r;
      assert v * (b * q) == v * q * b;
    }
  }

  lemma QuotientOfMultiple(k: int, d: int)
    requires d > 0
    ensures Multiple(k, d) / d == k && Multiple(k, d) % d == 0
  {
    DivUnique(Multiple(k, d), d, k, 0);
  }

  function Lcm(a: Positive, b: Positive): Positive {
    LcmPositive(a, b);
    a / Gcd(a, b) * b
  }

  lemma LcmPositive(a: Positive, b: Positive)
    ensures a / Gcd(a, b) * b > 0
  {
    var g := Gcd(a, b);
    GcdDivides(a, b);
    var k: int :| a == Multiple(k, g);
    QuotientOfMultiple(k, g);
    MulOrder(0, k, g, 0, a);
    MulPositive(k, b);
  }

  lemma LcmMultiple(a: Positive, b: Positive)
    ensures Divides(a, Lcm(a, b)) && Divides(b, Lcm(a, b))
  {
    var g := Gcd(a, b);
    GcdDivides(a, b);
    var i: int :| a == Multiple(i, g);
    var j: int :| b == Multiple(j, g);
    QuotientOfMultiple(i, g);
    assert Lcm(a, b) == Multiple(i, b);
    assert i * b == i * (j * g) == j * (i * g);
    assert Lcm(a, b) == Multiple(j, a);
  }

  /** Every common multiple is a multiple of the least one. */
  lemma LcmLeast(a: Positive, b: Positive, c: int)
    requires Divides(a, c) && Divides(b, c)
    ensures Divides(Lcm(a, b), c)
  {
    hide Gcd, Lcm;
    var g, l := Gcd(a, b), Lcm(a, b);
    var x, y := Bezout(a, b);
    var i: int :| c == Multiple(i, a);
    var j: int :| c == Multiple(j, b);
    LcmTimesGcd(a, b);
    CommonMultiple(a, b, c, g, l, x, y, i, j);
    assert c == Multiple(x * j + y * i, l);
  }

  lemma LcmTimesGcd(a: Positive, b: Positive)
    ensures Lcm(a, b) * Gcd(a, b) == a * b && Gcd(a, b) > 0
  {
    var g := Gcd(a, b);
    GcdDivides(a, b);
    var i: int :| a == Multiple(i, g);
    QuotientOfMultiple(i, g);
    hide Gcd;
    assert (i * b) * g == (i * g) * b;
  }

  lemma CommonMultiple(a: int, b: int, c: int, g: int, l: int, x: int, y: int, i: int, j: int)
    requires g > 0 && g == x * a + y * b && l * g == a * b && c == i * a && c == j * b
    ensures c == (x * j + y * i) * l
  {
    var t := x * j + y * i;
    assert c * g == x * (a * c) + y * (b * c) by {
      assert c * (x * a + y * b) == x * (a * c) + y * (b * c);
    }
    assert a * c == j * (a * b) && b * c == i * (a * b);
    assert x * (j * (a * b)) + y * (i * (a * b)) == t * (a * b);
    assert t * (l * g) == (t * l) * g;
    SmallMultiple(c - t * l, g, (c - t * l) * g);
  }

  lemma DividesTransitive(a: int, b: int, c: int)
    requires Divides(a, b) && Divides(b, c)
    ensures Divides(a, c)
  {
    var i: int :| b == Multiple(i, a);
    var j: int :| c == Multiple(j, b);
    assert c == Multiple(j * i, a);
  }

  // ----- quantum -----

  /** lcm(*(v.denominator for v in values)) */
  function CommonDenominator(values: seq<Fraction>): Positive {
    if |values| == 0 then 1
    else
      Lcm(values[0].denominator, CommonDenominator(values[1..]))
  }

  lemma {:induction false} DenominatorDivides(values: seq<Fraction>, i: nat)
    requires i < |values|
    ensures Divides(values[i].denominator, CommonDenominator(values))
  {
    var rest := CommonDenominator(values[1..]);
    LcmMultiple(values[0].denominator, rest);
    if i > 0 {
      DenominatorDivides(values[1..], i - 1);
      DividesTransitive(values[i].denominator, rest, CommonDenominator(values));
    }
  }

  function GcdAll(numbers: seq<nat>): nat {
    if |numbers| == 0 then 0 else Gcd(numbers[0], GcdAll(numbers[1..]))
  }

  lemma {:induction false} GcdAllDivides(numbers: seq<nat>, i: nat)
    requires i < |numbers|
    ensures Divides(GcdAll(numbers), numbers[i])
  {
    var rest := GcdAll(numbers[1..]);
    GcdDivides(numbers[0], rest);
    if i > 0 {
      GcdAllDivides(numbers[1..], i - 1);
      DividesTransitive(GcdAll(numbers), rest, numbers[i]);
    }
  }

  /** abs(v.numerator)*(denominator//v.denominator) */
  function ScaledMagnitude(v: Fraction, denominator: Positive): nat {
    DivNonnegative(denominator, v.denominator);
    MulNonnegative(AbsInt(v.numerator), denominator / v.denominator);
    AbsInt(v.numerator) * (denominator / v.denominator)
  }

  function ScaledMagnitudes(values: seq<Fraction>, denominator: Positive): (r: seq<nat>)
    ensures |r| == |values|
    ensures forall i :: 0 <= i < |r| ==> r[i] == ScaledMagnitude(values[i], denominator)
  {
    seq(|values|, i requires 0 <= i < |values| => ScaledMagnitude(values[i], denominator))
  }

  function QuantumOf(values: seq<Fraction>): Fraction {
    var denominator := CommonDenominator(values);
    Fraction(GcdAll(ScaledMagnitudes(values, denominator)), denominator)
  }

  /** Every value of the set is an integer multiple of its quantum. */
  lemma QuantumDivides(values: seq<Fraction>, i: nat)
    requires i < |values|
    ensures OnLattice(values[i].Value(), QuantumOf(values).Value())
  {
    hide Gcd, Lcm, GcdAll, CommonDenominator;
    var d := CommonDenominator(values);
    var v := values[i];
    DenominatorDivides(values, i);
    var m: int :| d == Multiple(m, v.denominator);
    QuotientOfMultiple(m, v.denominator);
    var numbers := ScaledMagnitudes(values, d);
    GcdAllDivides(numbers, i);
    var g := GcdAll(numbers);
    var k: int :| numbers[i] == Multiple(k, g);
    SignedMultiple(v.numerator, m, numbers[i], k, g);
    var j := if v.numerator < 0 then -k else k;
    ScaledFraction(v.numerator, v.denominator, m, d, j, g);
    assert values[i].Value() == Site(j, QuantumOf(values).Value());
  }

  lemma SignedMultiple(n: int, m: int, x: nat, k: int, g: int)
    requires x == AbsInt(n) * m && x == Multiple(k, g)
    ensures n * m == (if n < 0 then -k else k) * g
  {
    if n < 0 {
      assert n * m == -(AbsInt(n) * m);
      assert (-k) * g == -(k * g);
    }
  }

  /** n/e == j*(g/d) when d == m*e and n*m == j*g. */
  lemma ScaledFraction(n: int, e: Positive, m: int, d: Positive, j: int, g: int)
    requires d == m * e && n * m == j * g
    ensures n as real / e as real == j as real * (g as real / d as real)
  {
    var x := n as real / e as real;
    var y := g as real / d as real;
    assert x * e as real == n as real;
    assert y * d as real == g as real;
    assert d as real == m as real * e as real;
    assert n as real * m as real == j as real * g as real by {
      assert (n * m) as real == n as real * m as real;
      assert (j * g) as real == j as real * g as real;
    }
    CrossEqual(x, e as real, n as real, m as real, d as real, j as real, g as real, y);
  }

  lemma CrossEqual(x: real, e: real, n: real, m: real, d: real, j: real, g: real, y: real)
    requires d > 0.0 && x * e == n && y * d == g && d == m * e && n * m == j * g
    ensures x == j * y
  {
    assert x * d == n * m by { assert x * (m * e) == (x * e) * m; }
    assert (j * y) * d == j * g by { assert (j * y) * d == j * (y * d); }
    var z := x - j * y;
    assert z * d == 0.0;
  }

  // ----- the quantum is the greatest such step -----

  lemma LatticeCombination(s: real, t: real, x: int, y: int, q: real, c: real)
    requires OnLattice(s, q) && OnLattice(t, q) && c == x as real * s + y as real * t
    ensures OnLattice(c, q)
  {
    var i: int :| s == Site(i, q);
    var j: int :| t == Site(j, q);
    assert (x * i) as real == x as real * i as real;
    assert (y * j) as real == y as real * j as real;
    assert x as real * s == Site(x * i, q);
    assert y as real * t == Site(y * j, q);
    SiteSum(x * i, y * j, q);
    assert c == Site(x * i + y * j, q);
  }

  lemma {:induction false} GcdAllOnLattice(numbers: seq<nat>, d: Positive, q: real)
    requires forall i :: 0 <= i < |numbers| ==> OnLattice(Fraction(numbers[i], d).Value(), q)
    ensures OnLattice(Fraction(GcdAll(numbers), d).Value(), q)
  {
    hide Fraction.Value, OnLattice, Gcd;
    if |numbers| == 0 {
      LatticeZero(q);
      ZeroFraction(d);
    } else {
      var a, b := numbers[0], GcdAll(numbers[1..]);
      assert forall i :: 0 <= i < |numbers[1..]| ==> numbers[1..][i] == numbers[i + 1];
      GcdAllOnLattice(numbers[1..], d, q);
      var x, y := Bezout(a, b);
      CombinationQuotient(a, b, x, y, Gcd(a, b), d);
      LatticeCombination(Fraction(a, d).Value(), Fraction(b, d).Value(), x, y, q, Fraction(Gcd(a, b), d).Value());
    }
  }

  lemma ZeroFraction(d: Positive)
    ensures Fraction(0, d).Value() == 0.0
  {
  }

  lemma CombinationQuotient(a: int, b: int, x: int, y: int, g: int, d: Positive)
    requires g == x * a + y * b
    ensures Fraction(g, d).Value() == x as real * Fraction(a, d).Value() + y as real * Fraction(b, d).Value()
  {
    var s, t, e := Fraction(a, d).Value(), Fraction(b, d).Value(), d as real;
    assert s * e == a as real && t * e == b as real;
    assert (x * a) as real == x as real * a as real && (y * b) as real == y as real * b as real;
    var c := x as real * s + y as real * t;
    assert c * e == g as real by {
      assert (x as real * s) * e == x as real * (s * e);
      assert (y as real * t) * e == y as real * (t * e);
      Distribute(x as real * s, y as real * t, e);
    }
  }

  /** Any step that divides all the values divides their quantum. */
  lemma QuantumGreatest(values: seq<Fraction>, step: real)
    requires forall i :: 0 <= i < |values| ==> OnLattice(values[i].Value(), step)
    ensures OnLattice(QuantumOf(values).Value(), step)
  {
    hide Gcd, Lcm, GcdAll, CommonDenominator, OnLattice, Fraction.Value;
    var d := CommonDenominator(values);
    var numbers := ScaledMagnitudes(values, d);
    forall i | 0 <= i < |numbers|
      ensures OnLattice(Fraction(numbers[i], d).Value(), step)
    {
      MagnitudeOnLattice(values, i, step);
    }
    GcdAllOnLattice(numbers, d, step);
  }

  lemma MagnitudeOnLattice(values: seq<Fraction>, i: nat, step: real)
    requires i < |values| && OnLattice(values[i].Value(), step)
    ensures OnLattice(Fraction(ScaledMagnitude(values[i], CommonDenominator(values)),
                               CommonDenominator(values)).Value(), step)
  {
    hide Gcd, Lcm, CommonDenominator, OnLattice, Fraction.Value;
    var d, v := CommonDenominator(values), values[i];
    DenominatorDivides(values, i);
    var m: int :| d == Multiple(m, v.denominator);
    QuotientOfMultiple(m, v.denominator);
    var x := ScaledMagnitude(v, d);
    MagnitudeValue(v, m, d, x);
    if v.numerator < 0 {
      LatticeCombination(v.Value(), v.Value(), -1, 0, step, Fraction(x, d).Value());
    }
  }

  lemma MagnitudeValue(v: Fraction, m: int, d: Positive, x: nat)
    requires d == m * v.denominator && x == AbsInt(v.numerator) * m
    ensures Fraction(x, d).Value()
         == if v.numerator < 0 then -1 as real * v.Value() + 0 as real * v.Value() else v.Value()
  {
    var sign := if v.numerator < 0 then -1 else 1;
    assert v.numerator * m == sign * x;
    ScaledFraction(v.numerator, v.denominator, m, d, sign, x);
  }

  // ----- exact_grid -----

  function LowExponent(n: Positive): nat {
    if n % 2 == 1 then 0 else 1 + LowExponent(n / 2)
  }

  function OddPart(n: Positive): Positive {
    if n % 2 == 1 then n else OddPart(n / 2)
  }

  lemma {:induction false} LowBitFactor(n: Positive)
    ensures n == OddPart(n) * IntPow2(LowExponent(n))
  {
    if n % 2 == 0 {
      LowBitFactor(n / 2);
      assert n == 2 * (n / 2);
    }
  }

  /** d & (d - 1) == 0 */
  predicate IsPowerOfTwo(d: Positive) {
    d == 1 || (d % 2 == 0 && IsPowerOfTwo(d / 2))
  }

  lemma {:induction false} PowerOfTwoExponent(d: Positive)
    requires IsPowerOfTwo(d)
    ensures d == IntPow2(LowExponent(d))
  {
    if d != 1 {
      PowerOfTwoExponent(d / 2);
    }
  }

  lemma {:induction false} IntPow2IsPowerOfTwo(n: nat)
    ensures IsPowerOfTwo(IntPow2(n))
  {
    if n > 0 {
      IntPow2IsPowerOfTwo(n - 1);
      assert IntPow2(n) / 2 == IntPow2(n - 1);
    }
  }

  /** A positive divisor of a power of two is a power of two. */
  lemma {:induction false} DivisorOfPower(d: Positive, k: int, n: nat)
    requires IntPow2(n) == k * d
    ensures IsPowerOfTwo(d)
    decreases n, d
  {
    if n == 0 {
      MulOrder(0, k, d, 0, 1);
      MulOrder(k, 2, d, 1, 2 * d);
      assert d == 1;
    } else if d % 2 == 0 {
      assert IntPow2(n - 1) == k * (d / 2) by { assert k * d == 2 * (k * (d / 2)); }
      DivisorOfPower(d / 2, k, n - 1);
    } else {
      EvenFactor(k, d, IntPow2(n - 1));
      DivisorOfPower(d, k / 2, n - 1);
    }
  }

  lemma EvenFactor(k: int, d: Positive, half: int)
    requires k * d == 2 * half && d % 2 == 1
    ensures k % 2 == 0 && half == (k / 2) * d
  {
    var e := d / 2;
    assert d == 2 * e + 1;
    assert k * d == 2 * (k * e) + k;
    assert k == 2 * (half - k * e);
    assert k == 2 * (k / 2);
    assert k * d == 2 * ((k / 2) * d);
  }

  /** Lowest terms, as Python's Fraction keeps them. */
  function Reduce(q: Fraction): Fraction {
    var g := Gcd(AbsInt(q.numerator), q.denominator);
    ReducedDenominator(q.numerator, q.denominator);
    Fraction(q.numerator / g, q.denominator / g)
  }

  lemma ReducedDenominator(n: int, d: Positive)
    ensures Gcd(AbsInt(n), d) > 0 && d / Gcd(AbsInt(n), d) > 0
    ensures (n / Gcd(AbsInt(n), d)) * Gcd(AbsInt(n), d) == n
    ensures (d / Gcd(AbsInt(n), d)) * Gcd(AbsInt(n), d) == d
  {
    var g := Gcd(AbsInt(n), d);
    GcdDivides(AbsInt(n), d);
    var i: int :| d == Multiple(i, g);
    var j: int :| AbsInt(n) == Multiple(j, g);
    QuotientOfMultiple(i, g);
    MulOrder(0, i, g, 0, d);
    assert n == Multiple(if n < 0 then -j else j, g);
    QuotientOfMultiple(if n < 0 then -j else j, g);
  }

  /** q is n over d. */
  ghost predicate IsOver(q: Fraction, n: int, d: int) { q.numerator * d == n * q.denominator }

  /** In lowest terms: the denominator divides that of every other fraction of the same value. */
  lemma LowestTerms(q: Fraction, n: int, d: Positive)
    requires IsOver(q, n, d)
    ensures Divides(Reduce(q).denominator, d)
  {
    ReducedDenominator(q.numerator, q.denominator);
    var g, r := Gcd(AbsInt(q.numerator), q.denominator), Reduce(q);
    var x, y := Bezout(AbsInt(q.numerator), q.denominator);
    hide Gcd;
    var z := if q.numerator < 0 then 0 - x else x;
    SignedTerm(x, q.numerator, z);
    CoprimeFactor(q.numerator, q.denominator, r.numerator, r.denominator, g, n, d, z, y);
    assert d == Multiple(z * n + y * d, r.denominator);
  }

  lemma SignedTerm(x: int, n: int, z: int)
    requires z == if n < 0 then 0 - x else x
    ensures x * AbsInt(n) == z * n
  {
  }

  lemma CoprimeFactor(numerator: int, denominator: int, s: int, r: int, g: int, n: int, d: int, x: int, y: int)
    requires g > 0 && numerator == s * g && denominator == r * g
    requires g == x * numerator + y * denominator && numerator * d == n * denominator
    ensures d == (x * n + y * d) * r
  {
    assert (s * d - n * r) * g == 0;
    SmallMultiple(s * d - n * r, g, 0);
    assert (x * s + y * r - 1) * g == 0;
    SmallMultiple(x * s + y * r - 1, g, 0);
    assert d == (x * s + y * r) * d == x * (s * d) + y * r * d;
  }

  /** An integer over some power of two. */
  ghost predicate IsDyadic(q: Fraction) { exists b: nat, n: int :: IsOver(q, n, IntPow2(b)) }

  /** Those are the fractions whose denominator in lowest terms is a power of two. */
  lemma DyadicExactly(q: Fraction)
    ensures IsPowerOfTwo(Reduce(q).denominator) <==> IsDyadic(q)
  {
    hide IntPow2, IsPowerOfTwo, Reduce;
    if IsPowerOfTwo(Reduce(q).denominator) {
      var b, n := DyadicForm(q);
    }
    if b: nat, n: int :| IsOver(q, n, IntPow2(b)) {
      LowestTerms(q, n, IntPow2(b));
      var k: int :| IntPow2(b) == Multiple(k, Reduce(q).denominator);
      DivisorOfPower(Reduce(q).denominator, k, b);
    }
  }

  lemma DyadicForm(q: Fraction) returns (b: nat, n: int)
    requires IsPowerOfTwo(Reduce(q).denominator)
    ensures IsOver(q, n, IntPow2(b))
  {
    ReducedDenominator(q.numerator, q.denominator);
    var g, r := Gcd(AbsInt(q.numerator), q.denominator), Reduce(q);
    PowerOfTwoExponent(r.denominator);
    b, n := LowExponent(r.denominator), r.numerator;
    hide IntPow2, IsPowerOfTwo, LowExponent, Gcd, Reduce, IsOver;
    CrossReduced(q, n, r.denominator, g);
  }

  lemma CrossReduced(q: Fraction, n: int, d: int, g: int)
    requires q.numerator == n * g && q.denominator == d * g
    ensures IsOver(q, n, d)
  {
    assert n * g * d == n * (d * g);
  }

  lemma ReduceValue(q: Fraction)
    ensures Reduce(q).Value() == q.Value()
  {
    hide Gcd;
    ReducedDenominator(q.numerator, q.denominator);
    var g := Gcd(AbsInt(q.numerator), q.denominator);
    var r := Reduce(q);
    ScaledFraction(r.numerator, r.denominator, g, q.denominator, 1, q.numerator);
  }

  function Product(p: Fraction, q: Fraction): Fraction {
    MulPositive(p.denominator, q.denominator);
    Reduce(Fraction(p.numerator * q.numerator, p.denominator * q.denominator))
  }

  lemma ProductValue(p: Fraction, q: Fraction)
    ensures Product(p, q).Value() == p.Value() * q.Value()
  {
    MulPositive(p.denominator, q.denominator);
    hide Reduce;
    var n, d: Positive := p.numerator * q.numerator, p.denominator * q.denominator;
    ReduceValue(Fraction(n, d));
    QuotientProduct(p.numerator as real, p.denominator as real, q.numerator as real, q.denominator as real,
                    n as real, d as real, p.Value(), q.Value());
  }

  lemma QuotientProduct(a: real, b: real, c: real, d: real, n: real, m: real, x: real, y: real)
    requires b > 0.0 && d > 0.0 && m > 0.0 && n == a * c && m == b * d && x == a / b && y == c / d
    ensures n / m == x * y
  {
    assert x * b == a && y * d == c;
    Regroup(x, b, y, d);
    assert (x * y) * m == n;
  }

  /** exact_grid: every multiple of q up to the maximum is a float with the full precision to spare. */
  function ExactGrid(f: FloatFormat, q: Fraction, maximum: real): Result<bool> {
    if q.numerator <= 0 || maximum < 0.0 then Failure("invalid finite lattice")
    else
      var r := Reduce(q);
      ReducePositive(q);
      if !IsPowerOfTwo(r.denominator) then Success(false)
      else
        var step := Fraction(IntPow2(LowExponent(r.numerator)), r.denominator).Value();
        Success(step >= Pow2(f.MinExponent() - f.mantissa) && maximum <= f.MaxFinite()
                && maximum / step <= IntPow2(f.mantissa + 1) as real)
  }

  lemma ReducePositive(q: Fraction)
    requires q.numerator > 0
    ensures Reduce(q).numerator > 0
  {
    ReducedDenominator(q.numerator, q.denominator);
    var g := Gcd(AbsInt(q.numerator), q.denominator);
    MulOrder(0, q.numerator / g, g, 0, q.numerator);
  }

  /** The lattice step of a dyadic fraction: q == odd * 2^e. */
  lemma DyadicStep(r: Fraction) returns (odd: Positive, e: int)
    requires r.numerator > 0 && IsPowerOfTwo(r.denominator)
    ensures e == LowExponent(r.numerator) as int - LowExponent(r.denominator) as int
    ensures odd % 2 == 1 && r.Value() == odd as real * Pow2(e)
    ensures Fraction(IntPow2(LowExponent(r.numerator)), r.denominator).Value() == Pow2(e)
  {
    hide Pow2, IntPow2, IsPowerOfTwo, Fraction.Value, LowExponent, OddPart;
    var a: int, d: int := LowExponent(r.numerator), LowExponent(r.denominator);
    odd, e := OddPart(r.numerator), a - d;
    LowBitFactor(r.numerator);
    OddPartOdd(r.numerator);
    PowerOfTwoExponent(r.denominator);
    IntPow2Real(a);
    IntPow2Real(d);
    Pow2Add(e, d);
    assert e + d == a;
    DyadicValue(odd, IntPow2(a), r.denominator, Pow2(a), Pow2(d), Pow2(e), r.numerator);
    DyadicValue(1, IntPow2(a), r.denominator, Pow2(a), Pow2(d), Pow2(e), IntPow2(a));
  }

  lemma DyadicValue(odd: int, power: nat, denominator: Positive, a: real, d: real, e: real, n: int)
    requires n == odd * power && power as real == a && denominator as real == d && a == e * d
    ensures Fraction(n, denominator).Value() == odd as real * e
  {
    assert n as real == odd as real * power as real;
    PowerQuotient(odd as real, a, d, e, n as real);
  }

  lemma PowerQuotient(odd: real, a: real, d: real, e: real, n: real)
    requires d > 0.0 && a == e * d && n == odd * a
    ensures n / d == odd * e && a / d == e
  {
    assert n == (odd * e) * d;
  }

  lemma ExactGridSound(f: FloatFormat, q: Fraction, maximum: real, s: real)
    requires f.Valid()
    requires ExactGrid(f, q, maximum) == Success(true)
    requires OnLattice(s, q.Value()) && Abs(s) <= maximum
    ensures Rounded(f, s) == Finite(s)
  {
    hide Rounded, Pow2, IntPow2, FloatFormat.MaxFinite, Fraction.Value;
    var k, e := GridSite(f, q, maximum, s);
    RoundedExact(f, k, e);
  }

  lemma GridSite(f: FloatFormat, q: Fraction, maximum: real, s: real) returns (k: int, e: int)
    requires ExactGrid(f, q, maximum) == Success(true)
    requires OnLattice(s, q.Value()) && Abs(s) <= maximum
    ensures s == k as real * Pow2(e) && maximum <= f.MaxFinite()
    ensures 0 - IntPow2(f.mantissa + 1) <= k <= IntPow2(f.mantissa + 1)
    ensures e >= f.MinExponent() - f.mantissa
  {
    hide Reduce, Pow2, IsPowerOfTwo, LowExponent, IntPow2, FloatFormat.MaxFinite, Fraction.Value;
    var r := Reduce(q);
    ReduceValue(q);
    ReducePositive(q);
    var odd;
    odd, e := DyadicStep(r);
    var step := Pow2(e);
    k := OddSite(s, q.Value(), odd, step);
    var limit := IntPow2(f.mantissa + 1);
    BoundedCount(k, step, s, maximum, limit);
    if e < f.MinExponent() - f.mantissa {
      Pow2Monotone(e, f.MinExponent() - f.mantissa);
    }
  }

  lemma OddSite(s: real, q: real, odd: Positive, step: real) returns (k: int)
    requires OnLattice(s, q) && q == odd as real * step
    ensures s == k as real * step
  {
    var i: int :| s == Site(i, q);
    k := i * odd;
    assert k as real == i as real * odd as real;
    SiteOfOdd(i as real, odd as real, step, q, s, k as real);
  }

  lemma SiteOfOdd(i: real, odd: real, step: real, q: real, s: real, k: real)
    requires q == odd * step && s == i * q && k == i * odd
    ensures s == k * step
  {
  }

  lemma BoundedCount(k: int, step: real, s: real, maximum: real, limit: nat)
    requires step > 0.0 && s == k as real * step && Abs(s) <= maximum && maximum / step <= limit as real
    ensures 0 - limit <= k <= limit
  {
    var l := maximum / step;
    assert l * step == maximum;
    Scale(k as real, l, step, s, maximum);
    Scale(-l, k as real, step, -maximum, s);
  }

  // ----- the test is exact -----

  lemma {:induction false} OddPartOdd(n: Positive)
    ensures OddPart(n) % 2 == 1
  {
    if n % 2 == 0 {
      OddPartOdd(n / 2);
    }
  }

  /** One site written with two powers of two. */
  lemma SameSite(k: int, e: int, m: int, a: int)
    requires Site(k, Pow2(e)) == Site(m, Pow2(a)) && e <= a
    ensures k == m * IntPow2(a - e)
  {
    hide Pow2, IntPow2;
    Pow2Add(a - e, e);
    IntPow2Real(a - e);
    CancelStep(k, m, IntPow2(a - e), Pow2(e), Pow2(a));
  }

  lemma CancelStep(k: int, m: int, p: int, s: real, t: real)
    requires s > 0.0 && t == p as real * s && Site(k, s) == Site(m, t)
    ensures k == m * p
  {
    var n, q := m * p, p as real;
    assert n as real == m as real * q;
    Reassociated(m as real, q, s, t, n as real);
    Scale(k as real, n as real, s, Site(k, s), Site(n, s));
  }

  lemma Reassociated(m: real, q: real, s: real, t: real, n: real)
    requires t == q * s && n == m * q
    ensures m * t == n * s
  {
  }

  /** A site that is stored unchanged is a full significand times a power of two not below the smallest subnormal. */
  lemma StoredSite(f: FloatFormat, k: nat, e: int) returns (m: int, a: int)
    requires k > 0 && Rounded(f, Site(k, Pow2(e))) == Finite(Site(k, Pow2(e)))
    ensures a >= f.MinExponent() - f.mantissa && 1 <= m <= IntPow2(f.mantissa + 1)
    ensures Site(k, Pow2(e)) == Site(m, Pow2(a))
  {
    hide Pow2, IntPow2, Rounded;
    var x := Site(k, Pow2(e));
    RoundedRepresentable(f, x);
    m, a :| IsScaled(f, x, m, a);
    Scale(0.0, k as real, Pow2(e), 0.0, x);
    Scale(0.0, m as real, Pow2(a), 0.0, x);
  }

  lemma StepStored(f: FloatFormat, e: int)
    requires Rounded(f, Site(1, Pow2(e))) == Finite(Site(1, Pow2(e)))
    ensures e >= f.MinExponent() - f.mantissa
  {
    hide Pow2, IntPow2, Rounded, Site;
    var m, a := StoredSite(f, 1, e);
    if e < a {
      SameSite(1, e, m, a);
      IntPow2Monotone(0, a - e);
      IntPow2Zero();
      MulOrder(1, m, IntPow2(a - e), IntPow2(a - e), m * IntPow2(a - e));
    }
  }

  /** One more than a power of two beyond the significand is not stored unchanged. */
  lemma BeyondSignificand(f: FloatFormat, e: int)
    ensures var k := IntPow2(f.mantissa + 1) + 1; Rounded(f, Site(k, Pow2(e))) != Finite(Site(k, Pow2(e)))
  {
    var k := IntPow2(f.mantissa + 1) + 1;
    EvenPower(f.mantissa + 1);
    hide Pow2, IntPow2, Rounded, Site;
    if Rounded(f, Site(k, Pow2(e))) == Finite(Site(k, Pow2(e))) {
      var m, a := StoredSite(f, k, e);
      if e < a {
        SameSite(k, e, m, a);
        OddNoMultiple(k, m, a - e);
        assert false;
      } else {
        SameSite(m, a, k, e);
        PowerGrows(k, e - a);
        assert false;
      }
    }
  }

  lemma PowerGrows(k: nat, d: nat)
    ensures k * IntPow2(d) >= k
  {
    IntPow2Monotone(0, d);
    IntPow2Zero();
    hide IntPow2;
    MulNonnegative(IntPow2(d) - 1, k);
    assert k * IntPow2(d) == (IntPow2(d) - 1) * k + k;
  }

  lemma EvenPower(d: nat)
    requires d > 0
    ensures IntPow2(d) == 2 * IntPow2(d - 1) && IntPow2(d) % 2 == 0
  {
    var half := IntPow2(d - 1);
    assert IntPow2(d) == 2 * half;
    hide IntPow2;
  }

  lemma OddNoMultiple(k: int, m: int, d: nat)
    requires d > 0 && k % 2 == 1
    ensures k != m * IntPow2(d)
  {
    EvenPower(d);
    hide IntPow2;
    var half := m * IntPow2(d - 1);
    assert m * IntPow2(d) == 2 * half;
  }

  /** What is stored unchanged is at most the largest finite value. */
  lemma StoredBelowMaximum(f: FloatFormat, k: nat, e: int)
    requires f.Valid() && k > 0 && Rounded(f, Site(k, Pow2(e))) == Finite(Site(k, Pow2(e)))
    ensures Site(k, Pow2(e)) <= f.MaxFinite()
  {
    hide Pow2, IntPow2, Rounded, Site, FloatFormat.MaxExponent, FloatFormat.MaxFinite, FloatFormat.OverflowEdge;
    var x := Site(k, Pow2(e));
    PositiveSite(k, Pow2(e));
    FiniteBelowEdge(f, x);
    var m, a := StoredSite(f, k, e);
    if a >= f.MaxExponent() - f.mantissa {
      CoarseBelow(f, m, a);
    } else {
      FineBelow(f, m, a, x);
    }
  }

  lemma PositiveSite(k: nat, q: real)
    requires k > 0 && q > 0.0
    ensures Site(k, q) > 0.0
  {
    Scale(0.0, k as real, q, 0.0, Site(k, q));
  }

  lemma FiniteBelowEdge(f: FloatFormat, x: real)
    requires f.Valid() && x > 0.0 && Rounded(f, x).IsReal()
    ensures x < f.OverflowEdge()
  {
    hide Overflows, Pow2, IntPow2, FloatFormat.MaxExponent, FloatFormat.OverflowEdge, Significand, Step;
    OverflowsExactly(f, x);
  }

  lemma CoarseBelow(f: FloatFormat, m: nat, a: int)
    requires a >= f.MaxExponent() - f.mantissa && Site(m, Pow2(a)) < f.OverflowEdge()
    ensures Site(m, Pow2(a)) <= f.MaxFinite()
  {
    hide Pow2, IntPow2, FloatFormat.MaxExponent, FloatFormat.MaxFinite, FloatFormat.OverflowEdge, Site;
    var top := f.MaxExponent() - f.mantissa;
    var j := CoarserSite(m, a, top);
    BelowEdge(f, j);
  }

  lemma CoarserSite(m: nat, a: int, top: int) returns (j: int)
    requires a >= top
    ensures Site(m, Pow2(a)) == Site(j, Pow2(top))
  {
    hide Pow2, IntPow2;
    Pow2Add(a - top, top);
    IntPow2Real(a - top);
    j := m * IntPow2(a - top);
    assert j as real == m as real * IntPow2(a - top) as real;
    Regrouped(m as real, Pow2(a - top), Pow2(top), Pow2(a), j as real, Site(m, Pow2(a)));
  }

  lemma BelowEdge(f: FloatFormat, j: int)
    requires Site(j, Pow2(f.MaxExponent() - f.mantissa)) < f.OverflowEdge()
    ensures Site(j, Pow2(f.MaxExponent() - f.mantissa)) <= f.MaxFinite()
  {
    hide Pow2, IntPow2, FloatFormat.MaxExponent;
    var step, limit := Pow2(f.MaxExponent() - f.mantissa), IntPow2(f.mantissa + 1);
    var c, d := limit as real - 0.5, (limit - 1) as real;
    WholeBelow(j, limit, c, d);
    assert f.OverflowEdge() == c * step && f.MaxFinite() == d * step;
    hide FloatFormat.OverflowEdge, FloatFormat.MaxFinite;
    FractionBelow(j as real, c, d, step, f.OverflowEdge(), f.MaxFinite(), Site(j, step));
  }

  lemma WholeBelow(j: int, limit: int, c: real, d: real)
    requires c == limit as real - 0.5 && d == (limit - 1) as real
    ensures j as real < c ==> j as real <= d
  {
    if j >= limit {
      assert j as real >= limit as real;
    }
  }

  lemma FractionBelow(j: real, c: real, d: real, step: real, edge: real, maximum: real, x: real)
    requires step > 0.0 && edge == c * step && maximum == d * step && x == j * step < edge && (j < c ==> j <= d)
    ensures x <= maximum
  {
    Scale(j, c, step, x, edge);
    Scale(j, d, step, x, maximum);
  }

  lemma FineBelow(f: FloatFormat, m: nat, a: int, x: real)
    requires x == Site(m, Pow2(a)) && a < f.MaxExponent() - f.mantissa && m <= IntPow2(f.mantissa + 1)
    ensures x <= f.MaxFinite()
  {
    hide Pow2, IntPow2, FloatFormat.MaxExponent;
    var top, limit := f.MaxExponent() - f.mantissa, IntPow2(f.mantissa + 1);
    Pow2Monotone(a, top);
    IntPow2Monotone(0, f.mantissa + 1);
    IntPow2Zero();
    Scale(m as real, limit as real, Pow2(a), x, limit as real * Pow2(a));
    HalfOfTop(limit, Pow2(a), Pow2(top), f.MaxFinite());
  }

  lemma Regrouped(m: real, p: real, t: real, s: real, j: real, x: real)
    requires s == p * t && j == m * p && x == m * s
    ensures x == j * t
  {
  }

  lemma HalfOfTop(limit: nat, s: real, t: real, maximum: real)
    requires limit >= 2 && 0.0 <= 2.0 * s <= t && maximum == (limit - 1) as real * t
    ensures limit as real * s <= maximum
  {
    var n := limit as real;
    Scale(n, 2.0 * (n - 1.0), if s > 0.0 then s else 1.0, n * (if s > 0.0 then s else 1.0),
          2.0 * (n - 1.0) * (if s > 0.0 then s else 1.0));
    Scale(2.0 * s, t, n - 1.0, 2.0 * s * (n - 1.0), t * (n - 1.0));
  }

  /** Every multiple of a power of two up to n of them is stored unchanged. */
  ghost predicate StoresMultiples(f: FloatFormat, e: int, n: nat) {
    forall k: int :: AbsInt(k) <= n ==> Rounded(f, Site(k, Pow2(e))) == Finite(Site(k, Pow2(e)))
  }

  /**
   On a maximum that is itself on the grid the test is exact: it accepts a dyadic
   step odd * 2^e if and only if every bounded multiple of 2^e is representable.*/
  lemma ExactGridIff(f: FloatFormat, q: Fraction, n: nat) returns (odd: Positive, e: int)
    requires f.Valid() && q.numerator > 0 && IsPowerOfTwo(Reduce(q).denominator) && n > 0
    ensures odd % 2 == 1 && q.Value() == odd as real * Pow2(e)
    ensures ExactGrid(f, q, Site(n, Pow2(e))) == Success(true) <==> StoresMultiples(f, e, n)
  {
    ReducePositive(q);
    hide Pow2, IntPow2, Rounded, IsPowerOfTwo, LowExponent, Reduce, Fraction.Value, OddPart, FloatFormat.MaxFinite,
         FloatFormat.MinExponent, StoresMultiples;
    var r := Reduce(q);
    ReduceValue(q);
    odd, e := DyadicStep(r);
    GridTestOnGrid(f, q, n, e);
    hide ExactGrid, Site;
    if StoresMultiples(f, e, n) {
      StoredWithin(f, e, n);
    } else if e >= f.MinExponent() - f.mantissa && Site(n, Pow2(e)) <= f.MaxFinite() && n <= IntPow2(f.mantissa + 1) {
      GridStores(f, e, n);
    }
  }

  lemma GridTestOnGrid(f: FloatFormat, q: Fraction, n: nat, e: int)
    requires q.numerator > 0 && Reduce(q).numerator > 0 && IsPowerOfTwo(Reduce(q).denominator) && n > 0
    requires e == LowExponent(Reduce(q).numerator) as int - LowExponent(Reduce(q).denominator) as int
    ensures ExactGrid(f, q, Site(n, Pow2(e)))
         == Success(e >= f.MinExponent() - f.mantissa && Site(n, Pow2(e)) <= f.MaxFinite()
                    && n <= IntPow2(f.mantissa + 1))
  {
    hide Pow2, IntPow2, IsPowerOfTwo, LowExponent, Reduce, FloatFormat.MaxFinite, FloatFormat.MinExponent, ExactGrid;
    PositiveSite(n, Pow2(e));
    QuotientOf(Site(n, Pow2(e)), Pow2(e), n as real);
    hide Site;
    GridTest(f, q, Site(n, Pow2(e)), e);
    Pow2Order(e, f.MinExponent() - f.mantissa);
  }

  /** The three comparisons of the test. */
  lemma GridTest(f: FloatFormat, q: Fraction, maximum: real, e: int)
    requires q.numerator > 0 && maximum >= 0.0 && Reduce(q).numerator > 0 && IsPowerOfTwo(Reduce(q).denominator)
    requires e == LowExponent(Reduce(q).numerator) as int - LowExponent(Reduce(q).denominator) as int
    ensures ExactGrid(f, q, maximum)
         == Success(Pow2(e) >= Pow2(f.MinExponent() - f.mantissa) && maximum <= f.MaxFinite()
                    && maximum / Pow2(e) <= IntPow2(f.mantissa + 1) as real)
  {
    hide Pow2, IntPow2, IsPowerOfTwo, LowExponent, Reduce, Fraction.Value, FloatFormat.MaxFinite;
    var odd, exponent := DyadicStep(Reduce(q));
  }

  lemma Pow2Order(a: int, b: int)
    ensures Pow2(a) >= Pow2(b) <==> a >= b
  {
    hide Pow2;
    if a >= b {
      Pow2Monotone(b, a);
    } else {
      Pow2Monotone(a, b);
    }
  }

  lemma GridStores(f: FloatFormat, e: int, n: nat)
    requires f.Valid() && e >= f.MinExponent() - f.mantissa && Site(n, Pow2(e)) <= f.MaxFinite()
    requires n <= IntPow2(f.mantissa + 1)
    ensures StoresMultiples(f, e, n)
  {
    hide Pow2, IntPow2, Rounded, FloatFormat.MaxFinite;
    forall k: int | AbsInt(k) <= n
      ensures Rounded(f, Site(k, Pow2(e))) == Finite(Site(k, Pow2(e)))
    {
      Scale(k as real, n as real, Pow2(e), Site(k, Pow2(e)), Site(n, Pow2(e)));
      Scale(-(n as real), k as real, Pow2(e), -Site(n, Pow2(e)), Site(k, Pow2(e)));
      RoundedExact(f, k, e);
    }
  }

  lemma StoredWithin(f: FloatFormat, e: int, n: nat)
    requires f.Valid() && n > 0 && StoresMultiples(f, e, n)
    ensures e >= f.MinExponent() - f.mantissa && Site(n, Pow2(e)) <= f.MaxFinite() && n <= IntPow2(f.mantissa + 1)
  {
    hide Pow2, IntPow2, Rounded, FloatFormat.MaxFinite, Site;
    StepStored(f, e);
    StoredBelowMaximum(f, n, e);
    BeyondSignificand(f, e);
  }
}
