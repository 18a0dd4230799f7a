/**
 The floating accumulator of the reference arithmetic: an exact rational is
 encoded with one roundTiesToEven step (section 4.3.1 of IEEE 754-2019) and
 decoded again. Subnormals are gradual and overflow goes to infinity.
 */
module FloatAccumulator {
  import opened ExactArithmetic

  /** The float fields of an accumulator manifest. */
  datatype FloatFormat = FloatFormat(mantissa: nat, exponentBits: nat, bias: int) {
    function MinExponent(): int { 1 - bias }

    function MaxExponent(): int { IntPow2(exponentBits) - 2 - bias }

    predicate Valid() { MinExponent() <= MaxExponent() }

    function UnitRoundoff(): real { Pow2(-(mantissa + 1)) }

    function HalfMinSubnormal(): real { Pow2(MinExponent() - mantissa - 1) }

    /** Half a step beyond the largest finite value. */
    function OverflowEdge(): real { (IntPow2(mantissa + 1) as real - 0.5) * Pow2(MaxExponent() - mantissa) }

    function MaxFinite(): real { (IntPow2(mantissa + 1) - 1) as real * Pow2(MaxExponent() - mantissa) }
  }

  /** fp64_e11m52_accumulator. */
  const BINARY64 := FloatFormat(52, 11, 1023)

  lemma Binary64Valid()
    ensures BINARY64.Valid()
  {
    assert IntPow2(11) == 2048;
  }

  /** A decoded accumulator state. */
  datatype Stored = Finite(value: real) | NegativeZero | Infinite(negative: bool) | NotANumber {
    predicate IsReal() { Finite? || NegativeZero? }

    function Value(): real
      requires IsReal()
    {
      if Finite? then value else 0.0
    }
  }

  /** round_integer with mode "rne". */
  function RoundInteger(v: real): int {
    var a := Abs(v);
    var quotient := a.Floor;
    var comparison := 2.0 * (a - quotient as real) - 1.0;
    var rounded := if comparison > 0.0 || (comparison == 0.0 && quotient % 2 == 1) then quotient + 1 else quotient;
    if v < 0.0 then -rounded else rounded
  }

  lemma RoundIntegerNear(v: real)
    ensures Abs(RoundInteger(v) as real - v) <= 0.5
    ensures v >= 0.0 ==> RoundInteger(v) >= 0
  {
  }

  lemma RoundIntegerFixes(n: int)
    ensures RoundInteger(n as real) == n
  {
  }

  lemma RoundIntegerBelow(v: real, n: int)
    requires 0.0 <= v <= n as real
    ensures RoundInteger(v) <= n
  {
  }

  /** The weight of the last significand bit kept for a magnitude m. */
  function Step(f: FloatFormat, m: real): (s: real)
    requires m > 0.0
    ensures s > 0.0
  {
    var e := ILog2(m);
    Pow2((if e < f.MinExponent() then f.MinExponent() else e) - f.mantissa)
  }

  function Significand(f: FloatFormat, m: real): int
    requires m > 0.0
  {
    RoundInteger(m / Step(f, m))
  }

  predicate Overflows(f: FloatFormat, m: real)
    requires m > 0.0
  {
    var e := ILog2(m);
    e >= f.MinExponent()
    && (if Significand(f, m) == IntPow2(f.mantissa + 1) then e + 1 else e) > f.MaxExponent()
  }

  /** Accumulator.rounded: decode(encode(v)). */
  function Rounded(f: FloatFormat, v: real): Stored {
    if v == 0.0 then Finite(0.0)
    else
      var m := Abs(v);
      if Overflows(f, m) then Infinite(v < 0.0)
      else if Significand(f, m) == 0 then (if v < 0.0 then NegativeZero else Finite(0.0))
      else
        var result := Significand(f, m) as real * Step(f, m);
        Finite(if v < 0.0 then -result else result)
  }

  /** Zeros and infinities keep the sign: a negative value that vanishes becomes the negative zero, no other does. */
  lemma SignKept(f: FloatFormat, v: real)
    ensures match Rounded(f, v)
      case Infinite(negative) => v != 0.0 && (negative <==> v < 0.0)
      case NegativeZero => v < 0.0
      case Finite(x) => if v < 0.0 then x != 0.0 else x >= 0.0
      case NotANumber => false
  {
    hide ILog2, Pow2, Overflows, RoundInteger, Step;
    if v != 0.0 {
      RoundIntegerNear(Abs(v) / Step(f, Abs(v)));
      SignOfProduct(Significand(f, Abs(v)) as real, Step(f, Abs(v)));
    }
  }

  lemma SignOfProduct(n: real, s: real)
    requires s > 0.0
    ensures n > 0.0 ==> n * s > 0.0
    ensures n >= 0.0 ==> n * s >= 0.0
    ensures n != 0.0 ==> n * s != 0.0
  {
  }

  /** A rounded state is the significand times the step, with the sign of v. */
  lemma RoundedValue(f: FloatFormat, v: real)
    requires v != 0.0 && Rounded(f, v).IsReal()
    ensures Rounded(f, v).Value() == Signed(v, RoundInteger(Abs(v) / Step(f, Abs(v))) as real * Step(f, Abs(v)))
  {
    hide Step, Overflows, RoundInteger, ILog2, Pow2;
  }

  function Signed(v: real, magnitude: real): real {
    if v < 0.0 then -magnitude else magnitude
  }

  /** Rounding a quotient to an integer moves the product by at most half a step. */
  lemma HalfStep(m: real, s: real)
    requires s > 0.0
    ensures Abs(RoundInteger(m / s) as real * s - m) <= s / 2.0
  {
    var y := m / s;
    var n := RoundInteger(y);
    RoundIntegerNear(y);
    hide RoundInteger;
    var d := n as real - y;
    QuotientTimes(m, s, y);
    Distribute(n as real, y, s);
    Scale(d, 0.5, s, d * s, s / 2.0);
    Scale(-0.5, d, s, -(s / 2.0), d * s);
  }

  lemma QuotientTimes(a: real, b: real, q: real)
    requires b > 0.0 && q == a / b
    ensures q * b == a
  {
  }

  lemma RoundedNear(f: FloatFormat, v: real)
    requires v != 0.0 && Rounded(f, v).IsReal()
    ensures Abs(Rounded(f, v).Value() - v) <= Step(f, Abs(v)) / 2.0
  {
    hide RoundInteger, Step, Overflows, Rounded, Pow2, ILog2;
    var m := Abs(v);
    var s := Step(f, m);
    RoundedValue(f, v);
    HalfStep(m, s);
    SameSide(v, RoundInteger(m / s) as real * s);
  }

  lemma SameSide(v: real, magnitude: real)
    ensures Abs(Signed(v, magnitude) - v) == Abs(magnitude - Abs(v))
  {
  }

  lemma HalfStepBound(f: FloatFormat, m: real)
    requires m > 0.0
    ensures Step(f, m) / 2.0 <= f.UnitRoundoff() * m + f.HalfMinSubnormal()
  {
    hide Pow2, ILog2;
    var e := ILog2(m);
    var low := f.MinExponent();
    var u := Pow2(-(f.mantissa + 1));
    if e < low {
      Pow2Step(low - f.mantissa - 1);
      Scale(0.0, m, u, 0.0, u * m);
    } else {
      Pow2Step(e - f.mantissa - 1);
      Pow2Add(-(f.mantissa + 1), e);
      assert -(f.mantissa + 1) + e == e - f.mantissa - 1;
      Scale(Pow2(e), m, u, Pow2(e - f.mantissa - 1), u * m);
    }
  }

  /** One rounding moves a finite value by at most u*|v| plus half the smallest subnormal. */
  lemma RoundedError(f: FloatFormat, v: real)
    requires Rounded(f, v).IsReal()
    ensures Abs(Rounded(f, v).Value() - v) <= f.UnitRoundoff() * Abs(v) + f.HalfMinSubnormal()
  {
    hide Rounded, Step, Overflows, RoundInteger, ILog2, Pow2;
    if v != 0.0 {
      RoundedNear(f, v);
      HalfStepBound(f, Abs(v));
    } else {
      RoundedZero(f);
    }
  }

  lemma RoundedZero(f: FloatFormat)
    ensures Rounded(f, 0.0) == Finite(0.0)
    ensures Abs(0.0 - 0.0) <= f.UnitRoundoff() * Abs(0.0) + f.HalfMinSubnormal()
  {
    hide Pow2;
  }

  // ----- overflow and exact values -----

  lemma MaxFiniteBelow(f: FloatFormat)
    requires f.Valid()
    ensures 0.0 < f.MaxFinite() < Pow2(f.MaxExponent() + 1)
  {
    hide Pow2, IntPow2;
    var p := f.mantissa + 1;
    var s := Pow2(f.MaxExponent() - f.mantissa);
    Pow2Add(p, f.MaxExponent() - f.mantissa);
    assert p + (f.MaxExponent() - f.mantissa) == f.MaxExponent() + 1;
    IntPow2Real(p);
    IntPow2Monotone(0, p);
    IntPow2Zero();
    Scale((IntPow2(p) - 1) as real, IntPow2(p) as real, s, f.MaxFinite(), Pow2(f.MaxExponent() + 1));
    Scale(0.0, (IntPow2(p) - 1) as real, s, 0.0, f.MaxFinite());
  }

  lemma MagnitudeInRange(f: FloatFormat, m: real)
    requires f.Valid() && 0.0 < m <= f.MaxFinite()
    ensures ILog2(m) <= f.MaxExponent()
  {
    hide Pow2, IntPow2;
    var e := ILog2(m);
    assert Pow2(e) <= m;
    MaxFiniteBelow(f);
    if e > f.MaxExponent() {
      Pow2Monotone(f.MaxExponent() + 1, e);
    }
  }

  /** A magnitude of at most the largest finite value does not round to infinity. */
  lemma NoOverflow(f: FloatFormat, m: real)
    requires f.Valid() && 0.0 < m <= f.MaxFinite()
    ensures !Overflows(f, m)
  {
    MagnitudeInRange(f, m);
    if ILog2(m) == f.MaxExponent() {
      TopSignificand(f, m);
    }
    hide IntPow2, Significand, Pow2, ILog2;
  }

  lemma TopSignificand(f: FloatFormat, m: real)
    requires f.Valid() && 0.0 < m <= f.MaxFinite()
    requires ILog2(m) == f.MaxExponent()
    ensures Significand(f, m) < IntPow2(f.mantissa + 1)
  {
    hide Pow2, IntPow2, ILog2, RoundInteger;
    var n := IntPow2(f.mantissa + 1) - 1;
    var s := Step(f, m);
    assert s == Pow2(f.MaxExponent() - f.mantissa);
    assert (m / s) * s == m;
    Scale(m / s, n as real, s, m, f.MaxFinite());
    Scale(0.0, m / s, s, 0.0, m);
    RoundIntegerBelow(m / s, n);
  }

  lemma RoundedFinite(f: FloatFormat, v: real)
    requires f.Valid() && Abs(v) <= f.MaxFinite()
    ensures Rounded(f, v).IsReal()
  {
    hide Significand, Step, IntPow2, Pow2, FloatFormat.MaxFinite;
    if v != 0.0 {
      NoOverflow(f, Abs(v));
    }
    hide Overflows;
  }

  /** A bounded integer multiple of a power of two is a multiple of its own rounding step. */
  lemma StepDivides(f: FloatFormat, k: nat, a: int) returns (n: nat)
    requires 0 < k <= IntPow2(f.mantissa + 1)
    requires a >= f.MinExponent() - f.mantissa
    ensures k as real * Pow2(a) > 0.0
    ensures k as real * Pow2(a) == n as real * Step(f, k as real * Pow2(a))
  {
    hide Pow2, IntPow2;
    var m := k as real * Pow2(a);
    Scale(0.0, k as real, Pow2(a), 0.0, m);
    var e := ILog2(m);
    var low := (if e < f.MinExponent() then f.MinExponent() else e) - f.mantissa;
    assert Step(f, m) == Pow2(low);
    if a >= low {
      Pow2Add(a - low, low);
      IntPow2Real(a - low);
      n := k * IntPow2(a - low);
      assert n as real == k as real * IntPow2(a - low) as real;
      ProductAssociates(k as real, IntPow2(a - low) as real, Pow2(low), Pow2(a), m);
    } else {
      FullSignificand(f.mantissa + 1, k, a, e);
      IntPow2Real(f.mantissa + 1);
      IntPow2Real(f.mantissa);
      Pow2Step(f.mantissa);
      Pow2Step(a);
      assert low == a + 1;
      n := IntPow2(f.mantissa);
      HalfTwice(IntPow2(f.mantissa) as real, Pow2(a), k as real, Pow2(a + 1));
    }
  }

  lemma ProductAssociates(k: real, r: real, s: real, t: real, m: real)
    requires t == r * s && m == k * t
    ensures m == (k * r) * s
  {
  }

  lemma HalfTwice(h: real, s: real, k: real, t: real)
    requires k == 2.0 * h && t == 2.0 * s
    ensures k * s == h * t
  {
  }

  /** When k * 2^a has a rounding step above 2^a, k is exactly 2^p and the step is 2^(a+1). */
  lemma FullSignificand(p: nat, k: nat, a: int, e: int)
    requires 0 < k <= IntPow2(p)
    requires Pow2(e) <= k as real * Pow2(a)
    requires e >= a + p
    ensures e == a + p && k == IntPow2(p)
  {
    hide Pow2, IntPow2;
    IntPow2Real(p);
    Pow2Add(p, a);
    Pow2Monotone(a + p, e);
    Pow2Monotone(a + p, a + p + 1);
    Scale(k as real, IntPow2(p) as real, Pow2(a), k as real * Pow2(a), Pow2(a + p));
    Scale(IntPow2(p) as real, k as real, Pow2(a), Pow2(a + p), k as real * Pow2(a));
  }

  /** k * 2^a with |k| <= 2^p and 2^a at least the smallest subnormal is stored exactly. */
  lemma RoundedExact(f: FloatFormat, k: int, a: int)
    requires f.Valid()
    requires 0 - IntPow2(f.mantissa + 1) <= k <= IntPow2(f.mantissa + 1)
    requires a >= f.MinExponent() - f.mantissa
    requires Abs(k as real * Pow2(a)) <= f.MaxFinite()
    ensures Rounded(f, k as real * Pow2(a)) == Finite(k as real * Pow2(a))
  {
    hide Pow2, IntPow2, ILog2, RoundInteger, Overflows, Step, FloatFormat.MaxFinite;
    var v := k as real * Pow2(a);
    if k == 0 {
      RoundedZero(f);
      assert v == 0.0;
    } else {
      var c: nat := if k < 0 then -k else k;
      assert Abs(v) == c as real * Pow2(a);
      var n := StepDivides(f, c, a);
      RoundedFinite(f, v);
      ExactQuotient(f, v, n);
    }
  }

  lemma ExactQuotient(f: FloatFormat, v: real, n: nat)
    requires v != 0.0 && Abs(v) == n as real * Step(f, Abs(v))
    requires Rounded(f, v).IsReal()
    ensures Rounded(f, v) == Finite(v)
  {
    hide Pow2, ILog2, Overflows, Step, IntPow2;
    var s := Step(f, Abs(v));
    assert Abs(v) / s == n as real;
    RoundIntegerFixes(n);
    assert n != 0;
    hide RoundInteger;
  }

  // ----- order -----

  lemma RoundIntegerMonotone(u: real, v: real)
    requires 0.0 <= u <= v
    ensures 0 <= RoundInteger(u) <= RoundInteger(v)
  {
    assert u.Floor == v.Floor || u.Floor + 1 <= v.Floor;
  }

  /** The binade a magnitude is rounded in, subnormals together. */
  function Binade(f: FloatFormat, m: real): int
    requires m > 0.0
  {
    if ILog2(m) < f.MinExponent() then f.MinExponent() else ILog2(m)
  }

  /** The rounded magnitude before the range check. */
  function Nearest(f: FloatFormat, m: real): real
    requires m > 0.0
  {
    Significand(f, m) as real * Step(f, m)
  }

  lemma StepOfBinade(f: FloatFormat, m: real)
    requires m > 0.0
    ensures Step(f, m) == Pow2(Binade(f, m) - f.mantissa)
    ensures (m / Step(f, m)) * Step(f, m) == m
    ensures Pow2(f.mantissa) * Step(f, m) == Pow2(Binade(f, m))
    ensures Pow2(f.mantissa + 1) * Step(f, m) == Pow2(Binade(f, m) + 1)
  {
    hide Pow2, ILog2;
    Pow2Add(f.mantissa, Binade(f, m) - f.mantissa);
    Pow2Add(f.mantissa + 1, Binade(f, m) - f.mantissa);
  }

  /** A rounded magnitude stays at or below the end of its binade. */
  lemma NearestBelow(f: FloatFormat, m: real)
    requires m > 0.0
    ensures 0 <= Significand(f, m) <= IntPow2(f.mantissa + 1)
    ensures 0.0 <= Nearest(f, m) <= Pow2(Binade(f, m) + 1)
  {
    hide Pow2, IntPow2, RoundInteger, Step;
    StepOfBinade(f, m);
    assert m < Pow2(Binade(f, m) + 1) by {
      Pow2Monotone(ILog2(m) + 1, Binade(f, m) + 1);
    }
    hide ILog2, Binade;
    var s := Step(f, m);
    IntPow2Real(f.mantissa + 1);
    Scale(m / s, IntPow2(f.mantissa + 1) as real, s, m, Pow2(Binade(f, m) + 1));
    Scale(0.0, m / s, s, 0.0, m);
    RoundIntegerMonotone(0.0, m / s);
    RoundIntegerFixes(0);
    RoundIntegerBelow(m / s, IntPow2(f.mantissa + 1));
    Scale(Significand(f, m) as real, IntPow2(f.mantissa + 1) as real, s, Nearest(f, m), Pow2(Binade(f, m) + 1));
    Scale(0.0, Significand(f, m) as real, s, 0.0, Nearest(f, m));
  }

  /** And a normal one at or above its start. */
  lemma NearestAbove(f: FloatFormat, m: real)
    requires m > 0.0 && ILog2(m) >= f.MinExponent()
    ensures Pow2(ILog2(m)) <= Nearest(f, m)
  {
    hide Pow2, IntPow2, RoundInteger, Step;
    StepOfBinade(f, m);
    assert Pow2(Binade(f, m)) <= m;
    hide ILog2;
    var s := Step(f, m);
    IntPow2Real(f.mantissa);
    Scale(IntPow2(f.mantissa) as real, m / s, s, Pow2(Binade(f, m)), m);
    RoundIntegerFixes(IntPow2(f.mantissa));
    RoundIntegerMonotone(IntPow2(f.mantissa) as real, m / s);
    Scale(IntPow2(f.mantissa) as real, Significand(f, m) as real, s, Pow2(Binade(f, m)), Nearest(f, m));
  }

  lemma ILog2Monotone(u: real, v: real)
    requires 0.0 < u <= v
    ensures ILog2(u) <= ILog2(v)
  {
    hide Pow2;
    if ILog2(v) + 1 <= ILog2(u) {
      Pow2Monotone(ILog2(v) + 1, ILog2(u));
    }
  }

  lemma SameBinade(f: FloatFormat, u: real, v: real)
    requires 0.0 < u <= v && Binade(f, u) == Binade(f, v)
    ensures Significand(f, u) <= Significand(f, v) && Nearest(f, u) <= Nearest(f, v)
  {
    hide Pow2, RoundInteger, Step, ILog2, Binade;
    StepOfBinade(f, u);
    StepOfBinade(f, v);
    var s := Step(f, u);
    Scale(u / s, v / s, s, u, v);
    Scale(0.0, u / s, s, 0.0, u);
    RoundIntegerMonotone(u / s, v / s);
    Scale(Significand(f, u) as real, Significand(f, v) as real, s, Nearest(f, u), Nearest(f, v));
  }

  lemma NearestMonotone(f: FloatFormat, u: real, v: real)
    requires 0.0 < u <= v
    ensures Nearest(f, u) <= Nearest(f, v)
  {
    ILog2Monotone(u, v);
    hide Pow2, ILog2, Nearest;
    if Binade(f, u) == Binade(f, v) {
      SameBinade(f, u, v);
    } else {
      NearestBelow(f, u);
      NearestAbove(f, v);
      Pow2Monotone(Binade(f, u) + 1, ILog2(v));
    }
  }

  lemma OverflowMonotone(f: FloatFormat, u: real, v: real)
    requires 0.0 < u <= v && Overflows(f, u)
    ensures Overflows(f, v)
  {
    ILog2Monotone(u, v);
    hide Pow2, ILog2, IntPow2, Step, RoundInteger, Significand;
    if ILog2(v) == ILog2(u) {
      SameBinade(f, u, v);
      NearestBelow(f, v);
    }
  }

  lemma RoundedPositive(f: FloatFormat, m: real)
    requires m > 0.0
    ensures Rounded(f, m) == if Overflows(f, m) then Infinite(false) else Finite(Nearest(f, m))
  {
    hide Overflows, Significand, Step;
  }

  /** Rounding keeps the order, overflow to infinity included. */
  lemma RoundedMonotone(f: FloatFormat, u: real, v: real)
    requires 0.0 <= u <= v
    ensures Rounded(f, v).Infinite? || (Rounded(f, v).IsReal() && Rounded(f, v).Value() >= 0.0)
    ensures Rounded(f, v).IsReal() ==> Rounded(f, u).IsReal() && 0.0 <= Rounded(f, u).Value() <= Rounded(f, v).Value()
  {
    if v > 0.0 {
      RoundedPositive(f, v);
      NearestBelow(f, v);
      if u > 0.0 {
        RoundedPositive(f, u);
        NearestBelow(f, u);
        hide Rounded, Overflows, Nearest;
        NearestMonotone(f, u, v);
        if Overflows(f, u) {
          OverflowMonotone(f, u, v);
        }
      }
    }
  }

  /** A normal magnitude is stored as its rounded number of steps. */
  lemma RoundedInBinade(f: FloatFormat, m: real, e: int, n: nat)
    requires Pow2(e) <= m < Pow2(e + 1) && f.MinExponent() <= e && e < f.MaxExponent()
    requires RoundInteger(m / Pow2(e - f.mantissa)) == n && n > 0
    ensures Rounded(f, m) == Finite(n as real * Pow2(e - f.mantissa))
  {
    hide Pow2, RoundInteger;
    var g := ILog2(m);
    if g < e {
      Pow2Monotone(g + 1, e);
    } else if g > e {
      Pow2Monotone(e + 1, g);
    }
    assert ILog2(m) == e;
    hide ILog2;
    RoundedPositive(f, m);
  }

  // ----- what rounding means, without the way it is computed -----

  /** An integer of at most p bits times a power of two not below the smallest subnormal. */
  ghost predicate Representable(f: FloatFormat, x: real) {
    exists n: int, a: int :: IsScaled(f, x, n, a)
  }

  ghost predicate IsScaled(f: FloatFormat, x: real, n: int, a: int) {
    a >= f.MinExponent() - f.mantissa && -(IntPow2(f.mantissa + 1) as int) <= n <= IntPow2(f.mantissa + 1)
    && x == Site(n, Pow2(a))
  }

  lemma IntegerNearest(y: real, k: int)
    ensures Abs(RoundInteger(y) as real - y) <= Abs(k as real - y)
  {
    RoundIntegerNear(y);
    OtherInteger(RoundInteger(y), k, y);
  }

  /** An integer within half of y is at least as near as any other. */
  lemma OtherInteger(n: int, k: int, y: real)
    requires Abs(n as real - y) <= 0.5
    ensures Abs(n as real - y) <= Abs(k as real - y)
  {
    assert k == n || k <= n - 1 || k >= n + 1;
  }

  lemma GapScales(v: real, t: real, s: real)
    requires s > 0.0
    ensures Abs(v * s - t * s) == Abs(v - t) * s
  {
    Distribute(v, t, s);
    AbsProduct(v - t, s);
  }

  lemma ScaledNearest(n: real, k: real, y: real, s: real, p: real, q: real, m: real)
    requires s > 0.0 && m == y * s && p == n * s && q == k * s && Abs(n - y) <= Abs(k - y)
    ensures Abs(p - m) <= Abs(q - m)
  {
    GapScales(n, y, s);
    GapScales(k, y, s);
    Scale(Abs(n - y), Abs(k - y), s, Abs(p - m), Abs(q - m));
  }

  /** The significand is a rounded number of steps. */
  lemma InSteps(f: FloatFormat, m: real) returns (y: real)
    requires m > 0.0
    ensures m == y * Step(f, m) && Significand(f, m) == RoundInteger(y)
    ensures Nearest(f, m) == Significand(f, m) as real * Step(f, m)
  {
    hide RoundInteger, Step;
    y := m / Step(f, m);
    QuotientTimes(m, Step(f, m), y);
  }

  /** No multiple of the step is nearer. */
  lemma MultipleNearest(f: FloatFormat, m: real, k: int)
    requires m > 0.0
    ensures Abs(Nearest(f, m) - m) <= Abs(Site(k, Step(f, m)) - m)
  {
    hide RoundInteger, Step, Significand, Nearest, Abs;
    var y := InSteps(f, m);
    IntegerNearest(y, k);
    ScaledNearest(Significand(f, m) as real, k as real, y, Step(f, m), Nearest(f, m), Site(k, Step(f, m)), m);
  }

  /** No representable number is nearer than the rounded magnitude. */
  lemma NearestAmong(f: FloatFormat, m: real, x: real, n: int, a: int)
    requires m > 0.0 && IsScaled(f, x, n, a)
    ensures Abs(Nearest(f, m) - m) <= Abs(x - m)
  {
    hide Pow2, IntPow2, Nearest, ILog2, Step, Abs;
    var low := Binade(f, m) - f.mantissa;
    StepOfBinade(f, m);
    if a >= low {
      var k := CoarserMultiple(n, a, low);
      MultipleNearest(f, m, k);
    } else {
      BelowBinade(f, m, x, n, a);
      IntPow2Real(f.mantissa);
      assert Site(IntPow2(f.mantissa), Step(f, m)) == Pow2(Binade(f, m));
      MultipleNearest(f, m, IntPow2(f.mantissa));
      FartherBelow(Pow2(Binade(f, m)), x, m);
    }
  }

  lemma FartherBelow(p: real, x: real, m: real)
    requires x <= p <= m
    ensures Abs(p - m) <= Abs(x - m)
  {
  }

  /** A multiple of a larger power of two is a multiple of a smaller one. */
  lemma CoarserMultiple(n: int, a: int, low: int) returns (k: int)
    requires a >= low
    ensures Site(n, Pow2(a)) == Site(k, Pow2(low))
  {
    hide Pow2, IntPow2;
    Pow2Add(a - low, low);
    IntPow2Real(a - low);
    k := n * IntPow2(a - low);
    assert k as real == n as real * IntPow2(a - low) as real;
    ProductAssociates(n as real, IntPow2(a - low) as real, Pow2(low), Pow2(a), Site(n, Pow2(a)));
  }

  /** A number on a finer grid than the rounding step lies below the binade of m. */
  lemma BelowBinade(f: FloatFormat, m: real, x: real, n: int, a: int)
    requires m > 0.0 && IsScaled(f, x, n, a) && a < Binade(f, m) - f.mantissa
    ensures x <= Pow2(Binade(f, m)) <= m
  {
    hide Pow2, IntPow2;
    assert Binade(f, m) == ILog2(m);
    hide ILog2, Binade;
    Pow2Monotone(f.mantissa + 1 + a, Binade(f, m));
    BelowPower(n, a, f.mantissa + 1);
  }

  lemma BelowPower(n: int, a: int, bits: nat)
    requires n <= IntPow2(bits)
    ensures Site(n, Pow2(a)) <= Pow2(bits + a)
  {
    hide Pow2, IntPow2;
    IntPow2Real(bits);
    Pow2Add(bits, a);
    Scale(n as real, IntPow2(bits) as real, Pow2(a), Site(n, Pow2(a)), Pow2(bits + a));
  }

  /** The value of a rounded state, by magnitude and sign. */
  lemma RoundedMagnitude(f: FloatFormat, v: real)
    requires v != 0.0 && Rounded(f, v).IsReal()
    ensures Rounded(f, v).Value() == Signed(v, Nearest(f, Abs(v)))
  {
    RoundedValue(f, v);
    hide Rounded, RoundInteger, Step;
  }

  /** A finite result is the representable number nearest to the exact value. */
  lemma RoundedNearest(f: FloatFormat, v: real, x: real)
    requires Rounded(f, v).IsReal() && Representable(f, x)
    ensures Abs(Rounded(f, v).Value() - v) <= Abs(x - v)
  {
    hide Pow2, IntPow2, Nearest, Rounded;
    var n: int, a: int :| IsScaled(f, x, n, a);
    if v == 0.0 {
      RoundedZero(f);
    } else {
      RoundedMagnitude(f, v);
      var y, k := if v < 0.0 then -x else x, if v < 0.0 then -n else n;
      assert y == Site(k, Pow2(a));
      NearestAmong(f, Abs(v), y, k, a);
    }
  }

  /** The constants of binary64: largest finite value, unit roundoff, half of the smallest subnormal, overflow edge. */
  lemma Binary64Constants()
    ensures BINARY64.MaxFinite() == 9007199254740991.0 * Pow2(971)
    ensures BINARY64.UnitRoundoff() == Pow2(-53) && BINARY64.HalfMinSubnormal() == Pow2(-1075)
    ensures BINARY64.OverflowEdge() == BINARY64.MaxFinite() + Pow2(971) / 2.0
  {
    hide Pow2, IntPow2;
    Binary64Powers();
    assert BINARY64.MaxExponent() == 1023;
    SplitHalf(9007199254740992.0, Pow2(971));
  }

  lemma Binary64Powers()
    ensures IntPow2(53) == 9007199254740992 && IntPow2(11) == 2048
  {
    assert IntPow2(13) == 8192;
    IntPow2Add(13, 13);
    IntPow2Add(26, 26);
    assert IntPow2(53) == 2 * IntPow2(52);
  }

  lemma SplitHalf(n: real, s: real)
    ensures (n - 0.5) * s == (n - 1.0) * s + s / 2.0
  {
  }

  /** And it is representable itself. */
  lemma RoundedRepresentable(f: FloatFormat, v: real)
    requires Rounded(f, v).IsReal()
    ensures Representable(f, Rounded(f, v).Value())
  {
    hide Pow2, IntPow2, RoundInteger, Step, Rounded, ILog2, Nearest;
    if v == 0.0 {
      RoundedZero(f);
      assert IsScaled(f, 0.0, 0, f.MinExponent() - f.mantissa) by { hide FloatFormat.MinExponent; }
    } else {
      RoundedMagnitude(f, v);
      NearestScaled(f, Abs(v), v < 0.0);
    }
  }

  lemma NearestScaled(f: FloatFormat, m: real, negative: bool)
    requires m > 0.0
    ensures Representable(f, if negative then -Nearest(f, m) else Nearest(f, m))
  {
    hide Pow2, IntPow2, RoundInteger, Step, ILog2, Significand, Nearest;
    NearestBelow(f, m);
    StepOfBinade(f, m);
    var y := InSteps(f, m);
    var n, a := Significand(f, m), Binade(f, m) - f.mantissa;
    var k := if negative then -n else n;
    SiteNegated(n, Pow2(a));
    hide Binade, Site;
    assert IsScaled(f, if negative then -Nearest(f, m) else Nearest(f, m), k, a);
  }

  lemma SiteNegated(n: int, s: real)
    ensures Site(-n, s) == -Site(n, s) && Site(n, s) == n as real * s
  {
  }

  lemma QuotientOf(a: real, b: real, q: real)
    requires b > 0.0 && a == q * b
    ensures a / b == q
  {
  }

  lemma HalfwayInteger(n: int)
    ensures RoundInteger(n as real + 0.5) == if n % 2 == 0 then n else n + 1
  {
    var v := n as real + 0.5;
    if n >= 0 {
      assert v.Floor == n;
    } else {
      assert (0.0 - v).Floor == -n - 1;
    }
  }

  /** The end of (n + 1/2) * 2^a that is even: a tie between neighbours of one binade, or of the subnormals. */
  lemma RoundedTie(f: FloatFormat, n: nat, a: int, v: real)
    requires f.Valid() && a >= f.MinExponent() - f.mantissa && n < IntPow2(f.mantissa + 1)
    requires n >= IntPow2(f.mantissa) || a == f.MinExponent() - f.mantissa
    requires Abs(v) == (n as real + 0.5) * Pow2(a) && (n + 1) as real * Pow2(a) <= f.MaxFinite()
    ensures Rounded(f, v).IsReal()
    ensures Rounded(f, v).Value() == Signed(v, (if n % 2 == 0 then n else n + 1) as real * Pow2(a))
  {
    hide Pow2, IntPow2, RoundInteger, FloatFormat.MaxFinite, Rounded;
    var m, s := Abs(v), Pow2(a);
    Scale(0.0, n as real + 0.5, s, 0.0, m);
    Scale(n as real + 0.5, (n + 1) as real, s, m, (n + 1) as real * s);
    TieBinade(f, n, a, m);
    RoundedFinite(f, v);
    RoundedMagnitude(f, v);
    StepOfBinade(f, m);
    QuotientOf(m, s, n as real + 0.5);
    HalfwayInteger(n);
    hide Step;
  }

  /** Such a value is rounded to a multiple of 2^a. */
  lemma TieBinade(f: FloatFormat, n: nat, a: int, m: real)
    requires a >= f.MinExponent() - f.mantissa && n < IntPow2(f.mantissa + 1)
    requires n >= IntPow2(f.mantissa) || a == f.MinExponent() - f.mantissa
    requires m == (n as real + 0.5) * Pow2(a) && m > 0.0
    ensures Binade(f, m) - f.mantissa == a
  {
    hide Pow2, IntPow2;
    var s, g, p := Pow2(a), ILog2(m), f.mantissa;
    IntPow2Real(p);
    IntPow2Real(p + 1);
    Pow2Add(p, a);
    Pow2Add(p + 1, a);
    Scale(n as real + 0.5, IntPow2(p + 1) as real, s, m, Pow2(p + 1 + a));
    if g > p + a {
      Pow2Monotone(p + 1 + a, g);
    }
    if n >= IntPow2(p) {
      Scale(IntPow2(p) as real, n as real + 0.5, s, Pow2(p + a), m);
      if g < p + a {
        Pow2Monotone(g + 1, p + a);
      }
    }
  }

  lemma RoundsToTop(y: real, n: int)
    requires n >= 2 && n % 2 == 0 && 0.0 <= y < n as real
    ensures RoundInteger(y) == n <==> y >= n as real - 0.5
  {
  }

  /** Infinity is stored exactly from half a step beyond the largest finite value on. */
  lemma OverflowsExactly(f: FloatFormat, m: real)
    requires f.Valid() && m > 0.0
    ensures Overflows(f, m) <==> m >= f.OverflowEdge()
  {
    hide Pow2, IntPow2, Overflows, ILog2, FloatFormat.MaxExponent, FloatFormat.OverflowEdge;
    if ILog2(m) == f.MaxExponent() {
      TopBinade(f, m);
    } else {
      OutsideTop(f, m);
      EdgeWithin(f);
      BeyondTop(m, f.MaxExponent());
    }
  }

  lemma EdgeWithin(f: FloatFormat)
    ensures Pow2(f.MaxExponent()) <= f.OverflowEdge() <= Pow2(f.MaxExponent() + 1)
  {
    hide Pow2, IntPow2, FloatFormat.MaxExponent;
    TopEdges(f.mantissa, f.MaxExponent());
  }

  lemma OutsideTop(f: FloatFormat, m: real)
    requires f.Valid() && m > 0.0 && ILog2(m) != f.MaxExponent()
    ensures Overflows(f, m) <==> ILog2(m) > f.MaxExponent()
  {
    hide ILog2, Significand, IntPow2;
  }

  lemma BeyondTop(m: real, top: int)
    requires m > 0.0
    ensures ILog2(m) > top ==> m >= Pow2(top + 1)
    ensures ILog2(m) < top ==> m < Pow2(top)
  {
    hide Pow2;
    var e := ILog2(m);
    if e > top {
      Pow2Monotone(top + 1, e);
    } else if e < top {
      Pow2Monotone(e + 1, top);
    }
  }

  /** In the last binade overflow is the significand reaching its end. */
  lemma TopBinade(f: FloatFormat, m: real)
    requires f.Valid() && m > 0.0 && ILog2(m) == f.MaxExponent()
    ensures Overflows(f, m) <==> m >= f.OverflowEdge()
  {
    hide Pow2, IntPow2, RoundInteger, Step, Significand, FloatFormat.MaxExponent, FloatFormat.MinExponent;
    var p, top := f.mantissa, f.MaxExponent();
    var y := InSteps(f, m);
    assert Step(f, m) == Pow2(top - p) by { StepOfBinade(f, m); }
    assert m < Pow2(top + 1);
    hide ILog2;
    TopEdges(p, top);
    Compared(y, IntPow2(p + 1) as real, Pow2(top - p), m, Pow2(top + 1), f.OverflowEdge());
    hide FloatFormat.OverflowEdge;
    RoundsToTop(y, IntPow2(p + 1));
  }

  lemma Compared(y: real, n: real, s: real, m: real, end: real, edge: real)
    requires s > 0.0 && m == y * s && end == n * s && edge == (n - 0.5) * s && 0.0 < m < end
    ensures 0.0 <= y < n && (m >= edge <==> y >= n - 0.5)
  {
    Scale(0.0, y, s, 0.0, m);
    Scale(y, n, s, m, end);
    Scale(n - 0.5, y, s, edge, m);
  }

  /** The edge of overflow lies between the last two powers of two. */
  lemma TopEdges(p: nat, top: int)
    ensures IntPow2(p + 1) >= 2 && IntPow2(p + 1) % 2 == 0
    ensures IntPow2(p + 1) as real * Pow2(top - p) == Pow2(top + 1)
    ensures Pow2(top) <= (IntPow2(p + 1) as real - 0.5) * Pow2(top - p) <= Pow2(top + 1)
  {
    hide Pow2, IntPow2;
    EvenPower(p);
    TopPower(p, top, top - p);
    TopPower(p + 1, top + 1, top - p);
    EdgeBetween(IntPow2(p) as real, IntPow2(p + 1) as real, Pow2(top - p), Pow2(top), Pow2(top + 1));
  }

  lemma EvenPower(p: nat)
    ensures IntPow2(p + 1) >= 2 && IntPow2(p + 1) % 2 == 0
    ensures IntPow2(p) as real >= 1.0 && IntPow2(p + 1) as real == 2.0 * IntPow2(p) as real
  {
  }

  lemma EdgeBetween(h: real, n: real, s: real, x: real, y: real)
    requires h >= 1.0 && n == 2.0 * h && s > 0.0 && x == h * s && y == n * s
    ensures x <= (n - 0.5) * s <= y
  {
    Scale(n - 0.5, n, s, (n - 0.5) * s, y);
    Scale(h, n - 0.5, s, x, (n - 0.5) * s);
  }

  lemma TopPower(p: nat, top: int, low: int)
    requires low == top - p
    ensures IntPow2(p) as real * Pow2(low) == Pow2(top)
  {
    hide Pow2, IntPow2;
    IntPow2Real(p);
    Pow2Add(p, low);
  }

  /** No finite state reaches beyond the power of two above the largest one. */
  lemma RoundedWithin(f: FloatFormat, v: real)
    requires f.Valid() && Rounded(f, v).IsReal()
    ensures Abs(Rounded(f, v).Value()) <= Pow2(f.MaxExponent() + 1)
  {
    hide Pow2, IntPow2, RoundInteger, Step, ILog2, Significand;
    if v == 0.0 {
      RoundedZero(f);
    } else {
      var m := Abs(v);
      RoundedMagnitude(f, v);
      NearestBelow(f, m);
      BinadeWithin(f, v);
      hide Binade, Nearest;
      Pow2Monotone(Binade(f, m) + 1, f.MaxExponent() + 1);
    }
  }

  lemma BinadeWithin(f: FloatFormat, v: real)
    requires f.Valid() && v != 0.0 && Rounded(f, v).IsReal()
    ensures Binade(f, Abs(v)) <= f.MaxExponent()
  {
    hide Significand, Step, ILog2, IntPow2;
  }
}
