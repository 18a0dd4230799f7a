/**
 The sequential reduction of Model C (one rounding after each exact
 multiply-add, then a stored bias and one more rounding) and the a-priori
 error bound that the acceptance proofs rely on.
 */
module MacError {
  import opened ExactArithmetic
  import opened FloatAccumulator
  import opened Results

  function Sum(ps: seq<real>): real {
    if |ps| == 0 then 0.0 else Sum(ps[..|ps| - 1]) + ps[|ps| - 1]
  }

  function AbsSum(ps: seq<real>): (total: real)
    ensures total >= 0.0
  {
    if |ps| == 0 then 0.0 else AbsSum(ps[..|ps| - 1]) + Abs(ps[|ps| - 1])
  }

  lemma {:induction false} SumBelowAbsSum(ps: seq<real>)
    ensures Abs(Sum(ps)) <= AbsSum(ps)
  {
    if |ps| > 0 {
      SumBelowAbsSum(ps[..|ps| - 1]);
    }
  }

  lemma ZeroSites(low: real, step: real)
    ensures Site(0, low) == 0.0 && Site(0, step) == 0.0
  {
  }

  lemma {:induction false} AbsSumBelow(xs: seq<real>, maximum: real)
    requires forall i :: 0 <= i < |xs| ==> Abs(xs[i]) <= maximum
    ensures AbsSum(xs) <= Site(|xs|, maximum)
  {
    hide Site;
    if |xs| > 0 {
      AbsSumBelow(xs[..|xs| - 1], maximum);
      SiteNext(|xs| - 1, maximum);
    } else {
      ZeroSites(maximum, maximum);
    }
  }

  /** One exact add followed by one rounding; a nonfinite state absorbs finite addends. */
  function Accumulate(f: FloatFormat, state: Stored, addend: Stored): Stored {
    if state.NotANumber? || addend.NotANumber? then NotANumber
    else if state.Infinite? && addend.Infinite? then (if state.negative == addend.negative then state else NotANumber)
    else if state.Infinite? then state
    else if addend.Infinite? then addend
    else if state.NegativeZero? && addend.NegativeZero? then NegativeZero
    else Rounded(f, state.Value() + addend.Value())
  }

  /** Sums commute; infinities absorb real numbers and cancel into no number; only two negative zeros keep the sign. */
  lemma SpecialSums(f: FloatFormat, a: Stored, b: Stored)
    ensures Accumulate(f, a, b) == Accumulate(f, b, a)
    ensures Accumulate(f, a, NotANumber) == NotANumber
    ensures a.Infinite? && (b == a || b.IsReal()) ==> Accumulate(f, a, b) == a
    ensures a.Infinite? && b.Infinite? && a != b ==> Accumulate(f, a, b) == NotANumber
    ensures a.IsReal() && b.IsReal() && a.Value() + b.Value() == 0.0 ==>
      Accumulate(f, a, b) == if a.NegativeZero? && b.NegativeZero? then NegativeZero else Finite(0.0)
  {
    hide Overflows, Significand, Step;
  }

  function Reduced(f: FloatFormat, ps: seq<real>): Stored {
    if |ps| == 0 then Finite(0.0)
    else Accumulate(f, Reduced(f, ps[..|ps| - 1]), Finite(ps[|ps| - 1]))
  }

  /** model_c: a bias, if there is one, is stored first and then added once. */
  function ModelC(f: FloatFormat, ps: seq<real>, bias: Option<real>): Stored {
    if bias.None? then Reduced(f, ps) else Accumulate(f, Reduced(f, ps), Rounded(f, bias.value))
  }

  datatype Bound = Bound(roundings: nat, magnitude: real, error: real, overflowExcluded: bool)

  /** (n*u*T + n*h)/(1 - n*u) for n roundings of sums of magnitude at most T. */
  function RoundingError(f: FloatFormat, n: nat, total: real): real
    requires Site(n, f.UnitRoundoff()) < 1.0
  {
    (Site(n, f.UnitRoundoff()) * total + Site(n, f.HalfMinSubnormal())) / (1.0 - Site(n, f.UnitRoundoff()))
  }

  /** error_bound; the constants are those of the accumulator format. */
  function ErrorBound(f: FloatFormat, sumAbsoluteProducts: real, k: int, absoluteBias: Option<real>): Result<Bound> {
    if k < 1 || sumAbsoluteProducts < 0.0 then Failure("reduction length or magnitude")
    else if absoluteBias.Some? && absoluteBias.value < 0.0 then Failure("absolute bias must be nonnegative")
    else
      var total := sumAbsoluteProducts + absoluteBias.GetOr(0.0);
      var n: nat := if absoluteBias.Some? then k + 2 else k;
      var u := f.UnitRoundoff();
      var denominator := 1.0 - Site(n, u);
      if denominator <= 0.0 then Failure("rounding bound requires n*u < 1")
      else
        var error := RoundingError(f, n, total);
        Success(Bound(n, total, error, total + error <= f.MaxFinite()))
  }

  /** The bound is refused exactly for no products, a negative magnitude, or too many roundings. */
  lemma ErrorBoundFails(f: FloatFormat, sumAbsoluteProducts: real, k: int, absoluteBias: Option<real>)
    ensures ErrorBound(f, sumAbsoluteProducts, k, absoluteBias).Failure? <==>
      || k <= 0 || sumAbsoluteProducts < 0.0 || (absoluteBias.Some? && absoluteBias.value < 0.0)
      || Site(if absoluteBias.Some? then k + 2 else k, f.UnitRoundoff()) >= 1.0
  {
    hide Site, FloatFormat.MaxFinite, FloatFormat.UnitRoundoff, RoundingError;
  }

  /** i*c/(1 - i*u): the bound after i roundings whose local error is at most c. */
  function Growth(i: nat, u: real, c: real): real
    requires Site(i, u) < 1.0
  {
    Site(i, c) / (1.0 - Site(i, u))
  }

  lemma GrowthEquation(i: nat, u: real, c: real)
    requires u > 0.0 && c >= 0.0 && Site(i, u) < 1.0
    ensures Growth(i, u, c) * (1.0 - Site(i, u)) == Site(i, c)
    ensures Growth(i, u, c) >= 0.0
  {
    SiteNonnegative(i, c);
    hide Site;
    var d := 1.0 - Site(i, u);
    var g := Growth(i, u, c);
    Scale(0.0, g, d, 0.0, g * d);
  }

  lemma SiteNext(i: nat, u: real)
    ensures Site(i + 1, u) == Site(i, u) + u
  {
    SiteSum(i, 1, u);
  }

  lemma SiteCross(i: nat, u: real, c: real)
    ensures u * Site(i, c) == Site(i, u) * c
  {
  }

  /** One more rounding: g_i + (u*g_i + c) <= g_(i+1). */
  lemma GrowthStep(i: nat, u: real, c: real)
    requires u > 0.0 && c >= 0.0 && Site(i + 1, u) < 1.0
    ensures Site(i, u) < 1.0
    ensures Growth(i, u, c) + (u * Growth(i, u, c) + c) <= Growth(i + 1, u, c)
  {
    hide Growth, Site;
    SiteNext(i, u);
    SiteNext(i, c);
    SiteCross(i, u, c);
    GrowthEquation(i, u, c);
    GrowthEquation(i + 1, u, c);
    GrowthInequality(Site(i, c), u, c, Growth(i, u, c), Growth(i + 1, u, c), Site(i, u));
  }

  lemma GrowthInequality(e: real, u: real, c: real, g: real, h: real, x: real)
    requires u > 0.0 && c >= 0.0 && x + u < 1.0 && h >= 0.0
    requires u * e == x * c
    requires g * (1.0 - x) == e
    requires h * (1.0 - (x + u)) == e + c
    ensures g + (u * g + c) <= h
  {
    var d := 1.0 - x;
    var a := g + (u * g + c);
    assert a * d == e + c by {
      var p := u * g;
      assert p * d == x * c by { assert p * d == u * (g * d); }
      assert a * d == g * d + p * d + c * d;
      assert c * d == c - x * c;
    }
    assert h * d == e + c + h * u;
    Scale(0.0, h, u, 0.0, h * u);
    Scale(a, h, d, a * d, h * d);
  }

  lemma {:induction false} GrowthMonotone(i: nat, n: nat, u: real, c: real)
    requires u > 0.0 && c >= 0.0 && Site(n, u) < 1.0 && i <= n
    ensures Site(i, u) < 1.0
    ensures 0.0 <= Growth(i, u, c) <= Growth(n, u, c)
    decreases n - i
  {
    hide Growth, Site;
    if i < n {
      GrowthMonotone(i + 1, n, u, c);
      GrowthStep(i, u, c);
      GrowthEquation(i, u, c);
      Scale(0.0, Growth(i, u, c), u, 0.0, u * Growth(i, u, c));
    } else {
      GrowthEquation(i, u, c);
    }
  }

  /** The error after one more exact add and one rounding with relative part u and absolute part h. */
  lemma OneRounding(state: real, exact: real, addend: real, rounded: real, d: real, t: real, u: real, h: real,
                    relative: real, ut: real, ud: real)
    requires Abs(state - exact) <= d && Abs(exact + addend) <= t && u > 0.0
    requires relative == Abs(state + addend) * u && ut == t * u && ud == d * u
    requires Abs(rounded - (state + addend)) <= relative + h
    ensures Abs(rounded - (exact + addend)) <= d + (ud + (ut + h))
  {
    var w := Abs(state + addend);
    assert w <= t + d;
    assert (t + d) * u == ut + ud;
    Scale(w, t + d, u, relative, ut + ud);
  }

  function LocalError(f: FloatFormat, t: real): (c: real)
    ensures t >= 0.0 ==> c >= 0.0
  {
    f.UnitRoundoff() * t + f.HalfMinSubnormal()
  }

  /** Adding a real to a real state is one rounding of the exact sum. */
  lemma AccumulateReal(f: FloatFormat, state: Stored, addend: Stored, t: real)
    requires f.Valid() && state.IsReal() && addend.IsReal()
    requires Abs(state.Value() + addend.Value()) <= f.MaxFinite()
    ensures Accumulate(f, state, addend).IsReal()
    ensures Abs(Accumulate(f, state, addend).Value() - (state.Value() + addend.Value()))
         <= LocalError(f, Abs(state.Value() + addend.Value()))
  {
    hide Rounded, FloatFormat.MaxFinite, LocalError;
    var v := state.Value() + addend.Value();
    if state.NegativeZero? && addend.NegativeZero? {
      RoundedZero(f);
      RoundedLocally(f, 0.0);
    } else {
      RoundedFinite(f, v);
      RoundedLocally(f, v);
    }
  }

  /** One rounding moves a value by at most the local error of its magnitude. */
  lemma RoundedLocally(f: FloatFormat, v: real)
    requires Rounded(f, v).IsReal()
    ensures Abs(Rounded(f, v).Value() - v) <= LocalError(f, Abs(v))
  {
    hide Rounded, FloatFormat.UnitRoundoff, FloatFormat.HalfMinSubnormal;
    RoundedError(f, v);
  }

  /** Every prefix of the reduction stays finite and within the growth bound of its exact sum. */
  lemma {:induction false} ReductionError(f: FloatFormat, ps: seq<real>, t: real, n: nat)
    requires f.Valid() && AbsSum(ps) <= t && |ps| <= n && Site(n, f.UnitRoundoff()) < 1.0
    requires t + Growth(n, f.UnitRoundoff(), LocalError(f, t)) <= f.MaxFinite()
    ensures Site(|ps|, f.UnitRoundoff()) < 1.0
    ensures Reduced(f, ps).IsReal()
    ensures Abs(Reduced(f, ps).Value() - Sum(ps)) <= Growth(|ps|, f.UnitRoundoff(), LocalError(f, t))
  {
    hide Rounded, Growth, Site, FloatFormat.UnitRoundoff, FloatFormat.MaxFinite, LocalError, Accumulate;
    var u, c := f.UnitRoundoff(), LocalError(f, t);
    UnitPositive(f);
    GrowthMonotone(|ps|, n, u, c);
    if |ps| > 0 {
      var k := |ps| - 1;
      var prefix, p := ps[..k], ps[k];
      ReductionError(f, prefix, t, n);
      SumBelowAbsSum(ps);
      GrowthMonotone(k, n, u, c);
      var state := Reduced(f, prefix);
      AccumulateReal(f, state, Finite(p), t);
      OneStepGrowth(f, state.Value(), Sum(prefix), p, Reduced(f, ps).Value(), k, t);
    }
  }

  lemma UnitPositive(f: FloatFormat)
    ensures f.UnitRoundoff() > 0.0 && f.HalfMinSubnormal() > 0.0
  {
  }

  lemma OneStepGrowth(f: FloatFormat, state: real, exact: real, addend: real, rounded: real, k: nat, t: real)
    requires t >= 0.0 && Site(k, f.UnitRoundoff()) < 1.0 && Site(k + 1, f.UnitRoundoff()) < 1.0
    requires Abs(state - exact) <= Growth(k, f.UnitRoundoff(), LocalError(f, t))
    requires Abs(exact + addend) <= t
    requires Abs(rounded - (state + addend)) <= LocalError(f, Abs(state + addend))
    ensures Abs(rounded - (exact + addend)) <= Growth(k + 1, f.UnitRoundoff(), LocalError(f, t))
  {
    hide Growth, Site, FloatFormat.UnitRoundoff, FloatFormat.HalfMinSubnormal;
    UnitPositive(f);
    var u, h := f.UnitRoundoff(), f.HalfMinSubnormal();
    var d := Growth(k, u, LocalError(f, t));
    OneRounding(state, exact, addend, rounded, d, t, u, h, u * Abs(state + addend), u * t, u * d);
    GrowthStep(k, u, LocalError(f, t));
  }

  /** error_bound's quotient is the growth bound of its local error. */
  lemma ErrorIsGrowth(f: FloatFormat, t: real, n: nat)
    requires t >= 0.0 && Site(n, f.UnitRoundoff()) < 1.0
    ensures RoundingError(f, n, t) == Growth(n, f.UnitRoundoff(), LocalError(f, t))
  {
    hide FloatFormat.UnitRoundoff, FloatFormat.HalfMinSubnormal;
    var u, h := f.UnitRoundoff(), f.HalfMinSubnormal();
    SiteOfLocalError(n as real, u, t, h);
    SameQuotient(Site(n, u) * t + Site(n, h), Site(n, LocalError(f, t)), 1.0 - Site(n, u));
  }

  lemma SameQuotient(a: real, b: real, d: real)
    requires a == b && d != 0.0
    ensures a / d == b / d
  {
  }

  lemma SiteOfLocalError(n: real, u: real, t: real, h: real)
    ensures n * (u * t + h) == (n * u) * t + n * h
  {
    var v := u * t;
    assert n * (v + h) == n * v + n * h;
    assert n * v == (n * u) * t;
  }

  /** What a successful error_bound reports. */
  lemma ErrorBoundMeaning(f: FloatFormat, total: real, k: int, bias: Option<real>, bound: Bound)
    requires ErrorBound(f, total, k, bias) == Success(bound)
    ensures k >= 1 && total >= 0.0 && (bias.Some? ==> bias.value >= 0.0)
    ensures bound.roundings == (if bias.Some? then k + 2 else k)
    ensures bound.magnitude == total + bias.GetOr(0.0)
    ensures Site(bound.roundings, f.UnitRoundoff()) < 1.0
    ensures bound.error == Growth(bound.roundings, f.UnitRoundoff(), LocalError(f, bound.magnitude))
    ensures bound.overflowExcluded <==> bound.magnitude + bound.error <= f.MaxFinite()
  {
    hide FloatFormat.MaxFinite, RoundingError, Site, Pow2, Growth, LocalError, FloatFormat.UnitRoundoff;
    var n: nat := if bias.Some? then k + 2 else k;
    ErrorIsGrowth(f, total + bias.GetOr(0.0), n);
  }

  /** The certificate of error_bound without a bias holds for the whole reduction and every prefix. */
  lemma ReductionBound(f: FloatFormat, ps: seq<real>, total: real, bound: Bound)
    requires f.Valid() && AbsSum(ps) <= total
    requires ErrorBound(f, total, |ps|, None) == Success(bound) && bound.overflowExcluded
    ensures Reduced(f, ps).IsReal()
    ensures Abs(Reduced(f, ps).Value() - Sum(ps)) <= bound.error
  {
    hide ErrorBound, Pow2, Site, Growth, Reduced, LocalError;
    ErrorBoundMeaning(f, total, |ps|, None, bound);
    hide FloatFormat.UnitRoundoff, FloatFormat.MaxFinite;
    ReductionError(f, ps, total, |ps|);
  }

  /** With a bias there are two more roundings: one stores the bias, one adds it. */
  lemma MacBound(f: FloatFormat, ps: seq<real>, bias: Option<real>, total: real, bound: Bound)
    requires f.Valid() && AbsSum(ps) <= total
    requires ErrorBound(f, total, |ps|, Some(Abs(bias.GetOr(0.0)))) == Success(bound) && bound.overflowExcluded
    ensures Reduced(f, ps).IsReal() && Rounded(f, bias.GetOr(0.0)).IsReal() && ModelC(f, ps, bias).IsReal()
    ensures Abs(ModelC(f, ps, bias).Value() - (Sum(ps) + bias.GetOr(0.0))) <= bound.error
  {
    var b := bias.GetOr(0.0);
    hide ErrorBound, Pow2, Site, Growth, Reduced, LocalError, Accumulate, Rounded;
    ErrorBoundMeaning(f, total, |ps|, Some(Abs(b)), bound);
    hide FloatFormat.UnitRoundoff, FloatFormat.MaxFinite;
    BiasedReduction(f, ps, b, total + Abs(b), |ps| + 2);
  }

  lemma BiasedReduction(f: FloatFormat, ps: seq<real>, b: real, t: real, n: nat)
    requires f.Valid() && AbsSum(ps) + Abs(b) <= t && n == |ps| + 2 && Site(n, f.UnitRoundoff()) < 1.0
    requires t + Growth(n, f.UnitRoundoff(), LocalError(f, t)) <= f.MaxFinite()
    ensures Reduced(f, ps).IsReal() && Rounded(f, b).IsReal() && ModelC(f, ps, Some(b)).IsReal()
    ensures Abs(ModelC(f, ps, Some(b)).Value() - (Sum(ps) + b)) <= Growth(n, f.UnitRoundoff(), LocalError(f, t))
    ensures Abs(Reduced(f, ps).Value() - Sum(ps)) <= Growth(n, f.UnitRoundoff(), LocalError(f, t))
  {
    hide Site, Growth, Rounded, Accumulate, FloatFormat.UnitRoundoff, FloatFormat.MaxFinite,
         FloatFormat.HalfMinSubnormal, LocalError;
    var u, c, k := f.UnitRoundoff(), LocalError(f, t), |ps|;
    UnitPositive(f);
    ReductionError(f, ps, t, n);
    SumBelowAbsSum(ps);
    GrowthMonotone(k + 1, n, u, c);
    GrowthMonotone(k, n, u, c);
    RoundedFinite(f, b);
    RoundedLocally(f, b);
    var state, stored := Reduced(f, ps), Rounded(f, b);
    StoredBias(f, state.Value(), Sum(ps), b, stored.Value(), k, t);
    AccumulateReal(f, state, stored, t);
    var w := state.Value() + stored.Value();
    OneStepGrowth(f, w, Sum(ps) + b, 0.0, ModelC(f, ps, Some(b)).Value(), k + 1, t);
  }

  /** Storing the bias costs no more than one rounding of the running sum. */
  lemma StoredBias(f: FloatFormat, state: real, exact: real, b: real, stored: real, k: nat, t: real)
    requires t >= 0.0 && Site(k, f.UnitRoundoff()) < 1.0 && Site(k + 1, f.UnitRoundoff()) < 1.0
    requires Abs(state - exact) <= Growth(k, f.UnitRoundoff(), LocalError(f, t))
    requires Abs(b) <= t
    requires Abs(stored - b) <= LocalError(f, Abs(b))
    ensures Abs(state + stored - (exact + b)) <= Growth(k + 1, f.UnitRoundoff(), LocalError(f, t))
  {
    hide Growth, Site, FloatFormat.UnitRoundoff, FloatFormat.HalfMinSubnormal;
    UnitPositive(f);
    var u, c := f.UnitRoundoff(), LocalError(f, t);
    GrowthEquation(k, u, c);
    GrowthStep(k, u, c);
    var g := Growth(k, u, c);
    var x, y := u * Abs(b), u * t;
    Scale(Abs(b), t, u, x, y);
    assert c == y + f.HalfMinSubnormal();
    assert Abs(stored - b) <= c;
    Scale(0.0, g, u, 0.0, u * g);
  }
}
