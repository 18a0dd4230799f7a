/**
 The mean/store certificate for scaled binary and ternary: sums of stored
 values lie on a shifted lattice, and four sites per output threshold decide
 the distance of every possible mean from every threshold.
 */
module MappedMean {
  import opened ExactArithmetic
  import opened IntArithmetic
  import opened FloatAccumulator
  import opened MacError
  import opened Quantum
  import opened Codebook
  import opened Operands
  import opened Results

  /** One FP64 rounding per addition and one after the exact division. */
  function MeanState(f: FloatFormat, xs: seq<real>): Stored
    requires |xs| > 0
  {
    var state := Reduced(f, xs);
    if state.Finite? then Rounded(f, state.value / |xs| as real) else state
  }

  /** The value of the site i of the mean lattice. */
  function MeanSite(i: int, origin: real, step: real, count: Positive): real {
    (origin + Site(i, step)) / count as real
  }

  function Clip(i: int, last: nat): nat {
    if i < 0 then 0 else if i > last then last else i
  }

  /** The four sites tried around the quotient's floor. */
  predicate Candidate(i: nat, floor: int, last: nat) {
    i == Clip(floor - 1, last) || i == Clip(floor, last) || i == Clip(floor + 1, last) || i == Clip(floor + 2, last)
  }

  /** For every site there is a candidate no farther from the position, and a candidate off it if the site is. */
  lemma NearestCandidate(position: real, last: nat, i: nat) returns (c: nat)
    requires i <= last
    ensures c <= last && Candidate(c, position.Floor, last)
    ensures Abs(c as real - position) <= Abs(i as real - position)
    ensures Abs(i as real - position) > 0.0 ==> Abs(c as real - position) > 0.0
    ensures Abs(i as real - position) == 0.0 ==> c == i
  {
    var floor := position.Floor;
    c := if i <= floor - 1 then Clip(floor - 1, last) else if i >= floor + 2 then Clip(floor + 2, last) else i;
  }

  /** (count*threshold-origin)/step */
  function Position(t: real, origin: real, step: real, count: Positive): real
    requires step > 0.0
  {
    (count as real * t - origin) / step
  }

  function Distance(i: int, origin: real, step: real, count: Positive, t: real): real {
    Abs(MeanSite(i, origin, step, count) - t)
  }

  /** A site's mean is off the threshold by its offset from the position, in units of step/count. */
  lemma SiteDistance(i: int, origin: real, step: real, count: Positive, t: real, unit: real)
    requires step > 0.0 && unit == step / count as real
    ensures Distance(i, origin, step, count, t) == Times(Abs(i as real - Position(t, origin, step, count)), unit)
    ensures unit > 0.0
  {
    var n := count as real;
    var position, m := Position(t, origin, step, count), MeanSite(i, origin, step, count);
    var d := i as real - position;
    QuotientTimes(n * t - origin, step, position);
    QuotientTimes(origin + Site(i, step), n, m);
    QuotientTimes(step, n, unit);
    hide Position, MeanSite;
    Distribute(i as real, position, step);
    Distribute(m, t, n);
    UnitDistance(m - t, d, unit, n, step);
    AbsProduct(d, unit);
  }

  lemma QuotientTimes(a: real, b: real, q: real)
    requires b > 0.0 && q == a / b
    ensures q * b == a
  {
  }

  lemma UnitDistance(g: real, d: real, unit: real, n: real, step: real)
    requires n > 0.0 && unit * n == step && g * n == d * step
    ensures g == d * unit
  {
    assert (d * unit) * n == d * step;
    var z := g - d * unit;
    assert z * n == 0.0;
  }

  /** The candidates see the same nonzero minimum and the same ties as all sites do. */
  lemma CandidatesSuffice(origin: real, step: real, count: Positive, t: real, last: nat, i: nat) returns (c: nat)
    requires step > 0.0 && i <= last
    ensures c <= last && Candidate(c, Position(t, origin, step, count).Floor, last)
    ensures Distance(c, origin, step, count, t) <= Distance(i, origin, step, count, t)
    ensures Distance(i, origin, step, count, t) > 0.0 ==> Distance(c, origin, step, count, t) > 0.0
    ensures Distance(i, origin, step, count, t) == 0.0 ==> c == i
  {
    hide Distance, Position, Times;
    var position := Position(t, origin, step, count);
    c := NearestCandidate(position, last, i);
    var unit := step / count as real;
    SiteDistance(i, origin, step, count, t, unit);
    SiteDistance(c, origin, step, count, t, unit);
    ScaledDistances(Abs(c as real - position), Abs(i as real - position), unit,
                    Distance(c, origin, step, count, t), Distance(i, origin, step, count, t));
  }

  lemma ScaledDistances(x: real, y: real, unit: real, a: real, b: real)
    requires unit > 0.0 && x >= 0.0 && y >= 0.0 && a == Times(x, unit) && b == Times(y, unit) && x <= y
    ensures a <= b
    ensures (y > 0.0 <==> b > 0.0) && (x > 0.0 <==> a > 0.0)
  {
    Scale(x, y, unit, a, b);
    Scale(0.0, y, unit, 0.0, b);
    Scale(0.0, x, unit, 0.0, a);
  }

  // ----- the sum lattice -----

  function Minus(a: Fraction, b: Fraction): Fraction {
    MulPositive(a.denominator, b.denominator);
    Fraction(a.numerator * b.denominator - b.numerator * a.denominator, a.denominator * b.denominator)
  }

  lemma MinusValue(a: Fraction, b: Fraction)
    ensures Minus(a, b).Value() == a.Value() - b.Value()
  {
    MulPositive(a.denominator, b.denominator);
    var d := a.denominator as real * b.denominator as real;
    assert (a.denominator * b.denominator) as real == d;
    assert (a.numerator * b.denominator) as real == a.numerator as real * b.denominator as real;
    assert (b.numerator * a.denominator) as real == b.numerator as real * a.denominator as real;
    DifferenceQuotient(a.numerator as real, a.denominator as real, b.numerator as real, b.denominator as real, d,
                       a.Value(), b.Value(), Minus(a, b).Value());
  }

  lemma DifferenceQuotient(a: real, b: real, c: real, d: real, m: real, x: real, y: real, z: real)
    requires b > 0.0 && d > 0.0 && m > 0.0 && m == b * d && x == a / b && y == c / d
    requires z == (a * d - c * b) / m
    ensures z == x - y
  {
    assert x * b == a && y * d == c;
    assert x * m == a * d by { assert x * (b * d) == (x * b) * d; }
    assert y * m == c * b by { assert y * (b * d) == (y * d) * b; }
    Distribute(x, y, m);
    var w := z - (x - y);
    assert z * m == a * d - c * b;
    Distribute(z, x - y, m);
    assert w * m == 0.0;
  }

  ghost predicate Sorted(values: seq<Fraction>) {
    forall i, j :: 0 <= i < j < |values| ==> values[i].Value() < values[j].Value()
  }

  function Offsets(values: seq<Fraction>): (r: seq<Fraction>)
    requires |values| > 0
    ensures |r| == |values|
    ensures forall i :: 0 <= i < |r| ==> r[i] == Minus(values[i], values[0])
  {
    seq(|values|, i requires 0 <= i < |values| => Minus(values[i], values[0]))
  }

  /** quantum([v-min(values) for v in values]) */
  function SumStep(values: seq<Fraction>): real
    requires |values| > 0
  {
    QuantumOf(Offsets(values)).Value()
  }

  /** The offset of one value from the minimum, counted in steps. */
  lemma OffsetSite(values: seq<Fraction>, k: nat) returns (j: nat)
    requires |values| > 0 && Sorted(values) && k < |values| && SumStep(values) > 0.0
    ensures values[k].Value() == values[0].Value() + Site(j, SumStep(values))
  {
    hide QuantumOf, Fraction.Value, Minus;
    var step := SumStep(values);
    QuantumDivides(Offsets(values), k);
    MinusValue(values[k], values[0]);
    var n: int :| Offsets(values)[k].Value() == Site(n, step);
    assert values[k].Value() >= values[0].Value();
    Scale(n as real, 0.0, step, Site(n, step), 0.0);
    j := n;
  }

  ghost predicate IsStored(values: seq<Fraction>, x: real) {
    exists k :: 0 <= k < |values| && x == values[k].Value()
  }

  ghost predicate AllStored(values: seq<Fraction>, xs: seq<real>) {
    forall n :: 0 <= n < |xs| ==> IsStored(values, xs[n])
  }

  /** Any sum of stored values, in any order, is a site of the shifted lattice between its two ends. */
  lemma {:induction false} SumSite(values: seq<Fraction>, xs: seq<real>, top: nat) returns (i: nat)
    requires |values| > 0 && Sorted(values) && AllStored(values, xs) && SumStep(values) > 0.0
    requires values[|values| - 1].Value() == values[0].Value() + Site(top, SumStep(values))
    ensures i <= |xs| * top
    ensures Sum(xs) == Site(|xs|, values[0].Value()) + Site(i, SumStep(values))
  {
    hide Fraction.Value, QuantumOf, SumStep;
    var low, step := values[0].Value(), SumStep(values);
    if |xs| == 0 {
      i := 0;
      ZeroSites(low, step);
    } else {
      var n := |xs| - 1;
      var before := SumSite(values, xs[..n], top);
      var k :| 0 <= k < |values| && xs[n] == values[k].Value();
      var j := OffsetSite(values, k);
      TopOffset(values, k, j, top);
      i := before + j;
      hide Site;
      SiteNext(n, low);
      SiteSum(before, j, step);
      assert |xs| * top == n * top + top;
    }
  }

  lemma TopOffset(values: seq<Fraction>, k: nat, j: nat, top: nat)
    requires k < |values| && Sorted(values) && SumStep(values) > 0.0
    requires values[k].Value() == values[0].Value() + Site(j, SumStep(values))
    requires values[|values| - 1].Value() == values[0].Value() + Site(top, SumStep(values))
    ensures j <= top
  {
    hide Fraction.Value, QuantumOf, SumStep;
    var step := SumStep(values);
    assert values[k].Value() <= values[|values| - 1].Value();
    Scale(j as real, top as real, step, Site(j, step), Site(top, step));
  }

  /** last is an integer, so the declared lattice is never refused. */
  lemma LastSite(values: seq<Fraction>, count: Positive, top: nat)
    requires |values| > 0 && SumStep(values) > 0.0
    requires values[|values| - 1].Value() == values[0].Value() + Site(top, SumStep(values))
    ensures (Site(count, values[|values| - 1].Value()) - Site(count, values[0].Value())) / SumStep(values)
         == (count * top) as real
  {
    hide Fraction.Value, QuantumOf, SumStep;
    var step, low := SumStep(values), values[0].Value();
    assert (count * top) as real == count as real * top as real;
    LastQuotient(count as real, top as real, step, low, values[|values| - 1].Value(), Site(count, low),
                 Site(count, values[|values| - 1].Value()));
  }

  lemma LastQuotient(n: real, t: real, step: real, low: real, high: real, x: real, y: real)
    requires step > 0.0 && high == low + t * step && x == n * low && y == n * high
    ensures (y - x) / step == n * t
  {
    assert y - x == n * (t * step);
    assert n * (t * step) == (n * t) * step;
  }

  // ----- the certificate -----

  datatype MeanProof = MeanProof(safe: bool, bound: real, margin: Option<real>, ties: nat, overflowExcluded: bool)

  /** No nonzero distance of a site in [0, last] from a threshold is below the margin, which some site attains. */
  ghost predicate IsMargin(margin: Option<real>, ts: seq<real>, origin: real, step: real, count: Positive, last: nat) {
    && (forall t, i: nat :: t in ts && i <= last && Distance(i, origin, step, count, t) > 0.0 ==>
          margin.Some? && margin.value <= Distance(i, origin, step, count, t))
    && (margin.Some? ==>
          && margin.value > 0.0
          && exists t, i: nat :: t in ts && i <= last && Distance(i, origin, step, count, t) == margin.value)
  }

  ghost predicate HasTie(ts: seq<real>, origin: real, step: real, count: Positive, last: nat) {
    exists t, i: nat :: t in ts && i <= last && Distance(i, origin, step, count, t) == 0.0
  }

  /** Widens the margin bookkeeping by one threshold: the clipped candidates, each tried once. */
  method TryThreshold(t: real, origin: real, step: real, count: Positive, last: nat, margin: Option<real>)
    returns (tightened: Option<real>, ties: nat)
    requires step > 0.0 && (margin.Some? ==> margin.value > 0.0)
    ensures ties == if HasTie([t], origin, step, count, last) then 1 else 0
    ensures forall i: nat :: i <= last && Distance(i, origin, step, count, t) > 0.0 ==>
      tightened.Some? && tightened.value <= Distance(i, origin, step, count, t)
    ensures margin.Some? ==> tightened.Some? && tightened.value <= margin.value
    ensures tightened == margin || (tightened.Some? && tightened.value > 0.0 &&
      exists i: nat :: i <= last && Distance(i, origin, step, count, t) == tightened.value)
  {
    hide Distance, Position;
    var floor := Position(t, origin, step, count).Floor;
    var sites := [Clip(floor - 1, last), Clip(floor, last), Clip(floor + 1, last), Clip(floor + 2, last)];
    tightened, ties := margin, 0;
    for n := 0 to |sites|
      invariant ties <= 1 && (ties > 0 <==> exists m :: 0 <= m < n && Distance(sites[m], origin, step, count, t) == 0.0)
      invariant margin.Some? ==> tightened.Some? && tightened.value <= margin.value
      invariant forall m :: 0 <= m < n && Distance(sites[m], origin, step, count, t) > 0.0 ==>
        tightened.Some? && tightened.value <= Distance(sites[m], origin, step, count, t)
      invariant tightened == margin || (tightened.Some? && tightened.value > 0.0 &&
        exists i: nat :: i <= last && Distance(i, origin, step, count, t) == tightened.value)
    {
      var distance := Distance(sites[n], origin, step, count, t);
      if sites[n] !in sites[..n] {
        if distance == 0.0 {
          forall m | 0 <= m < n && Distance(sites[m], origin, step, count, t) == 0.0
            ensures sites[m] == sites[n]
          {
            OneTie(sites[m], sites[n], origin, step, count, t);
          }
          ties := ties + 1;
        } else if tightened.None? || distance < tightened.value {
          DistanceNonnegative(sites[n], origin, step, count, t);
          tightened := Some(distance);
        }
      }
    }
    SitesAreCandidates(sites, floor, last);
    forall i: nat | i <= last
      ensures Distance(i, origin, step, count, t) > 0.0 ==>
        tightened.Some? && tightened.value <= Distance(i, origin, step, count, t)
      ensures Distance(i, origin, step, count, t) == 0.0 ==> ties > 0
    {
      var c := CandidatesSuffice(origin, step, count, t, last, i);
      assert c in sites;
    }
    if ties > 0 {
      var m :| 0 <= m < |sites| && Distance(sites[m], origin, step, count, t) == 0.0;
      assert t in [t] && sites[m] <= last;
    }
  }

  /** At most one site lies on a threshold. */
  lemma OneTie(i: int, j: int, origin: real, step: real, count: Positive, t: real)
    requires step > 0.0 && Distance(i, origin, step, count, t) == 0.0 && Distance(j, origin, step, count, t) == 0.0
    ensures i == j
  {
    var n := count as real;
    var x, y := origin + Site(i, step), origin + Site(j, step);
    assert x / n == y / n;
    assert x / n * n == x && y / n * n == y;
    SiteSum(i, j, step);
    assert (i - j) as real * step == 0.0;
  }

  lemma DistanceNonnegative(i: int, origin: real, step: real, count: Positive, t: real)
    ensures Distance(i, origin, step, count, t) >= 0.0
  {
    hide MeanSite;
  }

  lemma SitesAreCandidates(sites: seq<nat>, floor: int, last: nat)
    requires sites == [Clip(floor - 1, last), Clip(floor, last), Clip(floor + 1, last), Clip(floor + 2, last)]
    ensures forall c: nat :: Candidate(c, floor, last) ==> c in sites
    ensures forall m :: 0 <= m < |sites| ==> sites[m] <= last
  {
    assert sites[0] in sites && sites[1] in sites && sites[2] in sites && sites[3] in sites;
  }

  /** How many thresholds carry a site. */
  ghost function TieCount(ts: seq<real>, origin: real, step: real, count: Positive, last: nat): nat {
    if |ts| == 0 then 0
    else
      TieCount(ts[..|ts| - 1], origin, step, count, last)
      + if HasTie([ts[|ts| - 1]], origin, step, count, last) then 1 else 0
  }

  /** The threshold loop: the same verdicts as scanning all last+1 sites of every threshold. */
  method ScanThresholds(ts: seq<real>, origin: real, step: real, count: Positive, last: nat)
    returns (margin: Option<real>, ties: nat)
    requires step > 0.0
    ensures ties == TieCount(ts, origin, step, count, last)
    ensures ties > 0 <==> HasTie(ts, origin, step, count, last)
    ensures IsMargin(margin, ts, origin, step, count, last)
  {
    hide Distance;
    margin, ties := None, 0;
    for n := 0 to |ts|
      invariant ties == TieCount(ts[..n], origin, step, count, last)
      invariant ties > 0 <==> HasTie(ts[..n], origin, step, count, last)
      invariant IsMargin(margin, ts[..n], origin, step, count, last)
    {
      ghost var before := margin;
      var more;
      margin, more := TryThreshold(ts[n], origin, step, count, last, margin);
      ties := ties + more;
      assert ts[..n + 1] == ts[..n] + [ts[n]];
      MarginStep(before, margin, ts[..n], ts[n], origin, step, count, last);
      TieStep(ts[..n], ts[n], origin, step, count, last);
    }
    assert ts[..|ts|] == ts;
  }

  lemma TieStep(ts: seq<real>, t: real, origin: real, step: real, count: Positive, last: nat)
    ensures HasTie(ts + [t], origin, step, count, last)
       <==> HasTie(ts, origin, step, count, last) || HasTie([t], origin, step, count, last)
  {
    hide Distance;
    assert forall x :: x in ts + [t] <==> x in ts || x in [t];
  }

  lemma MarginStep(before: Option<real>, after: Option<real>, ts: seq<real>, t: real, origin: real, step: real,
                   count: Positive, last: nat)
    requires IsMargin(before, ts, origin, step, count, last)
    requires before.Some? ==> after.Some? && after.value <= before.value
    requires forall i: nat :: i <= last && Distance(i, origin, step, count, t) > 0.0 ==>
      after.Some? && after.value <= Distance(i, origin, step, count, t)
    requires after == before || (after.Some? && after.value > 0.0 &&
      exists i: nat :: i <= last && Distance(i, origin, step, count, t) == after.value)
    ensures IsMargin(after, ts + [t], origin, step, count, last)
  {
    hide Distance;
    assert forall x :: x in ts + [t] <==> x in ts || x == t;
  }

  /** The mean within the bound of a site that is farther than the bound from every threshold is stored alike. */
  ghost predicate MeanAgrees(f: FloatFormat, book: Book, xs: seq<real>)
    requires |xs| > 0 && |book.entries| > 0
  {
    MeanState(f, xs).IsReal()
    && Encode(book, MeanState(f, xs)) == Encode(book, Finite(Sum(xs) / |xs| as real))
  }

  /** The error of the stored mean: the summation error divided by the count, and one more rounding. */
  function MeanBound(f: FloatFormat, maximum: real, summationError: real, count: Positive): real {
    var meanError := summationError / count as real;
    meanError + f.UnitRoundoff() * (maximum + meanError) + f.HalfMinSubnormal()
  }

  lemma DividedError(state: real, exact: real, e: real, n: real, maximum: real, total: real)
    requires n >= 1.0 && Abs(state - exact) <= e && Abs(exact) <= total && total == n * maximum
    ensures Abs(state / n - exact / n) <= e / n
    ensures Abs(exact / n) <= maximum
  {
    QuotientBound(state - exact, e, n);
    QuotientBound(exact, total, n);
    WholeQuotient(total, maximum, n);
    QuotientDifference(state, exact, n);
  }

  lemma WholeQuotient(total: real, maximum: real, n: real)
    requires n >= 1.0 && total == n * maximum
    ensures total / n == maximum
  {
  }

  lemma QuotientDifference(a: real, b: real, n: real)
    requires n >= 1.0
    ensures a / n - b / n == (a - b) / n
  {
  }

  lemma QuotientBound(a: real, b: real, n: real)
    requires n > 0.0 && Abs(a) <= b
    ensures Abs(a / n) <= b / n
  {
    var x, y := a / n, b / n;
    assert x * n == a && y * n == b;
    Scale(x, y, n, a, b);
    Scale(-y, x, n, -b, a);
  }

  /** Every order of the same count of bounded values keeps the stored mean within the bound. */
  lemma MeanError(f: FloatFormat, xs: seq<real>, maximum: real, summation: Bound)
    requires f.Valid() && |xs| > 0 && forall i :: 0 <= i < |xs| ==> Abs(xs[i]) <= maximum
    requires ErrorBound(f, Site(|xs|, maximum), |xs|, None) == Success(summation) && summation.overflowExcluded
    requires maximum + MeanBound(f, maximum, summation.error, |xs|) <= f.MaxFinite()
    ensures MeanState(f, xs).IsReal()
    ensures Abs(MeanState(f, xs).Value() - Sum(xs) / |xs| as real) <= MeanBound(f, maximum, summation.error, |xs|)
  {
    hide ErrorBound, Reduced, Rounded, Sum, AbsSum, Abs, FloatFormat.MaxFinite, Site, MeanBound, MeanState;
    AbsSumBelow(xs, maximum);
    ReductionBound(f, xs, Site(|xs|, maximum), summation);
    SumBelowAbsSum(xs);
    DividedState(f, xs, maximum, summation.error);
  }

  lemma DividedState(f: FloatFormat, xs: seq<real>, maximum: real, e: real)
    requires f.Valid() && |xs| > 0 && Reduced(f, xs).IsReal()
    requires Abs(Reduced(f, xs).Value() - Sum(xs)) <= e && Abs(Sum(xs)) <= Site(|xs|, maximum)
    requires maximum + MeanBound(f, maximum, e, |xs|) <= f.MaxFinite()
    ensures MeanState(f, xs).IsReal()
    ensures Abs(MeanState(f, xs).Value() - Sum(xs) / |xs| as real) <= MeanBound(f, maximum, e, |xs|)
  {
    hide Reduced, Rounded, Sum, FloatFormat.MaxFinite, MeanBound, Site;
    var state, n := Reduced(f, xs), |xs| as real;
    SiteProduct(|xs|, maximum);
    DividedError(state.Value(), Sum(xs), e, n, maximum, Site(|xs|, maximum));
    RoundedMean(f, state.Value() / n, Sum(xs) / n, maximum, e, |xs|);
    assert state.NegativeZero? ==> state.Value() / n == 0.0;
  }

  lemma SiteProduct(n: nat, x: real)
    ensures Site(n, x) == n as real * x
  {
  }

  lemma RoundedMean(f: FloatFormat, w: real, mean: real, maximum: real, summationError: real, count: Positive)
    requires f.Valid() && Abs(w - mean) <= summationError / count as real && Abs(mean) <= maximum
    requires maximum + MeanBound(f, maximum, summationError, count) <= f.MaxFinite()
    ensures Rounded(f, w).IsReal()
    ensures Abs(Rounded(f, w).Value() - mean) <= MeanBound(f, maximum, summationError, count)
    ensures Abs(w - mean) <= MeanBound(f, maximum, summationError, count)
  {
    hide Rounded, FloatFormat.MaxFinite, FloatFormat.UnitRoundoff, FloatFormat.HalfMinSubnormal;
    UnitPositive(f);
    var u, e := f.UnitRoundoff(), summationError / count as real;
    var top := maximum + e;
    assert Abs(w) <= top;
    var x, y := f.UnitRoundoff() * Abs(w), u * top;
    Scale(Abs(w), top, u, x, y);
    Scale(0.0, top, u, 0.0, y);
    assert MeanBound(f, maximum, summationError, count) == e + y + f.HalfMinSubnormal();
    RoundedFinite(f, w);
    assert Abs(Rounded(f, w).Value() - w) <= x + f.HalfMinSubnormal() by { RoundedError(f, w); }
  }

  /** What a safe verdict rests on. */
  ghost predicate Settled(f: FloatFormat, values: seq<Fraction>, book: Book, count: Positive, bound: real, last: nat)
    requires |values| > 0 && |book.entries| > 0
  {
    forall t, i: nat :: t in Thresholds(book) && i <= last ==>
      Distance(i, Site(count, values[0].Value()), SumStep(values), count, t) > bound
  }

  lemma SettledMean(f: FloatFormat, values: seq<Fraction>, book: Book, xs: seq<real>, top: nat, summation: Bound)
    requires f.Valid() && |values| > 0 && Sorted(values) && |book.entries| > 0
    requires |xs| > 0 && AllStored(values, xs) && SumStep(values) > 0.0
    requires values[|values| - 1].Value() == values[0].Value() + Site(top, SumStep(values))
    requires ErrorBound(f, Site(|xs|, LargestMagnitude(values)), |xs|, None) == Success(summation)
    requires summation.overflowExcluded
    requires LargestMagnitude(values) + MeanBound(f, LargestMagnitude(values), summation.error, |xs|) <= f.MaxFinite()
    requires |xs| * top >= 0
    requires Settled(f, values, book, |xs|, MeanBound(f, LargestMagnitude(values), summation.error, |xs|), |xs| * top)
    ensures MeanAgrees(f, book, xs)
  {
    hide ErrorBound, MeanBound, MeanState, Thresholds, Encode, Site, FloatFormat.MaxFinite, SumStep, LargestMagnitude,
         Fraction.Value, Sum;
    var maximum := LargestMagnitude(values);
    forall n | 0 <= n < |xs|
      ensures Abs(xs[n]) <= maximum
    {
      var k :| 0 <= k < |values| && xs[n] == values[k].Value();
    }
    MeanError(f, xs, maximum, summation);
    var i := SumSite(values, xs, top);
    var bound := MeanBound(f, maximum, summation.error, |xs|);
    var mean := Sum(xs) / |xs| as real;
    assert mean == MeanSite(i, Site(|xs|, values[0].Value()), SumStep(values), |xs|);
    var model := MeanState(f, xs);
    assert !Separates(Thresholds(book), mean, model.Value()) by {
      forall t | t in Thresholds(book)
        ensures !(mean <= t <= model.Value() || model.Value() <= t <= mean)
      {
        assert Distance(i, Site(|xs|, values[0].Value()), SumStep(values), |xs|, t) > bound;
      }
    }
    StoreConstant(book, Finite(mean), model);
  }

  /** Margin and ties of the whole sum lattice, from the smallest sum to the largest. */
  ghost predicate ScansAll(values: seq<Fraction>, book: Book, count: Positive, margin: Option<real>, tied: bool,
                           last: nat)
    requires |values| > 1 && |book.entries| > 0
  {
    var origin := Site(count, values[0].Value());
    && IsMargin(margin, Thresholds(book), origin, SumStep(values), count, last)
    && (tied <==> HasTie(Thresholds(book), origin, SumStep(values), count, last))
    && Site(count, values[|values| - 1].Value()) - origin == Site(last, SumStep(values))
  }

  /**
   prove_mean: a safe verdict settles every order of `count` stored values. The
   refusal for a sum domain off its lattice cannot happen.
   */
  method ProveMean(f: FloatFormat, values: seq<Fraction>, book: Book, count: int)
    returns (proof: Result<MeanProof>, ghost last: nat)
    requires f.Valid() && |values| > 1 && Sorted(values) && |book.entries| > 0 && !book.signedZero
    ensures proof.Failure? <==> count < 1 || ErrorBound(f, Site(count, LargestMagnitude(values)), count, None).Failure?
    ensures proof.Success? ==>
      var bound := MeanBound(f, LargestMagnitude(values),
                             ErrorBound(f, Site(count, LargestMagnitude(values)), count, None).value.error, count);
      && proof.value.bound == bound
      && (proof.value.overflowExcluded <==>
            ErrorBound(f, Site(count, LargestMagnitude(values)), count, None).value.overflowExcluded
            && LargestMagnitude(values) + bound <= f.MaxFinite())
      && (proof.value.safe <==> proof.value.overflowExcluded && proof.value.ties == 0 && proof.value.margin.Some?
                                && bound < proof.value.margin.value)
    ensures proof.Success? && proof.value.safe ==>
      forall xs :: |xs| == count && AllStored(values, xs) ==> MeanAgrees(f, book, xs)
    ensures proof.Success? ==> ScansAll(values, book, count, proof.value.margin, proof.value.ties > 0, last)
    ensures proof.Success? ==>
      proof.value.ties == TieCount(Thresholds(book), Site(count, values[0].Value()), SumStep(values), count, last)
  {
    if count < 1 {
      return Failure("mean count must be a positive integer"), 0;
    }
    hide Thresholds, Fraction.Value, Distance, ErrorBound, MeanBound, Site, FloatFormat.MaxFinite, SumStep, MeanAgrees;
    StepPositive(values);
    var step := SumStep(values);
    var origin := Site(count, values[0].Value());
    var quotient := (Site(count, values[|values| - 1].Value()) - origin) / step;
    ghost var top := LastIndex(values, count, quotient);
    var end: nat := quotient.Floor;
    last := end;
    var maximum := LargestMagnitude(values);
    var bounded := ErrorBound(f, Site(count, maximum), count, None);
    if bounded.IsFailure() {
      return Failure("rounding bound"), 0;
    }
    assert Site(count, values[|values| - 1].Value()) - origin == Site(end, step);
    var summation := bounded.value;
    var bound := MeanBound(f, maximum, summation.error, count);
    var margin, ties := ScanThresholds(Thresholds(book), origin, step, count, end);
    assert ScansAll(values, book, count, margin, ties > 0, end);
    hide ScansAll;
    var overflowExcluded := summation.overflowExcluded && maximum + bound <= f.MaxFinite();
    var safe := overflowExcluded && ties == 0 && margin.Some? && bound < margin.value;
    if safe {
      SafeSettles(f, values, book, count, bound, end, margin);
      forall xs | |xs| == count && AllStored(values, xs)
        ensures MeanAgrees(f, book, xs)
      {
        SettledMean(f, values, book, xs, top, summation);
      }
    }
    proof := Success(MeanProof(safe, bound, margin, ties, overflowExcluded));
  }

  /** The last index is the count times the span of the values, in steps. */
  lemma LastIndex(values: seq<Fraction>, count: Positive, last: real) returns (top: nat)
    requires |values| > 1 && Sorted(values) && SumStep(values) > 0.0
    requires last == (Site(count, values[|values| - 1].Value()) - Site(count, values[0].Value())) / SumStep(values)
    ensures values[|values| - 1].Value() == values[0].Value() + Site(top, SumStep(values))
    ensures last.Floor as real == last && last.Floor == count * top && last.Floor >= 0
    ensures Site(count, values[|values| - 1].Value()) - Site(count, values[0].Value())
         == Site(last.Floor, SumStep(values))
  {
    hide Fraction.Value, Site, SumStep, Sorted;
    top := OffsetSite(values, |values| - 1);
    LastSite(values, count, top);
    MulNonnegative(count, top);
    assert last == (count * top) as real;
    LastSpan(last, SumStep(values), Site(count, values[|values| - 1].Value()) - Site(count, values[0].Value()),
             count * top);
  }

  lemma StepPositive(values: seq<Fraction>)
    requires |values| > 1 && Sorted(values)
    ensures SumStep(values) > 0.0
  {
    hide QuantumOf, Fraction.Value, Minus;
    var k := |values| - 1;
    QuantumDivides(Offsets(values), k);
    MinusValue(values[k], values[0]);
    var n: int :| Offsets(values)[k].Value() == Site(n, SumStep(values));
    QuantumNonnegative(Offsets(values));
    assert values[k].Value() > values[0].Value();
  }

  lemma QuantumNonnegative(values: seq<Fraction>)
    ensures QuantumOf(values).Value() >= 0.0
  {
  }

  lemma LastSpan(last: real, step: real, span: real, end: nat)
    requires step > 0.0 && last == span / step && end as real == last
    ensures span == Site(end, step)
  {
    assert last * step == span;
  }

  lemma SafeSettles(f: FloatFormat, values: seq<Fraction>, book: Book, count: Positive, bound: real, last: nat,
                    margin: Option<real>)
    requires |values| > 0 && |book.entries| > 0 && margin.Some? && bound < margin.value
    requires IsMargin(margin, Thresholds(book), Site(count, values[0].Value()), SumStep(values), count, last)
    requires !HasTie(Thresholds(book), Site(count, values[0].Value()), SumStep(values), count, last)
    ensures Settled(f, values, book, count, bound, last)
  {
    hide Distance, Thresholds, SumStep, Site, Fraction.Value;
    forall t, i: nat | t in Thresholds(book) && i <= last
      ensures Distance(i, Site(count, values[0].Value()), SumStep(values), count, t) > bound
    {
      DistanceNonnegative(i, Site(count, values[0].Value()), SumStep(values), count, t);
    }
  }
}
