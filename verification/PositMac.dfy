/**
 The MAC output-store certificate for posits with a fixed-point quire: products
 and sums are exact once they are on the quire grid with headroom, so only the
 stored bias can move an output across a threshold.
 */
module PositMac {
  import opened ExactArithmetic
  import opened FloatAccumulator
  import opened MacError
  import opened Quantum
  import opened Codebook
  import opened StoreMargin
  import opened SiteCheck
  import opened Operands
  import opened WeightHistogram
  import opened DyadicMac
  import opened Results

  /** A signed saturating fixed-point accumulator. */
  datatype Quire = Quire(bits: nat, fractional: nat) {
    predicate Valid() { bits >= 2 }

    function Step(): (s: real)
      ensures s > 0.0
    {
      Pow2(0 - fractional)
    }

    function Limit(): int
      requires Valid()
    {
      IntPow2(bits - 1) - 1
    }

    /** Accumulator.rounded for family fixed_point: nearest even grid value, clamped to the register. */
    function Rounded(v: real): real
      requires Valid()
    {
      var raw := RoundInteger(v / Step());
      var code := if raw > Limit() then Limit() else if raw < -Limit() - 1 then -Limit() - 1 else raw;
      Site(code, Step())
    }

    function Reduced(ps: seq<real>): real
      requires Valid()
    {
      if |ps| == 0 then Rounded(0.0) else Rounded(Reduced(ps[..|ps| - 1]) + ps[|ps| - 1])
    }

    /** model_c on the quire. */
    function ModelC(ps: seq<real>, bias: Option<real>): real
      requires Valid()
    {
      if bias.None? then Reduced(ps) else Rounded(Reduced(ps) + Rounded(bias.value))
    }
  }

  /** A grid value within the register is stored unchanged. */
  lemma QuireExact(acc: Quire, n: int)
    requires acc.Valid() && -acc.Limit() <= n <= acc.Limit()
    ensures acc.Rounded(Site(n, acc.Step())) == Site(n, acc.Step())
  {
    hide Pow2, IntPow2;
    var s := acc.Step();
    assert Site(n, s) / s == n as real;
    RoundIntegerFixes(n);
    hide RoundInteger, Site;
  }

  /** The stored code is the clamped rounding of the number of steps. */
  lemma InQuireSteps(acc: Quire, v: real) returns (y: real, code: int)
    requires acc.Valid()
    ensures v == y * acc.Step() && acc.Rounded(v) == Site(code, acc.Step())
    ensures var (raw, l) := (RoundInteger(y), acc.Limit());
      code == if raw > l then l else if raw < -l - 1 then -l - 1 else raw
  {
    hide RoundInteger, Quire.Limit, Quire.Step;
    y := v / acc.Step();
    FloatAccumulator.QuotientTimes(v, acc.Step(), y);
    var raw, l := RoundInteger(y), acc.Limit();
    code := if raw > l then l else if raw < -l - 1 then -l - 1 else raw;
  }

  /** A code of the register in two's complement, and the value it stands for. */
  ghost predicate InRegister(acc: Quire, k: int, x: real) {
    0 - IntPow2(acc.bits) <= 2 * k < IntPow2(acc.bits) && Times(x, IntPow2(acc.fractional) as real) == k as real
  }

  lemma RegisterSite(acc: Quire, k: int, x: real)
    requires acc.Valid()
    ensures InRegister(acc, k, x) <==> -acc.Limit() - 1 <= k <= acc.Limit() && x == Site(k, acc.Step())
  {
    IntPow2Double(acc.bits);
    StepInverse(acc);
    hide IntPow2, Quire.Step;
    InverseSteps(x, k, IntPow2(acc.fractional) as real, acc.Step());
    hide Times, Site;
  }

  lemma StepInverse(acc: Quire)
    ensures IntPow2(acc.fractional) as real * acc.Step() == 1.0
  {
    IntPow2Real(acc.fractional);
    Pow2Inverse(acc.fractional);
    hide Pow2, IntPow2;
    assert 0 - acc.fractional == -(acc.fractional as int);
  }

  lemma IntPow2Double(n: nat)
    requires n > 0
    ensures IntPow2(n) == 2 * IntPow2(n - 1)
  {
  }

  lemma InverseSteps(x: real, k: int, p: real, s: real)
    requires p * s == 1.0
    ensures Times(x, p) == k as real <==> x == Site(k, s)
  {
    assert x * p * s == x;
    assert k as real * s * p == k as real;
  }

  /** What is stored is a value of the register, and none is nearer. */
  lemma QuireNearest(acc: Quire, v: real, k: int, x: real) returns (code: int)
    requires acc.Valid() && InRegister(acc, k, x)
    ensures InRegister(acc, code, acc.Rounded(v))
    ensures Abs(acc.Rounded(v) - v) <= Abs(x - v)
  {
    hide Quire.Rounded, Quire.Step, Quire.Limit, RoundInteger, Abs, InRegister, IntPow2;
    RegisterSite(acc, k, x);
    var y;
    y, code := InQuireSteps(acc, v);
    RegisterSite(acc, code, acc.Rounded(v));
    RoundIntegerNear(y);
    ClampNearest(RoundInteger(y), y, acc.Limit(), k, code);
    ScaledNearest(code as real, k as real, y, acc.Step(), Site(code, acc.Step()), x, v);
  }

  /** Clamping the nearest integer to a range gives the nearest integer of the range. */
  lemma ClampNearest(raw: int, y: real, l: int, c: int, code: int)
    requires Abs(raw as real - y) <= 0.5 && -l - 1 <= c <= l
    requires code == if raw > l then l else if raw < -l - 1 then -l - 1 else raw
    ensures Abs(code as real - y) <= Abs(c as real - y)
  {
    OtherInteger(raw, c, y);
  }

  /** A value half way between two register values is stored as the even one. */
  lemma QuireTie(acc: Quire, n: int, v: real)
    requires acc.Valid() && -acc.Limit() - 1 <= n < acc.Limit() && v == (n as real + 0.5) * acc.Step()
    ensures acc.Rounded(v) == Site(if n % 2 == 0 then n else n + 1, acc.Step())
  {
    FloatAccumulator.QuotientOf(v, acc.Step(), n as real + 0.5);
    HalfwayInteger(n);
    hide RoundInteger, Quire.Limit, Quire.Step, Site;
  }

  /** Prefix sums on the grid with headroom are exact. */
  lemma {:induction false} QuireReduction(acc: Quire, ps: seq<real>, maximum: real)
    requires acc.Valid() && AbsSum(ps) <= maximum <= Site(acc.Limit(), acc.Step())
    requires forall i :: 0 <= i < |ps| ==> OnLattice(ps[i], acc.Step())
    ensures acc.Reduced(ps) == Sum(ps)
  {
    hide OnLattice, Quire.Rounded, Quire.Limit, Quire.Step, Site;
    SumOnLattice(ps, acc.Step());
    SumBelowAbsSum(ps);
    BoundedQuire(acc, Sum(ps), maximum);
    if |ps| > 0 {
      QuireReduction(acc, ps[..|ps| - 1], maximum);
    }
  }

  lemma BoundedQuire(acc: Quire, v: real, maximum: real)
    requires acc.Valid() && OnLattice(v, acc.Step())
    requires Abs(v) <= maximum <= Site(acc.Limit(), acc.Step())
    ensures acc.Rounded(v) == v
  {
    hide Quire.Rounded, Quire.Limit, Pow2;
    var s, l := acc.Step(), acc.Limit();
    var n: int :| v == Site(n, s);
    Scale(n as real, l as real, s, Site(n, s), Site(l, s));
    Scale(-(l as real), n as real, s, -Site(l, s), Site(n, s));
    QuireExact(acc, n);
  }

  /** The code the quire stores for one output. */
  function QuireCode(acc: Quire, book: Book, ps: seq<real>, bias: Option<real>): nat
    requires acc.Valid() && |book.entries| > 0
  {
    Encode(book, Finite(acc.ModelC(ps, bias)))
  }

  /** fixed_mac_bounds for one channel: products on the quire grid, sums and stored bias within the register. */
  ghost predicate ExactHeadroom(acc: Quire, domain: seq<Coded>, codes: seq<nat>, b: real)
    requires acc.Valid() && |domain| > 0
  {
    && (forall xs :: |xs| == |codes| && AreOperands(domain, xs) ==>
          forall i :: 0 <= i < |codes| ==> OnLattice(Products(xs, Decoded(domain, codes))[i], acc.Step()))
    && MaximumDot(domain, domain, codes) + Abs(Site(RoundInteger(b / acc.Step()), acc.Step()))
       <= Site(acc.Limit(), acc.Step())
  }

  /** The channel checks of fixed_mac_bounds: x_quantum*w on the quire grid for every code, and headroom left. */
  lemma {:induction false} HeadroomFromChecks(acc: Quire, domain: seq<Coded>, codes: seq<nat>, b: real)
    requires acc.Valid() && |domain| > 0
    requires forall c :: c in codes ==>
      OnLattice(Times(QuantumOf(Fractions(domain)).Value(), ValueOf(domain, c)), acc.Step())
    requires MaximumDot(domain, domain, codes) + Abs(Site(RoundInteger(b / acc.Step()), acc.Step()))
             <= Site(acc.Limit(), acc.Step())
    ensures ExactHeadroom(acc, domain, codes, b)
  {
    hide OnLattice, MaximumDot, QuantumOf, RoundInteger, Fraction.Value, Times, Quire.Step, Quire.Limit;
    forall xs, i | |xs| == |codes| && AreOperands(domain, xs) && 0 <= i < |codes|
      ensures OnLattice(Products(xs, Decoded(domain, codes))[i], acc.Step())
    {
      OperandBound(domain, xs[i]);
      assert codes[i] in codes;
      ProductOnGrid(xs[i], ValueOf(domain, codes[i]), QuantumOf(Fractions(domain)).Value(), acc.Step());
    }
  }

  lemma ProductOnGrid(x: real, w: real, quantum: real, step: real)
    requires OnLattice(x, quantum) && OnLattice(Times(quantum, w), step)
    ensures OnLattice(Times(x, w), step)
  {
    var k: int :| x == Site(k, quantum);
    var j: int :| Times(quantum, w) == Site(j, step);
    assert (k * j) as real == k as real * j as real;
    assert Times(x, w) == k as real * Times(quantum, w);
    assert Times(x, w) == Site(k * j, step);
  }

  ghost predicate QuireAgrees(acc: Quire, domain: seq<Coded>, book: Book, codes: seq<nat>, bias: Option<real>)
    requires acc.Valid() && |book.entries| > 0
  {
    forall xs :: |xs| == |codes| && AreOperands(domain, xs) ==>
      var ps := Products(xs, Decoded(domain, codes));
      QuireCode(acc, book, ps, bias) == ExactCode(book, ps, bias.GetOr(0.0))
  }

  /** With headroom the model is the exact dot product plus the stored bias. */
  lemma QuireModel(acc: Quire, domain: seq<Coded>, codes: seq<nat>, bias: Option<real>, xs: seq<real>)
    requires acc.Valid() && |domain| > 0 && ExactHeadroom(acc, domain, codes, bias.GetOr(0.0))
    requires |xs| == |codes| && AreOperands(domain, xs)
    ensures acc.ModelC(Products(xs, Decoded(domain, codes)), bias)
         == Sum(Products(xs, Decoded(domain, codes))) + acc.Rounded(bias.GetOr(0.0))
  {
    hide MaximumDot, Products, Decoded, Quire.Rounded, Quire.Step, Quire.Limit, OnLattice, RoundInteger;
    var ps := Products(xs, Decoded(domain, codes));
    var b, maximum := bias.GetOr(0.0), MaximumDot(domain, domain, codes);
    DotMagnitude(domain, domain, xs, codes);
    StoredBias(acc, b);
    QuireReduction(acc, ps, maximum);
    if bias.None? {
      LatticeZero(acc.Step());
      BoundedQuire(acc, 0.0, maximum);
    } else {
      SumOnLattice(ps, acc.Step());
      SumBelowAbsSum(ps);
      LatticeAdd(Sum(ps), acc.Rounded(b), acc.Step());
      BoundedQuire(acc, Sum(ps) + acc.Rounded(b), Abs(Sum(ps) + acc.Rounded(b)));
    }
  }

  /** With headroom the bias store does not saturate. */
  lemma StoredBias(acc: Quire, b: real)
    requires acc.Valid()
    requires Abs(Site(RoundInteger(b / acc.Step()), acc.Step())) <= Site(acc.Limit(), acc.Step())
    ensures acc.Rounded(b) == Site(RoundInteger(b / acc.Step()), acc.Step()) && OnLattice(acc.Rounded(b), acc.Step())
  {
    hide RoundInteger, Pow2, Quire.Step, Quire.Limit, Site;
    BoundedCode(acc, RoundInteger(b / acc.Step()));
  }

  lemma BoundedCode(acc: Quire, raw: int)
    requires acc.Valid() && Abs(Site(raw, acc.Step())) <= Site(acc.Limit(), acc.Step())
    ensures -acc.Limit() <= raw <= acc.Limit()
  {
    hide Quire.Limit, Pow2;
    var s, l := acc.Step(), acc.Limit();
    Scale(raw as real, l as real, s, Site(raw, s), Site(l, s));
    Scale(-(l as real), raw as real, s, -Site(l, s), Site(raw, s));
  }

  datatype Verdict = ExactBiasStore | StrictMargin | AllSensitiveSitesEqual | Pending(reason: string) {
    predicate Proven() { !Pending? }
  }

  /** A lattice site plus the stored bias. */
  function SiteModel(stored: real, q: real): Model { i => Finite(Site(i, q) + stored) }

  lemma SitesSettleQuire(acc: Quire, domain: seq<Coded>, book: Book, q: Fraction, codes: seq<nat>, bias: Option<real>)
    requires acc.Valid() && |domain| > 0 && |book.entries| > 0
    requires forall c :: c in codes ==> HasCode(domain, c)
    requires q.Value() == QuantumOf(Fractions(domain)).Value() * QuantumOf(Fractions(domain)).Value()
    requires ExactHeadroom(acc, domain, codes, bias.GetOr(0.0))
    requires AllSitesAgree(book, bias.GetOr(0.0), q.Value(), SiteModel(acc.Rounded(bias.GetOr(0.0)), q.Value()),
                           MaximumDot(domain, domain, codes))
    ensures QuireAgrees(acc, domain, book, codes, bias)
  {
    hide ExactHeadroom, QuantumOf, Fraction.Value, MaximumDot, Encode, Quire.Rounded, Quire.ModelC, Site, Products,
         Decoded;
    forall xs | |xs| == |codes| && AreOperands(domain, xs)
      ensures var ps := Products(xs, Decoded(domain, codes));
        QuireCode(acc, book, ps, bias) == ExactCode(book, ps, bias.GetOr(0.0))
    {
      QuireVector(acc, domain, book, q, codes, bias, xs);
    }
  }

  lemma QuireVector(acc: Quire, domain: seq<Coded>, book: Book, q: Fraction, codes: seq<nat>, bias: Option<real>,
                    xs: seq<real>)
    requires acc.Valid() && |domain| > 0 && |book.entries| > 0
    requires forall c :: c in codes ==> HasCode(domain, c)
    requires q.Value() == QuantumOf(Fractions(domain)).Value() * QuantumOf(Fractions(domain)).Value()
    requires ExactHeadroom(acc, domain, codes, bias.GetOr(0.0))
    requires AllSitesAgree(book, bias.GetOr(0.0), q.Value(), SiteModel(acc.Rounded(bias.GetOr(0.0)), q.Value()),
                           MaximumDot(domain, domain, codes))
    requires |xs| == |codes| && AreOperands(domain, xs)
    ensures QuireCode(acc, book, Products(xs, Decoded(domain, codes)), bias)
         == ExactCode(book, Products(xs, Decoded(domain, codes)), bias.GetOr(0.0))
  {
    hide ExactHeadroom, QuantumOf, Fraction.Value, MaximumDot, Encode, Quire.Rounded, Quire.ModelC, Site, Products,
         Decoded;
    var ps := Products(xs, Decoded(domain, codes));
    QuireModel(acc, domain, codes, bias, xs);
    DotOnLattice(domain, domain, q, xs, codes);
    DotMagnitude(domain, domain, xs, codes);
    SumBelowAbsSum(ps);
    var i: int :| Sum(ps) == Site(i, q.Value());
    assert SiteAgrees(book, bias.GetOr(0.0), q.Value(), SiteModel(acc.Rounded(bias.GetOr(0.0)), q.Value()), i);
  }

  /**
   Exactly when a channel gets each verdict: past the strict margin all bounded
   sites must be stored alike, by a bias that is off by at most eight lattice steps.
   */
  ghost predicate DecidesQuire(book: Book, b: real, stored: real, q: real, maximum: real, verdict: Verdict)
    requires |book.entries| > 0
  {
    var clear := Clear(Thresholds(book), b, q, Abs(b - stored));
    && (verdict.ExactBiasStore? <==> b == stored)
    && (verdict.StrictMargin? <==> b != stored && clear)
    && (verdict.AllSensitiveSitesEqual? <==>
          && b != stored && !clear && 2.0 * Abs(b - stored) <= 16.0 * q
          && AllSitesAgree(book, b, q, SiteModel(stored, q), maximum))
    && (!verdict.Pending? ==> AllSitesAgree(book, b, q, SiteModel(stored, q), maximum))
  }

  lemma SitesNear(b: real, stored: real, q: real, maximum: real)
    ensures AllNear(b, q, Abs(b - stored), SiteModel(stored, q), maximum)
  {
    hide Site;
  }

  /**
   One pass of the posit channel loop.
   */
  method CertifyQuireChannel(acc: Quire, domain: seq<Coded>, book: Book, q: Fraction, ts: seq<real>, maximumX: real,
                             codes: seq<nat>, bias: Option<real>) returns (verdict: Verdict)
    requires acc.Valid() && |domain| > 0 && |book.entries| > 0 && |ts| > 0
    requires q.numerator > 0 && ts == Thresholds(book) && maximumX == MaximumMagnitude(domain)
    requires q.Value() == QuantumOf(Fractions(domain)).Value() * QuantumOf(Fractions(domain)).Value()
    requires forall c :: c in codes ==> HasCode(domain, c)
    requires ExactHeadroom(acc, domain, codes, bias.GetOr(0.0))
    ensures !verdict.Pending? ==> QuireAgrees(acc, domain, book, codes, bias)
    ensures DecidesQuire(book, bias.GetOr(0.0), acc.Rounded(bias.GetOr(0.0)), q.Value(),
                         MaximumDot(domain, domain, codes), verdict)
  {
    var magnitude := WeightMagnitude(domain, codes);
    var maximum := Times(maximumX, magnitude);
    MaximumDotValue(domain, domain, codes, maximumX, magnitude);
    PositiveFraction(q);
    hide QuantumOf, MaximumDot, Times, MaximumMagnitude, ExactHeadroom, Fraction.Value;
    verdict := DecideBias(book, ts, q.Value(), bias.GetOr(0.0), acc.Rounded(bias.GetOr(0.0)), maximum);
    hide Quire.Rounded;
    if verdict.Proven() {
      SitesSettleQuire(acc, domain, book, q, codes, bias);
    }
  }

  /** The decision of one channel, from its stored bias on. */
  method DecideBias(book: Book, ts: seq<real>, q: real, b: real, stored: real, maximum: real) returns (verdict: Verdict)
    requires |book.entries| > 0 && |ts| > 0 && ts == Thresholds(book) && q > 0.0
    ensures DecidesQuire(book, b, stored, q, maximum, verdict)
  {
    hide Encode, Thresholds, Site, ResidueGap, SiteGap, Mod, AllNear;
    var error := Abs(b - stored);
    SitesNear(b, stored, q, maximum);
    if error == 0.0 {
      return ExactBiasStore;
    }
    var distance := ThresholdDistance(ts, b, q);
    hide Clear, AllSitesAgree, SiteModel;
    if distance > error {
      ClearSettles(book, b, q, error, SiteModel(stored, q), maximum);
      return StrictMargin;
    }
    if 2.0 * error > 16.0 * q {
      return Verdict.Pending("bias error spans too many lattice sites");
    }
    var mismatches := CheckSites(book, ts, b, q, error, SiteModel(stored, q), maximum);
    if mismatches != [] {
      return Verdict.Pending("stored-bias boundary changes output code");
    }
    return Verdict.AllSensitiveSitesEqual;
  }
}
