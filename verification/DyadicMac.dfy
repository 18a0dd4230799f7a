/**
 The MAC output-store certificate for saturating dyadic float formats: one
 channel at a time, it compares the exact dot product plus bias with the
 ordered FP64 reduction, for every vector of finite input codes.
 */
module DyadicMac {
  import opened ExactArithmetic
  import opened FloatAccumulator
  import opened MacError
  import opened Quantum
  import opened Codebook
  import opened StoreMargin
  import opened SiteCheck
  import opened Operands
  import opened WeightHistogram
  import opened Results

  datatype Verdict = StrictThresholdMargin | AllSensitiveSitesEqual | Pending(reason: string) {
    predicate Proven() { !Pending? }
  }

  /** The code of exact arithmetic for one output. */
  function ExactCode(book: Book, ps: seq<real>, b: real): nat
    requires |book.entries| > 0
  {
    Encode(book, Finite(Sum(ps) + b))
  }

  /** The code of the ordered accumulator for one output; None if its state is not a real number. */
  function ModelCode(f: FloatFormat, book: Book, ps: seq<real>, bias: Option<real>): Option<nat>
    requires |book.entries| > 0
  {
    var state := ModelC(f, ps, bias);
    if state.IsReal() then Some(Encode(book, state)) else None
  }

  /** Exact and rounded arithmetic store the same code for every vector of finite codes. */
  ghost predicate ChannelAgrees(f: FloatFormat, domain: seq<Coded>, book: Book, codes: seq<nat>, bias: Option<real>)
    requires |book.entries| > 0
  {
    forall xs :: |xs| == |codes| && AreOperands(domain, xs) ==>
      var ps := Products(xs, Decoded(domain, codes));
      ModelCode(f, book, ps, bias) == Some(ExactCode(book, ps, bias.GetOr(0.0)))
  }

  /** One rounding of a lattice site plus the stored bias. */
  function SiteModel(f: FloatFormat, b: real, q: real): Model {
    i => if Rounded(f, b).IsReal() then Rounded(f, Site(i, q) + Rounded(f, b).Value()) else NotANumber
  }

  /** The preconditions tested before a channel's thresholds are looked at. */
  ghost predicate Narrow(f: FloatFormat, q: Fraction, maximum: real, bound: Bound) {
    bound.overflowExcluded && ExactGrid(f, q, maximum) == Success(true) && 2.0 * bound.error < q.Value()
  }

  /** One rounding of an exact prefix sum with the stored bias stays within the channel's error bound. */
  lemma SiteError(f: FloatFormat, q: Fraction, maximum: real, b: real, k: nat, bound: Bound, i: int)
    requires f.Valid() && k >= 1 && Abs(Site(i, q.Value())) <= maximum
    requires ErrorBound(f, maximum, k, Some(Abs(b))) == Success(bound) && bound.overflowExcluded
    requires ExactGrid(f, q, maximum) == Success(true)
    ensures Rounded(f, b).IsReal()
    ensures Rounded(f, Site(i, q.Value()) + Rounded(f, b).Value()).IsReal()
    ensures Abs(Rounded(f, Site(i, q.Value()) + Rounded(f, b).Value()).Value() - (Site(i, q.Value()) + b))
         <= bound.error
  {
    hide Rounded, ExactGrid, ErrorBound, Site, Fraction.Value, Reduced;
    var s := Site(i, q.Value());
    var ps := [s] + seq(k - 1, _ => 0.0);
    PaddedSum(s, k - 1);
    ErrorBoundMeaning(f, maximum, k, Some(Abs(b)), bound);
    MacBound(f, ps, Some(b), maximum, bound);
    forall n | 0 <= n < |ps|
      ensures OnLattice(ps[n], q.Value())
    {
      LatticeZero(q.Value());
    }
    ReductionExact(f, q, maximum, ps);
  }

  lemma {:induction false} PaddedSum(s: real, n: nat)
    ensures Sum([s] + seq(n, _ => 0.0)) == s
    ensures AbsSum([s] + seq(n, _ => 0.0)) == Abs(s)
  {
    var ps := [s] + seq(n, _ => 0.0);
    if n == 0 {
      assert ps[..0] == [];
    } else {
      PaddedSum(s, n - 1);
      assert ps[..n] == [s] + seq(n - 1, _ => 0.0);
    }
  }

  /** Every bounded site is modelled within the error bound. */
  lemma SitesNear(f: FloatFormat, q: Fraction, maximum: real, b: real, k: nat, bound: Bound)
    requires f.Valid() && k >= 1
    requires ErrorBound(f, maximum, k, Some(Abs(b))) == Success(bound) && bound.overflowExcluded
    requires ExactGrid(f, q, maximum) == Success(true)
    ensures AllNear(b, q.Value(), bound.error, SiteModel(f, b, q.Value()), maximum)
  {
    hide Rounded, ExactGrid, ErrorBound, Site, Fraction.Value;
    forall i: int | Abs(Site(i, q.Value())) <= maximum
      ensures Near(b, q.Value(), bound.error, SiteModel(f, b, q.Value()), i)
    {
      SiteError(f, q, maximum, b, k, bound, i);
    }
  }

  /** Agreement at every bounded lattice site settles every vector of finite codes. */
  lemma SitesSettleChannel(f: FloatFormat, domain: seq<Coded>, book: Book, q: Fraction, codes: seq<nat>,
                           bias: Option<real>, bound: Bound)
    requires f.Valid() && |domain| > 0 && |book.entries| > 0 && |codes| >= 1
    requires forall c :: c in codes ==> HasCode(domain, c)
    requires q.Value() == QuantumOf(Fractions(domain)).Value() * QuantumOf(Fractions(domain)).Value()
    requires ErrorBound(f, MaximumDot(domain, domain, codes), |codes|, Some(Abs(bias.GetOr(0.0)))) == Success(bound)
    requires bound.overflowExcluded && ExactGrid(f, q, MaximumDot(domain, domain, codes)) == Success(true)
    requires Rounded(f, bias.GetOr(0.0)).IsReal()
    requires AllSitesAgree(book, bias.GetOr(0.0), q.Value(), SiteModel(f, bias.GetOr(0.0), q.Value()),
                           MaximumDot(domain, domain, codes))
    ensures ChannelAgrees(f, domain, book, codes, bias)
  {
    hide QuantumOf, MaximumDot, ExactGrid, ErrorBound, Encode;
    forall xs | |xs| == |codes| && AreOperands(domain, xs)
      ensures var ps := Products(xs, Decoded(domain, codes));
        ModelCode(f, book, ps, bias) == Some(ExactCode(book, ps, bias.GetOr(0.0)))
    {
      VectorAgrees(f, domain, book, q, codes, bias, bound, xs);
    }
  }

  lemma VectorAgrees(f: FloatFormat, domain: seq<Coded>, book: Book, q: Fraction, codes: seq<nat>, bias: Option<real>,
                     bound: Bound, xs: seq<real>)
    requires f.Valid() && |domain| > 0 && |book.entries| > 0 && |codes| >= 1
    requires forall c :: c in codes ==> HasCode(domain, c)
    requires q.Value() == QuantumOf(Fractions(domain)).Value() * QuantumOf(Fractions(domain)).Value()
    requires ErrorBound(f, MaximumDot(domain, domain, codes), |codes|, Some(Abs(bias.GetOr(0.0)))) == Success(bound)
    requires bound.overflowExcluded && ExactGrid(f, q, MaximumDot(domain, domain, codes)) == Success(true)
    requires Rounded(f, bias.GetOr(0.0)).IsReal()
    requires AllSitesAgree(book, bias.GetOr(0.0), q.Value(), SiteModel(f, bias.GetOr(0.0), q.Value()),
                           MaximumDot(domain, domain, codes))
    requires |xs| == |codes| && AreOperands(domain, xs)
    ensures var ps := Products(xs, Decoded(domain, codes));
      ModelCode(f, book, ps, bias) == Some(ExactCode(book, ps, bias.GetOr(0.0)))
  {
    hide QuantumOf, MaximumDot, ExactGrid, ErrorBound, Encode, Rounded, Products, Decoded, Fraction.Value, Site,
         Reduced, Sum;
    var i := VectorSite(f, domain, q, codes, xs);
    assert SiteAgrees(book, bias.GetOr(0.0), q.Value(), SiteModel(f, bias.GetOr(0.0), q.Value()), i);
    if bias.None? {
      ExactGridSound(f, q, MaximumDot(domain, domain, codes), Site(i, q.Value()));
      RoundedZero(f);
    }
  }

  /** The exact dot product is a bounded lattice site and the ordered reduction reaches it unrounded. */
  lemma VectorSite(f: FloatFormat, domain: seq<Coded>, q: Fraction, codes: seq<nat>, xs: seq<real>) returns (i: int)
    requires f.Valid() && |domain| > 0
    requires forall c :: c in codes ==> HasCode(domain, c)
    requires q.Value() == QuantumOf(Fractions(domain)).Value() * QuantumOf(Fractions(domain)).Value()
    requires ExactGrid(f, q, MaximumDot(domain, domain, codes)) == Success(true)
    requires |xs| == |codes| && AreOperands(domain, xs)
    ensures Sum(Products(xs, Decoded(domain, codes))) == Site(i, q.Value())
    ensures Abs(Site(i, q.Value())) <= MaximumDot(domain, domain, codes)
    ensures Reduced(f, Products(xs, Decoded(domain, codes))) == Finite(Site(i, q.Value()))
  {
    hide QuantumOf, MaximumDot, ExactGrid, Rounded, Products, Decoded, Fraction.Value, Site, Reduced, Sum;
    var ps := Products(xs, Decoded(domain, codes));
    DotOnLattice(domain, domain, q, xs, codes);
    DotMagnitude(domain, domain, xs, codes);
    ReductionExact(f, q, MaximumDot(domain, domain, codes), ps);
    SumBelowAbsSum(ps);
    i :| Sum(ps) == Site(i, q.Value());
  }

  /** The verdict of a narrow channel: strict margin, or all sites alike under a bias stored as a plain number. */
  ghost predicate DecidesSites(f: FloatFormat, book: Book, q: real, ts: seq<real>, maximum: real, b: real, e: real,
                               verdict: Verdict)
    requires |book.entries| > 0
  {
    && (verdict.StrictThresholdMargin? <==> Clear(ts, b, q, e))
    && (verdict.AllSensitiveSitesEqual? <==>
          !Clear(ts, b, q, e) && Rounded(f, b).Finite? && AllSitesAgree(book, b, q, SiteModel(f, b, q), maximum))
    && (!verdict.Pending? ==> AllSitesAgree(book, b, q, SiteModel(f, b, q), maximum))
  }

  /** Exactly when a channel gets each verdict. */
  ghost predicate DecidesChannel(f: FloatFormat, domain: seq<Coded>, book: Book, q: Fraction, ts: seq<real>,
                                 codes: seq<nat>, b: real, verdict: Result<Verdict>)
    requires |domain| > 0 && |book.entries| > 0
  {
    var maximum := MaximumDot(domain, domain, codes);
    var bound := ErrorBound(f, maximum, |codes|, Some(Abs(b)));
    && (verdict.Success? <==> bound.Success?)
    && (bound.Success? && !Narrow(f, q, maximum, bound.value) ==> verdict.value.Pending?)
    && (bound.Success? && Narrow(f, q, maximum, bound.value) ==>
         && q.Value() > 0.0
         && Rounded(f, b).IsReal()
         && DecidesSites(f, book, q.Value(), ts, maximum, b, bound.value.error, verdict.value))
  }

  method CheckNarrow(f: FloatFormat, q: Fraction, maximum: real, bound: Bound) returns (narrow: bool)
    ensures narrow <==> Narrow(f, q, maximum, bound)
  {
    return bound.overflowExcluded && ExactGrid(f, q, maximum) == Success(true) && 2.0 * bound.error < q.Value();
  }

  /**
   One pass of the channel loop. A proven verdict covers every vector of finite
   codes.
   */
  method CertifyChannel(f: FloatFormat, domain: seq<Coded>, book: Book, q: Fraction, ts: seq<real>, maximumX: real,
                        codes: seq<nat>, bias: Option<real>) returns (verdict: Result<Verdict>)
    requires f.Valid() && |domain| > 0 && |book.entries| > 0 && |ts| > 0
    requires q.numerator > 0 && ts == Thresholds(book) && maximumX == MaximumMagnitude(domain)
    requires q.Value() == QuantumOf(Fractions(domain)).Value() * QuantumOf(Fractions(domain)).Value()
    requires forall c :: c in codes ==> HasCode(domain, c)
    ensures verdict.Success? && !verdict.value.Pending? ==> ChannelAgrees(f, domain, book, codes, bias)
    ensures DecidesChannel(f, domain, book, q, ts, codes, bias.GetOr(0.0), verdict)
  {
    PositiveFraction(q);
    hide Encode, Rounded, ErrorBound, Thresholds, QuantumOf, MaximumDot, Times, MaximumMagnitude, Site, ExactGrid,
         Clear, FloatFormat.MaxFinite, Fraction.Value, AllSitesAgree, SiteModel, ChannelAgrees, Decoded, AbsSum;
    var b := bias.GetOr(0.0);
    var magnitude := WeightMagnitude(domain, codes);
    var maximum := Times(maximumX, magnitude);
    MaximumDotValue(domain, domain, codes, maximumX, magnitude);
    var bounded := ErrorBound(f, maximum, |codes|, Some(Abs(b)));
    if bounded.IsFailure() {
      return Failure("rounding bound");
    }
    var bound := bounded.value;
    ErrorBoundMeaning(f, maximum, |codes|, Some(Abs(b)), bound);
    var narrow := CheckNarrow(f, q, maximum, bound);
    if !narrow {
      return Success(Pending("exact-prefix, overflow or narrow-error precondition failed"));
    }
    var decided := DecideSites(f, book, q, ts, maximum, b, |codes|, bound);
    if decided.Proven() {
      SitesSettleChannel(f, domain, book, q, codes, bias, bound);
    }
    return Success(decided);
  }

  /** The decision of a narrow channel: strict margin, else the codes at every sensitive site. */
  method DecideSites(f: FloatFormat, book: Book, q: Fraction, ts: seq<real>, maximum: real, b: real, k: nat,
                     bound: Bound)
    returns (verdict: Verdict)
    requires f.Valid() && |book.entries| > 0 && |ts| > 0 && ts == Thresholds(book) && q.Value() > 0.0 && k >= 1
    requires ErrorBound(f, maximum, k, Some(Abs(b))) == Success(bound) && Narrow(f, q, maximum, bound)
    ensures Rounded(f, b).IsReal()
    ensures DecidesSites(f, book, q.Value(), ts, maximum, b, bound.error, verdict)
  {
    hide Encode, Rounded, ErrorBound, Thresholds, Site, ExactGrid, ResidueGap, SiteGap, Mod, Fraction.Value, AllNear,
         AllSitesAgree, SiteModel;
    var step := q.Value();
    SiteErrorAtZero(f, q, maximum, b, k, bound);
    ErrorBoundMeaning(f, maximum, k, Some(Abs(b)), bound);
    SitesNear(f, q, maximum, b, k, bound);
    var distance := ThresholdDistance(ts, b, step);
    hide Clear;
    if distance > bound.error {
      ClearSettles(book, b, step, bound.error, SiteModel(f, b, step), maximum);
      return StrictThresholdMargin;
    }
    if !Rounded(f, b).Finite? {
      return Pending("nonfinite or signed-zero bias store");
    }
    var mismatches := CheckSites(book, ts, b, step, bound.error, SiteModel(f, b, step), maximum);
    if mismatches != [] {
      return Pending("output code differs at a sensitive lattice site");
    }
    return AllSensitiveSitesEqual;
  }

  lemma PositiveFraction(q: Fraction)
    requires q.numerator > 0
    ensures q.Value() > 0.0
  {
  }

  lemma SiteErrorAtZero(f: FloatFormat, q: Fraction, maximum: real, b: real, k: nat, bound: Bound)
    requires f.Valid() && ErrorBound(f, maximum, k, Some(Abs(b))) == Success(bound) && bound.overflowExcluded
    requires ExactGrid(f, q, maximum) == Success(true)
    ensures Rounded(f, b).IsReal()
  {
    assert Site(0, q.Value()) == 0.0;
    ErrorBoundMeaning(f, maximum, k, Some(Abs(b)), bound);
    hide Rounded, ExactGrid, ErrorBound, Site;
    SiteError(f, q, maximum, b, k, bound, 0);
  }
}
