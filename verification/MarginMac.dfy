/**
 The MAC output-store certificates that rest on a strict threshold margin
 alone: Q1.6 with FP64 (plus the exact biased lattice, which also admits ties)
 and scaled binary or ternary with per-channel weight scales.
 */
module MarginMac {
  import opened ExactArithmetic
  import opened FloatAccumulator
  import opened MacError
  import opened Quantum
  import opened Codebook
  import opened StoreMargin
  import opened Operands
  import opened WeightHistogram
  import opened DyadicMac
  import opened Results

  /** A reduction within its error bound of a lattice that clears every threshold is stored exactly. */
  lemma StrictMarginSettles(f: FloatFormat, book: Book, q: real, ps: seq<real>, bias: Option<real>, maximum: real,
                            bound: Bound)
    requires f.Valid() && |book.entries| > 0 && AbsSum(ps) <= maximum
    requires forall i :: 0 <= i < |ps| ==> OnLattice(ps[i], q)
    requires ErrorBound(f, maximum, |ps|, Some(Abs(bias.GetOr(0.0)))) == Success(bound) && bound.overflowExcluded
    requires Clear(Thresholds(book), bias.GetOr(0.0), q, bound.error)
    ensures ModelCode(f, book, ps, bias) == Some(ExactCode(book, ps, bias.GetOr(0.0)))
  {
    hide ErrorBound, Thresholds, Encode, ModelC, Site, SiteGap, Sum, AbsSum, Rounded, Abs;
    SumOnLattice(ps, q);
    MacBound(f, ps, bias, maximum, bound);
    var i: int :| Sum(ps) == Site(i, q);
    ClearStore(book, i, bias.GetOr(0.0), q, bound.error, ModelC(f, ps, bias));
  }

  /** When the bias is itself a lattice site and the biased lattice is exact, nothing is rounded. */
  lemma BiasedLatticeSettles(f: FloatFormat, book: Book, q: Fraction, ps: seq<real>, bias: Option<real>, maximum: real)
    requires f.Valid() && |book.entries| > 0 && AbsSum(ps) <= maximum
    requires forall i :: 0 <= i < |ps| ==> OnLattice(ps[i], q.Value())
    requires OnLattice(bias.GetOr(0.0), q.Value())
    requires ExactGrid(f, q, maximum + Abs(bias.GetOr(0.0))) == Success(true)
    ensures ModelC(f, ps, bias) == Finite(Sum(ps) + bias.GetOr(0.0))
  {
    hide ExactGrid, Rounded, OnLattice, Fraction.Value;
    var b := bias.GetOr(0.0);
    var total := maximum + Abs(b);
    SumOnLattice(ps, q.Value());
    SumBelowAbsSum(ps);
    ReductionExact(f, q, total, ps);
    ExactGridSound(f, q, total, b);
    LatticeAdd(Sum(ps), b, q.Value());
    ExactGridSound(f, q, total, Sum(ps) + b);
  }

  /** b % q == 0 says that b is a lattice site. */
  lemma ZeroResidue(b: real, q: real)
    requires q > 0.0
    ensures Mod(b, q) == 0.0 <==> OnLattice(b, q)
  {
    var n := (b / q).Floor;
    if Mod(b, q) == 0.0 {
      assert b == Site(n, q);
    }
    if OnLattice(b, q) {
      var i: int :| b == Site(i, q);
      ModUnique(b, i, q);
    }
  }

  datatype Method = StrictMargin | ExactBiasedLattice | Undecided(margin: real, error: real)

  /**
   The Q1.6 channel loop. Every proven channel is settled for all input codes,
   exact ties included when the whole biased lattice is representable.
   */
  method CertifyFixedPoint(f: FloatFormat, domain: seq<Coded>, book: Book, q: Fraction, ts: seq<real>,
                           maximumInput: real, codes: seq<nat>, bias: Option<real>) returns (verdict: Result<Method>)
    requires f.Valid() && |domain| > 0 && |book.entries| > 0 && |ts| > 0 && ts == Thresholds(book)
    requires q.numerator > 0 && maximumInput == MaximumMagnitude(domain)
    requires q.Value() == QuantumOf(Fractions(domain)).Value() * QuantumOf(Fractions(domain)).Value()
    requires forall c :: c in codes ==> HasCode(domain, c)
    ensures verdict.Success? && !verdict.value.Undecided? ==> ChannelAgrees(f, domain, book, codes, bias)
    ensures var bound := ErrorBound(f, MaximumDot(domain, domain, codes), |codes|, Some(Abs(bias.GetOr(0.0))));
      && (verdict.Success? <==> bound.Success? && bound.value.overflowExcluded)
      && (verdict.Success? ==>
           (verdict.value.StrictMargin? <==> Clear(ts, bias.GetOr(0.0), q.Value(), bound.value.error)))
      && (verdict.Success? ==>
           (verdict.value.ExactBiasedLattice? <==>
             && !Clear(ts, bias.GetOr(0.0), q.Value(), bound.value.error)
             && OnLattice(bias.GetOr(0.0), q.Value())
             && ExactGrid(f, q, MaximumDot(domain, domain, codes) + Abs(bias.GetOr(0.0))) == Success(true)))
      && (verdict.Success? && verdict.value.Undecided? ==>
           verdict.value.error == bound.value.error
           && forall e :: verdict.value.margin > e <==> Clear(ts, bias.GetOr(0.0), q.Value(), e))
  {
    PositiveFraction(q);
    hide ErrorBound, Thresholds, QuantumOf, MaximumDot, Times, MaximumMagnitude, ExactGrid, Mod, OnLattice, Clear,
         ChannelAgrees, Fraction.Value, Decoded, AbsSum;
    var b := bias.GetOr(0.0);
    var magnitude := WeightMagnitude(domain, codes);
    var maximum := Times(maximumInput, magnitude);
    MaximumDotValue(domain, domain, codes, maximumInput, magnitude);
    var bounded := ErrorBound(f, maximum, |codes|, Some(Abs(b)));
    if bounded.IsFailure() || !bounded.value.overflowExcluded {
      return Failure("overflow was not excluded");
    }
    var bound := bounded.value;
    var step := q.Value();
    var margin := ThresholdDistance(ts, b, step);
    ZeroResidue(b, step);
    if margin > bound.error {
      verdict := Success(StrictMargin);
    } else if Mod(b, step) == 0.0 && ExactGrid(f, q, maximum + Abs(b)) == Success(true) {
      verdict := Success(ExactBiasedLattice);
    } else {
      return Success(Undecided(margin, bound.error));
    }
    FixedPointSettles(f, domain, book, q, codes, bias, bound);
  }

  /** Either proven method settles every vector of input codes. */
  lemma FixedPointSettles(f: FloatFormat, domain: seq<Coded>, book: Book, q: Fraction, codes: seq<nat>,
                          bias: Option<real>, bound: Bound)
    requires f.Valid() && |domain| > 0 && |book.entries| > 0
    requires q.Value() == QuantumOf(Fractions(domain)).Value() * QuantumOf(Fractions(domain)).Value()
    requires forall c :: c in codes ==> HasCode(domain, c)
    requires ErrorBound(f, MaximumDot(domain, domain, codes), |codes|, Some(Abs(bias.GetOr(0.0)))) == Success(bound)
    requires bound.overflowExcluded
    requires Clear(Thresholds(book), bias.GetOr(0.0), q.Value(), bound.error)
      || (OnLattice(bias.GetOr(0.0), q.Value())
          && ExactGrid(f, q, MaximumDot(domain, domain, codes) + Abs(bias.GetOr(0.0))) == Success(true))
    ensures ChannelAgrees(f, domain, book, codes, bias)
  {
    hide ErrorBound, Thresholds, QuantumOf, MaximumDot, OnLattice, Clear, ExactGrid, ModelCode, ExactCode,
         Fraction.Value, Products, Decoded, AbsSum, AreOperands, HasCode, FloatFormat.Valid;
    forall xs | |xs| == |codes| && AreOperands(domain, xs)
      ensures var ps := Products(xs, Decoded(domain, codes));
        ModelCode(f, book, ps, bias) == Some(ExactCode(book, ps, bias.GetOr(0.0)))
    {
      DotOnLattice(domain, domain, q, xs, codes);
      DotMagnitude(domain, domain, xs, codes);
      FixedPointVector(f, book, q, Products(xs, Decoded(domain, codes)), bias, MaximumDot(domain, domain, codes),
                       bound);
    }
  }

  lemma FixedPointVector(f: FloatFormat, book: Book, q: Fraction, ps: seq<real>, bias: Option<real>, maximum: real,
                         bound: Bound)
    requires f.Valid() && |book.entries| > 0 && AbsSum(ps) <= maximum
    requires forall i :: 0 <= i < |ps| ==> OnLattice(ps[i], q.Value())
    requires ErrorBound(f, maximum, |ps|, Some(Abs(bias.GetOr(0.0)))) == Success(bound) && bound.overflowExcluded
    requires Clear(Thresholds(book), bias.GetOr(0.0), q.Value(), bound.error)
      || (OnLattice(bias.GetOr(0.0), q.Value()) && ExactGrid(f, q, maximum + Abs(bias.GetOr(0.0))) == Success(true))
    ensures ModelCode(f, book, ps, bias) == Some(ExactCode(book, ps, bias.GetOr(0.0)))
  {
    hide ErrorBound, Thresholds, OnLattice, Clear, ExactGrid, ModelCode, ExactCode, Fraction.Value;
    if Clear(Thresholds(book), bias.GetOr(0.0), q.Value(), bound.error) {
      StrictMarginSettles(f, book, q.Value(), ps, bias, maximum, bound);
    } else {
      BiasedLatticeSettles(f, book, q, ps, bias, maximum);
      ExactStateStored(f, book, ps, bias);
    }
  }

  lemma ExactStateStored(f: FloatFormat, book: Book, ps: seq<real>, bias: Option<real>)
    requires |book.entries| > 0 && ModelC(f, ps, bias) == Finite(Sum(ps) + bias.GetOr(0.0))
    ensures ModelCode(f, book, ps, bias) == Some(ExactCode(book, ps, bias.GetOr(0.0)))
  {
    hide Encode, ModelC;
  }

  // ----- scaled binary and ternary -----

  /** A scalar or per-channel mapped encoding: finite codes under positive scales. */
  datatype Mapped = Mapped(codes: seq<Coded>, scales: seq<real>) {
    predicate Valid() { |codes| > 0 && |scales| > 0 && forall i :: 0 <= i < |scales| ==> scales[i] > 0.0 }

    /** scales[channel] along axis 0, or the one scale. */
    function Scale(channel: nat): (s: real)
      requires Valid()
      ensures s > 0.0
    {
      if channel < |scales| then scales[channel] else scales[0]
    }
  }

  /** Channel c has scale c; past the list, as with one scale for all, the first. */
  lemma ScaleOfChannel(e: Mapped, channel: nat)
    requires e.Valid()
    ensures channel < |e.scales| ==> e.Scale(channel) == e.scales[channel]
    ensures |e.scales| == 1 ==> e.scales == [e.Scale(channel)]
  {
  }

  function ScaledValues(values: seq<real>, scale: real): (r: seq<real>)
    ensures |r| == |values|
    ensures forall i :: 0 <= i < |r| ==> r[i] == Times(values[i], scale)
  {
    seq(|values|, i requires 0 <= i < |values| => Times(values[i], scale))
  }

  /** The store table in the scaled domain: value times the output scale. */
  function ScaledBook(codes: seq<Coded>, scale: real): (book: Book)
    ensures |book.entries| == |codes|
  {
    Book(seq(|codes|, i requires 0 <= i < |codes| => Entry(Times(codes[i].value.Value(), scale), codes[i].code)),
         false, 0)
  }

  lemma ScaledOrder(a: Entry, b: Entry, a': Entry, b': Entry, target: real, scale: real)
    requires scale > 0.0 && a.code == a'.code && b.code == b'.code
    requires a'.value == Times(a.value, scale) && b'.value == Times(b.value, scale)
    ensures AtLeastAsGood(a', b', target) <==> AtLeastAsGood(a, b, target / scale)
  {
    var t := target / scale;
    assert t * scale == target;
    ScaledGap(a.value, a'.value, t, target, scale);
    ScaledGap(b.value, b'.value, t, target, scale);
    ScaledCompare(Abs(a.value - t), Abs(b.value - t), Abs(a'.value - target), Abs(b'.value - target), scale);
  }

  lemma ScaledGap(v: real, v': real, t: real, target: real, scale: real)
    requires scale > 0.0 && v' == Times(v, scale) && target == t * scale
    ensures Abs(v' - target) == Times(Abs(v - t), scale)
  {
    Distribute(v, t, scale);
    AbsProduct(v - t, scale);
  }

  lemma ScaledCompare(x: real, y: real, x': real, y': real, scale: real)
    requires scale > 0.0 && x' == Times(x, scale) && y' == Times(y, scale)
    ensures x < y <==> x' < y'
    ensures x == y <==> x' == y'
  {
    Scale(x, y, scale, x', y');
    Scale(y, x, scale, y', x');
  }

  /** Storing v/scale in the unscaled table is storing v in the scaled one. */
  lemma {:induction false} ScaledStore(codes: seq<Coded>, scale: real, target: real)
    requires |codes| > 0 && scale > 0.0
    ensures Best(ScaledBook(codes, scale).entries, target).code
         == Best(BookOf(codes, false, 0).entries, target / scale).code
    ensures Best(ScaledBook(codes, scale).entries, target).value
         == Times(Best(BookOf(codes, false, 0).entries, target / scale).value, scale)
  {
    hide AtLeastAsGood, Times, Fraction.Value;
    if |codes| > 1 {
      var es, us := ScaledBook(codes, scale).entries, BookOf(codes, false, 0).entries;
      assert es[1..] == ScaledBook(codes[1..], scale).entries;
      assert us[1..] == BookOf(codes[1..], false, 0).entries;
      ScaledStore(codes[1..], scale, target);
      ScaledOrder(us[0], Best(us[1..], target / scale), es[0], Best(es[1..], target), target, scale);
    }
  }

  lemma ScaledMagnitudeSum(head: real, p: real, r: real)
    requires r > 0.0
    ensures Times(head, r) + Abs(Times(p, r)) == Times(head + Abs(p), r)
    ensures Times(0.0, r) == 0.0
  {
    AbsProduct(p, r);
    Distribute(head, Abs(p), r);
  }

  lemma {:induction false} ScaledAbsSum(ps: seq<real>, r: real)
    requires r > 0.0
    ensures AbsSum(ScaledValues(ps, r)) == Times(AbsSum(ps), r)
  {
    hide Times;
    if |ps| > 0 {
      var k := |ps| - 1;
      ScaledAbsSum(ps[..k], r);
      assert ScaledValues(ps, r)[..k] == ScaledValues(ps[..k], r);
      ScaledMagnitudeSum(AbsSum(ps[..k]), ps[k], r);
    } else {
      ScaledMagnitudeSum(0.0, 0.0, r);
    }
  }

  /** (u*sx)*(w*sw) term by term is the unscaled product times sx*sw. */
  lemma ScaledProducts(us: seq<real>, ws: seq<real>, sx: real, sw: real)
    requires |us| == |ws|
    ensures Products(ScaledValues(us, sx), ScaledValues(ws, sw)) == ScaledValues(Products(us, ws), sx * sw)
  {
    var left, right := Products(ScaledValues(us, sx), ScaledValues(ws, sw)), ScaledValues(Products(us, ws), sx * sw);
    forall i | 0 <= i < |us|
      ensures left[i] == right[i]
    {
      ScaledTerms(us[i], ws[i], sx, sw);
    }
  }

  lemma ScaledTerms(u: real, w: real, sx: real, sw: real)
    ensures Times(Times(u, sx), Times(w, sw)) == Times(Times(u, w), sx * sw)
  {
    Regroup(u, sx, w, sw);
  }

  /** The step xq*wq*scale and the bound maximum_x*scale*sum of the mapped proof. */
  function MappedStep(x: Mapped, w: Mapped, channel: nat): real
    requires x.Valid() && w.Valid()
  {
    QuantumOf(Fractions(x.codes)).Value() * x.Scale(0) * QuantumOf(Fractions(w.codes)).Value() * w.Scale(channel)
  }

  function MappedMaximum(x: Mapped, w: Mapped, channel: nat, magnitude: real): real
    requires x.Valid() && w.Valid()
  {
    MaximumMagnitude(x.codes) * x.Scale(0) * w.Scale(channel) * magnitude
  }

  /** Exact and rounded arithmetic agree on one channel for every vector of scaled finite operands. */
  ghost predicate MappedAgrees(f: FloatFormat, x: Mapped, w: Mapped, out: Mapped, channel: nat, codes: seq<nat>,
                               bias: Option<real>)
    requires x.Valid() && w.Valid() && out.Valid()
  {
    forall us :: |us| == |codes| && AreOperands(x.codes, us) ==>
      var ps := Products(ScaledValues(us, x.Scale(0)), ScaledValues(Decoded(w.codes, codes), w.Scale(channel)));
      StoredAlike(f, out, ps, bias)
  }

  /** The code of a value: the value over the output scale, stored in the unscaled table. */
  function StoreMapped(out: Mapped, v: real): nat
    requires out.Valid()
  {
    Encode(BookOf(out.codes, false, 0), Finite(v / out.Scale(0)))
  }

  /** It is the code of a value that no other is nearer to the value over the scale. */
  lemma MappedNearest(out: Mapped, v: real) returns (i: nat)
    requires out.Valid()
    ensures i < |out.codes| && StoreMapped(out, v) == out.codes[i].code
    ensures forall j :: 0 <= j < |out.codes| ==>
      Abs(out.codes[i].value.Value() - v / out.Scale(0)) <= Abs(out.codes[j].value.Value() - v / out.Scale(0))
  {
    var book, target := BookOf(out.codes, false, 0), v / out.Scale(0);
    hide Best, Fraction.Value, Mapped.Scale, Abs;
    BestIsBest(book.entries, target);
    i :| 0 <= i < |book.entries| && book.entries[i] == Best(book.entries, target);
    forall j | 0 <= j < |out.codes|
      ensures Abs(out.codes[i].value.Value() - target) <= Abs(out.codes[j].value.Value() - target)
    {
      assert book.entries[j] in book.entries;
    }
  }

  /** The rounded state is a number, stored as the exact value is. */
  ghost predicate StoredAlike(f: FloatFormat, out: Mapped, ps: seq<real>, bias: Option<real>)
    requires out.Valid()
  {
    var state := ModelC(f, ps, bias);
    state.IsReal() && StoreMapped(out, state.Value()) == StoreMapped(out, Sum(ps) + bias.GetOr(0.0))
  }

  /** The scaled table of the proof stores what the division and the unscaled table store. */
  lemma ScaledTableStores(f: FloatFormat, out: Mapped, ps: seq<real>, bias: Option<real>)
    requires out.Valid()
    requires ModelCode(f, ScaledBook(out.codes, out.Scale(0)), ps, bias)
          == Some(ExactCode(ScaledBook(out.codes, out.Scale(0)), ps, bias.GetOr(0.0)))
    ensures StoredAlike(f, out, ps, bias)
  {
    hide ModelC, Sum, Mapped.Scale, Best;
    var s := out.Scale(0);
    ScaledStore(out.codes, s, ModelC(f, ps, bias).Value());
    ScaledStore(out.codes, s, Sum(ps) + bias.GetOr(0.0));
  }

  lemma LatticeScaled(p: real, q: real, r: real, step: real)
    requires OnLattice(p, q) && step == q * r
    ensures OnLattice(Times(p, r), step)
  {
    var i: int :| p == Site(i, q);
    assert Times(p, r) == Site(i, step) by {
      assert (i as real * q) * r == i as real * (q * r);
    }
  }

  /** Every term of a mapped dot product is on the mapped step. */
  lemma MappedOnLattice(x: Mapped, w: Mapped, channel: nat, codes: seq<nat>, us: seq<real>)
    requires x.Valid() && w.Valid() && |us| == |codes| && AreOperands(x.codes, us)
    requires forall c :: c in codes ==> HasCode(w.codes, c)
    ensures var ps := Products(ScaledValues(us, x.Scale(0)), ScaledValues(Decoded(w.codes, codes), w.Scale(channel)));
      forall i :: 0 <= i < |ps| ==> OnLattice(ps[i], MappedStep(x, w, channel))
  {
    hide OnLattice, QuantumOf, Fraction.Value, Mapped.Scale, Product, Times;
    var sx, sw := x.Scale(0), w.Scale(channel);
    var ws := Decoded(w.codes, codes);
    var flat := Products(us, ws);
    ScaledProducts(us, ws, sx, sw);
    var p, r := QuantumOf(Fractions(x.codes)), QuantumOf(Fractions(w.codes));
    var q := Product(p, r);
    ProductValue(p, r);
    DotOnLattice(x.codes, w.codes, q, us, codes);
    var scale := sx * sw;
    StepRegroup(p.Value(), r.Value(), sx, sw, q.Value());
    var step := MappedStep(x, w, channel);
    assert step == q.Value() * scale;
    hide MappedStep, Products;
    forall i | 0 <= i < |flat|
      ensures OnLattice(ScaledValues(flat, scale)[i], step)
    {
      LatticeScaled(flat[i], q.Value(), scale, step);
    }
  }

  /** The magnitudes of a mapped dot product fit the mapped maximum. */
  lemma MappedMagnitude(x: Mapped, w: Mapped, channel: nat, codes: seq<nat>, us: seq<real>)
    requires x.Valid() && w.Valid() && |us| == |codes| && AreOperands(x.codes, us)
    ensures var ps := Products(ScaledValues(us, x.Scale(0)), ScaledValues(Decoded(w.codes, codes), w.Scale(channel)));
      AbsSum(ps) <= MappedMaximum(x, w, channel, AbsSum(Decoded(w.codes, codes)))
  {
    hide Fraction.Value, Mapped.Scale, MaximumMagnitude, Products, Decoded, ScaledValues, Times;
    var sx, sw := x.Scale(0), w.Scale(channel);
    var ws := Decoded(w.codes, codes);
    ScaledProducts(us, ws, sx, sw);
    DotMagnitude(x.codes, w.codes, us, codes);
    MulPositiveReal(sx, sw);
    ScaledAbsSum(Products(us, ws), sx * sw);
    MaximumRegroup(MaximumMagnitude(x.codes), AbsSum(ws), sx, sw, AbsSum(Products(us, ws)));
  }

  lemma MulPositiveReal(a: real, b: real)
    requires a > 0.0 && b > 0.0
    ensures a * b > 0.0
  {
  }

  lemma StepRegroup(p: real, r: real, sx: real, sw: real, q: real)
    requires q == p * r
    ensures q * (sx * sw) == p * sx * r * sw
  {
    Regroup(p, r, sx, sw);
    Regroup(p, sx, r, sw);
  }

  lemma MaximumRegroup(m: real, total: real, sx: real, sw: real, flat: real)
    requires flat <= Times(m, total) && sx > 0.0 && sw > 0.0
    ensures Times(flat, sx * sw) <= m * sx * sw * total
  {
    var s := sx * sw;
    Scale(flat, m * total, s, flat * s, (m * total) * s);
    assert (m * total) * s == (m * s) * total;
    assert m * s == m * sx * sw;
  }

  /**
   The mapped channel loop: a channel passes when its lattice clears the output
   thresholds by more than the error bound, and then every vector of operands
   is stored alike.
   */
  method CertifyMapped(f: FloatFormat, x: Mapped, w: Mapped, out: Mapped, ts: seq<real>, channel: nat, codes: seq<nat>,
                       bias: Option<real>) returns (passed: Result<bool>)
    requires f.Valid() && x.Valid() && w.Valid() && out.Valid() && |ts| > 0
    requires ts == Thresholds(ScaledBook(out.codes, out.Scale(0))) && MappedStep(x, w, channel) > 0.0
    requires forall c :: c in codes ==> HasCode(w.codes, c)
    ensures passed == Success(true) ==> MappedAgrees(f, x, w, out, channel, codes, bias)
    ensures var bound := ErrorBound(f, MappedMaximum(x, w, channel, AbsSum(Decoded(w.codes, codes))), |codes|,
                                    Some(Abs(bias.GetOr(0.0))));
      && (passed.Success? <==> bound.Success? && bound.value.overflowExcluded)
      && (passed.Success? ==>
           (passed.value <==> Clear(ts, bias.GetOr(0.0), MappedStep(x, w, channel), bound.value.error)))
  {
    hide Encode, Rounded, ErrorBound, Thresholds, MappedStep, MappedMaximum, Site, ResidueGap, SiteGap, Mod, ModelCode,
         ExactCode, Mapped.Scale, Times;
    var b, q := bias.GetOr(0.0), MappedStep(x, w, channel);
    var magnitude := WeightMagnitude(w.codes, codes);
    var maximum := MappedMaximum(x, w, channel, magnitude);
    var bounded := ErrorBound(f, maximum, |codes|, Some(Abs(b)));
    if bounded.IsFailure() || !bounded.value.overflowExcluded {
      return Failure("mapped FP64 MAC overflow is not excluded");
    }
    var margin := ThresholdDistance(ts, b, q);
    if margin <= bounded.value.error {
      return Success(false);
    }
    hide OnLattice, Clear, StoredAlike;
    forall us | |us| == |codes| && AreOperands(x.codes, us)
      ensures var ps := Products(ScaledValues(us, x.Scale(0)), ScaledValues(Decoded(w.codes, codes), w.Scale(channel)));
        StoredAlike(f, out, ps, bias)
    {
      var ps := Products(ScaledValues(us, x.Scale(0)), ScaledValues(Decoded(w.codes, codes), w.Scale(channel)));
      MappedOnLattice(x, w, channel, codes, us);
      MappedMagnitude(x, w, channel, codes, us);
      StrictMarginSettles(f, ScaledBook(out.codes, out.Scale(0)), q, ps, bias, maximum, bounded.value);
      ScaledTableStores(f, out, ps, bias);
    }
    return Success(true);
  }
}
