/**
 Finite code domains, dot products of finite codes, and reductions that no
 rounding can change because every prefix lies on an exact lattice.
 */
module Operands {
  import opened ExactArithmetic
  import opened FloatAccumulator
  import opened MacError
  import opened Quantum
  import opened Codebook
  import opened Results

  /** One finite code of a domain and its exact value. */
  datatype Coded = Coded(code: nat, value: Fraction)

  function ValueOf(domain: seq<Coded>, code: nat): real {
    if |domain| == 0 then 0.0
    else if domain[0].code == code then domain[0].value.Value()
    else ValueOf(domain[1..], code)
  }

  predicate HasCode(domain: seq<Coded>, code: nat) {
    exists i :: 0 <= i < |domain| && domain[i].code == code
  }

  function Fractions(domain: seq<Coded>): (r: seq<Fraction>)
    ensures |r| == |domain|
    ensures forall i :: 0 <= i < |r| ==> r[i] == domain[i].value
  {
    seq(|domain|, i requires 0 <= i < |domain| => domain[i].value)
  }

  /** The finite part of a format, as the store sees it. */
  function BookOf(domain: seq<Coded>, signedZero: bool, signBit: nat): (book: Book)
    ensures |book.entries| == |domain|
  {
    Book(seq(|domain|, i requires 0 <= i < |domain| => Entry(domain[i].value.Value(), domain[i].code)), signedZero,
         signBit)
  }

  /** max(abs(value) for value in values) */
  function LargestMagnitude(values: seq<Fraction>): (m: real)
    requires |values| > 0
    ensures m >= 0.0
    ensures forall i :: 0 <= i < |values| ==> Abs(values[i].Value()) <= m
  {
    var first := Abs(values[0].Value());
    if |values| == 1 then first
    else
      assert forall i :: 0 < i < |values| ==> values[i] == values[1..][i - 1];
      Max(first, LargestMagnitude(values[1..]))
  }

  /** Some value has that magnitude. */
  lemma {:induction false} LargestAttained(values: seq<Fraction>) returns (i: nat)
    requires |values| > 0
    ensures i < |values| && Abs(values[i].Value()) == LargestMagnitude(values)
  {
    hide Fraction.Value;
    i := 0;
    if |values| > 1 && Abs(values[0].Value()) < LargestMagnitude(values[1..]) {
      i := LargestAttained(values[1..]);
      i := i + 1;
    }
  }

  function MaximumMagnitude(domain: seq<Coded>): (m: real)
    requires |domain| > 0
    ensures m >= 0.0
  {
    LargestMagnitude(Fractions(domain))
  }

  lemma {:induction false} LookedUp(domain: seq<Coded>, code: nat) returns (i: nat)
    requires HasCode(domain, code)
    ensures i < |domain| && domain[i].code == code && ValueOf(domain, code) == domain[i].value.Value()
  {
    if domain[0].code == code {
      i := 0;
    } else {
      var j :| 0 <= j < |domain| && domain[j].code == code;
      assert domain[1..][j - 1].code == code;
      i := LookedUp(domain[1..], code);
      i := i + 1;
    }
  }

  lemma MagnitudeBelow(domain: seq<Coded>, i: nat)
    requires i < |domain|
    ensures Abs(domain[i].value.Value()) <= MaximumMagnitude(domain)
  {
    hide Fraction.Value;
    assert Fractions(domain)[i] == domain[i].value;
  }

  /** An operand of the reduction: a finite code of the domain, or the real zero of padding. */
  ghost predicate IsOperand(domain: seq<Coded>, x: real) {
    x == 0.0 || exists i :: 0 <= i < |domain| && x == domain[i].value.Value()
  }

  ghost predicate AreOperands(domain: seq<Coded>, xs: seq<real>) {
    forall i :: 0 <= i < |xs| ==> IsOperand(domain, xs[i])
  }

  lemma OperandBound(domain: seq<Coded>, x: real)
    requires |domain| > 0 && IsOperand(domain, x)
    ensures Abs(x) <= MaximumMagnitude(domain)
    ensures OnLattice(x, QuantumOf(Fractions(domain)).Value())
  {
    hide QuantumOf, Fraction.Value;
    if x == 0.0 {
      LatticeZero(QuantumOf(Fractions(domain)).Value());
    } else {
      var i :| 0 <= i < |domain| && x == domain[i].value.Value();
      MagnitudeBelow(domain, i);
      QuantumDivides(Fractions(domain), i);
    }
  }

  function Times(x: real, w: real): real { x * w }

  /** The exact products of one reduction. */
  function Products(xs: seq<real>, ws: seq<real>): (ps: seq<real>)
    requires |xs| == |ws|
    ensures |ps| == |ws|
    ensures forall i :: 0 <= i < |ps| ==> ps[i] == Times(xs[i], ws[i])
  {
    seq(|ws|, i requires 0 <= i < |ws| => Times(xs[i], ws[i]))
  }

  function Decoded(domain: seq<Coded>, codes: seq<nat>): (ws: seq<real>)
    ensures |ws| == |codes|
    ensures forall i :: 0 <= i < |ws| ==> ws[i] == ValueOf(domain, codes[i])
  {
    seq(|codes|, i requires 0 <= i < |codes| => ValueOf(domain, codes[i]))
  }

  /** |sum of x*w| term by term: at most the largest activation times the weight magnitudes. */
  lemma {:induction false} ProductMagnitude(xs: seq<real>, ws: seq<real>, maximum: real)
    requires |xs| == |ws| && maximum >= 0.0
    requires forall i :: 0 <= i < |xs| ==> Abs(xs[i]) <= maximum
    ensures AbsSum(Products(xs, ws)) <= Times(maximum, AbsSum(ws))
  {
    if |ws| > 0 {
      hide Times;
      var k := |ws| - 1;
      ProductMagnitude(xs[..k], ws[..k], maximum);
      assert Products(xs, ws)[..k] == Products(xs[..k], ws[..k]);
      ScaledTerm(xs[k], ws[k], maximum, AbsSum(ws[..k]), AbsSum(ws));
    } else {
      assert AbsSum(ws) == 0.0;
    }
  }

  lemma ScaledTerm(x: real, w: real, maximum: real, head: real, total: real)
    requires Abs(x) <= maximum && total == head + Abs(w)
    ensures Times(maximum, head) + Abs(Times(x, w)) <= Times(maximum, total)
  {
    AbsProduct(x, w);
    var a, b, m := Abs(x), Abs(w), maximum;
    var d := m - a;
    assert d * b >= 0.0;
    assert d * b == m * b - a * b;
    assert m * total == m * head + m * b;
  }

  lemma {:induction false} SumOnLattice(ps: seq<real>, q: real)
    requires forall i :: 0 <= i < |ps| ==> OnLattice(ps[i], q)
    ensures OnLattice(Sum(ps), q)
  {
    hide OnLattice;
    if |ps| == 0 {
      LatticeZero(q);
    } else {
      var k := |ps| - 1;
      SumOnLattice(ps[..k], q);
      LatticeAdd(Sum(ps[..k]), ps[k], q);
    }
  }

  /** When every term is on an exact grid that holds the magnitudes, no prefix is ever rounded. */
  lemma {:induction false} ReductionExact(f: FloatFormat, q: Fraction, maximum: real, ps: seq<real>)
    requires f.Valid() && ExactGrid(f, q, maximum) == Success(true)
    requires forall i :: 0 <= i < |ps| ==> OnLattice(ps[i], q.Value())
    requires AbsSum(ps) <= maximum
    ensures Reduced(f, ps) == Finite(Sum(ps))
  {
    hide OnLattice, ExactGrid, Rounded;
    if |ps| > 0 {
      var k := |ps| - 1;
      ReductionExact(f, q, maximum, ps[..k]);
      SumOnLattice(ps, q.Value());
      SumBelowAbsSum(ps);
      ExactGridSound(f, q, maximum, Sum(ps));
    }
  }

  lemma LatticeTimes(x: real, w: real, p: real, r: real, q: real)
    requires OnLattice(x, p) && OnLattice(w, r) && q == p * r
    ensures OnLattice(Times(x, w), q)
  {
    LatticeProduct(x, w, p, r);
  }

  /** Dot products of two finite codebooks lie on the product of the two quanta. */
  lemma DotOnLattice(left: seq<Coded>, right: seq<Coded>, q: Fraction, xs: seq<real>, codes: seq<nat>)
    requires |left| > 0 && |xs| == |codes| && AreOperands(left, xs)
    requires forall c :: c in codes ==> HasCode(right, c)
    requires q.Value() == QuantumOf(Fractions(left)).Value() * QuantumOf(Fractions(right)).Value()
    ensures forall i :: 0 <= i < |codes| ==> OnLattice(Products(xs, Decoded(right, codes))[i], q.Value())
    ensures OnLattice(Sum(Products(xs, Decoded(right, codes))), q.Value())
  {
    hide OnLattice, QuantumOf, Fraction.Value, MaximumMagnitude, Times;
    var ps := Products(xs, Decoded(right, codes));
    forall i | 0 <= i < |ps|
      ensures OnLattice(ps[i], q.Value())
    {
      OperandBound(left, xs[i]);
      var j := LookedUp(right, codes[i]);
      QuantumDivides(Fractions(right), j);
      LatticeTimes(xs[i], ValueOf(right, codes[i]),
                   QuantumOf(Fractions(left)).Value(), QuantumOf(Fractions(right)).Value(), q.Value());
    }
    SumOnLattice(ps, q.Value());
  }

  /** maximum_x * sum(abs(w)*count) */
  function MaximumDot(left: seq<Coded>, right: seq<Coded>, codes: seq<nat>): real
    requires |left| > 0
  {
    Times(MaximumMagnitude(left), AbsSum(Decoded(right, codes)))
  }

  lemma MaximumDotValue(left: seq<Coded>, right: seq<Coded>, codes: seq<nat>, maximum: real, magnitude: real)
    requires |left| > 0 && maximum == MaximumMagnitude(left) && magnitude == AbsSum(Decoded(right, codes))
    ensures Times(maximum, magnitude) == MaximumDot(left, right, codes)
  {
  }

  /** The bound covers every dot product with these weights. */
  lemma DotMagnitude(left: seq<Coded>, right: seq<Coded>, xs: seq<real>, codes: seq<nat>)
    requires |left| > 0 && |xs| == |codes| && AreOperands(left, xs)
    ensures AbsSum(Products(xs, Decoded(right, codes))) <= MaximumDot(left, right, codes)
  {
    hide OnLattice, QuantumOf, Fraction.Value, MaximumMagnitude, Products, Decoded, Times;
    forall i | 0 <= i < |xs|
      ensures Abs(xs[i]) <= MaximumMagnitude(left)
    {
      OperandBound(left, xs[i]);
    }
    ProductMagnitude(xs, Decoded(right, codes), MaximumMagnitude(left));
  }
}
