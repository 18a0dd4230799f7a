/**
 Exact rational arithmetic, written on Dafny's reals: powers of two, floor and
 ceiling, the floored modulus of Python's Fraction, and lattices of multiples
 of a positive step.
 */
module ExactArithmetic {

  function Abs(x: real): real {
    if x < 0.0 then -x else x
  }

  function Min(x: real, y: real): real {
    if x <= y then x else y
  }

  function Max(x: real, y: real): real {
    if x <= y then y else x
  }

  // ----- products of reals, one fact at a time -----

  /** Multiplying by a positive factor keeps the order, in both directions. */
  lemma Scale(a: real, b: real, q: real, x: real, y: real)
    requires q > 0.0 && x == a * q && y == b * q
    ensures a <= b <==> x <= y
    ensures a < b <==> x < y
  {
    var d := b - a;
    assert d * q == y - x;
  }

  lemma Distribute(a: real, b: real, q: real)
    ensures (a + b) * q == a * q + b * q
    ensures (a - b) * q == a * q - b * q
  {
  }

  lemma Cancel(x: real, y: real, p: real, q: real)
    requires x == y * p && p * q == 1.0
    ensures y == x * q
  {
    assert x * q == y * (p * q);
  }

  lemma Regroup(a: real, p: real, b: real, q: real)
    ensures (a * p) * (b * q) == (a * b) * (p * q)
  {
    var u, v := p * b, a * b;
    assert p * (b * q) == u * q;
    assert u * q == b * (p * q);
    assert a * (b * (p * q)) == v * (p * q);
  }

  lemma AbsProduct(a: real, b: real)
    ensures Abs(a * b) == Abs(a) * Abs(b)
  {
  }

  // ----- powers of two -----

  function IntPow2(n: nat): (p: nat)
    ensures p > 0
  {
    if n == 0 then 1 else 2 * IntPow2(n - 1)
  }

  lemma {:induction false} IntPow2Add(a: nat, b: nat)
    ensures IntPow2(a + b) == IntPow2(a) * IntPow2(b)
  {
    if a > 0 {
      IntPow2Add(a - 1, b);
      assert IntPow2(a + b) == 2 * IntPow2(a - 1 + b);
    }
  }

  lemma {:induction false} IntPow2Monotone(a: nat, b: nat)
    requires a <= b
    ensures IntPow2(a) <= IntPow2(b)
    ensures a < b ==> 2 * IntPow2(a) <= IntPow2(b)
  {
    if a < b {
      IntPow2Monotone(a, b - 1);
    }
  }

  /** int.bit_length() */
  function BitLength(n: nat): nat {
    if n == 0 then 0 else 1 + BitLength(n / 2)
  }

  lemma {:induction false} BelowBitLength(n: nat)
    ensures n < IntPow2(BitLength(n))
  {
    if n > 0 {
      BelowBitLength(n / 2);
    }
  }

  /** n bits hold a number exactly when its bit length is at most n. */
  lemma {:induction false} BitLengthFits(v: nat, n: nat)
    ensures v < IntPow2(n) <==> BitLength(v) <= n
  {
    if v > 0 && n > 0 {
      BitLengthFits(v / 2, n - 1);
    }
  }

  /** pow2 of the reference arithmetic: 2^e for any integer e. */
  function Pow2(e: int): (p: real)
    ensures p > 0.0
  {
    if e >= 0 then IntPow2(e) as real else 1.0 / IntPow2(-e) as real
  }

  lemma Pow2Step(e: int)
    ensures Pow2(e + 1) == 2.0 * Pow2(e)
  {
    if e < 0 {
      assert IntPow2(-e) == 2 * IntPow2(-e - 1);
    }
  }

  lemma Pow2Zero()
    ensures Pow2(0) == 1.0
  {
  }

  lemma IntPow2Zero()
    ensures IntPow2(0) == 1
  {
  }

  lemma IntPow2Real(n: nat)
    ensures Pow2(n) == IntPow2(n) as real
  {
  }

  lemma Pow2Inverse(e: int)
    ensures Pow2(e) * Pow2(-e) == 1.0
  {
  }

  lemma Pow2AddNat(a: nat, b: nat)
    ensures Pow2(a + b) == Pow2(a) * Pow2(b)
  {
    hide Pow2, IntPow2;
    IntPow2Add(a, b);
    IntPow2Real(a);
    IntPow2Real(b);
    IntPow2Real(a + b);
    ProductAsReal(IntPow2(a), IntPow2(b), IntPow2(a + b));
  }

  lemma ProductAsReal(a: int, b: int, p: int)
    requires p == a * b
    ensures p as real == a as real * b as real
  {
  }

  lemma Pow2Sub(a: int, n: int)
    requires n >= 0
    ensures Pow2(a - n) == Pow2(a) * Pow2(-n)
  {
    hide Pow2;
    Pow2Inverse(n);
    if a >= n {
      Pow2AddNat(a - n, n);
      Cancel(Pow2(a), Pow2(a - n), Pow2(n), Pow2(-n));
    } else if a >= 0 {
      Pow2AddNat(n - a, a);
      Pow2Inverse(n - a);
      InverseOfProduct(Pow2(n), Pow2(n - a), Pow2(a), Pow2(a - n), Pow2(-n));
    } else {
      Pow2AddNat(-a, n);
      Pow2Inverse(a);
      Pow2Inverse(n - a);
      ProductOfInverses(Pow2(n - a), Pow2(-a), Pow2(n), Pow2(a - n), Pow2(a), Pow2(-n));
    }
  }

  lemma InverseOfProduct(n: real, d: real, a: real, d': real, n': real)
    requires n == d * a && d * d' == 1.0 && n * n' == 1.0
    ensures d' == a * n'
  {
    assert d * (a * n') == 1.0;
    assert d' * (d * (a * n')) == d';
  }

  lemma ProductOfInverses(s: real, a: real, n: real, s': real, a': real, n': real)
    requires s == a * n && s * s' == 1.0 && a' * a == 1.0 && n * n' == 1.0
    ensures s' == a' * n'
  {
    assert (a * n) * (a' * n') == (a' * a) * (n * n');
    assert s * (a' * n') == 1.0;
    assert s' * (s * (a' * n')) == s';
  }

  lemma Pow2Add(a: int, b: int)
    ensures Pow2(a + b) == Pow2(a) * Pow2(b)
  {
    hide Pow2;
    if b < 0 {
      Pow2Sub(a, -b);
    } else if a < 0 {
      Pow2Sub(b, -a);
    } else {
      Pow2AddNat(a, b);
    }
  }

  lemma {:induction false} Pow2Monotone(a: int, b: int)
    requires a <= b
    ensures Pow2(a) <= Pow2(b)
    ensures a < b ==> 2.0 * Pow2(a) <= Pow2(b)
    decreases b - a
  {
    hide Pow2;
    if a < b {
      Pow2Monotone(a + 1, b);
      Pow2Step(a);
    }
  }

  /** The exponent search of the reference encoder: 2^e <= v < 2^(e+1). */
  function ILog2(v: real): (e: int)
    requires v > 0.0
    ensures Pow2(e) <= v < Pow2(e + 1)
    decreases if v >= 2.0 then v.Floor else if v < 1.0 then (1.0 / v).Floor else 0
  {
    hide Pow2;
    if v >= 2.0 then
      assert (v / 2.0).Floor < v.Floor;
      var e := ILog2(v / 2.0) + 1;
      Pow2Step(e - 1);
      Pow2Step(e);
      e
    else if v < 1.0 then
      ReciprocalHalves(v);
      var e := ILog2(v * 2.0) - 1;
      Pow2Step(e);
      Pow2Step(e + 1);
      e
    else
      Pow2Zero();
      Pow2Step(0);
      0
  }

  lemma ReciprocalHalves(v: real)
    requires 0.0 < v < 1.0
    ensures (1.0 / v).Floor > 0
    ensures (1.0 / (v * 2.0)).Floor < (1.0 / v).Floor
  {
    var r := 1.0 / v;
    assert r * v == 1.0;
    assert r > 1.0;
    assert 1.0 / (v * 2.0) == r / 2.0;
  }

  // ----- floors, ceilings and lattices -----

  /** -(-n // d) on an exact quotient. */
  function Ceil(x: real): (c: int)
    ensures x <= c as real < x + 1.0
  {
    -(-x).Floor
  }

  /** i * q, the i-th site of the lattice of multiples of q. */
  function Site(i: int, q: real): real {
    i as real * q
  }

  lemma SiteNonnegative(i: int, q: real)
    requires i >= 0 && q >= 0.0
    ensures Site(i, q) >= 0.0
  {
  }

  ghost predicate OnLattice(s: real, q: real) {
    exists i: int :: s == Site(i, q)
  }

  lemma SiteSum(i: int, j: int, q: real)
    ensures Site(i + j, q) == Site(i, q) + Site(j, q)
    ensures Site(i - j, q) == Site(i, q) - Site(j, q)
  {
    Distribute(i as real, j as real, q);
  }

  lemma LatticeAdd(s: real, t: real, q: real)
    requires OnLattice(s, q) && OnLattice(t, q)
    ensures OnLattice(s + t, q)
  {
    var i: int :| s == Site(i, q);
    var j: int :| t == Site(j, q);
    SiteSum(i, j, q);
    assert s + t == Site(i + j, q);
  }

  lemma LatticeProduct(x: real, w: real, p: real, q: real)
    requires OnLattice(x, p) && OnLattice(w, q)
    ensures OnLattice(x * w, p * q)
  {
    var i: int :| x == Site(i, p);
    var j: int :| w == Site(j, q);
    Regroup(i as real, p, j as real, q);
    assert (i * j) as real == i as real * j as real;
    assert x * w == Site(i * j, p * q);
  }

  lemma LatticeZero(q: real)
    ensures OnLattice(0.0, q)
  {
    assert 0.0 == Site(0, q);
  }

  lemma SiteOfQuotient(y: real, q: real)
    requires q > 0.0
    ensures Site(y.Floor, q) <= y * q < Site(y.Floor, q) + q
  {
    var n := y.Floor as real;
    Scale(n, y, q, Site(y.Floor, q), y * q);
    assert Site(y.Floor, q) + q == (n + 1.0) * q;
    Scale(y, n + 1.0, q, y * q, Site(y.Floor, q) + q);
  }

  /** Python's x % q for a positive step q. */
  function Mod(x: real, q: real): (m: real)
    requires q > 0.0
    ensures 0.0 <= m < q
  {
    assert (x / q) * q == x;
    SiteOfQuotient(x / q, q);
    x - Site((x / q).Floor, q)
  }

  /** A residue in [0, q) that differs from x by a lattice site is x % q. */
  lemma ModUnique(x: real, i: int, q: real)
    requires q > 0.0
    requires 0.0 <= x - Site(i, q) < q
    ensures Mod(x, q) == x - Site(i, q)
  {
    var j := (x / q).Floor;
    var d := i - j;
    assert 0.0 <= Mod(x, q) < q;
    SiteSum(i, j, q);
    SmallSite(d, q);
  }

  lemma SmallSite(d: int, q: real)
    requires q > 0.0
    requires -q < Site(d, q) < q
    ensures d == 0
  {
    Scale(d as real, 1.0, q, Site(d, q), q);
    Scale(-1.0, d as real, q, -q, Site(d, q));
  }

  /** Shifting by lattice sites does not change the residue. */
  lemma ModShift(x: real, i: int, q: real)
    requires q > 0.0
    ensures Mod(x + Site(i, q), q) == Mod(x, q)
  {
    var j := (x / q).Floor;
    SiteSum(i, j, q);
    assert 0.0 <= Mod(x, q) < q;
    ModUnique(x + Site(i, q), i + j, q);
  }
}
