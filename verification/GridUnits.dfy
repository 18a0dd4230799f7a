/**
 The certified FP64 grid: finite codebooks as small integer units of a power of
 two, admission of native records, and the integer reduction that replaces the
 sequential fused multiply-adds (sections 4.3.1 and 5.4.1 of IEEE 754-2019).
 */
module GridUnits {
  import opened ExactArithmetic
  import opened IntArithmetic
  import opened IntegerSum
  import opened FloatAccumulator
  import opened MacError
  import opened Quantum
  import opened Results

  const INT16_MAX: nat := 32767
  const INT32_MAX: nat := 0x7fff_ffff

  // ----- native records -----

  datatype Kind = Number | PositiveInfinity | NegativeInfinity | NotNumber | MinusZero

  datatype Native = Native(mantissa: int, exponent: int, kind: Kind) {
    predicate IsFinite() { kind.Number? || kind.MinusZero? }

    function Value(): real {
      Site(mantissa, Pow2(exponent))
    }

    /** The ranges that NativeValues enforces on every record. */
    predicate Prepared() {
      && AbsInt(mantissa) < IntPow2(30)
      && -80 <= exponent <= 60
      && (!kind.Number? ==> mantissa == 0)
    }

    function Operand(): Stored {
      match kind
      case Number => Finite(Value())
      case PositiveInfinity => Infinite(false)
      case NegativeInfinity => Infinite(true)
      case NotNumber => NotANumber
      case MinusZero => NegativeZero
    }
  }

  /** The record that padding contributes. */
  const ZERO := Native(0, 0, Number)

  function IsNegative(s: Stored): bool {
    s.NegativeZero? || (s.Infinite? && s.negative) || (s.Finite? && s.value < 0.0)
  }

  /** The exact product of two decoded values. */
  function Multiply(a: Stored, b: Stored): Stored {
    if a.NotANumber? || b.NotANumber? then NotANumber
    else if a.Infinite? || b.Infinite? then
      if (a.IsReal() && a.Value() == 0.0) || (b.IsReal() && b.Value() == 0.0) then NotANumber
      else Infinite(IsNegative(a) != IsNegative(b))
    else if a.NegativeZero? || b.NegativeZero? then
      (if IsNegative(a) != IsNegative(b) then NegativeZero else Finite(0.0))
    else Finite(a.value * b.value)
  }

  /** Products commute; the sign of infinite and negative-zero products, and no number for infinity times zero. */
  lemma SpecialProducts(negative: bool, a: Stored, b: Stored)
    ensures Multiply(a, b) == Multiply(b, a)
    ensures Multiply(a, NotANumber) == NotANumber
    ensures Multiply(Infinite(negative), Infinite(true)) == Infinite(!negative)
    ensures Multiply(Infinite(negative), Infinite(false)) == Infinite(negative)
    ensures b.IsReal() && b.Value() == 0.0 ==> Multiply(Infinite(negative), b) == NotANumber
    ensures b.IsReal() && b.Value() != 0.0 ==>
      Multiply(Infinite(negative), b) == Infinite(negative != (b.Value() < 0.0))
    ensures b.Finite? ==> Multiply(NegativeZero, b) == if b.value < 0.0 then Finite(0.0) else NegativeZero
    ensures Multiply(NegativeZero, NegativeZero) == Finite(0.0)
    ensures a.Finite? && b.Finite? ==> Multiply(a, b) == Finite(a.value * b.value)
  {
  }

  /** An infinite record has the sign of its kind; the record of padding is zero. */
  lemma RecordKinds(row: Native)
    ensures row.kind.NegativeInfinity? <==> row.Operand() == Infinite(true)
    ensures row.kind.PositiveInfinity? <==> row.Operand() == Infinite(false)
    ensures row.kind.NotNumber? <==> row.Operand() == NotANumber
    ensures row.kind.MinusZero? <==> row.Operand() == NegativeZero
    ensures row.IsFinite() <==> row.Operand().IsReal()
    ensures ZERO.Operand() == Finite(0.0)
  {
    hide Pow2;
  }

  /** The sequential reduction of two rows of native records. */
  function SequentialState(f: FloatFormat, xs: seq<Native>, ws: seq<Native>): Stored
    requires |xs| == |ws|
  {
    if |xs| == 0 then Finite(0.0)
    else
      var k := |xs| - 1;
      Accumulate(f, SequentialState(f, xs[..k], ws[..k]), Multiply(xs[k].Operand(), ws[k].Operand()))
  }

  // ----- codebooks in integer units -----

  function GridValue(u: int, shift: nat): real {
    Site(u, Pow2(0 - shift))
  }

  predicate Dyadic(v: Fraction) { IsPowerOfTwo(Reduce(v).denominator) }

  /** denominator.bit_length() - 1 in lowest terms */
  function Exponent(v: Fraction): nat { LowExponent(Reduce(v).denominator) }

  /** value * (1 << shift) is the integer u */
  ghost predicate HasUnits(v: Fraction, shift: nat, u: int) {
    v.numerator * IntPow2(shift) == u * v.denominator
  }

  /** Once the shift covers the denominator, the scaled value is an integer. */
  lemma UnitsExist(v: Fraction, shift: nat) returns (u: int)
    requires Dyadic(v) && Exponent(v) <= shift
    ensures HasUnits(v, shift, u)
  {
    hide IntPow2, IsPowerOfTwo, LowExponent, Gcd;
    ReducedDenominator(v.numerator, v.denominator);
    var g := Gcd(AbsInt(v.numerator), v.denominator);
    var r := Reduce(v);
    PowerOfTwoExponent(r.denominator);
    var e := Exponent(v);
    IntPow2Add(e, shift - e);
    u := r.numerator * IntPow2(shift - e);
    UnitsProduct(r.numerator, r.denominator, g, IntPow2(e), IntPow2(shift - e), IntPow2(shift), v.numerator,
                 v.denominator);
  }

  lemma UnitsProduct(n: int, d: int, g: int, e: int, p: int, s: int, numerator: int, denominator: int)
    requires numerator == n * g && denominator == d * g && d == e && s == e * p
    ensures numerator * s == (n * p) * denominator
  {
    assert (n * g) * (e * p) == (n * p) * (e * g);
  }

  lemma UnitsValue(v: Fraction, shift: nat, u: int)
    requires HasUnits(v, shift, u)
    ensures v.Value() == GridValue(u, shift)
  {
    hide Pow2, IntPow2;
    IntPow2Real(shift);
    Pow2Inverse(shift);
    assert (v.numerator * IntPow2(shift)) as real == v.numerator as real * IntPow2(shift) as real;
    assert (u * v.denominator) as real == u as real * v.denominator as real;
    UnitsQuotient(v.numerator as real, v.denominator as real, u as real, Pow2(shift), Pow2(0 - shift));
  }

  lemma UnitsQuotient(n: real, d: real, u: real, p: real, q: real)
    requires d > 0.0 && n * p == u * d && p * q == 1.0
    ensures n / d == u * q
  {
    var x := n / d;
    assert x * d == n;
    assert n == u * d * q by { assert (n * p) * q == n * (p * q); }
    assert (u * q) * d == n;
    var z := x - u * q;
    assert z * d == 0.0;
  }

  lemma UnitsUnique(v: Fraction, shift: nat, u: int)
    requires HasUnits(v, shift, u)
    ensures (v.numerator * IntPow2(shift)) % v.denominator == 0
    ensures (v.numerator * IntPow2(shift)) / v.denominator == u
  {
    DivUnique(v.numerator * IntPow2(shift), v.denominator, u, 0);
  }

  datatype Codes = Codes(shift: nat, units: seq<int>, maximum: nat)

  /** max(v.denominator.bit_length()-1 for v in finite) */
  function MaximumExponent(values: seq<Option<Fraction>>): nat {
    if |values| == 0 then 0
    else
      var rest := MaximumExponent(values[..|values| - 1]);
      var last := values[|values| - 1];
      if last.Some? && Exponent(last.value) > rest then Exponent(last.value) else rest
  }

  lemma {:induction false} ExponentBelow(values: seq<Option<Fraction>>, i: nat)
    requires i < |values| && values[i].Some?
    ensures Exponent(values[i].value) <= MaximumExponent(values)
  {
    if i < |values| - 1 {
      ExponentBelow(values[..|values| - 1], i);
    }
  }

  /** The codebooks that are admitted: some finite value, all dyadic, and all within INT16 units of the finest one. */
  ghost predicate OnInt16Grid(values: seq<Option<Fraction>>) {
    && (exists i :: 0 <= i < |values| && values[i].Some?)
    && (forall i :: 0 <= i < |values| && values[i].Some? ==>
          && Dyadic(values[i].value)
          && exists u: int :: HasUnits(values[i].value, MaximumExponent(values), u) && AbsInt(u) <= INT16_MAX)
  }

  ghost predicate Represents(grid: Codes, values: seq<Option<Fraction>>) {
    && |grid.units| == |values| && grid.maximum <= INT16_MAX
    && (forall i :: 0 <= i < |values| ==>
          && AbsInt(grid.units[i]) <= grid.maximum
          && (values[i].Some? ==> GridValue(grid.units[i], grid.shift) == values[i].value.Value())
          && (values[i].None? ==> grid.units[i] == 0))
    && (exists i :: 0 <= i < |values| && AbsInt(grid.units[i]) == grid.maximum)
  }

  /** _finite_codebook: one integer per code, refused exactly off the INT16 grid. */
  method FiniteCodebook(values: seq<Option<Fraction>>) returns (grid: Result<Codes>)
    ensures grid.Success? <==> OnInt16Grid(values)
    ensures grid.Success? ==> Represents(grid.value, values) && grid.value.shift == MaximumExponent(values)
  {
    hide Exponent, Dyadic, HasUnits, Represents;
    var shift: nat := 0;
    var any := false;
    for i := 0 to |values|
      invariant any <==> exists j :: 0 <= j < i && values[j].Some?
      invariant forall j :: 0 <= j < i && values[j].Some? ==> Dyadic(values[j].value)
      invariant shift == MaximumExponent(values[..i])
    {
      assert values[..i + 1][..i] == values[..i];
      if values[i].Some? {
        any := true;
        if !Dyadic(values[i].value) {
          return Failure("finite codebook must be dyadic");
        }
        shift := if Exponent(values[i].value) > shift then Exponent(values[i].value) else shift;
      }
    }
    if !any {
      return Failure("finite codebook must be dyadic");
    }
    assert values[..|values|] == values;
    grid := ScaledUnits(values, shift);
  }

  /** The units array of a dyadic codebook. */
  method ScaledUnits(values: seq<Option<Fraction>>, shift: nat) returns (grid: Result<Codes>)
    requires shift == MaximumExponent(values) && exists i :: 0 <= i < |values| && values[i].Some?
    requires forall i :: 0 <= i < |values| && values[i].Some? ==> Dyadic(values[i].value)
    ensures grid.Success? <==> OnInt16Grid(values)
    ensures grid.Success? ==> Represents(grid.value, values) && grid.value.shift == shift
  {
    hide Exponent, Dyadic, HasUnits, GridValue;
    var units := new int[|values|](_ => 0);
    var maximum: nat := 0;
    for i := 0 to |values|
      invariant forall j :: i <= j < |values| ==> units[j] == 0
      invariant forall j :: 0 <= j < i ==> AbsInt(units[j]) <= maximum
      invariant forall j :: 0 <= j < i && values[j].Some? ==> HasUnits(values[j].value, shift, units[j])
      invariant forall j :: 0 <= j < i && values[j].None? ==> units[j] == 0
      invariant maximum == 0 || exists j :: 0 <= j < i && AbsInt(units[j]) == maximum
      invariant maximum <= INT16_MAX
    {
      if values[i].Some? {
        ExponentBelow(values, i);
        var u := ScaleValue(values[i].value, shift);
        if u.None? {
          return Failure("finite codebook exceeds INT16 grid");
        }
        units[i] := u.value;
        if AbsInt(units[i]) > maximum {
          maximum := AbsInt(units[i]);
        }
      }
    }
    grid := Success(Codes(shift, units[..], maximum));
    forall i | 0 <= i < |values| && values[i].Some?
      ensures GridValue(units[i], shift) == values[i].value.Value()
    {
      UnitsValue(values[i].value, shift, units[i]);
    }
    if maximum == 0 {
      var i :| 0 <= i < |values| && values[i].Some?;
      assert AbsInt(units[i]) == 0;
    }
  }

  /** The integer of one value; past the dyadic check only its size can be refused. */
  method ScaleValue(v: Fraction, shift: nat) returns (u: Option<int>)
    requires Dyadic(v) && Exponent(v) <= shift
    ensures u.Some? ==> HasUnits(v, shift, u.value) && AbsInt(u.value) <= INT16_MAX
    ensures u.None? ==> forall x: int :: HasUnits(v, shift, x) ==> AbsInt(x) > INT16_MAX
  {
    ghost var exact := UnitsExist(v, shift);
    UnitsUnique(v, shift, exact);
    var integer := v.numerator * IntPow2(shift);
    if integer % v.denominator != 0 || AbsInt(integer / v.denominator) > INT16_MAX {
      forall x: int | HasUnits(v, shift, x)
        ensures x == exact
      {
        UnitsUnique(v, shift, x);
      }
      return None;
    }
    return Some(integer / v.denominator);
  }

  // ----- admission of records -----

  /** Some finite code has the units u. */
  ghost predicate IsUnit(grid: Codes, values: seq<Option<Fraction>>, u: int)
    requires |grid.units| == |values|
  {
    exists i :: 0 <= i < |values| && values[i].Some? && grid.units[i] == u
  }

  /** allowed[u + maximum] marks the units of finite codes. */
  method AllowedUnits(grid: Codes, values: seq<Option<Fraction>>) returns (allowed: seq<bool>)
    requires Represents(grid, values)
    ensures |allowed| == 2 * grid.maximum + 1
    ensures forall n :: 0 <= n < |allowed| ==> (allowed[n] <==> IsUnit(grid, values, n - grid.maximum))
  {
    hide GridValue;
    var marks := new bool[2 * grid.maximum + 1](_ => false);
    for i := 0 to |values|
      invariant forall n :: 0 <= n < marks.Length ==>
        (marks[n] <==> exists j :: 0 <= j < i && values[j].Some? && grid.units[j] == n - grid.maximum)
    {
      if values[i].Some? {
        assert AbsInt(grid.units[i]) <= grid.maximum;
        marks[grid.units[i] + grid.maximum] := true;
      }
    }
    return marks[..];
  }

  /** A codebook prepared for admission; its kernels take shifts up to 30. */
  datatype Grid = Grid(codes: Codes, allowed: seq<bool>, values: seq<Option<Fraction>>) {
    ghost predicate Valid() {
      && Represents(codes, values) && codes.shift <= 30
      && |allowed| == 2 * codes.maximum + 1
      && forall n :: 0 <= n < |allowed| ==> (allowed[n] <==> IsUnit(codes, values, n - codes.maximum))
    }
  }

  /** std::ldexp and numpy.ldexp: one rounding of m * 2^e. */
  function LoadExponent(m: int, e: int): Stored {
    Rounded(BINARY64, Site(m, Pow2(e)))
  }

  /** One record of _grid_units. */
  function RowUnits(grid: Grid, row: Native): Option<int>
    requires |grid.allowed| == 2 * grid.codes.maximum + 1
  {
    if !row.IsFinite() then None
    else
      var scaled := LoadExponent(row.mantissa, row.exponent + grid.codes.shift);
      if !scaled.IsReal() || Abs(scaled.Value()) > grid.codes.maximum as real then None
      else if scaled.Value().Floor as real != scaled.Value() then None
      else
        var u := scaled.Value().Floor;
        if grid.allowed[u + grid.codes.maximum] then Some(u) else None
  }

  lemma LargestFinite(f: FloatFormat)
    requires f.Valid()
    ensures Pow2(f.MaxExponent()) <= f.MaxFinite()
  {
    hide Pow2, IntPow2;
    var s := Pow2(f.MaxExponent() - f.mantissa);
    Pow2Add(f.mantissa, f.MaxExponent() - f.mantissa);
    assert f.mantissa + (f.MaxExponent() - f.mantissa) == f.MaxExponent();
    IntPow2Real(f.mantissa);
    IntPow2Monotone(f.mantissa, f.mantissa + 1);
    Scale(IntPow2(f.mantissa) as real, (IntPow2(f.mantissa + 1) - 1) as real, s, Pow2(f.MaxExponent()), f.MaxFinite());
  }

  /** An integer of at most 2^p times a power of two within the exponent range is a stored number. */
  lemma ScaledIntegerExact(f: FloatFormat, n: int, p: nat, e: int)
    requires f.Valid() && AbsInt(n) <= IntPow2(p) && p <= f.mantissa + 1
    requires f.MinExponent() - f.mantissa <= e && p + e <= f.MaxExponent()
    ensures Rounded(f, Site(n, Pow2(e))) == Finite(Site(n, Pow2(e)))
  {
    hide Pow2, IntPow2, Rounded, FloatFormat.MaxFinite, FloatFormat.MaxExponent, FloatFormat.MinExponent,
         FloatFormat.Valid;
    LargestFinite(f);
    IntPow2Monotone(p, f.mantissa + 1);
    Pow2Add(p, e);
    IntPow2Real(p);
    Pow2Monotone(p + e, f.MaxExponent());
    MagnitudeProduct(n, Pow2(e));
    Scale(AbsInt(n) as real, IntPow2(p) as real, Pow2(e), Abs(Site(n, Pow2(e))), Pow2(p + e));
    RoundedSite(f, n, e);
  }

  lemma MagnitudeProduct(n: int, s: real)
    requires s > 0.0
    ensures Abs(Site(n, s)) == AbsInt(n) as real * s
  {
    AbsProduct(n as real, s);
  }

  lemma RoundedSite(f: FloatFormat, n: int, e: int)
    requires f.Valid() && 0 - IntPow2(f.mantissa + 1) <= n <= IntPow2(f.mantissa + 1)
    requires f.MinExponent() - f.mantissa <= e && Abs(Site(n, Pow2(e))) <= f.MaxFinite()
    ensures Rounded(f, Site(n, Pow2(e))) == Finite(Site(n, Pow2(e)))
  {
    hide Pow2, IntPow2, Rounded, FloatFormat.MaxFinite;
    RoundedExact(f, n, e);
  }

  lemma Binary64Exact(n: int, p: nat, e: int)
    requires AbsInt(n) <= IntPow2(p) && p <= 53 && -1074 <= e && p + e <= 1023
    ensures LoadExponent(n, e) == Finite(Site(n, Pow2(e)))
  {
    Binary64Valid();
    assert BINARY64.MaxExponent() == 1023 by { assert IntPow2(11) == 2048; }
    hide Rounded, Pow2, IntPow2, Site;
    ScaledIntegerExact(BINARY64, n, p, e);
  }

  /** ldexp of a prepared record is exact. */
  lemma ScaledExact(row: Native, shift: nat)
    requires row.Prepared() && shift <= 30
    ensures LoadExponent(row.mantissa, row.exponent + shift) == Finite(row.Value() * Pow2(shift))
    ensures forall u: int :: row.Value() * Pow2(shift) == u as real <==> row.Value() == GridValue(u, shift)
  {
    hide Pow2, IntPow2, Rounded, LoadExponent;
    Binary64Exact(row.mantissa, 30, row.exponent + shift);
    Pow2Add(row.exponent, shift);
    Pow2Inverse(shift);
    Shifted(row.mantissa as real, Pow2(row.exponent), Pow2(shift), Pow2(row.exponent + shift));
    forall u: int
      ensures row.Value() * Pow2(shift) == u as real <==> row.Value() == GridValue(u, shift)
    {
      ShiftedBack(row.Value(), Pow2(shift), Pow2(0 - shift), u as real);
    }
  }

  lemma Shifted(m: real, e: real, s: real, es: real)
    requires es == e * s
    ensures m * es == (m * e) * s
  {
  }

  lemma ShiftedBack(v: real, s: real, t: real, u: real)
    requires s * t == 1.0
    ensures v * s == u <==> v == u * t
  {
    assert (v * s) * t == v * (s * t);
    assert (u * t) * s == u * (t * s);
  }

  /** An admitted record carries the value of its units. */
  lemma AdmittedValue(grid: Grid, row: Native)
    requires grid.Valid() && row.Prepared() && RowUnits(grid, row).Some?
    ensures row.IsFinite() && AbsInt(RowUnits(grid, row).value) <= grid.codes.maximum
    ensures row.Value() == GridValue(RowUnits(grid, row).value, grid.codes.shift)
    ensures InCodebook(grid, row)
  {
    hide Pow2, LoadExponent, Fraction.Value, Native.Prepared, Native.Value, GridValue;
    ScaledExact(row, grid.codes.shift);
    var u := RowUnits(grid, row).value;
    assert u as real == row.Value() * Pow2(grid.codes.shift);
    assert grid.allowed[u + grid.codes.maximum];
    assert IsUnit(grid.codes, grid.values, (u + grid.codes.maximum) - grid.codes.maximum);
    var i :| 0 <= i < |grid.values| && grid.values[i].Some? && grid.codes.units[i] == u;
    assert grid.values[i].value.Value() == row.Value();
  }

  ghost predicate InCodebook(grid: Grid, row: Native) {
    exists i :: 0 <= i < |grid.values| && grid.values[i].Some? && grid.values[i].value.Value() == row.Value()
  }

  /** A record with a finite value of the codebook is admitted. */
  lemma CodebookAdmitted(grid: Grid, row: Native)
    requires grid.Valid() && row.Prepared() && row.IsFinite() && InCodebook(grid, row)
    ensures RowUnits(grid, row).Some?
  {
    hide Pow2, LoadExponent, Fraction.Value, Native.Prepared, Native.Value, GridValue;
    var shift := grid.codes.shift;
    var i :| 0 <= i < |grid.values| && grid.values[i].Some? && grid.values[i].value.Value() == row.Value();
    var u := grid.codes.units[i];
    assert row.Value() == GridValue(u, shift);
    ScaledExact(row, shift);
    var scaled := row.Value() * Pow2(shift);
    assert scaled == u as real && scaled.Floor == u;
    assert IsUnit(grid.codes, grid.values, (u + grid.codes.maximum) - grid.codes.maximum);
    assert grid.allowed[u + grid.codes.maximum];
  }

  /** _grid_units: all records or none. */
  function UnitsOf(grid: Grid, rows: seq<Native>): (units: Option<seq<int>>)
    requires |grid.allowed| == 2 * grid.codes.maximum + 1
    ensures units.Some? <==> forall i :: 0 <= i < |rows| ==> RowUnits(grid, rows[i]).Some?
    ensures units.Some? ==>
      && |units.value| == |rows|
      && forall i :: 0 <= i < |rows| ==> RowUnits(grid, rows[i]) == Some(units.value[i])
  {
    if forall i :: 0 <= i < |rows| ==> RowUnits(grid, rows[i]).Some?
    then Some(seq(|rows|, i requires 0 <= i < |rows| => RowUnits(grid, rows[i]).value))
    else None
  }

  // ----- the integer reduction -----

  function Terms(xs: seq<int>, ws: seq<int>): (terms: seq<int>)
    requires |xs| == |ws|
    ensures |terms| == |xs| && forall i :: 0 <= i < |xs| ==> terms[i] == xs[i] * ws[i]
  {
    seq(|xs|, i requires 0 <= i < |xs| => xs[i] * ws[i])
  }

  function Dot(xs: seq<int>, ws: seq<int>): int
    requires |xs| == |ws|
  {
    IntSum(Terms(xs, ws))
  }

  function AbsUnits(ws: seq<int>): nat {
    if |ws| == 0 then 0 else AbsUnits(ws[..|ws| - 1]) + AbsInt(ws[|ws| - 1])
  }

  lemma DotStep(xs: seq<int>, ws: seq<int>)
    requires |xs| == |ws| > 0
    ensures var k := |xs| - 1; Dot(xs, ws) == Dot(xs[..k], ws[..k]) + xs[k] * ws[k]
  {
    var k := |xs| - 1;
    assert Terms(xs, ws)[..k] == Terms(xs[..k], ws[..k]);
  }

  /** Every prefix of the integer reduction is within the actual-weight bound. */
  lemma {:induction false} PrefixBound(xs: seq<int>, ws: seq<int>, maximum: nat, n: nat)
    requires |xs| == |ws| && n <= |xs|
    requires forall i :: 0 <= i < |xs| ==> AbsInt(xs[i]) <= maximum
    ensures AbsInt(Dot(xs[..n], ws[..n])) <= maximum * AbsUnits(ws[..n]) <= maximum * AbsUnits(ws)
  {
    WeightsGrow(ws, n, maximum);
    if n > 0 {
      var k := n - 1;
      PrefixBound(xs, ws, maximum, k);
      assert xs[..n][..k] == xs[..k] && ws[..n][..k] == ws[..k];
      DotStep(xs[..n], ws[..n]);
      TermBound(xs[k], ws[k], maximum, AbsUnits(ws[..k]), Dot(xs[..k], ws[..k]));
    }
  }

  lemma TermBound(x: int, w: int, maximum: nat, head: nat, dot: int)
    requires AbsInt(x) <= maximum && AbsInt(dot) <= maximum * head
    ensures AbsInt(dot + x * w) <= maximum * (head + AbsInt(w))
  {
    var a, b := AbsInt(x), AbsInt(w);
    MulNonnegative(maximum - a, b);
    assert (maximum - a) * b == maximum * b - a * b;
    assert -(a * b) <= x * w <= a * b;
    assert maximum * (head + b) == maximum * head + maximum * b;
  }

  lemma {:induction false} WeightsGrow(ws: seq<int>, n: nat, maximum: nat)
    requires n <= |ws|
    ensures AbsUnits(ws[..n]) <= AbsUnits(ws)
    ensures maximum * AbsUnits(ws[..n]) <= maximum * AbsUnits(ws)
    decreases |ws| - n
  {
    if n < |ws| {
      WeightsGrow(ws, n + 1, maximum);
      assert ws[..n + 1][..n] == ws[..n];
    } else {
      assert ws[..n] == ws;
    }
    MulNonnegative(maximum, AbsUnits(ws) - AbsUnits(ws[..n]));
  }

  /** grid_bits: the integer total times the product quantum 2^(-2*shift). */
  function GridState(xs: seq<int>, ws: seq<int>, shift: nat): Stored
    requires |xs| == |ws|
  {
    LoadExponent(Dot(xs, ws), 0 - 2 * shift)
  }

  ghost predicate InUnits(rows: seq<Native>, units: seq<int>, shift: nat) {
    |rows| == |units|
    && forall i :: 0 <= i < |rows| ==>
         rows[i].Prepared() && rows[i].IsFinite() && rows[i].Value() == GridValue(units[i], shift)
  }

  /** The integer reduction has the state of the fold that rounds after every fused multiply-add. */
  lemma {:induction false} GridExact(xs: seq<Native>, ws: seq<Native>, xu: seq<int>, wu: seq<int>, shift: nat,
                                     maximum: nat)
    requires |xs| == |ws| && InUnits(xs, xu, shift) && InUnits(ws, wu, shift) && shift <= 30
    requires forall i :: 0 <= i < |xu| ==> AbsInt(xu[i]) <= maximum
    requires maximum * AbsUnits(wu) <= INT32_MAX
    ensures SequentialState(BINARY64, xs, ws) == GridState(xu, wu, shift)
    ensures GridState(xu, wu, shift) == Finite(GridValue(Dot(xu, wu), 2 * shift))
  {
    hide GridValue, Dot, Multiply, Accumulate, LoadExponent, Native.Operand, Native.Prepared, Native.IsFinite,
         Native.Value;
    PrefixBound(xu, wu, maximum, |xu|);
    assert xu[..|xu|] == xu && wu[..|wu|] == wu;
    ExactTotal(Dot(xu, wu), shift);
    if |xs| == 0 {
      EmptyDot(xu, wu, shift);
    } else {
      var k := |xs| - 1;
      WeightsGrow(wu, k, maximum);
      GridExact(xs[..k], ws[..k], xu[..k], wu[..k], shift, maximum);
      DotStep(xu, wu);
      GridStep(xs[k], ws[k], xu[k], wu[k], Dot(xu[..k], wu[..k]), shift);
    }
  }

  lemma EmptyDot(xu: seq<int>, wu: seq<int>, shift: nat)
    requires |xu| == |wu| == 0
    ensures GridValue(Dot(xu, wu), 2 * shift) == 0.0
  {
  }

  lemma Int32Power()
    ensures IntPow2(31) == INT32_MAX + 1
  {
    IntPow2Add(15, 16);
    assert IntPow2(15) == 32768 && IntPow2(16) == 65536;
  }

  lemma ExactTotal(total: int, shift: nat)
    requires AbsInt(total) <= INT32_MAX && shift <= 30
    ensures LoadExponent(total, 0 - 2 * shift) == Finite(GridValue(total, 2 * shift))
  {
    hide IntPow2, Pow2, Rounded;
    Int32Power();
    Binary64Exact(total, 31, 0 - 2 * shift);
  }

  lemma GridStep(x: Native, w: Native, a: int, b: int, dot: int, shift: nat)
    requires x.Prepared() && w.Prepared() && x.IsFinite() && w.IsFinite() && shift <= 30
    requires x.Value() == GridValue(a, shift) && w.Value() == GridValue(b, shift)
    requires AbsInt(dot + a * b) <= INT32_MAX
    ensures Accumulate(BINARY64, Finite(GridValue(dot, 2 * shift)), Multiply(x.Operand(), w.Operand()))
         == Finite(GridValue(dot + a * b, 2 * shift))
  {
    hide Rounded, Pow2, IntPow2, Site;
    var p := Multiply(x.Operand(), w.Operand());
    ProductOfUnits(a, b, shift);
    assert p.IsReal() && p.Value() == GridValue(a * b, 2 * shift) by { ZeroMantissa(x); ZeroMantissa(w); }
    SiteSum(dot, a * b, Pow2(0 - 2 * shift));
    ExactTotal(dot + a * b, shift);
  }

  /** A minus zero has the value of its zero mantissa. */
  lemma ZeroMantissa(x: Native)
    requires x.Prepared() && x.IsFinite()
    ensures x.Operand().IsReal() && x.Operand().Value() == x.Value()
    ensures x.kind.MinusZero? ==> x.Value() == 0.0
  {
  }

  lemma ProductOfUnits(a: int, b: int, shift: nat)
    ensures GridValue(a, shift) * GridValue(b, shift) == GridValue(a * b, 2 * shift)
  {
    hide Pow2;
    Pow2Add(0 - shift, 0 - shift);
    assert (0 - shift) + (0 - shift) == 0 - 2 * shift;
    Regroup(a as real, Pow2(0 - shift), b as real, Pow2(0 - shift));
    assert (a * b) as real == a as real * b as real;
  }

  // ----- any order -----

  /** Two orders of the same products leave the same state, whatever their partial sums. */
  lemma AnyOrder(xs: seq<Native>, ws: seq<Native>, xu: seq<int>, wu: seq<int>,
                 xs': seq<Native>, ws': seq<Native>, xu': seq<int>, wu': seq<int>, shift: nat, maximum: nat)
    requires |xs| == |ws| && InUnits(xs, xu, shift) && InUnits(ws, wu, shift) && shift <= 30
    requires |xs'| == |ws'| && InUnits(xs', xu', shift) && InUnits(ws', wu', shift)
    requires forall i :: 0 <= i < |xu| ==> AbsInt(xu[i]) <= maximum
    requires forall i :: 0 <= i < |xu'| ==> AbsInt(xu'[i]) <= maximum
    requires maximum * AbsUnits(wu) <= INT32_MAX && maximum * AbsUnits(wu') <= INT32_MAX
    requires multiset(Terms(xu, wu)) == multiset(Terms(xu', wu'))
    ensures SequentialState(BINARY64, xs, ws) == SequentialState(BINARY64, xs', ws')
  {
    GridExact(xs, ws, xu, wu, shift, maximum);
    GridExact(xs', ws', xu', wu', shift, maximum);
    SumOfPermutation(Terms(xu, wu), Terms(xu', wu'));
  }
}
