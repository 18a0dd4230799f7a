/**
 INT64 accumulation by an INT32 kernel: when the operands bound every prefix of
 the reduction, the widened 32-bit state is the 64-bit state.
 */
module NarrowReduction {
  import opened ExactArithmetic
  import opened IntArithmetic
  import opened IntegerSum
  import opened Quantum
  import opened GridUnits
  import opened SaturatingRegister
  import opened Results
  import RationalPacking
  import MatrixProduct

  /** numpy.left_shift on int64: the product reduced to 64 bits, two's complement. */
  function LeftShift64(m: int, e: nat): int {
    Signed(64, Unsigned(64, m * IntPow2(e)))
  }

  /** code & ((1 << bits) - 1) */
  function Unsigned(bits: nat, v: int): nat { v % IntPow2(bits) }

  function Signed(bits: Width, code: nat): int {
    if code < IntPow2(bits - 1) then code else code - IntPow2(bits)
  }

  /** A value in the signed range survives the round trip through its code. */
  lemma SignedRoundTrip(bits: Width, v: int)
    requires Fits(bits, v)
    ensures Signed(bits, Unsigned(bits, v)) == v
  {
    assert IntPow2(bits) == 2 * IntPow2(bits - 1);
    hide IntPow2;
    if v >= 0 {
      DivUnique(v, IntPow2(bits), 0, v);
    } else {
      DivUnique(v, IntPow2(bits), -1, v + IntPow2(bits));
    }
  }

  function IntValue(row: Native): int {
    row.mantissa * IntPow2(if row.exponent < 0 then 0 else row.exponent)
  }

  /** An exact integer operand that the shift cannot overflow. */
  predicate IsInteger(row: Native) { row.kind.Number? && row.exponent >= 0 }

  ghost predicate LargestMantissa(rows: seq<Native>, m: nat) {
    (forall i :: 0 <= i < |rows| ==> AbsInt(rows[i].mantissa) <= m)
    && exists i :: 0 <= i < |rows| && AbsInt(rows[i].mantissa) == m
  }

  ghost predicate LargestExponent(rows: seq<Native>, e: int) {
    (forall i :: 0 <= i < |rows| ==> rows[i].exponent <= e) && exists i :: 0 <= i < |rows| && rows[i].exponent == e
  }

  lemma ShiftFits(m: int, e: nat, largest: nat, top: nat)
    requires AbsInt(m) <= largest && e <= top && BitLength(largest) + top <= 62
    ensures LeftShift64(m, e) == m * IntPow2(e)
    ensures AbsInt(m * IntPow2(e)) < IntPow2(62)
  {
    hide IntPow2, Signed, Unsigned;
    BelowBitLength(largest);
    IntPow2Add(BitLength(largest), e);
    IntPow2Monotone(BitLength(largest) + e, 62);
    IntPow2Monotone(62, 63);
    AbsProductInt(m, IntPow2(e));
    MulOrder(AbsInt(m), IntPow2(BitLength(largest)), IntPow2(e), AbsInt(m) * IntPow2(e),
             IntPow2(BitLength(largest)) * IntPow2(e));
    SignedRoundTrip(64, m * IntPow2(e));
  }

  /** The magnitude and the shift of these records may not fit 62 bits together. */
  ghost predicate TooWide(rows: seq<Native>) {
    exists m: nat, e: nat :: LargestMantissa(rows, m) && LargestExponent(rows, e) && BitLength(m) + e > 62
  }

  /** Prepared native records, or a plain sequence of exact values. */
  datatype Operands = Prepared(rows: seq<Native>) | Plain(values: seq<RationalPacking.Operand>) {
    function Count(): nat { if Prepared? then |rows| else |values| }

    /** The integer an operand is, if it is one; a negative zero is not. */
    function Integer(i: nat): Option<int>
      requires i < Count()
    {
      if Prepared? then (if IsInteger(rows[i]) then Some(IntValue(rows[i])) else None)
      else if values[i].Rational? && values[i].Exact().denominator == 1 then Some(values[i].Exact().numerator)
      else None
    }

    ghost predicate Refused() {
      || (exists i :: 0 <= i < Count() && Integer(i).None?)
      || (Prepared? && TooWide(rows))
    }

    /** Every operand is an integer of at most this magnitude. */
    ghost predicate Within(limit: nat) {
      forall i :: 0 <= i < Count() ==> Integer(i).Some? && AbsInt(Integer(i).value) <= limit
    }
  }

  /** The answer for a sequence: the attained maximum, unless an operand is no integer or the records are too wide. */
  ghost predicate IsMaximum(s: Operands, maximum: Option<nat>) {
    match maximum
    case None => s.Refused()
    case Some(m) =>
      && !s.Refused() && s.Within(m)
      && (m == 0 || exists i :: 0 <= i < s.Count() && AbsInt(s.Integer(i).GetOr(0)) == m)
  }

  /** maximum: the largest magnitude of exact integer operands, or no answer. */
  method MaximumInteger(s: Operands) returns (maximum: Option<nat>)
    ensures IsMaximum(s, maximum)
  {
    match s {
      case Prepared(rows) => maximum := MaximumOfRecords(rows);
      case Plain(values) => maximum := MaximumOfValues(values);
    }
  }

  /** The branch over plain sequences: one value after the other. */
  method MaximumOfValues(values: seq<RationalPacking.Operand>) returns (maximum: Option<nat>)
    ensures IsMaximum(Plain(values), maximum)
  {
    hide RationalPacking.Operand.Exact;
    ghost var s := Plain(values);
    var result: nat := 0;
    for n := 0 to |values|
      invariant forall i :: 0 <= i < n ==> s.Integer(i).Some? && AbsInt(s.Integer(i).value) <= result
      invariant result == 0 || exists i :: 0 <= i < n && AbsInt(s.Integer(i).GetOr(0)) == result
    {
      if !values[n].Rational? || values[n].Exact().denominator != 1 {
        assert s.Integer(n).None?;
        return None;
      }
      ghost var i := n;
      assert s.Integer(i) == Some(values[n].Exact().numerator);
      if AbsInt(values[n].Exact().numerator) > result {
        result := AbsInt(values[n].Exact().numerator);
      }
    }
    return Some(result);
  }

  /** The branch over prepared records: shifted only once no shift can overflow. */
  method MaximumOfRecords(rows: seq<Native>) returns (maximum: Option<nat>)
    ensures IsMaximum(Prepared(rows), maximum)
  {
    hide IntPow2, BitLength, LeftShift64, IntValue, TooWide;
    ghost var s := Prepared(rows);
    if |rows| == 0 {
      NoRows(rows);
      return Some(0);
    }
    if exists i :: 0 <= i < |rows| && (rows[i].kind != Number || rows[i].exponent < 0) {
      ghost var i :| 0 <= i < |rows| && (rows[i].kind != Number || rows[i].exponent < 0);
      assert s.Integer(i).None?;
      return None;
    }
    var largest, top := LargestParts(rows);
    PartsDecide(rows, largest, top);
    assert forall i :: 0 <= i < |rows| ==> s.Integer(i) == Some(IntValue(rows[i]));
    if BitLength(largest) + top > 62 {
      return None;
    }
    hide LargestMantissa, LargestExponent, IsInteger;
    var result: nat := 0;
    for i := 0 to |rows|
      invariant forall j :: 0 <= j < i ==> AbsInt(s.Integer(j).value) <= result
      invariant result == 0 || exists j :: 0 <= j < i && AbsInt(s.Integer(j).GetOr(0)) == result
    {
      PartsBound(rows, largest, top, i);
      DecodedValue(rows[i], largest, top);
      var decoded := LeftShift64(rows[i].mantissa, rows[i].exponent);
      assert s.Integer(i) == Some(decoded);
      if AbsInt(decoded) > result {
        result := AbsInt(decoded);
      }
    }
    return Some(result);
  }

  /** The largest mantissa magnitude and the largest exponent. */
  method LargestParts(rows: seq<Native>) returns (largest: nat, top: nat)
    requires |rows| > 0 && forall i :: 0 <= i < |rows| ==> IsInteger(rows[i])
    ensures LargestMantissa(rows, largest) && LargestExponent(rows, top)
  {
    largest, top := AbsInt(rows[0].mantissa), rows[0].exponent;
    for i := 1 to |rows|
      invariant LargestMantissa(rows[..i], largest) && LargestExponent(rows[..i], top)
    {
      assert rows[..i + 1] == rows[..i] + [rows[i]];
      largest := if AbsInt(rows[i].mantissa) > largest then AbsInt(rows[i].mantissa) else largest;
      top := if rows[i].exponent > top then rows[i].exponent else top;
    }
    assert rows[..|rows|] == rows;
  }

  lemma NoRows(rows: seq<Native>)
    requires |rows| == 0
    ensures !TooWide(rows)
  {
  }

  lemma PartsDecide(rows: seq<Native>, largest: nat, top: nat)
    requires LargestMantissa(rows, largest) && LargestExponent(rows, top)
    ensures TooWide(rows) <==> BitLength(largest) + top > 62
  {
    assert forall m: nat, e: nat :: LargestMantissa(rows, m) && LargestExponent(rows, e) ==> m == largest && e == top;
  }

  lemma PartsBound(rows: seq<Native>, largest: nat, top: nat, i: nat)
    requires LargestMantissa(rows, largest) && LargestExponent(rows, top) && i < |rows|
    requires forall j :: 0 <= j < |rows| ==> IsInteger(rows[j])
    ensures rows[i].exponent >= 0 && AbsInt(rows[i].mantissa) <= largest && rows[i].exponent <= top
  {
  }

  lemma DecodedValue(row: Native, largest: nat, top: nat)
    requires row.exponent >= 0 && AbsInt(row.mantissa) <= largest && row.exponent <= top
    requires BitLength(largest) + top <= 62
    ensures LeftShift64(row.mantissa, row.exponent) == IntValue(row)
  {
    ShiftFits(row.mantissa, row.exponent, largest, top);
  }

  /** Every prefix of at most k bounded products is bounded. */
  lemma {:induction false} PrefixMagnitude(terms: seq<int>, limit: nat, n: nat)
    requires n <= |terms| && forall i :: 0 <= i < |terms| ==> AbsInt(terms[i]) <= limit
    ensures AbsInt(IntSum(terms[..n])) <= n * limit
  {
    if n > 0 {
      PrefixMagnitude(terms, limit, n - 1);
      assert terms[..n][..n - 1] == terms[..n - 1];
      assert (n - 1) * limit + limit == n * limit;
    }
  }

  lemma ProductMagnitude(a: int, b: int, left: nat, right: nat)
    requires AbsInt(a) <= left && AbsInt(b) <= right
    ensures AbsInt(a * b) <= left * right
  {
    MulNonnegative(left - AbsInt(a), AbsInt(b));
    MulNonnegative(left, right - AbsInt(b));
    AbsProductInt(a, b);
    assert (left - AbsInt(a)) * AbsInt(b) == left * AbsInt(b) - AbsInt(a) * AbsInt(b);
  }

  lemma AbsProductInt(a: int, b: int)
    ensures AbsInt(a * b) == AbsInt(a) * AbsInt(b)
  {
  }

  /** widen_int32 */
  function WidenInt32(code: nat): nat {
    Unsigned(64, if code < IntPow2(31) then code else code - IntPow2(32))
  }

  /** All prefixes of one output fit INT32, and its widened state is the INT64 state. */
  ghost predicate NarrowAgrees(xs: seq<int>, ws: seq<int>)
    requires |xs| == |ws|
  {
    && (forall n :: 0 <= n <= |xs| ==> Fits(32, IntSum(Terms(xs, ws)[..n])))
    && WidenInt32(Unsigned(32, Register(32, Terms(xs, ws)))) == Unsigned(64, Register(64, Terms(xs, ws)))
  }

  lemma NarrowState(xs: seq<int>, ws: seq<int>, left: nat, right: nat)
    requires |xs| == |ws| && |xs| * (left * right) <= INT32_MAX
    requires forall i :: 0 <= i < |xs| ==> AbsInt(xs[i]) <= left && AbsInt(ws[i]) <= right
    ensures NarrowAgrees(xs, ws)
  {
    hide IntSum, Register, IntPow2;
    var terms := Terms(xs, ws);
    var limit: nat := left * right;
    forall i | 0 <= i < |terms|
      ensures AbsInt(terms[i]) <= limit
    {
      ProductMagnitude(xs[i], ws[i], left, right);
    }
    Int32Power();
    forall n | 0 <= n <= |terms|
      ensures Fits(32, IntSum(terms[..n]))
    {
      PrefixMagnitude(terms, limit, n);
      MulNonnegative(|terms| - n, limit);
      assert (|terms| - n) * limit == |terms| * limit - n * limit;
    }
    QuietIffPrefixesFit(32, terms);
    WiderIsQuiet(32, 64, terms);
    assert Fits(32, IntSum(terms)) by { assert terms[..|terms|] == terms; }
    SignedRoundTrip(32, IntSum(terms));
  }

  /** int32_reduction_bound: acceptance proves every output of every k-term reduction of these operands. */
  method Int32ReductionBound(inputs: Operands, weights: Operands, k: nat)
    returns (accepted: bool, ghost left: Option<nat>, ghost right: Option<nat>)
    ensures IsMaximum(inputs, left) && IsMaximum(weights, right)
    ensures accepted <==> left.Some? && right.Some? && k * left.value * right.value <= INT32_MAX
    ensures accepted ==> forall xs, ws ::
      |xs| == |ws| == k && DrawnFrom(xs, inputs) && DrawnFrom(ws, weights) ==> NarrowAgrees(xs, ws)
  {
    var x := MaximumInteger(inputs);
    var w := MaximumInteger(weights);
    left, right := x, w;
    accepted := x.Some? && w.Some? && k * x.value * w.value <= INT32_MAX;
    hide NarrowAgrees, Operands.Integer, Operands.Within, Operands.Refused, DrawnFrom;
    if accepted {
      forall xs, ws | |xs| == |ws| == k && DrawnFrom(xs, inputs) && DrawnFrom(ws, weights)
        ensures NarrowAgrees(xs, ws)
      {
        NarrowDrawn(inputs, weights, k, left.value, right.value, xs, ws);
      }
    }
  }

  /** Integers of the operands, or zeros of padding. */
  ghost predicate DrawnFrom(xs: seq<int>, s: Operands) {
    forall j :: 0 <= j < |xs| ==> xs[j] == 0 || exists i :: 0 <= i < s.Count() && s.Integer(i) == Some(xs[j])
  }

  lemma NarrowDrawn(inputs: Operands, weights: Operands, k: nat, left: nat, right: nat, xs: seq<int>, ws: seq<int>)
    requires inputs.Within(left) && weights.Within(right)
    requires k * left * right <= INT32_MAX && |xs| == |ws| == k && DrawnFrom(xs, inputs) && DrawnFrom(ws, weights)
    ensures NarrowAgrees(xs, ws)
  {
    hide NarrowAgrees, Operands.Integer;
    assert k * (left * right) == k * left * right;
    NarrowState(xs, ws, left, right);
  }

  // ----- the dispatch of a matrix product -----

  /** The integers of a sequence of integer operands. */
  function Integers(s: Operands): (values: seq<int>)
    ensures |values| == s.Count()
    ensures forall i :: 0 <= i < s.Count() && s.Integer(i).Some? ==> s.Integer(i) == Some(values[i])
  {
    seq(s.Count(), i requires 0 <= i < s.Count() => s.Integer(i).GetOr(0))
  }

  /** The INT64 code of one output. */
  function WideCode(xs: seq<int>, ws: seq<int>): nat
    requires |xs| == |ws|
  {
    Unsigned(64, Register(64, Terms(xs, ws)))
  }

  /** The INT32 code of one output. */
  function NarrowCode(xs: seq<int>, ws: seq<int>): nat
    requires |xs| == |ws|
  {
    Unsigned(32, Register(32, Terms(xs, ws)))
  }

  function WideProduct(xs: seq<int>, ws: seq<int>, batch: nat, channels: Positive, k: nat): seq<nat>
    requires |xs| == batch * k && |ws| == channels * k
  {
    MatrixProduct.Product((x, w) requires |x| == |w| => WideCode(x, w), xs, ws, batch, channels, k)
  }

  function NarrowProduct(xs: seq<int>, ws: seq<int>, batch: nat, channels: Positive, k: nat): seq<nat>
    requires |xs| == batch * k && |ws| == channels * k
  {
    MatrixProduct.Product((x, w) requires |x| == |w| => NarrowCode(x, w), xs, ws, batch, channels, k)
  }

  function Widened(codes: seq<nat>): (r: seq<nat>)
    ensures |r| == |codes|
  {
    seq(|codes|, i requires 0 <= i < |codes| => WidenInt32(codes[i]))
  }

  lemma BlockDrawn(s: Operands, i: nat, n: nat, k: nat)
    requires i < n && s.Count() == n * k && forall j :: 0 <= j < s.Count() ==> s.Integer(j).Some?
    ensures DrawnFrom(Block(Integers(s), i, n, k), s)
  {
    hide Operands.Integer;
    BlockRange(i, n, k);
    var block := Block(Integers(s), i, n, k);
    forall j | 0 <= j < |block|
      ensures exists l :: 0 <= l < s.Count() && s.Integer(l) == Some(block[j])
    {
      assert s.Integer(i * k + j) == Some(block[j]);
    }
  }

  /** Under the bound the widened INT32 product is the INT64 product. */
  lemma WidenedProduct(inputs: Operands, weights: Operands, left: nat, right: nat, batch: nat, channels: Positive,
                       k: nat)
    requires inputs.Count() == batch * k && weights.Count() == channels * k
    requires inputs.Within(left) && weights.Within(right) && k * left * right <= INT32_MAX
    ensures Widened(NarrowProduct(Integers(inputs), Integers(weights), batch, channels, k))
         == WideProduct(Integers(inputs), Integers(weights), batch, channels, k)
  {
    var xs, ws := Integers(inputs), Integers(weights);
    var narrow, wide := NarrowProduct(xs, ws, batch, channels, k), WideProduct(xs, ws, batch, channels, k);
    hide Operands.Integer, DrawnFrom, Register, WidenInt32, Unsigned, Integers, IntSum;
    forall o | 0 <= o < |narrow|
      ensures WidenInt32(narrow[o]) == wide[o]
    {
      var n, c := o / channels, o % channels;
      BlockDrawn(inputs, n, batch, k);
      BlockDrawn(weights, c, channels, k);
      NarrowDrawn(inputs, weights, k, left, right, Block(xs, n, batch, k), Block(ws, c, channels, k));
    }
  }

  /**
   flex_gemm for an INT64 accumulator: the INT32 kernel runs exactly when the bound
   accepts and both sequences convert to native records, and then its widened
   states are the INT64 states of every output.
   */
  method FlexGemm(inputs: Operands, weights: Operands, admitted: bool, batch: nat, channels: Positive, k: nat)
    returns (states: Option<seq<nat>>, ghost left: Option<nat>, ghost right: Option<nat>)
    requires inputs.Count() == batch * k && weights.Count() == channels * k
    ensures IsMaximum(inputs, left) && IsMaximum(weights, right)
    ensures states.Some? <==> admitted && left.Some? && right.Some? && k * left.value * right.value <= INT32_MAX
    ensures states.Some? ==> states.value == WideProduct(Integers(inputs), Integers(weights), batch, channels, k)
  {
    var accepted;
    accepted, left, right := Int32ReductionBound(inputs, weights, k);
    hide Operands.Integer, Integers, NarrowProduct, WideProduct, Widened, DrawnFrom, NarrowAgrees, Operands.Within,
         Operands.Refused;
    if !accepted || !admitted {
      return None, left, right;
    }
    WidenedProduct(inputs, weights, left.value, right.value, batch, channels, k);
    var codes := NarrowProduct(Integers(inputs), Integers(weights), batch, channels, k);
    states := Some(Widened(codes));
  }
}
