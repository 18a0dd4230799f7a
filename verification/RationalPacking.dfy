/**
 Exact rational operands packed as 32-bit limbs over common denominators that a
 power of two aligns with the accumulator.
 */
module RationalPacking {
  import opened ExactArithmetic
  import opened IntArithmetic
  import opened FloatAccumulator
  import opened Quantum
  import opened Results

  datatype Operand = Rational(value: Fraction) | PositiveInfinity | NegativeInfinity | NotNumber | MinusZero {
    predicate IsFinite() { Rational? || MinusZero? }

    /** In lowest terms; the minus zero is zero. */
    function Exact(): Fraction {
      if Rational? then Reduce(value) else Fraction(0, 1)
    }
  }

  datatype Accumulator = Float(mantissa: nat, exponentBits: nat, bias: int) | Fixed(fractional: nat, bits: nat) {
    function MinDenominatorBits(): nat {
      if Fixed? then fractional else if bias + mantissa - 1 < 0 then 0 else bias + mantissa - 1
    }

    function MaxStateBits(): int {
      if Fixed? then bits
      else
        var exponents := IntPow2(exponentBits) - 2 - bias + 1;
        if exponents > mantissa + 1 then exponents else mantissa + 1
    }

    function Significand(): nat { if Float? then mantissa else 0 }
  }

  // ----- common denominators -----

  /** lcm of the denominators of the finite operands */
  function Common(operands: seq<Operand>): Positive {
    if |operands| == 0 then 1
    else
      var k := |operands| - 1;
      if operands[k].IsFinite() then Lcm(Common(operands[..k]), operands[k].Exact().denominator)
      else Common(operands[..k])
  }

  lemma {:induction false} CommonDivides(operands: seq<Operand>, i: nat)
    requires i < |operands| && operands[i].IsFinite()
    ensures Divides(operands[i].Exact().denominator, Common(operands))
  {
    hide Divides, Lcm, Reduce;
    var k := |operands| - 1;
    if operands[k].IsFinite() {
      LcmMultiple(Common(operands[..k]), operands[k].Exact().denominator);
    }
    if i < k {
      CommonDivides(operands[..k], i);
      if operands[k].IsFinite() {
        DividesTransitive(operands[i].Exact().denominator, Common(operands[..k]), Common(operands));
      }
    }
  }

  lemma LcmProduct(a: Positive, b: Positive) returns (k: int)
    ensures Lcm(a, b) == k * a && k * Gcd(a, b) == b && k > 0
  {
    var g := Gcd(a, b);
    GcdDivides(a, b);
    var i: int :| a == Multiple(i, g);
    var j: int :| b == Multiple(j, g);
    QuotientOfMultiple(i, g);
    k := j;
    assert Lcm(a, b) == i * b == i * (j * g) == j * (i * g);
    MulOrder(0, j, g, 0, b);
  }

  /** denominator // product_denominator */
  function Factor(product: Positive, bits: nat): (factor: Positive)
  {
    FactorPositive(product, bits);
    Lcm(product, IntPow2(bits)) / product
  }

  lemma FactorPositive(product: Positive, bits: nat)
    ensures Lcm(product, IntPow2(bits)) / product > 0
  {
    var k := LcmProduct(product, IntPow2(bits));
    DivUnique(Lcm(product, IntPow2(bits)), product, k, 0);
  }

  /** The alignment factor is a power of two, whatever the operands' denominators. */
  lemma AlignmentFactor(product: Positive, bits: nat)
    ensures IsPowerOfTwo(Factor(product, bits))
    ensures Lcm(product, IntPow2(bits)) == product * IntPow2(LowExponent(Factor(product, bits)))
  {
    var k := LcmProduct(product, IntPow2(bits));
    DivUnique(Lcm(product, IntPow2(bits)), product, k, 0);
    assert IntPow2(bits) == Gcd(product, IntPow2(bits)) * k;
    DivisorOfPower(k, Gcd(product, IntPow2(bits)), bits);
    PowerOfTwoExponent(k);
  }

  // ----- magnitudes -----

  /** abs(v.numerator) * (common // v.denominator) */
  function Magnitude(v: Operand, common: Positive): (m: nat) {
    MagnitudeNonnegative(v, common);
    if v.Rational? then AbsInt(v.Exact().numerator) * (common / v.Exact().denominator) else 0
  }

  lemma MagnitudeNonnegative(v: Operand, common: Positive)
    ensures v.Rational? ==> AbsInt(v.Exact().numerator) * (common / v.Exact().denominator) >= 0
  {
    if v.Rational? {
      DivNonnegative(common, v.Exact().denominator);
      MulNonnegative(AbsInt(v.Exact().numerator), common / v.Exact().denominator);
    }
  }

  function SignedMagnitude(v: Operand, common: Positive): int {
    if v.Rational? && v.Exact().numerator < 0 then 0 - Magnitude(v, common) else Magnitude(v, common)
  }

  /** A packed operand is its value in units of the common denominator. */
  lemma PackedValue(v: Operand, common: Positive)
    requires v.IsFinite() && Divides(v.Exact().denominator, common)
    ensures v.Exact().Value() == SignedMagnitude(v, common) as real / common as real
  {
    hide Reduce;
    var r := v.Exact();
    var k: int :| common == Multiple(k, r.denominator);
    QuotientOfMultiple(k, r.denominator);
    MulOrder(0, k, r.denominator, 0, common);
    MulNonnegative(AbsInt(r.numerator), k);
    var n := SignedMagnitude(v, common);
    assert n == r.numerator * k by { SignedTimes(r.numerator, k); }
    ExtendedQuotient(r.numerator as real, r.denominator as real, k as real, n as real, common as real);
  }

  lemma SignedTimes(n: int, k: int)
    ensures n * k == if n < 0 then -(AbsInt(n) * k) else AbsInt(n) * k
  {
  }

  lemma ExtendedQuotient(n: real, d: real, k: real, m: real, c: real)
    requires d > 0.0 && k > 0.0 && c > 0.0 && m == n * k && c == k * d
    ensures n / d == m / c
  {
    var x := n / d;
    assert x * d == n;
    assert x * c == (x * d) * k;
    assert m == x * c;
  }

  /** The packed product, shifted and taken over the denominator, is exactly x*w. */
  lemma ProductExact(x: Operand, w: Operand, dx: Positive, dw: Positive, shift: nat, denominator: Positive)
    requires x.IsFinite() && w.IsFinite()
    requires Divides(x.Exact().denominator, dx) && Divides(w.Exact().denominator, dw)
    requires denominator == dx * dw * IntPow2(shift)
    ensures x.Exact().Value() * w.Exact().Value()
         == (SignedMagnitude(x, dx) * SignedMagnitude(w, dw) * IntPow2(shift)) as real / denominator as real
  {
    hide SignedMagnitude, Operand.Exact, Divides, IntPow2, Fraction.Value;
    PackedValue(x, dx);
    PackedValue(w, dw);
    AlignedProduct(SignedMagnitude(x, dx), SignedMagnitude(w, dw), dx, dw, IntPow2(shift), denominator,
                   x.Exact().Value(), w.Exact().Value());
  }

  lemma AlignedProduct(a: int, b: int, dx: Positive, dw: Positive, p: Positive, denominator: Positive, x: real, w: real)
    requires denominator == dx * dw * p && x == a as real / dx as real && w == b as real / dw as real
    ensures x * w == (a * b * p) as real / denominator as real
  {
    MulPositive(dx, dw);
    var n, d := a * b, dx * dw;
    RealProduct(a, b);
    RealProduct(dx, dw);
    RealProduct(n, p);
    RealProduct(d, p);
    QuotientProduct(a as real, dx as real, b as real, dw as real, n as real, d as real, x, w);
    ExtendedQuotient(n as real, d as real, p as real, (n * p) as real, denominator as real);
  }

  lemma RealProduct(a: int, b: int)
    ensures (a * b) as real == a as real * b as real
  {
  }

  // ----- limbs -----

  /** [(number >> (32*i)) & 0xffffffff for i in range(size)] */
  function Limbs(number: nat, size: nat): (limbs: seq<nat>)
    ensures |limbs| == size
    ensures forall i :: 0 <= i < size ==> limbs[i] == Limb(number, i)
  {
    seq(size, i requires 0 <= i < size => Limb(number, i))
  }

  function Limb(number: nat, i: nat): (limb: nat)
    ensures limb < IntPow2(32)
  {
    DivNonnegative(number, IntPow2(32 * i));
    number / IntPow2(32 * i) % IntPow2(32)
  }

  /** The number a sequence of limbs stands for. */
  function Joined(limbs: seq<nat>): int {
    if |limbs| == 0 then 0
    else Joined(limbs[..|limbs| - 1]) + limbs[|limbs| - 1] * IntPow2(32 * (|limbs| - 1))
  }

  lemma SplitRemainder(n: nat, a: Positive, b: Positive)
    ensures a * b > 0 && n % (a * b) == n % a + n / a % b * a
  {
    MulPositive(a, b);
    DivIdentity(n, a);
    DivNonnegative(n, a);
    DivIdentity(n / a, b);
    var low, high := n % a, n / a % b;
    MulOrder(high, b - 1, a, high * a, (b - 1) * a);
    MulNonnegative(high, a);
    assert (b - 1) * a == a * b - a;
    assert (n / a / b) * (a * b) == (n / a / b * b) * a;
    assert n == (n / a / b) * (a * b) + (low + high * a) by {
      assert (n / a) * a == (n / a / b * b) * a + high * a;
    }
    DivUnique(n, a * b, n / a / b, low + high * a);
  }

  lemma {:induction false} JoinedLimbs(number: nat, size: nat)
    ensures Joined(Limbs(number, size)) == number % IntPow2(32 * size)
  {
    if size == 0 {
      assert Limbs(number, 0) == [];
      DivIdentity(number, 1);
    } else {
      var k := size - 1;
      JoinedLimbs(number, k);
      assert Limbs(number, size)[..k] == Limbs(number, k);
      hide IntPow2;
      IntPow2Add(32 * k, 32);
      assert 32 * k + 32 == 32 * size;
      SplitRemainder(number, IntPow2(32 * k), IntPow2(32));
    }
  }

  /** Limbs reconstruct every number that fits them. */
  lemma LimbsReconstruct(number: nat, size: nat, bits: nat)
    requires number < IntPow2(bits) && bits <= 32 * size
    ensures Joined(Limbs(number, size)) == number
  {
    hide IntPow2, Joined, Limbs;
    JoinedLimbs(number, size);
    IntPow2Monotone(bits, 32 * size);
    DivUnique(number, IntPow2(32 * size), 0, number);
  }

  // ----- packing with a memo -----

  datatype Packed = Packed(negative: bool, kind: nat, limbs: seq<nat>)

  datatype Key = Key(kind: nat, negative: bool, value: Option<Fraction>)

  function Kind(v: Operand): nat {
    match v
    case Rational(_) => 0
    case PositiveInfinity => 1
    case NegativeInfinity => 2
    case NotNumber => 3
    case MinusZero => 4
  }

  function IsNegative(v: Operand): bool {
    if v.Rational? then v.Exact().numerator < 0 else v.NegativeInfinity? || v.MinusZero?
  }

  function KeyOf(v: Operand): Key {
    Key(Kind(v), IsNegative(v), if v.Rational? then Some(v.Exact()) else None)
  }

  function FreshPacking(v: Operand, common: Positive, size: nat): Packed {
    Packed(IsNegative(v), Kind(v), Limbs(Magnitude(v, common), size))
  }

  /** Operands with one key have one packing. */
  lemma SameKeySamePacking(u: Operand, v: Operand, common: Positive, size: nat)
    requires KeyOf(u) == KeyOf(v)
    ensures FreshPacking(u, common, size) == FreshPacking(v, common, size)
  {
    hide Reduce, Limbs;
  }

  /** The value an operand stands for. */
  function Meaning(v: Operand): Stored {
    match v
    case Rational(value) => Finite(value.Value())
    case PositiveInfinity => Infinite(false)
    case NegativeInfinity => Infinite(true)
    case NotNumber => NotANumber
    case MinusZero => NegativeZero
  }

  /** What a kernel reads from a packed row: kind 0 is a number, 1 and 2 infinities, 3 no number, 4 the minus zero. */
  function Unpacked(row: Packed, common: Positive): Stored {
    if row.kind == 0 then
      Finite((if row.negative then 0 - Joined(row.limbs) else Joined(row.limbs)) as real / common as real)
    else if row.kind == 1 || row.kind == 2 then Infinite(row.negative)
    else if row.kind == 3 then NotANumber
    else NegativeZero
  }

  /** Unpacking gives back every operand; the sign bit of an infinity or zero agrees with its kind. */
  lemma PackingRoundTrip(v: Operand, common: Positive, size: nat, bits: nat)
    requires v.IsFinite() ==> Divides(v.Exact().denominator, common)
    requires Magnitude(v, common) < IntPow2(bits) && bits <= 32 * size
    ensures Unpacked(FreshPacking(v, common, size), common) == Meaning(v)
    ensures v.IsFinite() <==> Meaning(v).IsReal()
    ensures var row := FreshPacking(v, common, size);
      && (row.kind == 0 ==> v.Rational? && (row.negative <==> v.value.Value() < 0.0))
      && (row.kind == 1 ==> !row.negative) && (row.kind == 2 || row.kind == 4 ==> row.negative) && row.kind <= 4
  {
    LimbsReconstruct(Magnitude(v, common), size, bits);
    if v.Rational? {
      PackedValue(v, common);
      ReduceValue(v.value);
      SignOfValue(v.Exact());
    }
    hide Magnitude, Divides, IntPow2, Limbs, Joined, Fraction.Value, Reduce;
  }

  lemma SignOfValue(q: Fraction)
    ensures q.numerator < 0 <==> q.Value() < 0.0
  {
  }

  /** An operand's denominator is the least of all fractions of its value. */
  lemma ExactLowest(v: Operand, n: int, d: Positive)
    requires v.IsFinite() && (v.Rational? ==> IsOver(v.value, n, d))
    ensures Divides(v.Exact().denominator, d)
  {
    if v.Rational? {
      LowestTerms(v.value, n, d);
    } else {
      OneDivides(d);
    }
  }

  /** pack: repeated operands reuse their packing; every row is the fresh one. */
  method Pack(operands: seq<Operand>, common: Positive, size: nat) returns (packed: seq<Packed>)
    ensures |packed| == |operands|
    ensures forall i :: 0 <= i < |operands| ==> packed[i] == FreshPacking(operands[i], common, size)
  {
    hide FreshPacking, KeyOf;
    packed := [];
    var cache: map<Key, Packed> := map[];
    for i := 0 to |operands|
      invariant |packed| == i
      invariant forall j :: 0 <= j < i ==> packed[j] == FreshPacking(operands[j], common, size)
      invariant forall key :: key in cache ==>
        exists j :: 0 <= j < i && KeyOf(operands[j]) == key && cache[key] == packed[j]
    {
      var key := KeyOf(operands[i]);
      if key !in cache {
        cache := cache[key := FreshPacking(operands[i], common, size)];
        packed := packed + [cache[key]];
      } else {
        ghost var j :| 0 <= j < i && KeyOf(operands[j]) == key && cache[key] == packed[j];
        SameKeySamePacking(operands[j], operands[i], common, size);
        packed := packed + [cache[key]];
      }
    }
  }

  // ----- the widths -----

  function Largest(operands: seq<Operand>, common: Positive): nat {
    if |operands| == 0 then 0
    else
      var k := |operands| - 1;
      var rest := Largest(operands[..k], common);
      if Magnitude(operands[k], common) > rest then Magnitude(operands[k], common) else rest
  }

  lemma {:induction false} LargestAttained(operands: seq<Operand>, common: Positive)
    ensures Largest(operands, common) == 0
      || exists i :: 0 <= i < |operands| && Magnitude(operands[i], common) == Largest(operands, common)
  {
    hide Magnitude;
    if |operands| > 0 {
      LargestAttained(operands[..|operands| - 1], common);
    }
  }

  lemma {:induction false} LargestBound(operands: seq<Operand>, common: Positive, i: nat)
    requires i < |operands|
    ensures Magnitude(operands[i], common) <= Largest(operands, common)
  {
    hide Magnitude;
    if i < |operands| - 1 {
      LargestBound(operands[..|operands| - 1], common, i);
    }
  }

  /** The bits needed by operands, aligned products, decoded states, and the division guard. */
  function Required(xn: nat, wn: nat, shift: nat, denominator: Positive, acc: Accumulator): int {
    MulNonnegative(xn, wn);
    MaxInt(MaxInt(BitLength(xn), BitLength(wn)),
           MaxInt(BitLength(xn * wn) + shift,
                  MaxInt(BitLength(denominator) + acc.MaxStateBits(),
                         BitLength(denominator) + acc.Significand() + 2))) + 4
  }

  function KernelSize(required: int): (size: Option<nat>)
    ensures size.None? <==> required > 10240
    ensures size.Some? ==> size.value * 32 >= required && size.value in {32, 64, 128, 320}
    ensures size.Some? ==> forall s :: s in {32, 64, 128, 320} && s * 32 >= required ==> size.value <= s
  {
    if 32 * 32 >= required then Some(32)
    else if 64 * 32 >= required then Some(64)
    else if 128 * 32 >= required then Some(128)
    else if 320 * 32 >= required then Some(320)
    else None
  }

  datatype Plan = Plan(dx: Positive, dw: Positive, denominator: Positive, shift: nat, size: nat,
                       x: seq<Packed>, w: seq<Packed>, d: seq<nat>)

  /** A row of exactly that many 32-bit limbs. */
  ghost predicate Sized(limbs: seq<nat>, size: nat) {
    |limbs| == size && forall i :: 0 <= i < size ==> limbs[i] < IntPow2(32)
  }

  lemma LimbsSized(number: nat, size: nat)
    ensures Sized(Limbs(number, size), size)
  {
    hide IntPow2, Limb;
  }

  lemma {:induction false} JoinedBelow(limbs: seq<nat>, size: nat)
    requires Sized(limbs, size)
    ensures 0 <= Joined(limbs) < IntPow2(32 * size)
  {
    hide IntPow2;
    if size > 0 {
      var k := size - 1;
      JoinedBelow(limbs[..k], k);
      IntPow2Add(32 * k, 32);
      assert 32 * k + 32 == 32 * size;
      TopLimb(Joined(limbs[..k]), limbs[k], IntPow2(32 * k), IntPow2(32));
    }
  }

  lemma TopLimb(low: int, limb: int, p: int, b: int)
    requires 0 <= low < p && 0 <= limb < b
    ensures 0 <= low + limb * p < p * b
  {
    MulOrder(limb, b - 1, p, limb * p, (b - 1) * p);
    MulNonnegative(limb, p);
    assert (b - 1) * p == p * b - p;
  }

  /** Rows of limbs that stand for one number are the same row. */
  lemma {:induction false} LimbsUnique(a: seq<nat>, b: seq<nat>, size: nat)
    requires Sized(a, size) && Sized(b, size) && Joined(a) == Joined(b)
    ensures a == b
  {
    hide IntPow2;
    if size > 0 {
      var k := size - 1;
      JoinedBelow(a[..k], k);
      JoinedBelow(b[..k], k);
      DivUnique(Joined(a), IntPow2(32 * k), a[k], Joined(a[..k]));
      DivUnique(Joined(b), IntPow2(32 * k), b[k], Joined(b[..k]));
      LimbsUnique(a[..k], b[..k], k);
      assert a == a[..k] + [a[k]] && b == b[..k] + [b[k]];
    }
  }

  /** A packed row stands for its operand. */
  ghost predicate Represents(row: Packed, v: Operand, common: Positive, size: nat) {
    && row.kind == Kind(v) && row.negative == IsNegative(v)
    && Sized(row.limbs, size) && Joined(row.limbs) == Magnitude(v, common)
  }

  lemma PackedRow(operands: seq<Operand>, common: Positive, size: nat, i: nat)
    requires i < |operands| && BitLength(Largest(operands, common)) <= 32 * size
    ensures Represents(FreshPacking(operands[i], common, size), operands[i], common, size)
  {
    hide IntPow2, Joined, Limbs, Magnitude, BitLength, Sized;
    LimbsSized(Magnitude(operands[i], common), size);
    LargestBound(operands, common, i);
    BelowBitLength(Largest(operands, common));
    LimbsReconstruct(Magnitude(operands[i], common), size, BitLength(Largest(operands, common)));
  }

  /** Some operand is infinite or not a number. */
  ghost predicate Special(operands: seq<Operand>) { exists v :: v in operands && !v.IsFinite() }

  method AllFinite(operands: seq<Operand>) returns (finite: bool)
    ensures finite <==> !Special(operands)
  {
    for i := 0 to |operands|
      invariant forall v :: v in operands[..i] ==> v.IsFinite()
    {
      if !operands[i].IsFinite() {
        return false;
      }
    }
    return true;
  }

  /** The preparation of the wide rational kernel: exact, and refused only beyond 10240 bits or for special values. */
  method Prepare(left: seq<Operand>, right: seq<Operand>, acc: Accumulator) returns (plan: Result<Plan>)
    ensures plan.Failure? <==>
      || (acc.Fixed? && (Special(left) || Special(right)))
      || Needed(left, right, acc) > 10240
    ensures plan.Success? ==> Faithful(left, right, plan.value)
    ensures plan.Success? && (acc.Float? ==> StateFormat(acc).Valid()) ==>
      HoldsStates(acc, plan.value.denominator, plan.value.size)
    ensures plan.Success? ==>
      && plan.value.size * 32 >= Needed(left, right, acc)
      && forall s :: s in {32, 64, 128, 320} && s * 32 >= Needed(left, right, acc) ==> plan.value.size <= s
  {
    hide Special, Represents, Factor, LowExponent, Limbs, Faithful, Operand.Exact, Common, FreshPacking, Magnitude,
         Lcm, IntPow2, Required, BitLength, Largest;
    var dx, dw := Common(left), Common(right);
    var leftFinite := AllFinite(left);
    var rightFinite := AllFinite(right);
    if acc.Fixed? && !(leftFinite && rightFinite) {
      return Failure("integer/fixed accumulator cannot consume nonfinite operands");
    }
    MulPositive(dx, dw);
    var product: Positive := dx * dw;
    var denominator := Lcm(product, IntPow2(acc.MinDenominatorBits()));
    var factor := Factor(product, acc.MinDenominatorBits());
    AlignmentFactor(product, acc.MinDenominatorBits());
    // The refusal of a factor that is not a power of two cannot happen.
    assert IsPowerOfTwo(factor);
    var shift := LowExponent(factor);
    var xn, wn := Largest(left, dx), Largest(right, dw);
    var size := KernelSize(Required(xn, wn, shift, denominator, acc));
    if size.None? {
      return Failure("rational domain beyond the certified 10240-bit kernel");
    }
    var x := Pack(left, dx, size.value);
    var w := Pack(right, dw, size.value);
    plan := Success(Plan(dx, dw, denominator, shift, size.value, x, w, Limbs(denominator, size.value)));
    PreparedFaithful(left, right, acc, plan.value);
    hide HoldsStates;
    if ValidAccumulator(acc) {
      PreparedStates(acc, xn, wn, shift, product, denominator, size.value);
    }
  }

  /** The width that operands, aligned products and accumulator states need. */
  ghost function Needed(left: seq<Operand>, right: seq<Operand>, acc: Accumulator): int {
    var dx, dw, bits := Common(left), Common(right), acc.MinDenominatorBits();
    MulPositive(dx, dw);
    Required(Largest(left, dx), Largest(right, dw), LowExponent(Factor(dx * dw, bits)), Lcm(dx * dw, IntPow2(bits)),
             acc)
  }

  /** What the kernel receives means exactly the operands, the products and the denominator. */
  ghost predicate Faithful(left: seq<Operand>, right: seq<Operand>, plan: Plan) {
    && |plan.x| == |left| && |plan.w| == |right|
    && (forall i :: 0 <= i < |left| ==> Represents(plan.x[i], left[i], plan.dx, plan.size))
    && (forall j :: 0 <= j < |right| ==> Represents(plan.w[j], right[j], plan.dw, plan.size))
    && plan.size in {32, 64, 128, 320}
    && Sized(plan.d, plan.size) && Joined(plan.d) == plan.denominator
    && forall i, j :: 0 <= i < |left| && 0 <= j < |right| ==> PairExact(left[i], right[j], plan)
  }

  /** The shifted packed product of two operands, over the denominator, is their product; it fits the limbs. */
  ghost predicate PairExact(x: Operand, w: Operand, plan: Plan) {
    && plan.size >= 1
    && Magnitude(x, plan.dx) * Magnitude(w, plan.dw) * IntPow2(plan.shift) < IntPow2(32 * plan.size - 4)
    && (x.IsFinite() && w.IsFinite() ==>
          x.Exact().Value() * w.Exact().Value()
          == (SignedMagnitude(x, plan.dx) * SignedMagnitude(w, plan.dw) * IntPow2(plan.shift)) as real
             / plan.denominator as real)
  }

  /** The aligned product of any two operands fits the kernel's limbs. */
  lemma AlignedProductFits(a: nat, b: nat, xn: nat, wn: nat, shift: nat, bits: nat)
    requires a <= xn && b <= wn && xn * wn >= 0 && BitLength(xn * wn) + shift <= bits
    ensures a * b * IntPow2(shift) < IntPow2(bits)
  {
    hide IntPow2, BitLength;
    MulNonnegative(xn - a, b);
    MulNonnegative(xn, wn - b);
    assert (xn - a) * b == xn * b - a * b;
    assert xn * (wn - b) == xn * wn - xn * b;
    BelowBitLength(xn * wn);
    var length := BitLength(xn * wn);
    IntPow2Add(length, shift);
    IntPow2Monotone(length + shift, bits);
    MulOrder(a * b, IntPow2(length), IntPow2(shift), a * b * IntPow2(shift), IntPow2(length) * IntPow2(shift));
  }

  lemma PreparedFaithful(left: seq<Operand>, right: seq<Operand>, acc: Accumulator, plan: Plan)
    requires plan.dx == Common(left) && plan.dw == Common(right) && plan.dx * plan.dw > 0
    requires plan.denominator == Lcm(plan.dx * plan.dw, IntPow2(acc.MinDenominatorBits()))
    requires plan.shift == LowExponent(Factor(plan.dx * plan.dw, acc.MinDenominatorBits()))
    requires plan.size * 32
          >= Required(Largest(left, plan.dx), Largest(right, plan.dw), plan.shift, plan.denominator, acc)
    requires |plan.x| == |left|
    requires forall i :: 0 <= i < |left| ==> plan.x[i] == FreshPacking(left[i], plan.dx, plan.size)
    requires |plan.w| == |right|
    requires forall j :: 0 <= j < |right| ==> plan.w[j] == FreshPacking(right[j], plan.dw, plan.size)
    requires plan.d == Limbs(plan.denominator, plan.size) && plan.size in {32, 64, 128, 320}
    ensures Faithful(left, right, plan)
  {
    hide Operand.Exact, Common, FreshPacking, Magnitude, Lcm, IntPow2, BitLength, Largest, Factor, LowExponent,
         Represents, SignedMagnitude, Fraction.Value, Joined, Limbs, Sized, PairExact;
    var xn, wn := Largest(left, plan.dx), Largest(right, plan.dw);
    NeededBits(xn, wn, plan.shift, plan.denominator, acc);
    hide Required;
    PackedRows(left, plan.dx, plan.size, plan.x);
    PackedRows(right, plan.dw, plan.size, plan.w);
    LimbsSized(plan.denominator, plan.size);
    BelowBitLength(plan.denominator);
    LimbsReconstruct(plan.denominator, plan.size, BitLength(plan.denominator));
    forall i, j | 0 <= i < |left| && 0 <= j < |right|
      ensures PairExact(left[i], right[j], plan)
    {
      PreparedPair(left, right, acc, plan, i, j);
    }
  }

  /** Each part of the needed width. */
  lemma NeededBits(xn: nat, wn: nat, shift: nat, denominator: Positive, acc: Accumulator)
    ensures xn * wn >= 0
    ensures var bits := Required(xn, wn, shift, denominator, acc);
      && BitLength(xn) <= bits && BitLength(wn) <= bits && BitLength(denominator) <= bits
      && BitLength(xn * wn) + shift <= bits - 4
  {
    MulNonnegative(xn, wn);
    StateBitsNonnegative(acc);
    hide BitLength, Accumulator.MaxStateBits, Accumulator.Significand;
  }

  lemma PackedRows(operands: seq<Operand>, common: Positive, size: nat, rows: seq<Packed>)
    requires BitLength(Largest(operands, common)) <= 32 * size && |rows| == |operands|
    requires forall i :: 0 <= i < |operands| ==> rows[i] == FreshPacking(operands[i], common, size)
    ensures forall i :: 0 <= i < |operands| ==> Represents(rows[i], operands[i], common, size)
  {
    hide Largest, BitLength, FreshPacking, Represents;
    forall i | 0 <= i < |operands|
      ensures Represents(rows[i], operands[i], common, size)
    {
      PackedRow(operands, common, size, i);
    }
  }

  /** One pair of operands: its aligned product is exact and fits the limbs. */
  lemma PreparedPair(left: seq<Operand>, right: seq<Operand>, acc: Accumulator, plan: Plan, i: nat, j: nat)
    requires i < |left| && j < |right|
    requires plan.dx == Common(left) && plan.dw == Common(right) && plan.dx * plan.dw > 0
    requires plan.denominator == Lcm(plan.dx * plan.dw, IntPow2(acc.MinDenominatorBits()))
    requires plan.shift == LowExponent(Factor(plan.dx * plan.dw, acc.MinDenominatorBits()))
    requires Largest(left, plan.dx) * Largest(right, plan.dw) >= 0
    requires BitLength(Largest(left, plan.dx) * Largest(right, plan.dw)) + plan.shift <= 32 * plan.size - 4
    requires plan.size >= 1
    ensures PairExact(left[i], right[j], plan)
  {
    hide Operand.Exact, Common, Magnitude, Lcm, IntPow2, BitLength, Largest, Factor, LowExponent, SignedMagnitude,
         Fraction.Value, Divides;
    LargestBound(left, plan.dx, i);
    LargestBound(right, plan.dw, j);
    AlignedProductFits(Magnitude(left[i], plan.dx), Magnitude(right[j], plan.dw), Largest(left, plan.dx),
                       Largest(right, plan.dw), plan.shift, 32 * plan.size - 4);
    AlignmentFactor(plan.dx * plan.dw, acc.MinDenominatorBits());
    if left[i].IsFinite() && right[j].IsFinite() {
      CommonDivides(left, i);
      CommonDivides(right, j);
      ProductExact(left[i], right[j], plan.dx, plan.dw, plan.shift, plan.denominator);
    }
  }

  lemma StateBitsNonnegative(acc: Accumulator)
    ensures acc.MaxStateBits() >= 0
  {
  }

  // ----- accumulator states over the denominator -----

  /** The float accumulator the kernel computes in. */
  function StateFormat(acc: Accumulator): FloatFormat
    requires acc.Float?
  {
    FloatFormat(acc.mantissa, acc.exponentBits, acc.bias)
  }

  ghost predicate ValidAccumulator(acc: Accumulator) { acc.Float? ==> StateFormat(acc).Valid() }

  ghost predicate IsRoundedTo(f: FloatFormat, v: real, x: real) {
    Rounded(f, v).IsReal() && Rounded(f, v).Value() == x
  }

  /** A code of the fixed-point register, in its two's-complement range. */
  ghost predicate IsCode(fractional: nat, bits: nat, k: int, x: real) {
    0 - IntPow2(bits) <= 2 * k < IntPow2(bits) && x == Site(k, Pow2(0 - fractional))
  }

  /** A finite state of the accumulator. */
  ghost predicate IsState(acc: Accumulator, x: real) {
    match acc
    case Float(_, _, _) => exists v: real :: IsRoundedTo(StateFormat(acc), v, x)
    case Fixed(fractional, bits) => exists k: int :: IsCode(fractional, bits, k, x)
  }

  /** x is n over the denominator. */
  ghost predicate IsNumerator(x: real, denominator: Positive, n: int) { x * denominator as real == n as real }

  /** x is an integer of fewer than that many bits over the denominator. */
  ghost predicate Held(x: real, denominator: Positive, bits: nat) {
    exists n: int :: IsNumerator(x, denominator, n) && AbsInt(n) < IntPow2(bits)
  }

  /** Every state and the guard of a division fit the limbs with four bits to spare. */
  ghost predicate HoldsStates(acc: Accumulator, denominator: Positive, size: nat)
    requires size >= 1
  {
    && (forall x: real :: IsState(acc, x) ==> Held(x, denominator, 32 * size - 4))
    && denominator * IntPow2((if acc.Float? then acc.mantissa else 0) + 2) < IntPow2(32 * size - 4)
  }

  /** n * 2^a times a multiple of 2^bits is an integer. */
  lemma ScaledNumerator(n: int, a: int, bits: nat, denominator: Positive, x: real) returns (k: int)
    requires Divides(IntPow2(bits), denominator) && a + bits >= 0 && x == Site(n, Pow2(a))
    ensures IsNumerator(x, denominator, k)
  {
    hide Pow2, IntPow2;
    var d: int :| denominator == Multiple(d, IntPow2(bits));
    Pow2Add(a, bits);
    IntPow2Real(bits);
    IntPow2Real(a + bits);
    k := n * IntPow2(a + bits) * d;
    IntegerProduct(n, IntPow2(a + bits), d, IntPow2(bits), denominator, k, Pow2(a), Pow2(a + bits), x);
  }

  lemma IntegerProduct(n: int, p: int, d: int, b: int, c: int, k: int, s: real, t: real, x: real)
    requires c == d * b && k == n * p * d && t == p as real && t == s * b as real && x == n as real * s
    ensures x * c as real == k as real
  {
    assert c as real == d as real * b as real;
    assert k as real == n as real * p as real * d as real;
    assert x * c as real == (n as real * d as real) * (s * b as real);
  }

  /** A numerator of a value of at most 2^top is below the denominator's bits and top together. */
  lemma NumeratorBelow(x: real, denominator: Positive, k: int, top: int, bits: nat)
    requires IsNumerator(x, denominator, k) && Abs(x) <= Pow2(top) && top <= bits
    ensures AbsInt(k) < IntPow2(BitLength(denominator) + bits)
  {
    hide Pow2, IntPow2, BitLength;
    var d, l := denominator as real, BitLength(denominator);
    BelowBitLength(denominator);
    Pow2Monotone(top, bits);
    IntPow2Real(bits);
    IntPow2Add(l, bits);
    AbsProduct(x, d);
    Scale(Abs(x), Pow2(bits), d, Abs(k as real), Pow2(bits) * d);
    MulOrder(denominator, IntPow2(l), IntPow2(bits), denominator * IntPow2(bits), IntPow2(l) * IntPow2(bits));
    assert Pow2(bits) * d == (denominator * IntPow2(bits)) as real;
  }

  /** A finite float state over the prepared denominator. */
  lemma FloatState(acc: Accumulator, denominator: Positive, x: real)
    requires acc.Float? && ValidAccumulator(acc) && IsState(acc, x)
    requires Divides(IntPow2(acc.MinDenominatorBits()), denominator) && acc.MaxStateBits() >= 0
    ensures Held(x, denominator, BitLength(denominator) + acc.MaxStateBits())
  {
    hide Pow2, IntPow2, Rounded, BitLength, Divides;
    var f := StateFormat(acc);
    var v: real :| IsRoundedTo(f, v, x);
    RoundedRepresentable(f, v);
    RoundedWithin(f, v);
    var n: int, a: int :| IsScaled(f, x, n, a);
    var k := ScaledNumerator(n, a, acc.MinDenominatorBits(), denominator, x);
    NumeratorBelow(x, denominator, k, f.MaxExponent() + 1, acc.MaxStateBits());
  }

  /** A fixed-point state over the prepared denominator. */
  lemma FixedState(acc: Accumulator, denominator: Positive, x: real)
    requires acc.Fixed? && IsState(acc, x) && Divides(IntPow2(acc.MinDenominatorBits()), denominator)
    ensures Held(x, denominator, BitLength(denominator) + acc.bits)
  {
    hide Pow2, IntPow2, BitLength, Divides;
    var k: int :| IsCode(acc.fractional, acc.bits, k, x);
    var n := ScaledNumerator(k, 0 - acc.fractional, acc.fractional, denominator, x);
    CodeWithin(acc.fractional, acc.bits, k, x);
    NumeratorBelow(x, denominator, n, acc.bits, acc.bits);
  }

  lemma CodeWithin(fractional: nat, bits: nat, k: int, x: real)
    requires IsCode(fractional, bits, k, x)
    ensures Abs(x) <= Pow2(bits)
  {
    hide Pow2, IntPow2;
    var s := Pow2(0 - fractional);
    Pow2Monotone(0 - fractional, 0);
    Pow2Zero();
    IntPow2Real(bits);
    var p := IntPow2(bits) as real;
    AbsProduct(k as real, s);
    Scale(Abs(k as real), p, s, Abs(x), p * s);
    Scale(s, 1.0, p, p * s, p);
  }

  /** The chosen size holds every state, with room for an addition and the division guard. */
  lemma PreparedStates(acc: Accumulator, xn: nat, wn: nat, shift: nat, product: Positive, denominator: Positive,
                       size: nat)
    requires denominator == Lcm(product, IntPow2(acc.MinDenominatorBits())) && ValidAccumulator(acc) && size >= 1
    requires 32 * size >= Required(xn, wn, shift, denominator, acc)
    ensures HoldsStates(acc, denominator, size)
  {
    LcmMultiple(product, IntPow2(acc.MinDenominatorBits()));
    StateBitsNonnegative(acc);
    StateRoom(xn, wn, shift, denominator, acc);
    hide Required, IntPow2, BitLength, IsState, Accumulator.MaxStateBits, Accumulator.Significand,
         Accumulator.MinDenominatorBits, Lcm, Divides;
    forall x: real | IsState(acc, x)
      ensures Held(x, denominator, 32 * size - 4)
    {
      match acc {
        case Float(_, _, _) =>
          FloatState(acc, denominator, x);
          HeldWider(x, denominator, BitLength(denominator) + acc.MaxStateBits(), 32 * size - 4);
        case Fixed(_, bits) =>
          FixedState(acc, denominator, x);
          HeldWider(x, denominator, BitLength(denominator) + bits, 32 * size - 4);
      }
    }
    GuardFits(denominator, (if acc.Float? then acc.mantissa else 0) + 2, 32 * size - 4);
  }

  lemma StateRoom(xn: nat, wn: nat, shift: nat, denominator: Positive, acc: Accumulator)
    ensures var room := Required(xn, wn, shift, denominator, acc) - 4;
      && BitLength(denominator) + acc.MaxStateBits() <= room
      && BitLength(denominator) + (if acc.Float? then acc.mantissa else 0) + 2 <= room
    ensures acc.Fixed? ==> acc.MaxStateBits() == acc.bits
  {
    MulNonnegative(xn, wn);
    hide BitLength, IntPow2;
  }

  lemma HeldWider(x: real, denominator: Positive, bits: nat, wider: nat)
    requires Held(x, denominator, bits) && bits <= wider
    ensures Held(x, denominator, wider)
  {
    IntPow2Monotone(bits, wider);
    hide IntPow2;
  }

  lemma GuardFits(denominator: Positive, guard: nat, bits: nat)
    requires BitLength(denominator) + guard <= bits
    ensures denominator * IntPow2(guard) < IntPow2(bits)
  {
    hide IntPow2, BitLength;
    BelowBitLength(denominator);
    var l := BitLength(denominator);
    IntPow2Add(l, guard);
    IntPow2Monotone(l + guard, bits);
    MulOrder(denominator, IntPow2(l), IntPow2(guard), denominator * IntPow2(guard), IntPow2(l) * IntPow2(guard));
  }

  /** A state and an aligned product, four bits short of the limbs each, add up within them. */
  lemma AdditionFits(n: int, p: nat, bits: nat)
    requires bits >= 4 && AbsInt(n) < IntPow2(bits - 4) && p < IntPow2(bits - 4)
    ensures AbsInt(n + p) < IntPow2(bits) && AbsInt(n - p) < IntPow2(bits)
  {
    IntPow2Monotone(bits - 4, bits);
    hide IntPow2;
  }

  // ----- no smaller denominator and no smaller width would do -----

  /** A denominator that holds every state is a multiple of the required power of two. */
  lemma StateDenominator(acc: Accumulator, d: Positive)
    requires ValidAccumulator(acc) && (acc.Fixed? ==> acc.bits >= 1)
    requires forall x: real :: IsState(acc, x) ==> exists n: int :: IsNumerator(x, d, n)
    ensures Divides(IntPow2(acc.MinDenominatorBits()), d)
  {
    hide Pow2, IntPow2, Rounded, Divides;
    var bits := acc.MinDenominatorBits();
    match acc {
      case Float(_, _, _) =>
        var f := StateFormat(acc);
        var x := Pow2(f.MinExponent() - f.mantissa);
        SmallestState(f);
        assert IsRoundedTo(f, x, x);
        assert IsState(acc, x);
        var n: int :| IsNumerator(x, d, n);
        if f.MinExponent() - f.mantissa < 0 {
          PowerDivides(d, bits, n, 1);
        } else {
          IntPow2Zero();
          OneDivides(d);
        }
      case Fixed(fractional, width) =>
        var x := Site(-1, Pow2(0 - fractional));
        IntPow2Monotone(1, width);
        IntPow2One();
        assert IsCode(fractional, width, -1, x);
        assert IsState(acc, x);
        var n: int :| IsNumerator(x, d, n);
        PowerDivides(d, bits, n, -1);
    }
  }

  lemma IntPow2One()
    ensures IntPow2(1) == 2
  {
  }

  lemma OneDivides(d: int)
    ensures Divides(1, d)
  {
    assert d == Multiple(d, 1);
  }

  /** The smallest subnormal is a state. */
  lemma SmallestState(f: FloatFormat)
    requires f.Valid()
    ensures Rounded(f, Pow2(f.MinExponent() - f.mantissa)) == Finite(Pow2(f.MinExponent() - f.mantissa))
  {
    hide Pow2, IntPow2, Rounded, FloatFormat.MaxExponent;
    var a := f.MinExponent() - f.mantissa;
    var s := Pow2(f.MaxExponent() - f.mantissa);
    Pow2Monotone(a, f.MaxExponent() - f.mantissa);
    IntPow2Monotone(1, f.mantissa + 1);
    IntPow2One();
    Scale(1.0, (IntPow2(f.mantissa + 1) - 1) as real, s, s, f.MaxFinite());
    RoundedExact(f, 1, a);
  }

  /** When 2^-bits is an integer over d, up to sign, 2^bits divides d. */
  lemma PowerDivides(d: Positive, bits: nat, n: int, sign: int)
    requires sign * sign == 1 && IsNumerator(Site(sign, Pow2(0 - bits)), d, n)
    ensures Divides(IntPow2(bits), d)
  {
    hide Pow2, IntPow2;
    Pow2Inverse(bits);
    IntPow2Real(bits);
    assert 0 - bits == -(bits as int);
    SignedInverse(sign, Pow2(0 - bits), Pow2(bits), d as real, n as real);
    assert d as real == (sign * n * IntPow2(bits)) as real;
    assert d == Multiple(sign * n, IntPow2(bits));
  }

  lemma SignedInverse(sign: int, s: real, t: real, d: real, n: real)
    requires sign * sign == 1 && t * s == 1.0 && (sign as real * s) * d == n
    ensures d == (sign as real * n) * t
  {
    assert sign as real * sign as real == 1.0;
    assert (sign as real * n) * t == (sign as real * sign as real) * ((s * t) * d);
  }

  /** Every denominator that holds the products and all states is a multiple of the prepared one. */
  lemma DenominatorLeast(acc: Accumulator, product: Positive, d: Positive)
    requires ValidAccumulator(acc) && (acc.Fixed? ==> acc.bits >= 1) && Divides(product, d)
    requires forall x: real :: IsState(acc, x) ==> exists n: int :: IsNumerator(x, d, n)
    ensures Divides(Lcm(product, IntPow2(acc.MinDenominatorBits())), d)
  {
    StateDenominator(acc, d);
    hide Lcm, Divides, IsState, IntPow2;
    LcmLeast(product, IntPow2(acc.MinDenominatorBits()), d);
  }

  /** The common denominator is the least that every finite operand's denominator divides. */
  lemma {:induction false} CommonLeast(operands: seq<Operand>, c: Positive)
    requires forall i :: 0 <= i < |operands| && operands[i].IsFinite() ==> Divides(operands[i].Exact().denominator, c)
    ensures Divides(Common(operands), c)
  {
    hide Divides, Lcm, Reduce;
    if |operands| == 0 {
      OneDivides(c);
    } else {
      var k := |operands| - 1;
      CommonLeast(operands[..k], c);
      if operands[k].IsFinite() {
        LcmLeast(Common(operands[..k]), operands[k].Exact().denominator, c);
      }
    }
  }

  /** A width suffices exactly when operands, aligned products, states and guard fit it with four bits to spare. */
  lemma RequiredExactly(xn: nat, wn: nat, shift: nat, denominator: Positive, acc: Accumulator, bits: int)
    requires xn * wn >= 0
    ensures Required(xn, wn, shift, denominator, acc) <= bits <==>
      var (room, d) := (bits - 4, BitLength(denominator));
      && BitLength(xn) <= room && BitLength(wn) <= room && BitLength(xn * wn) + shift <= room
      && match acc
         case Float(mantissa, exponentBits, bias) =>
           && d + mantissa + 2 <= room
           && d + IntPow2(exponentBits) - 1 - bias <= room
         case Fixed(_, width) => d + width <= room && d + 2 <= room
  {
    hide BitLength, IntPow2;
  }
}
