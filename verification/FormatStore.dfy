/**
 The whole store of a number format: every rounding mode, overflow to infinity,
 infinite targets and targets that are not numbers.
 */
module FormatStore {
  import opened ExactArithmetic
  import opened FloatAccumulator
  import opened Codebook
  import opened NearestStore
  import opened Results

  datatype Rounding = NearestEven | NearestAway | Truncate

  datatype Manifest = Manifest(finite: seq<Entry>, rounding: Rounding, overflowToInfinity: bool, nan: Option<nat>,
                               positiveInfinity: Option<nat>, negativeInfinity: Option<nat>, signedZero: bool,
                               signBit: nat) {
    function Infinity(negative: bool): Option<nat> { if negative then negativeInfinity else positiveInfinity }

    /** The entry at the end of the table on that side. */
    function End(negative: bool): Entry
      requires |finite| > 0
    {
      if negative then finite[0] else finite[|finite| - 1]
    }

    /** The half of a step, or the whole one when truncating, that overflow is tested against. */
    function Margin(step: real): real { if rounding.Truncate? then step else step / 2.0 }

    predicate Beyond(t: real)
      requires |finite| > 0
    {
      t < finite[0].value || t > finite[|finite| - 1].value
    }
  }

  predicate IsNegative(target: Stored)
    requires target.IsReal()
  {
    target.NegativeZero? || target.Value() < 0.0
  }

  /** Between zero and the target. */
  ghost predicate TowardZero(v: real, t: real) { 0.0 <= v <= t || t <= v <= 0.0 }

  /** The distance from the end of the table to the next value inward. */
  ghost predicate IsStep(finite: seq<Entry>, negative: bool, step: real)
    requires |finite| > 0
  {
    var end := if negative then finite[0].value else finite[|finite| - 1].value;
    && (exists i :: 0 <= i < |finite| && finite[i].value != end && Abs(finite[i].value - end) == step)
    && forall i :: 0 <= i < |finite| && finite[i].value != end ==> step <= Abs(finite[i].value - end)
  }

  /** What each mode chooses among the finite entries. */
  ghost predicate Chosen(m: Manifest, t: real, n: nat)
    requires n < |m.finite|
  {
    var v := m.finite[n].value;
    if m.Beyond(t) then m.finite[n] == m.End(t < m.finite[0].value)
    else match m.rounding
      case NearestEven =>
        && forall i :: 0 <= i < |m.finite| ==> Abs(v - t) <= Abs(m.finite[i].value - t)
      case NearestAway =>
        && (forall i :: 0 <= i < |m.finite| ==> Abs(v - t) <= Abs(m.finite[i].value - t))
        && forall i :: 0 <= i < |m.finite| && Abs(m.finite[i].value - t) == Abs(v - t) ==>
             Abs(m.finite[i].value) <= Abs(v)
      case Truncate =>
        && TowardZero(v, t)
        && forall i :: 0 <= i < |m.finite| && TowardZero(m.finite[i].value, t) ==>
             Abs(v - t) <= Abs(m.finite[i].value - t)
  }

  /** A target so far beyond the table that it becomes an infinity. */
  ghost predicate Overflowing(m: Manifest, t: real)
    requires |m.finite| > 0
  {
    var negative := t < m.finite[0].value;
    && m.Beyond(t) && m.overflowToInfinity && m.Infinity(negative).Some?
    && exists step :: IsStep(m.finite, negative, step) && Abs(t) >= Abs(m.End(negative).value) + m.Margin(step)
  }

  /** A target beyond an end, on the side of the end's sign, and a step at that end. */
  ghost predicate BeyondEnd(m: Manifest, t: real, step: real) {
    && IsTable(m.finite) && m.Beyond(t) && IsStep(m.finite, t < m.finite[0].value, step)
    && (if t < m.finite[0].value then t <= m.End(true).value <= 0.0 else 0.0 <= m.End(false).value <= t)
  }

  /**
   Were the table continued by one more step, a target would overflow exactly when
   it reaches the added value when truncating, and when it is at least as near to
   it as to the end otherwise.
   */
  lemma OverflowBoundary(m: Manifest, t: real, step: real)
    requires BeyondEnd(m, t, step)
    ensures var negative := t < m.finite[0].value; var end := m.End(negative).value;
            var next := if negative then end - step else end + step;
      Overflowing(m, t) <==>
        && m.overflowToInfinity && (if negative then m.negativeInfinity else m.positiveInfinity).Some?
        && if m.rounding.Truncate? then (if negative then t <= next else t >= next)
           else Abs(next - t) <= Abs(end - t)
  {
    var negative := t < m.finite[0].value;
    StepPositive(m.finite, negative, step);
    forall other | IsStep(m.finite, negative, other)
      ensures other == step
    {
      StepUnique(m.finite, negative, step, other);
    }
    hide IsStep, IsTable;
  }

  lemma StepPositive(finite: seq<Entry>, negative: bool, step: real)
    requires |finite| > 0 && IsStep(finite, negative, step)
    ensures step > 0.0
  {
  }

  lemma TableExtremes(finite: seq<Entry>)
    requires IsTable(finite)
    ensures forall i :: 0 <= i < |finite| ==> finite[0].value <= finite[i].value <= finite[|finite| - 1].value
  {
  }

  /** An overflow has the sign of its target; without an infinity the store saturates at the extreme entry. */
  lemma InfinityOrExtreme(m: Manifest, negative: bool, code: nat)
    requires IsTable(m.finite) && Stores(m, Infinite(negative), code)
    ensures var infinity := if negative then m.negativeInfinity else m.positiveInfinity;
      if infinity.Some? then code == infinity.value
      else exists n :: 0 <= n < |m.finite| && m.finite[n].code == code && forall i :: 0 <= i < |m.finite| ==>
        if negative then m.finite[n].value <= m.finite[i].value else m.finite[i].value <= m.finite[n].value
  {
    hide StoresReal;
    var n := if negative then 0 else |m.finite| - 1;
    assert m.finite[n] == m.End(negative);
    TableExtremes(m.finite);
    hide IsTable;
  }

  /** The code of an entry inside the table: a zero takes the sign of the target. */
  function CodeOf(m: Manifest, e: Entry, target: Stored): nat
    requires target.IsReal()
  {
    if e.value == 0.0 && m.signedZero then (if IsNegative(target) then m.signBit else 0) else e.code
  }

  /** The code stored for a real target. */
  ghost predicate StoresReal(m: Manifest, target: Stored, code: nat)
    requires |m.finite| > 0 && target.IsReal()
  {
    var t := target.Value();
    if Overflowing(m, t) then m.Infinity(t < m.finite[0].value) == Some(code)
    else exists n :: 0 <= n < |m.finite| && Chosen(m, t, n)
           && code == if m.Beyond(t) then m.finite[n].code else CodeOf(m, m.finite[n], target)
  }

  ghost predicate Stores(m: Manifest, target: Stored, code: nat)
    requires |m.finite| > 0
  {
    match target
    case NotANumber => m.nan == Some(code)
    case Infinite(negative) => code == m.Infinity(negative).GetOr(m.End(negative).code)
    case Finite(_) => StoresReal(m, target, code)
    case NegativeZero => StoresReal(m, target, code)
  }

  /** No step to test overflow against: the table has a single value. */
  ghost predicate SingleValue(finite: seq<Entry>) {
    forall i, j :: 0 <= i < j < |finite| ==> finite[i].value == finite[j].value
  }

  /** The three ways in which a store fails. */
  ghost predicate Refused(m: Manifest, target: Stored)
    requires |m.finite| > 0
  {
    || (target.NotANumber? && m.nan.None?)
    || (target.IsReal() && m.Beyond(target.Value()) && m.overflowToInfinity && SingleValue(m.finite))
    || (target.IsReal() && !m.Beyond(target.Value()) && m.rounding.Truncate?
        && forall i :: 0 <= i < |m.finite| ==> !TowardZero(m.finite[i].value, target.Value()))
  }

  /** sorted(set(magnitudes)): the step at one end, if there are two values. */
  method StepAtEnd(finite: seq<Entry>, negative: bool) returns (step: Option<real>)
    requires IsTable(finite)
    ensures step.None? <==> SingleValue(finite)
    ensures step.Some? ==> IsStep(finite, negative, step.value)
  {
    var last := |finite| - 1;
    TableExtremes(finite);
    hide IsTable, IsStep;
    if finite[0].value == finite[last].value {
      return None;
    }
    var end := if negative then finite[0].value else finite[last].value;
    var n := if negative then 1 else last - 1;
    if negative {
      while finite[n].value == end
        invariant 1 <= n <= last && forall i :: 0 <= i < n ==> finite[i].value == end
        decreases last - n
      {
        n := n + 1;
      }
    } else {
      while finite[n].value == end
        invariant 0 <= n < last && forall i :: n < i <= last ==> finite[i].value == end
        decreases n
      {
        n := n - 1;
      }
    }
    step := Some(Abs(finite[n].value - end));
    NextInward(finite, negative, n);
  }

  /** The first value off the end of the table is a step away. */
  lemma NextInward(finite: seq<Entry>, negative: bool, n: nat)
    requires IsTable(finite) && n < |finite|
    requires var end := if negative then finite[0].value else finite[|finite| - 1].value;
      && finite[n].value != end
      && forall i :: 0 <= i < |finite| && (if negative then i < n else i > n) ==> finite[i].value == end
    ensures var end := if negative then finite[0].value else finite[|finite| - 1].value;
      IsStep(finite, negative, Abs(finite[n].value - end))
  {
    TableExtremes(finite);
    var end := if negative then finite[0].value else finite[|finite| - 1].value;
    forall i | 0 <= i < |finite| && finite[i].value != end
      ensures Abs(finite[n].value - end) <= Abs(finite[i].value - end)
    {
      assert if negative then finite[n].value <= finite[i].value else finite[i].value <= finite[n].value;
    }
    hide IsTable;
  }

  lemma StepUnique(finite: seq<Entry>, negative: bool, s: real, t: real)
    requires |finite| > 0 && IsStep(finite, negative, s) && IsStep(finite, negative, t)
    ensures s == t
  {
  }

  /** The nearest of the nearby entries with the largest magnitude. */
  method ChooseAway(nearby: seq<Entry>, t: real) returns (k: nat)
    requires |nearby| > 0
    ensures k < |nearby| && forall i :: 0 <= i < |nearby| ==> Abs(nearby[k].value - t) <= Abs(nearby[i].value - t)
    ensures forall i :: 0 <= i < |nearby| && Abs(nearby[i].value - t) == Abs(nearby[k].value - t) ==>
      Abs(nearby[i].value) <= Abs(nearby[k].value)
  {
    k := 0;
    for n := 1 to |nearby|
      invariant k < n && forall i :: 0 <= i < n ==> Abs(nearby[k].value - t) <= Abs(nearby[i].value - t)
      invariant forall i :: 0 <= i < n && Abs(nearby[i].value - t) == Abs(nearby[k].value - t) ==>
        Abs(nearby[i].value) <= Abs(nearby[k].value)
    {
      var d, e := Abs(nearby[n].value - t), Abs(nearby[k].value - t);
      if d < e || (d == e && Abs(nearby[n].value) > Abs(nearby[k].value)) {
        k := n;
      }
    }
  }

  /** The nearest of the nearby entries between zero and the target. */
  method ChooseTruncated(nearby: seq<Entry>, t: real) returns (k: Option<nat>)
    ensures k.None? ==> forall i :: 0 <= i < |nearby| ==> !TowardZero(nearby[i].value, t)
    ensures k.Some? ==> k.value < |nearby| && TowardZero(nearby[k.value].value, t)
    ensures k.Some? ==> forall i :: 0 <= i < |nearby| && TowardZero(nearby[i].value, t) ==>
      Abs(nearby[k.value].value - t) <= Abs(nearby[i].value - t)
  {
    k := None;
    for n := 0 to |nearby|
      invariant k.None? ==> forall i :: 0 <= i < n ==> !TowardZero(nearby[i].value, t)
      invariant k.Some? ==> k.value < n && TowardZero(nearby[k.value].value, t)
      invariant k.Some? ==> forall i :: 0 <= i < n && TowardZero(nearby[i].value, t) ==>
        Abs(nearby[k.value].value - t) <= Abs(nearby[i].value - t)
    {
      if (0.0 <= nearby[n].value <= t || t <= nearby[n].value <= 0.0)
         && (k.None? || Abs(nearby[n].value - t) < Abs(nearby[k.value].value - t)) {
        k := Some(n);
      }
    }
  }

  /** The three-entry window around the bisection point, of a target within the table. */
  ghost predicate IsWindow(finite: seq<Entry>, t: real, index: nat, low: nat, high: nat) {
    && index < |finite| && low <= index < high <= |finite|
    && low == (if index > 0 then index - 1 else 0) && high == (if index + 2 < |finite| then index + 2 else |finite|)
    && finite[0].value <= t
    && (forall i :: 0 <= i < index ==> finite[i].value < t)
    && forall i :: index <= i < |finite| ==> t <= finite[i].value
  }

  /** What is nearest in the window with the largest magnitude is so in the whole table. */
  lemma AwayInTable(finite: seq<Entry>, t: real, index: nat, low: nat, high: nat, n: nat)
    requires IsTable(finite) && IsWindow(finite, t, index, low, high) && low <= n < high
    requires forall i :: low <= i < high ==> Abs(finite[n].value - t) <= Abs(finite[i].value - t)
    requires forall i :: low <= i < high && Abs(finite[i].value - t) == Abs(finite[n].value - t) ==>
      Abs(finite[i].value) <= Abs(finite[n].value)
    ensures forall i :: 0 <= i < |finite| ==> Abs(finite[n].value - t) <= Abs(finite[i].value - t)
    ensures forall i :: 0 <= i < |finite| && Abs(finite[i].value - t) == Abs(finite[n].value - t) ==>
      Abs(finite[i].value) <= Abs(finite[n].value)
  {
    forall i | 0 <= i < |finite|
      ensures Abs(finite[n].value - t) <= Abs(finite[i].value - t)
      ensures Abs(finite[i].value - t) == Abs(finite[n].value - t) ==> Abs(finite[i].value) <= Abs(finite[n].value)
    {
      var w := if i < index then index - 1 else index;
      assert low <= w < high;
      assert i < index - 1 ==> finite[i].value <= finite[w].value;
      assert i > index ==> finite[w].value <= finite[i].value;
    }
  }

  /** What is nearest toward zero in the window is so in the whole table. */
  lemma TruncatedInTable(finite: seq<Entry>, t: real, index: nat, low: nat, high: nat, i: nat) returns (w: nat)
    requires IsTable(finite) && IsWindow(finite, t, index, low, high)
    requires i < |finite| && TowardZero(finite[i].value, t)
    ensures low <= w < high && TowardZero(finite[w].value, t) && Abs(finite[w].value - t) <= Abs(finite[i].value - t)
  {
    w := if i < index then index - 1 else index;
    assert i < index - 1 ==> finite[i].value <= finite[w].value;
    assert i > index ==> finite[w].value <= finite[i].value;
  }

  /** rne: an entry nearest in the window is nearest in the table. */
  method InsideNearest(finite: seq<Entry>, t: real, index: nat, low: nat, high: nat)
    returns (chosen: Entry, ghost n: nat)
    requires IsTable(finite) && IsWindow(finite, t, index, low, high)
    ensures n < |finite| && finite[n] == chosen && index - 1 <= n <= index + 1
    ensures forall i :: 0 <= i < |finite| && index - 1 <= i <= index + 1 ==> AtLeastAsGood(chosen, finite[i], t)
    ensures forall i :: 0 <= i < |finite| ==> Abs(chosen.value - t) <= Abs(finite[i].value - t)
  {
    hide IsTable, AtLeastAsGood;
    chosen := Choose(finite[low..high], t);
    n := WindowChoice(finite, low, high, chosen, t);
    WindowIsNearest(finite, t, index, chosen);
  }

  method InsideAway(finite: seq<Entry>, t: real, index: nat, low: nat, high: nat) returns (n: nat)
    requires IsTable(finite) && IsWindow(finite, t, index, low, high)
    ensures n < |finite| && forall i :: 0 <= i < |finite| ==> Abs(finite[n].value - t) <= Abs(finite[i].value - t)
    ensures forall i :: 0 <= i < |finite| && Abs(finite[i].value - t) == Abs(finite[n].value - t) ==>
      Abs(finite[i].value) <= Abs(finite[n].value)
  {
    hide IsTable, Abs;
    var nearby := finite[low..high];
    var k := ChooseAway(nearby, t);
    n := low + k;
    assert forall i :: low <= i < high ==> finite[i] == nearby[i - low];
    AwayInTable(finite, t, index, low, high, n);
  }

  method InsideTruncated(finite: seq<Entry>, t: real, index: nat, low: nat, high: nat) returns (n: Option<nat>)
    requires IsTable(finite) && IsWindow(finite, t, index, low, high)
    ensures n.None? <==> forall i :: 0 <= i < |finite| ==> !TowardZero(finite[i].value, t)
    ensures n.Some? ==> n.value < |finite| && TowardZero(finite[n.value].value, t)
    ensures n.Some? ==> forall i :: 0 <= i < |finite| && TowardZero(finite[i].value, t) ==>
      Abs(finite[n.value].value - t) <= Abs(finite[i].value - t)
  {
    hide IsTable, Abs, TowardZero;
    var nearby := finite[low..high];
    var k := ChooseTruncated(nearby, t);
    assert forall i :: low <= i < high ==> finite[i] == nearby[i - low];
    forall i: nat | i < |finite| && TowardZero(finite[i].value, t)
      ensures k.Some? && Abs(nearby[k.value].value - t) <= Abs(finite[i].value - t)
    {
      var w := TruncatedInTable(finite, t, index, low, high, i);
      assert finite[w] == nearby[w - low];
    }
    n := if k.None? then None else Some(low + k.value);
  }

  lemma ChosenAway(m: Manifest, t: real, n: nat)
    requires n < |m.finite| && !m.Beyond(t) && m.rounding.NearestAway?
    requires forall i :: 0 <= i < |m.finite| ==> Abs(m.finite[n].value - t) <= Abs(m.finite[i].value - t)
    requires forall i :: 0 <= i < |m.finite| && Abs(m.finite[i].value - t) == Abs(m.finite[n].value - t) ==>
      Abs(m.finite[i].value) <= Abs(m.finite[n].value)
    ensures Chosen(m, t, n)
  {
    hide Abs;
  }

  lemma ChosenEven(m: Manifest, t: real, n: nat)
    requires n < |m.finite| && !m.Beyond(t) && m.rounding.NearestEven?
    requires forall i :: 0 <= i < |m.finite| ==> Abs(m.finite[n].value - t) <= Abs(m.finite[i].value - t)
    ensures Chosen(m, t, n)
  {
    hide Abs;
  }

  lemma ChosenTruncated(m: Manifest, t: real, n: nat)
    requires n < |m.finite| && !m.Beyond(t) && m.rounding.Truncate? && TowardZero(m.finite[n].value, t)
    requires forall i :: 0 <= i < |m.finite| && TowardZero(m.finite[i].value, t) ==>
      Abs(m.finite[n].value - t) <= Abs(m.finite[i].value - t)
    ensures Chosen(m, t, n)
  {
    hide Abs, TowardZero;
  }

  /** Inside the table only truncation can fail. */
  lemma RefusedInside(m: Manifest, target: Stored)
    requires |m.finite| > 0 && target.IsReal() && !m.Beyond(target.Value())
    ensures Refused(m, target) <==>
      m.rounding.Truncate? && forall i :: 0 <= i < |m.finite| ==> !TowardZero(m.finite[i].value, target.Value())
  {
    hide TowardZero;
  }

  /** The nearest-even branch: where codes are unambiguous it is the search of the whole table. */
  method StoreEven(m: Manifest, target: Stored, index: nat, low: nat, high: nat) returns (code: nat, ghost n: nat)
    requires IsTable(m.finite) && target.IsReal() && !m.Beyond(target.Value()) && m.rounding.NearestEven?
    requires IsWindow(m.finite, target.Value(), index, low, high)
    ensures n < |m.finite| && Chosen(m, target.Value(), n) && code == CodeOf(m, m.finite[n], target)
    ensures Unambiguous(m.finite, m.signedZero) ==> code == Encode(Book(m.finite, m.signedZero, m.signBit), target)
  {
    hide IsTable, Abs, Chosen, Unambiguous, Encode, AtLeastAsGood;
    var chosen;
    chosen, n := InsideNearest(m.finite, target.Value(), index, low, high);
    ChosenEven(m, target.Value(), n);
    code := CodeOf(m, chosen, target);
    WindowStore(m.finite, target, m.signedZero, m.signBit, index, n, code);
  }

  method StoreAway(m: Manifest, target: Stored, index: nat, low: nat, high: nat) returns (code: nat, n: nat)
    requires IsTable(m.finite) && target.IsReal() && !m.Beyond(target.Value()) && m.rounding.NearestAway?
    requires IsWindow(m.finite, target.Value(), index, low, high)
    ensures n < |m.finite| && Chosen(m, target.Value(), n) && code == CodeOf(m, m.finite[n], target)
  {
    hide IsTable, IsWindow, Abs, Chosen;
    n := InsideAway(m.finite, target.Value(), index, low, high);
    ChosenAway(m, target.Value(), n);
    code := CodeOf(m, m.finite[n], target);
  }

  method StoreTruncated(m: Manifest, target: Stored, index: nat, low: nat, high: nat)
    returns (code: Result<nat>, ghost n: nat)
    requires IsTable(m.finite) && target.IsReal() && !m.Beyond(target.Value()) && m.rounding.Truncate?
    requires IsWindow(m.finite, target.Value(), index, low, high)
    ensures code.Failure? <==> Refused(m, target)
    ensures code.Success? ==>
      n < |m.finite| && Chosen(m, target.Value(), n) && code.value == CodeOf(m, m.finite[n], target)
  {
    RefusedInside(m, target);
    hide IsTable, IsWindow, Abs, TowardZero, Chosen, Refused;
    var k := InsideTruncated(m.finite, target.Value(), index, low, high);
    if k.None? {
      return Failure("no value between zero and the target"), 0;
    }
    n := k.value;
    ChosenTruncated(m, target.Value(), n);
    code := Success(CodeOf(m, m.finite[k.value], target));
  }

  /** encode of a real target within the table. */
  method StoreInside(m: Manifest, target: Stored) returns (code: Result<nat>, ghost n: nat)
    requires IsTable(m.finite) && target.IsReal() && !m.Beyond(target.Value())
    ensures code.Failure? <==> Refused(m, target)
    ensures code.Success? ==>
      n < |m.finite| && Chosen(m, target.Value(), n) && code.value == CodeOf(m, m.finite[n], target)
    ensures m.rounding.NearestEven? && Unambiguous(m.finite, m.signedZero) ==>
      code == Success(Encode(Book(m.finite, m.signedZero, m.signBit), target))
  {
    var finite, t := m.finite, target.Value();
    var index := BisectLeft(finite, t);
    assert index < |finite| && finite[0].value <= t;
    var low, high := if index > 0 then index - 1 else 0, if index + 2 < |finite| then index + 2 else |finite|;
    assert IsWindow(finite, t, index, low, high);
    RefusedInside(m, target);
    hide IsTable, IsWindow, TowardZero, Chosen, Refused, Unambiguous, Encode, CodeOf;
    match m.rounding {
      case NearestEven =>
        var stored;
        stored, n := StoreEven(m, target, index, low, high);
        code := Success(stored);
      case NearestAway =>
        var stored;
        stored, n := StoreAway(m, target, index, low, high);
        code := Success(stored);
      case Truncate =>
        code, n := StoreTruncated(m, target, index, low, high);
    }
  }

  /** NumberFormat.encode: the stated code for every target, and a failure exactly in the three stated cases. */
  method Store(m: Manifest, target: Stored) returns (code: Result<nat>)
    requires IsTable(m.finite)
    ensures code.Failure? <==> Refused(m, target)
    ensures code.Success? ==> Stores(m, target, code.value)
    ensures m.rounding.NearestEven? && !m.overflowToInfinity && Unambiguous(m.finite, m.signedZero) && target.IsReal()
      ==> code == Success(Encode(Book(m.finite, m.signedZero, m.signBit), target))
  {
    if target.NotANumber? {
      return if m.nan.Some? then Success(m.nan.value) else Failure("the format has no NaN encoding");
    }
    if target.Infinite? {
      return Success(m.Infinity(target.negative).GetOr(m.End(target.negative).code));
    }
    var t := target.Value();
    if !m.Beyond(t) {
      ghost var n;
      code, n := StoreInside(m, target);
      return;
    }
    var negative := t < m.finite[0].value;
    ghost var n := if negative then 0 else |m.finite| - 1;
    assert Chosen(m, t, n);
    if m.overflowToInfinity {
      var step := StepAtEnd(m.finite, negative);
      if step.None? {
        return Failure("the overflow step needs two values");
      }
      forall s | IsStep(m.finite, negative, s)
        ensures s == step.value
      {
        StepUnique(m.finite, negative, s, step.value);
      }
      var infinity := m.Infinity(negative);
      if Abs(t) >= Abs(m.End(negative).value) + m.Margin(step.value) && infinity.Some? {
        return Success(infinity.value);
      }
    }
    SaturatedStore(m.finite, target, m.signedZero, m.signBit, n);
    code := Success(m.End(negative).code);
  }
}
