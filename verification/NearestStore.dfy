/**
 The store of a number format as it is computed: saturation, binary search for
 the target, and a choice among the three entries around it.
 */
module NearestStore {
  import opened ExactArithmetic
  import opened FloatAccumulator
  import opened Codebook

  /** Finite codes sorted by value, then by code. */
  ghost predicate IsTable(finite: seq<Entry>) {
    |finite| > 0
    && (forall i, j :: 0 <= i < j < |finite| ==>
          finite[i].value < finite[j].value || (finite[i].value == finite[j].value && finite[i].code < finite[j].code))
    && (forall i, j :: 0 <= i < j < |finite| ==> finite[i].code != finite[j].code)
  }

  /** bisect_left */
  method BisectLeft(finite: seq<Entry>, target: real) returns (index: nat)
    requires IsTable(finite)
    ensures index <= |finite|
    ensures forall i :: 0 <= i < index ==> finite[i].value < target
    ensures forall i :: index <= i < |finite| ==> target <= finite[i].value
  {
    var low, high := 0, |finite|;
    while low < high
      invariant 0 <= low <= high <= |finite|
      invariant forall i :: 0 <= i < low ==> finite[i].value < target
      invariant forall i :: high <= i < |finite| ==> target <= finite[i].value
    {
      var middle := (low + high) / 2;
      if finite[middle].value < target {
        low := middle + 1;
      } else {
        high := middle;
      }
    }
    index := low;
  }

  /** The best of the nearby entries: nearest, then an even code, then the smaller code. */
  method Choose(nearby: seq<Entry>, target: real) returns (chosen: Entry)
    requires |nearby| > 0
    ensures chosen in nearby && forall e :: e in nearby ==> AtLeastAsGood(chosen, e, target)
  {
    hide AtLeastAsGood;
    chosen := nearby[0];
    AsGoodAsItself(chosen, target);
    for n := 1 to |nearby|
      invariant chosen in nearby && forall i :: 0 <= i < n ==> AtLeastAsGood(chosen, nearby[i], target)
    {
      BetterIsTransitive(nearby, n, chosen, target);
      if !AtLeastAsGood(chosen, nearby[n], target) {
        chosen := nearby[n];
      }
    }
  }

  lemma AsGoodAsItself(e: Entry, target: real)
    ensures AtLeastAsGood(e, e, target)
  {
  }

  lemma BetterIsTransitive(nearby: seq<Entry>, n: nat, chosen: Entry, target: real)
    requires n < |nearby| && forall i :: 0 <= i < n ==> AtLeastAsGood(chosen, nearby[i], target)
    ensures AtLeastAsGood(nearby[n], nearby[n], target)
    ensures !AtLeastAsGood(chosen, nearby[n], target) ==>
      forall i :: 0 <= i < n ==> AtLeastAsGood(nearby[n], nearby[i], target)
  {
  }

  /** Nonzero values have one code; the codes of a zero are even and the code above it is odd. */
  ghost predicate Unambiguous(finite: seq<Entry>, signedZero: bool)
    requires |finite| > 0
  {
    && (forall i, j :: 0 <= i < j < |finite| && finite[i].value == finite[j].value ==>
          signedZero && finite[i].value == 0.0)
    && (signedZero ==>
          && finite[0].value < 0.0 < finite[|finite| - 1].value
          && (forall i :: 0 <= i < |finite| && finite[i].value == 0.0 ==> finite[i].code % 2 == 0)
          && forall i :: 0 <= i < |finite| - 1 && finite[i].value == 0.0 < finite[i + 1].value ==>
               finite[i + 1].code % 2 == 1)
  }

  /** Some entry of the window is at least as near as any entry of the table. */
  lemma WindowIsNearest(finite: seq<Entry>, target: real, index: nat, chosen: Entry)
    requires IsTable(finite) && index < |finite| && finite[0].value <= target
    requires forall i :: 0 <= i < index ==> finite[i].value < target
    requires forall i :: index <= i < |finite| ==> target <= finite[i].value
    requires AtLeastAsGood(chosen, finite[index], target)
    requires index > 0 ==> AtLeastAsGood(chosen, finite[index - 1], target)
    ensures forall i :: 0 <= i < |finite| ==> Abs(chosen.value - target) <= Abs(finite[i].value - target)
  {
  }

  /** The window's choice has the value of the best entry of the whole table. */
  lemma WindowIsBest(finite: seq<Entry>, target: real, index: nat, chosen: Entry, c: nat, e: nat, signedZero: bool)
    requires IsTable(finite) && Unambiguous(finite, signedZero) && index < |finite| && finite[0].value <= target
    requires forall i :: 0 <= i < index ==> finite[i].value < target
    requires forall i :: index <= i < |finite| ==> target <= finite[i].value
    requires index - 1 <= c <= index + 1 && c < |finite| && chosen == finite[c] && e < |finite|
    requires forall i :: 0 <= i < |finite| && index - 1 <= i <= index + 1 ==> AtLeastAsGood(chosen, finite[i], target)
    requires forall i :: 0 <= i < |finite| ==> AtLeastAsGood(finite[e], finite[i], target)
    ensures chosen.value == finite[e].value
  {
    WindowIsNearest(finite, target, index, chosen);
    var best := finite[e];
    assert AtLeastAsGood(best, chosen, target);
    if chosen.value != best.value {
      assert AtLeastAsGood(chosen, finite[index], target);
      if e < index {
        assert AtLeastAsGood(chosen, finite[index - 1], target);
        BelowWindow(finite, target, index, c, e, signedZero);
      } else {
        AboveWindow(finite, target, index, c, e, signedZero);
      }
    }
  }

  /** A best entry below the window is a zero whose tie with an odd code is already decided. */
  lemma BelowWindow(finite: seq<Entry>, target: real, index: nat, c: nat, e: nat, signedZero: bool)
    requires IsTable(finite) && Unambiguous(finite, signedZero) && 0 < index < |finite| && e < index && c < |finite|
    requires forall i :: 0 <= i < index ==> finite[i].value < target
    requires forall i :: index <= i < |finite| ==> target <= finite[i].value
    requires index - 1 <= c <= index + 1
    requires AtLeastAsGood(finite[c], finite[index], target) && AtLeastAsGood(finite[c], finite[index - 1], target)
    requires index + 1 < |finite| ==> AtLeastAsGood(finite[c], finite[index + 1], target)
    requires AtLeastAsGood(finite[e], finite[c], target) && AtLeastAsGood(finite[e], finite[index - 1], target)
    requires Abs(finite[c].value - target) <= Abs(finite[e].value - target)
    ensures finite[c].value == finite[e].value
  {
    if e < index - 1 {
      assert finite[e].value == finite[index - 1].value;
    }
  }

  /** A best entry above the window repeats the zero at its edge, which has the smaller code. */
  lemma AboveWindow(finite: seq<Entry>, target: real, index: nat, c: nat, e: nat, signedZero: bool)
    requires IsTable(finite) && Unambiguous(finite, signedZero) && index <= e < |finite| && c < |finite|
    requires forall i :: 0 <= i < index ==> finite[i].value < target
    requires forall i :: index <= i < |finite| ==> target <= finite[i].value
    requires index - 1 <= c <= index + 1
    requires AtLeastAsGood(finite[c], finite[index], target)
    requires AtLeastAsGood(finite[e], finite[c], target)
    requires Abs(finite[c].value - target) <= Abs(finite[e].value - target)
    ensures finite[c].value == finite[e].value
  {
  }

  /** The nearest entries share one value, or the code is that of a signed zero. */
  ghost predicate StoresNearest(finite: seq<Entry>, target: Stored, signedZero: bool, signBit: nat, code: nat)
    requires target.IsReal()
  {
    exists n :: 0 <= n < |finite|
      && (forall i :: 0 <= i < |finite| ==>
            Abs(finite[n].value - target.Value()) <= Abs(finite[i].value - target.Value()))
      && (code == finite[n].code || (finite[n].value == 0.0 && signedZero && (code == 0 || code == signBit)))
  }

  /**
   encode for a finite target and the nearest-even rule with saturation. It
   always stores a nearest value, and on tables without ambiguous codes it is
   the search over the whole table.
   */
  method Store(finite: seq<Entry>, target: Stored, signedZero: bool, signBit: nat) returns (code: nat)
    requires IsTable(finite) && target.IsReal()
    ensures StoresNearest(finite, target, signedZero, signBit, code)
    ensures Unambiguous(finite, signedZero) ==> code == Encode(Book(finite, signedZero, signBit), target)
  {
    var t := target.Value();
    hide StoresNearest, Unambiguous, IsTable, Encode, AtLeastAsGood;
    if t < finite[0].value {
      SaturatedStore(finite, target, signedZero, signBit, 0);
      return finite[0].code;
    }
    if t > finite[|finite| - 1].value {
      SaturatedStore(finite, target, signedZero, signBit, |finite| - 1);
      return finite[|finite| - 1].code;
    }
    var index := BisectLeft(finite, t);
    var low, high := if index > 0 then index - 1 else 0, if index + 2 < |finite| then index + 2 else |finite|;
    var chosen := Choose(finite[low..high], t);
    code := if chosen.value == 0.0 && signedZero then (if target.NegativeZero? || t < 0.0 then signBit else 0)
            else chosen.code;
    ghost var c := WindowChoice(finite, low, high, chosen, t);
    WindowStore(finite, target, signedZero, signBit, index, c, code);
  }

  /** The code of the window's choice. */
  lemma WindowStore(finite: seq<Entry>, target: Stored, signedZero: bool, signBit: nat, index: nat, c: nat, code: nat)
    requires IsTable(finite) && target.IsReal() && index < |finite| && finite[0].value <= target.Value()
    requires forall i :: 0 <= i < index ==> finite[i].value < target.Value()
    requires forall i :: index <= i < |finite| ==> target.Value() <= finite[i].value
    requires index - 1 <= c <= index + 1 && c < |finite|
    requires forall i :: 0 <= i < |finite| && index - 1 <= i <= index + 1 ==>
      AtLeastAsGood(finite[c], finite[i], target.Value())
    requires code == if finite[c].value == 0.0 && signedZero
                     then (if target.NegativeZero? || target.Value() < 0.0 then signBit else 0) else finite[c].code
    ensures StoresNearest(finite, target, signedZero, signBit, code)
    ensures Unambiguous(finite, signedZero) ==> code == Encode(Book(finite, signedZero, signBit), target)
  {
    hide Best, AtLeastAsGood, Unambiguous, IsTable, Abs;
    WindowIsNearest(finite, target.Value(), index, finite[c]);
    NearestEntry(finite, target, signedZero, signBit, c, code);
    hide StoresNearest, Encode;
    if Unambiguous(finite, signedZero) {
      var e := BestIndex(finite, target.Value());
      WindowIsBest(finite, target.Value(), index, finite[c], c, e, signedZero);
      SameEntry(finite, signedZero, c, e);
      CodeOfBest(finite, target, signedZero, signBit, c, e, code);
    }
  }

  lemma NearestEntry(finite: seq<Entry>, target: Stored, signedZero: bool, signBit: nat, n: nat, code: nat)
    requires target.IsReal() && n < |finite|
    requires forall i :: 0 <= i < |finite| ==>
      Abs(finite[n].value - target.Value()) <= Abs(finite[i].value - target.Value())
    requires code == finite[n].code || (finite[n].value == 0.0 && signedZero && (code == 0 || code == signBit))
    ensures StoresNearest(finite, target, signedZero, signBit, code)
  {
    hide Abs;
  }

  lemma CodeOfBest(finite: seq<Entry>, target: Stored, signedZero: bool, signBit: nat, c: nat, e: nat, code: nat)
    requires target.IsReal() && c < |finite| && e < |finite| && finite[e] == Best(finite, target.Value())
    requires finite[c].value == finite[e].value && (c == e || (signedZero && finite[c].value == 0.0))
    requires code == if finite[c].value == 0.0 && signedZero
                     then (if target.NegativeZero? || target.Value() < 0.0 then signBit else 0) else finite[c].code
    ensures code == Encode(Book(finite, signedZero, signBit), target)
  {
    hide Best;
  }

  lemma SameEntry(finite: seq<Entry>, signedZero: bool, c: nat, e: nat)
    requires |finite| > 0 && Unambiguous(finite, signedZero) && c < |finite| && e < |finite|
    requires finite[c].value == finite[e].value
    ensures c == e || (signedZero && finite[c].value == 0.0)
  {
  }

  /** The code of a saturated target. */
  lemma SaturatedStore(finite: seq<Entry>, target: Stored, signedZero: bool, signBit: nat, end: nat)
    requires IsTable(finite) && target.IsReal() && end < |finite|
    requires (end == 0 && target.Value() < finite[0].value)
      || (end == |finite| - 1 && target.Value() > finite[end].value)
    ensures StoresNearest(finite, target, signedZero, signBit, finite[end].code)
    ensures Unambiguous(finite, signedZero) ==> finite[end].code == Encode(Book(finite, signedZero, signBit), target)
  {
    hide Best, AtLeastAsGood, IsTable, Unambiguous, Abs;
    var e := BestIndex(finite, target.Value());
    SaturatedBest(finite, target.Value(), end, e, signedZero);
    NearestEntry(finite, target, signedZero, signBit, end, finite[end].code);
    hide StoresNearest;
  }

  lemma WindowChoice(finite: seq<Entry>, low: nat, high: nat, chosen: Entry, t: real) returns (c: nat)
    requires low <= high <= |finite| && chosen in finite[low..high]
    requires forall e :: e in finite[low..high] ==> AtLeastAsGood(chosen, e, t)
    ensures low <= c < high && finite[c] == chosen
    ensures forall i :: low <= i < high ==> AtLeastAsGood(chosen, finite[i], t)
  {
    var k :| 0 <= k < high - low && finite[low..high][k] == chosen;
    c := low + k;
    forall i | low <= i < high
      ensures AtLeastAsGood(chosen, finite[i], t)
    {
      assert finite[low..high][i - low] == finite[i];
    }
  }

  lemma BestIndex(finite: seq<Entry>, t: real) returns (e: nat)
    requires |finite| > 0
    ensures e < |finite| && finite[e] == Best(finite, t)
    ensures forall i :: 0 <= i < |finite| ==> AtLeastAsGood(finite[e], finite[i], t)
  {
    BestIsBest(finite, t);
    e :| 0 <= e < |finite| && finite[e] == Best(finite, t);
  }

  /** Beyond an end of the table the end is strictly nearest. */
  lemma SaturatedBest(finite: seq<Entry>, t: real, end: nat, e: nat, signedZero: bool)
    requires IsTable(finite) && e < |finite| && end < |finite|
    requires (end == 0 && t < finite[0].value) || (end == |finite| - 1 && t > finite[end].value)
    requires forall i :: 0 <= i < |finite| ==> AtLeastAsGood(finite[e], finite[i], t)
    ensures forall i :: 0 <= i < |finite| ==> Abs(finite[end].value - t) <= Abs(finite[i].value - t)
    ensures finite[e].value == finite[end].value
    ensures Unambiguous(finite, signedZero) ==> e == end && !(signedZero && finite[end].value == 0.0)
  {
    assert AtLeastAsGood(finite[e], finite[end], t);
  }
}
