/**
 A storage format as the acceptance proofs see it: a finite table of values and
 codes, stored to by nearest value with saturation. The thresholds are the
 midpoints of neighbouring values, and zero when the code of a zero carries the
 sign of the stored number.
 */
module Codebook {
  import opened ExactArithmetic
  import opened FloatAccumulator

  datatype Entry = Entry(value: real, code: nat)

  datatype Book = Book(entries: seq<Entry>, signedZero: bool, signBit: nat)

  /** The sort key of the nearest-value search: distance, then even codes, then the smaller code. */
  predicate AtLeastAsGood(a: Entry, b: Entry, target: real) {
    var x, y := Abs(a.value - target), Abs(b.value - target);
    x < y || (x == y && (a.code % 2 < b.code % 2 || (a.code % 2 == b.code % 2 && a.code <= b.code)))
  }

  function Best(entries: seq<Entry>, target: real): Entry
    requires |entries| > 0
  {
    if |entries| == 1 then entries[0]
    else
      var rest := Best(entries[1..], target);
      if AtLeastAsGood(entries[0], rest, target) then entries[0] else rest
  }

  lemma {:induction false} BestIsBest(entries: seq<Entry>, target: real)
    requires |entries| > 0
    ensures Best(entries, target) in entries
    ensures forall e :: e in entries ==> AtLeastAsGood(Best(entries, target), e, target)
  {
    if |entries| > 1 {
      BestIsBest(entries[1..], target);
      assert entries == [entries[0]] + entries[1..];
    }
  }

  /** Between two equally near entries an even code is stored, and the smaller of two of one parity. */
  lemma TiesToEven(entries: seq<Entry>, target: real, e: Entry)
    requires e in entries && Abs(Best(entries, target).value - target) == Abs(e.value - target)
    ensures e.code % 2 == 0 ==> Best(entries, target).code % 2 == 0
    ensures e.code % 2 == Best(entries, target).code % 2 ==> Best(entries, target).code <= e.code
  {
    BestIsBest(entries, target);
  }

  /** NumberFormat.encode for a finite target; a zero result takes the sign of the target. */
  function Encode(book: Book, target: Stored): nat
    requires |book.entries| > 0 && target.IsReal()
  {
    var best := Best(book.entries, target.Value());
    if best.value == 0.0 && book.signedZero then
      (if target.NegativeZero? || target.Value() < 0.0 then book.signBit else 0)
    else best.code
  }

  /** Where zeros are signed a stored zero takes the sign of the target; otherwise the nearest code is stored. */
  lemma StoredCode(book: Book, target: Stored)
    requires |book.entries| > 0 && target.IsReal()
    ensures var negative := target.NegativeZero? || (target.Finite? && target.value < 0.0);
            var code, e := Encode(book, target), Best(book.entries, target.Value());
      && e in book.entries
      && (book.signedZero && e.value == 0.0 && negative ==> code == book.signBit)
      && (book.signedZero && e.value == 0.0 && !negative ==> code == 0)
      && (!book.signedZero || e.value != 0.0 ==> code == e.code)
  {
    BestIsBest(book.entries, target.Value());
  }

  /** Two codes of one value: the choice between them does not depend on the target. */
  lemma SameValueSameCode(entries: seq<Entry>, s: real, t: real)
    requires |entries| > 0
    requires Best(entries, s).value == Best(entries, t).value
    ensures Best(entries, s).code == Best(entries, t).code
  {
    BestIsBest(entries, s);
    BestIsBest(entries, t);
    assert AtLeastAsGood(Best(entries, s), Best(entries, t), s);
    assert AtLeastAsGood(Best(entries, t), Best(entries, s), t);
  }

  // ----- sorted(set(values)) and its midpoints -----

  ghost predicate StrictlyIncreasing(s: seq<real>) {
    forall i, j :: 0 <= i < j < |s| ==> s[i] < s[j]
  }

  function Insert(x: real, s: seq<real>): (r: seq<real>)
    requires StrictlyIncreasing(s)
    ensures StrictlyIncreasing(r)
    ensures forall y :: y in r <==> y == x || y in s
  {
    if |s| == 0 || x < s[0] then [x] + s
    else if x == s[0] then s
    else
      assert s == [s[0]] + s[1..];
      assert forall k :: 0 <= k < |s[1..]| ==> s[0] < s[1..][k];
      assert forall y :: y in s[1..] ==> s[0] < y;
      var rest := Insert(x, s[1..]);
      assert forall y :: y in rest ==> s[0] < y;
      assert forall k :: 0 <= k < |rest| ==> rest[k] in rest;
      [s[0]] + rest
  }

  function SortedSet(values: seq<real>): (r: seq<real>)
    ensures StrictlyIncreasing(r)
    ensures forall y :: y in r <==> y in values
  {
    if |values| == 0 then []
    else
      assert values == [values[0]] + values[1..];
      Insert(values[0], SortedSet(values[1..]))
  }

  function Values(entries: seq<Entry>): (r: seq<real>)
    ensures |r| == |entries|
    ensures forall i :: 0 <= i < |r| ==> r[i] == entries[i].value
  {
    seq(|entries|, i requires 0 <= i < |entries| => entries[i].value)
  }

  function Midpoints(ordered: seq<real>): (r: seq<real>)
    requires |ordered| > 0
    ensures |r| == |ordered| - 1
    ensures forall i :: 0 <= i < |r| ==> r[i] == (ordered[i] + ordered[i + 1]) / 2.0
  {
    seq(|ordered| - 1, i requires 0 <= i < |ordered| - 1 => (ordered[i] + ordered[i + 1]) / 2.0)
  }

  /** The thresholds the proofs test; zero joins them when the sign of zero is stored. */
  function Thresholds(book: Book): seq<real>
    requires |book.entries| > 0
  {
    var ordered := SortedSet(Values(book.entries));
    assert Values(book.entries)[0] in ordered;
    SortedSet(Midpoints(ordered) + if book.signedZero then [0.0] else [])
  }

  lemma ThresholdsComplete(book: Book, i: nat)
    requires |book.entries| > 0
    requires i + 1 < |SortedSet(Values(book.entries))|
    ensures var ordered := SortedSet(Values(book.entries)); (ordered[i] + ordered[i + 1]) / 2.0 in Thresholds(book)
  {
    hide SortedSet, Values;
    var ordered := SortedSet(Values(book.entries));
    assert Midpoints(ordered)[i] in Midpoints(ordered);
    hide Midpoints;
  }

  ghost predicate Separates(ts: seq<real>, s: real, t: real) {
    exists x :: x in ts && (s <= x <= t || t <= x <= s)
  }

  /** A store is constant wherever no threshold lies between the targets (ends included). */
  lemma StoreConstant(book: Book, s: Stored, t: Stored)
    requires |book.entries| > 0 && s.IsReal() && t.IsReal()
    requires !Separates(Thresholds(book), s.Value(), t.Value())
    ensures Encode(book, s) == Encode(book, t)
  {
    if s.Value() <= t.Value() {
      StoreConstantOrdered(book, s, t);
    } else {
      StoreConstantOrdered(book, t, s);
    }
  }

  lemma StoreConstantOrdered(book: Book, s: Stored, t: Stored)
    requires |book.entries| > 0 && s.IsReal() && t.IsReal() && s.Value() <= t.Value()
    requires !Separates(Thresholds(book), s.Value(), t.Value())
    ensures Encode(book, s) == Encode(book, t)
  {
    SameNearest(book, s.Value(), t.Value());
    SameValueSameCode(book.entries, s.Value(), t.Value());
    if book.signedZero {
      var ordered := SortedSet(Values(book.entries));
      assert 0.0 in Midpoints(ordered) + [0.0];
      assert 0.0 in Thresholds(book);
    }
  }

  lemma BestBeats(entries: seq<Entry>, target: real, e: Entry)
    requires e in entries
    ensures Best(entries, target) in entries
    ensures AtLeastAsGood(Best(entries, target), e, target)
  {
    BestIsBest(entries, target);
  }

  lemma SameNearest(book: Book, s: real, t: real)
    requires |book.entries| > 0 && s <= t
    requires !Separates(Thresholds(book), s, t)
    ensures Best(book.entries, s).value == Best(book.entries, t).value
  {
    hide Thresholds, Separates;
    var a, b := Best(book.entries, s), Best(book.entries, t);
    if s < t && a.value != b.value {
      DifferentNearest(book, s, t);
    }
  }

  /** If the nearest values differ, the first midpoint above the lower one separates the targets. */
  lemma DifferentNearest(book: Book, s: real, t: real)
    requires |book.entries| > 0 && s < t
    requires Best(book.entries, s).value != Best(book.entries, t).value
    ensures Separates(Thresholds(book), s, t)
  {
    hide Best, Thresholds, AtLeastAsGood;
    var a, b := Best(book.entries, s), Best(book.entries, t);
    BestBeats(book.entries, s, book.entries[0]);
    BestBeats(book.entries, t, book.entries[0]);
    BestBeats(book.entries, s, b);
    BestBeats(book.entries, t, a);
    NearestOrdered(a, b, s, t);
    var next, k := Successor(book, a, b);
    BestBeats(book.entries, s, book.entries[k]);
    NoFarther(a, book.entries[k], s);
    NoFarther(b, a, t);
    MidpointBetween(a.value, next, b.value, s, t);
  }

  lemma NoFarther(a: Entry, b: Entry, target: real)
    requires AtLeastAsGood(a, b, target)
    ensures Abs(a.value - target) <= Abs(b.value - target)
  {
  }

  lemma NearestOrdered(a: Entry, b: Entry, s: real, t: real)
    requires s < t && AtLeastAsGood(a, b, s) && AtLeastAsGood(b, a, t) && a.value != b.value
    ensures a.value < b.value
  {
  }

  lemma MidpointBetween(a: real, next: real, b: real, s: real, t: real)
    requires a < next <= b && s < t
    requires Abs(a - s) <= Abs(next - s) && Abs(b - t) <= Abs(a - t)
    ensures s <= (a + next) / 2.0 <= t
  {
  }

  /** The value after a in the table, its entry, and their midpoint among the thresholds. */
  lemma Successor(book: Book, a: Entry, b: Entry) returns (next: real, k: nat)
    requires a in book.entries && b in book.entries && a.value < b.value
    ensures k < |book.entries| && book.entries[k].value == next
    ensures a.value < next <= b.value
    ensures (a.value + next) / 2.0 in Thresholds(book)
  {
    hide SortedSet, Values, Thresholds, Midpoints;
    var ordered := SortedSet(Values(book.entries));
    ValueListed(book.entries, a);
    ValueListed(book.entries, b);
    var i := NextInOrder(ordered, a.value, b.value);
    next := ordered[i + 1];
    k := EntryListed(book.entries, next);
    ThresholdsComplete(book, i);
  }

  lemma NextInOrder(ordered: seq<real>, x: real, y: real) returns (i: nat)
    requires StrictlyIncreasing(ordered) && x in ordered && y in ordered && x < y
    ensures i + 1 < |ordered| && ordered[i] == x
    ensures x < ordered[i + 1] <= y
  {
    i :| 0 <= i < |ordered| && ordered[i] == x;
    var j :| 0 <= j < |ordered| && ordered[j] == y;
    assert i < j;
    assert ordered[i] < ordered[i + 1];
    assert i + 1 < j ==> ordered[i + 1] < ordered[j];
  }

  lemma EntryListed(entries: seq<Entry>, v: real) returns (k: nat)
    requires v in SortedSet(Values(entries))
    ensures k < |entries| && entries[k].value == v
  {
    assert v in Values(entries);
    k :| 0 <= k < |entries| && Values(entries)[k] == v;
  }

  lemma ValueListed(entries: seq<Entry>, e: Entry)
    requires e in entries
    ensures e.value in SortedSet(Values(entries))
  {
    var i :| 0 <= i < |entries| && entries[i] == e;
    assert Values(entries)[i] == e.value;
  }

  // ----- no threshold is superfluous -----

  /** Between neighbouring values the nearest value changes at their midpoint. */
  lemma NearestBetween(book: Book, i: nat, s: real)
    requires |book.entries| > 0 && i + 1 < |SortedSet(Values(book.entries))|
    requires var ordered := SortedSet(Values(book.entries)); ordered[i] <= s <= ordered[i + 1]
    ensures var ordered := SortedSet(Values(book.entries)); var middle := (ordered[i] + ordered[i + 1]) / 2.0;
      && (s < middle ==> Best(book.entries, s).value == ordered[i])
      && (s > middle ==> Best(book.entries, s).value == ordered[i + 1])
  {
    hide SortedSet, Values, Best, AtLeastAsGood;
    var ordered := SortedSet(Values(book.entries));
    var a := EntryListed(book.entries, ordered[i]);
    var b := EntryListed(book.entries, ordered[i + 1]);
    BestBeats(book.entries, s, book.entries[a]);
    BestBeats(book.entries, s, book.entries[b]);
    NoFarther(Best(book.entries, s), book.entries[a], s);
    NoFarther(Best(book.entries, s), book.entries[b], s);
    ValueListed(book.entries, Best(book.entries, s));
    NotBetween(ordered, i, Best(book.entries, s).value);
  }

  lemma NotBetween(ordered: seq<real>, i: nat, v: real)
    requires StrictlyIncreasing(ordered) && i + 1 < |ordered| && v in ordered
    ensures ordered[i] < ordered[i + 1] && (v <= ordered[i] || ordered[i + 1] <= v)
  {
    var k :| 0 <= k < |ordered| && ordered[k] == v;
    assert k < i ==> ordered[k] < ordered[i];
    assert k > i + 1 ==> ordered[i + 1] < ordered[k];
  }

  /** As near to a threshold as one likes the nearest value changes, unless it is the zero of a signed zero. */
  lemma ThresholdSeparates(book: Book, x: real, e: real)
    requires |book.entries| > 0 && x in Thresholds(book) && e > 0.0
    ensures
      || (book.signedZero && x == 0.0)
      || exists s, t ::
           x - e <= s < x < t <= x + e && Best(book.entries, s).value < Best(book.entries, t).value
  {
    if !(book.signedZero && x == 0.0) {
      var i := ThresholdMidpoint(book, x);
      hide SortedSet, Values, Best, Thresholds;
      var ordered := SortedSet(Values(book.entries));
      NotBetween(ordered, i, ordered[i]);
      var gap := (ordered[i + 1] - ordered[i]) / 2.0;
      var d := if e < gap then e else gap;
      NearestBetween(book, i, x - d);
      NearestBetween(book, i, x + d);
      assert x - e <= x - d < x < x + d <= x + e;
    }
  }

  lemma ThresholdMidpoint(book: Book, x: real) returns (i: nat)
    requires |book.entries| > 0 && x in Thresholds(book) && !(book.signedZero && x == 0.0)
    ensures var ordered := SortedSet(Values(book.entries));
      i + 1 < |ordered| && x == (ordered[i] + ordered[i + 1]) / 2.0
  {
    hide SortedSet, Values, Midpoints;
    var ordered := SortedSet(Values(book.entries));
    assert Values(book.entries)[0] in ordered;
    assert x in Midpoints(ordered) + if book.signedZero then [0.0] else [];
    hide Thresholds;
    i :| 0 <= i < |Midpoints(ordered)| && Midpoints(ordered)[i] == x;
  }
}
