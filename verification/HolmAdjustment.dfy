/**
 Holm's adjusted p-values in binary64: a running maximum in sorted order, against
 the step-down procedure, and independent of how equal values are ordered.
 */
module HolmAdjustment {
  import opened ExactArithmetic
  import opened FloatAccumulator

  /** sorted(range(n), key=values): a permutation in nondecreasing order, ties in any order. */
  ghost predicate IsOrder(values: seq<real>, order: seq<nat>) {
    && |order| == |values|
    && (forall r :: 0 <= r < |order| ==> order[r] < |values|)
    && (forall r, s :: 0 <= r < s < |order| ==> order[r] != order[s] && values[order[r]] <= values[order[s]])
    && (forall i: nat :: i < |values| ==> i in order)
  }

  /** Rank r comes before rank s: a smaller value, or an equal one of an earlier index. */
  predicate ComesBefore(values: seq<real>, i: nat, j: nat)
    requires i < |values| && j < |values|
  {
    values[i] < values[j] || (values[i] == values[j] && i < j)
  }

  /** The first n indices, sorted, ties in index order. */
  ghost predicate SortsFirst(values: seq<real>, order: seq<nat>, n: nat)
    requires n <= |values|
  {
    && |order| == n
    && (forall r :: 0 <= r < n ==> order[r] < n)
    && (forall r, s :: 0 <= r < s < n ==> ComesBefore(values, order[r], order[s]))
    && (forall i: nat :: i < n ==> i in order)
  }

  /** Inserting the next index after every value not above its own keeps the order. */
  lemma InsertedOrder(values: seq<real>, order: seq<nat>, n: nat, p: nat)
    requires n < |values| && SortsFirst(values, order, n) && p <= n
    requires forall r :: 0 <= r < p ==> values[order[r]] <= values[n]
    requires forall r :: p <= r < n ==> values[n] < values[order[r]]
    ensures SortsFirst(values, order[..p] + [n] + order[p..], n + 1)
  {
    var next := order[..p] + [n] + order[p..];
    InsertedMembers(order, n, p);
    forall r, s | 0 <= r < s < n + 1
      ensures ComesBefore(values, next[r], next[s])
    {
      assert s < p ==> ComesBefore(values, order[r], order[s]);
      assert r < p < s ==> ComesBefore(values, order[r], order[s - 1]);
      assert p < r ==> ComesBefore(values, order[r - 1], order[s - 1]);
    }
  }

  lemma InsertedMembers(order: seq<nat>, n: nat, p: nat)
    requires |order| == n && p <= n && forall i: nat :: i < n ==> i in order
    ensures forall i: nat :: i < n + 1 ==> i in order[..p] + [n] + order[p..]
  {
    var next := order[..p] + [n] + order[p..];
    assert next[p] == n;
    forall i: nat | i < n
      ensures i in next
    {
      assert i in order;
      var r :| 0 <= r < n && order[r] == i;
      assert next[if r < p then r else r + 1] == i;
    }
  }

  /** sorted(range(len(values)), key=values), stable. */
  method Sorted(values: seq<real>) returns (order: seq<nat>)
    ensures IsOrder(values, order) && SortsFirst(values, order, |values|)
  {
    order := [];
    for n := 0 to |values|
      invariant SortsFirst(values, order, n)
    {
      var p := n;
      while p > 0 && values[order[p - 1]] > values[n]
        invariant 0 <= p <= n && forall r :: p <= r < n ==> values[n] < values[order[r]]
      {
        p := p - 1;
      }
      InsertedOrder(values, order, n, p);
      order := order[..p] + [n] + order[p..];
    }
  }

  /** A binary64 number. */
  predicate IsDouble(v: real) { Rounded(BINARY64, v) == Finite(v) }

  /** (n - rank) * p, rounded once to binary64. */
  function Times(n: nat, rank: nat, p: real): Stored { Rounded(BINARY64, Site(n - rank, p)) }

  /** min(1, x): an infinite product is cut to one as well. */
  function Clipped(x: Stored): real {
    if x.IsReal() then Min(1.0, x.Value()) else 1.0
  }

  /** min(1, (n - rank) * p) */
  function Scaled(n: nat, rank: nat, p: real): real { Clipped(Times(n, rank, p)) }

  predicate AtMost(x: Stored, alpha: real) { x.IsReal() && x.Value() <= alpha }

  /** The running maximum after the given rank. */
  function Running(values: seq<real>, order: seq<nat>, rank: nat): (m: real)
    requires IsOrder(values, order) && rank < |order|
  {
    var here := Scaled(|values|, rank, values[order[rank]]);
    Max(if rank == 0 then 0.0 else Running(values, order, rank - 1), here)
  }

  /** The running maximum before the given rank. */
  ghost function Before(values: seq<real>, order: seq<nat>, rank: nat): real
    requires IsOrder(values, order) && rank <= |order|
  {
    if rank == 0 then 0.0 else Running(values, order, rank - 1)
  }

  /** The cells of the first n ranks are filled. */
  ghost predicate Filled(values: seq<real>, order: seq<nat>, cells: seq<real>, n: nat)
    requires IsOrder(values, order) && |cells| == |values| && n <= |order|
  {
    forall r :: 0 <= r < n ==> cells[order[r]] == Running(values, order, r)
  }

  lemma FilledStep(values: seq<real>, order: seq<nat>, cells: seq<real>, n: nat, next: real)
    requires IsOrder(values, order) && |cells| == |values| && n < |order|
    requires Filled(values, order, cells, n)
    requires next == Max(Before(values, order, n), Scaled(|values|, n, values[order[n]]))
    ensures next == Before(values, order, n + 1)
    ensures Filled(values, order, cells[order[n] := next], n + 1)
  {
    assert next == Running(values, order, n);
    hide Running, Max, Scaled;
  }

  /** holm: the result of every index, filled in sorted order. */
  method Holm(values: seq<real>, order: seq<nat>) returns (result: array<real>)
    requires IsOrder(values, order)
    ensures fresh(result) && result.Length == |values|
    ensures forall r :: 0 <= r < |order| ==> result[order[r]] == Running(values, order, r)
  {
    result := new real[|values|](_ => 0.0);
    var previous := 0.0;
    assert previous == Before(values, order, 0) && Filled(values, order, result[..], 0);
    hide Filled, Before, Max, Scaled;
    for rank := 0 to |order|
      invariant previous == Before(values, order, rank) && Filled(values, order, result[..], rank)
    {
      var index := order[rank];
      previous := Max(previous, Scaled(|values|, rank, values[index]));
      FilledStep(values, order, result[..], rank, previous);
      ghost var cells := result[..];
      result[index] := previous;
      assert result[..] == cells[index := previous];
    }
    FilledMeaning(values, order, result[..]);
  }

  lemma FilledMeaning(values: seq<real>, order: seq<nat>, cells: seq<real>)
    requires IsOrder(values, order) && |cells| == |values| && Filled(values, order, cells, |order|)
    ensures forall r :: 0 <= r < |order| ==> cells[order[r]] == Running(values, order, r)
  {
    hide Running;
  }

  /** The adjusted value of every index, with the order computed here. */
  method Adjust(values: seq<real>) returns (result: array<real>, ghost order: seq<nat>)
    ensures IsOrder(values, order) && result.Length == |values|
    ensures forall r :: 0 <= r < |order| ==> result[order[r]] == Running(values, order, r)
  {
    var sorted := Sorted(values);
    order := sorted;
    result := Holm(values, sorted);
  }

  /** Step-down: rejected at alpha exactly when the product of every rank so far is at most alpha. */
  lemma {:induction false} RejectsAsStepDown(values: seq<real>, order: seq<nat>, rank: nat, alpha: real)
    requires IsOrder(values, order) && rank < |order| && 0.0 <= alpha < 1.0
    ensures Running(values, order, rank) <= alpha
       <==> forall s :: 0 <= s <= rank ==> AtMost(Times(|values|, s, values[order[s]]), alpha)
  {
    hide Times, IsOrder;
    if rank > 0 {
      RejectsAsStepDown(values, order, rank - 1, alpha);
    }
  }

  /** A rounded product is at most a binary64 level exactly when the product is, or when it is rounded to the level. */
  lemma RoundedAtMost(x: real, alpha: real)
    requires x >= 0.0 && alpha >= 0.0 && IsDouble(alpha)
    ensures AtMost(Rounded(BINARY64, x), alpha) <==> x <= alpha || Rounded(BINARY64, x) == Finite(alpha)
    ensures x <= alpha ==> AtMost(Rounded(BINARY64, x), alpha)
  {
    hide Rounded;
    if x <= alpha {
      RoundedMonotone(BINARY64, x, alpha);
    } else {
      RoundedMonotone(BINARY64, alpha, x);
      NeverNegativeZero(x);
    }
  }

  lemma NeverNegativeZero(x: real)
    requires x >= 0.0
    ensures Rounded(BINARY64, x) != NegativeZero
  {
    hide Overflows, Significand, Step;
  }

  /**
   Against the step-down procedure on exact products: it rejects only what the
   adjusted values reject, and they reject more only where a product above alpha
   is rounded to alpha.
   */
  lemma {:induction false} RejectsAsExact(values: seq<real>, order: seq<nat>, rank: nat, alpha: real)
    requires IsOrder(values, order) && rank < |order| && 0.0 <= alpha < 1.0 && IsDouble(alpha)
    requires forall i :: 0 <= i < |values| ==> values[i] >= 0.0
    ensures Running(values, order, rank) <= alpha
       <==> forall s :: 0 <= s <= rank ==>
              Site(|values| - s, values[order[s]]) <= alpha || Times(|values|, s, values[order[s]]) == Finite(alpha)
    ensures Running(values, order, rank) < alpha ==>
      forall s :: 0 <= s <= rank ==> Site(|values| - s, values[order[s]]) <= alpha
  {
    RejectsAsStepDown(values, order, rank, alpha);
    forall s | 0 <= s <= rank
      ensures AtMost(Times(|values|, s, values[order[s]]), alpha)
         <==> Site(|values| - s, values[order[s]]) <= alpha || Times(|values|, s, values[order[s]]) == Finite(alpha)
    {
      SiteNonnegative(|values| - s, values[order[s]]);
      RoundedAtMost(Site(|values| - s, values[order[s]]), alpha);
    }
    if Running(values, order, rank) < alpha {
      forall s | 0 <= s <= rank
        ensures Site(|values| - s, values[order[s]]) <= alpha
      {
        RunningCovers(values, order, s, rank);
      }
    }
  }

  /** Seven values: 7 * 0.0071428571428571435 is above 0.05 and is rounded to it. */
  lemma RoundingRejects()
    ensures var p, alpha := 8235153604334622.0 * Pow2(-60), 7205759403792794.0 * Pow2(-57);
      IsDouble(p) && IsDouble(alpha) && Site(7, p) > alpha && Times(7, 0, p) == Finite(alpha)
  {
    hide Pow2, IntPow2, Rounded, RoundInteger;
    var s, t := Pow2(-60), Pow2(-57);
    Pow2Step(-60);
    Pow2Step(-59);
    Pow2Step(-58);
    SignificandBits();
    assert Site(7, 8235153604334622.0 * s) == 7205759403792794.25 * t;
    Representable(8235153604334622, -60);
    Representable(7205759403792794, -57);
    Pow2Add(52, -57);
    Pow2Add(53, -57);
    IntPow2Real(52);
    IntPow2Real(53);
    var x := 7205759403792794.25 * t;
    Scale(4503599627370496.0, 7205759403792794.25, t, Pow2(-5), x);
    Scale(7205759403792794.25, 9007199254740992.0, t, x, Pow2(-4));
    Scale(7205759403792794.0, 7205759403792794.25, t, 7205759403792794.0 * t, x);
    assert x / t == 7205759403792794.25;
    NearestInteger();
    RoundedInBinade(BINARY64, x, -5, 7205759403792794);
  }

  lemma NearestInteger()
    ensures RoundInteger(7205759403792794.25) == 7205759403792794
  {
  }

  lemma SignificandBits()
    ensures IntPow2(52) == 4503599627370496 && IntPow2(53) == 9007199254740992
    ensures BINARY64.MinExponent() == -1022 && BINARY64.MaxExponent() == 1023
  {
    assert IntPow2(13) == 8192;
    IntPow2Add(13, 13);
    IntPow2Add(26, 26);
    assert IntPow2(11) == 2048;
  }

  lemma Representable(k: nat, a: int)
    requires 0 < k < 9007199254740992 && -1074 <= a <= 0
    ensures IsDouble(k as real * Pow2(a))
  {
    hide Pow2, IntPow2, Rounded;
    SignificandBits();
    Binary64Valid();
    IntPow2Real(53);
    Pow2Add(53, a);
    Scale(k as real, 9007199254740992.0, Pow2(a), k as real * Pow2(a), Pow2(53 + a));
    Scale(0.0, k as real, Pow2(a), 0.0, k as real * Pow2(a));
    MaxFiniteAbove();
    Pow2Monotone(53 + a, 53);
    RoundedExact(BINARY64, k, a);
  }

  lemma MaxFiniteAbove()
    ensures BINARY64.MaxFinite() >= Pow2(53)
  {
    hide Pow2, IntPow2;
    SignificandBits();
    var s := Pow2(971);
    Pow2Monotone(53, 971);
    Scale(1.0, (IntPow2(53) - 1) as real, s, s, BINARY64.MaxFinite());
  }

  /** Larger p-values have larger adjusted values. */
  lemma {:induction false} RunningGrows(values: seq<real>, order: seq<nat>, r: nat, s: nat)
    requires IsOrder(values, order) && r <= s < |order|
    ensures Running(values, order, r) <= Running(values, order, s)
    decreases s
  {
    hide Scaled;
    if r < s {
      RunningGrows(values, order, r, s - 1);
    }
  }

  /** Every adjusted value lies between its p-value and one. */
  lemma {:induction false} RunningBounds(values: seq<real>, order: seq<nat>, rank: nat)
    requires IsOrder(values, order) && rank < |order|
    requires forall i :: 0 <= i < |values| ==> 0.0 <= values[i] <= 1.0 && IsDouble(values[i])
    ensures values[order[rank]] <= Running(values, order, rank) <= 1.0
  {
    hide Scaled, IsDouble;
    assert order[rank] < |values|;
    LeastScaled(|values|, rank, values[order[rank]]);
    if rank > 0 {
      RunningBounds(values, order, rank - 1);
    }
    hide IsOrder;
  }

  lemma LeastScaled(n: nat, rank: nat, p: real)
    requires rank < n && 0.0 <= p <= 1.0 && IsDouble(p)
    ensures p <= Scaled(n, rank, p) <= 1.0
  {
    hide Rounded;
    MoreIsLarger(1, n - rank, p);
    RoundedMonotone(BINARY64, p, Site(n - rank, p));
  }

  /** Rounding and clipping keep the order. */
  lemma ScaledGrows(n: nat, rank: nat, first: nat, p: real)
    requires first <= rank < n && p >= 0.0
    ensures Scaled(n, rank, p) <= Scaled(n, first, p)
  {
    hide Rounded;
    SiteNonnegative(n - rank, p);
    MoreIsLarger(n - rank, n - first, p);
    RoundedMonotone(BINARY64, Site(n - rank, p), Site(n - first, p));
  }

  lemma MoreIsLarger(a: int, b: int, p: real)
    requires a <= b && p >= 0.0
    ensures Site(a, p) <= Site(b, p)
    ensures Site(1, p) == p
  {
    var d := b as real - a as real;
    assert d * p >= 0.0;
    assert d * p == b as real * p - a as real * p;
  }

  // ----- independence of the order of ties -----

  ghost function Smaller(values: seq<real>, p: real): set<nat> {
    set j: nat | j < |values| && values[j] < p
  }

  /** How many values are smaller: the first rank of a group of ties. */
  ghost function Below(values: seq<real>, p: real): nat { |Smaller(values, p)| }

  function Members(order: seq<nat>): set<nat> {
    if |order| == 0 then {} else Members(order[..|order| - 1]) + {order[|order| - 1]}
  }

  lemma {:induction false} MembersOf(order: seq<nat>)
    ensures forall x: nat :: x in Members(order) <==> x in order
  {
    if |order| > 0 {
      MembersOf(order[..|order| - 1]);
      assert order == order[..|order| - 1] + [order[|order| - 1]];
    }
  }

  lemma {:induction false} DistinctMembers(order: seq<nat>)
    requires forall r, s :: 0 <= r < s < |order| ==> order[r] != order[s]
    ensures |Members(order)| == |order|
  {
    if |order| > 0 {
      var k := |order| - 1;
      DistinctMembers(order[..k]);
      MembersOf(order[..k]);
    }
  }

  /** The ranks before `first` are exactly the smaller values. */
  lemma BelowIsRank(values: seq<real>, order: seq<nat>, p: real, first: nat)
    requires IsOrder(values, order) && first <= |order|
    requires forall r :: 0 <= r < |order| ==> (values[order[r]] < p <==> r < first)
    ensures Below(values, p) == first
  {
    var head := order[..first];
    MembersOf(head);
    DistinctMembers(head);
    forall j: nat
      ensures j in Smaller(values, p) <==> j in Members(head)
    {
      if j < |values| {
        assert j in order;
        var r :| 0 <= r < |order| && order[r] == j;
        assert r < first ==> head[r] == j;
      }
    }
    assert Smaller(values, p) == Members(head);
  }

  /** The first rank whose value is not smaller. */
  lemma FirstRank(values: seq<real>, order: seq<nat>, rank: nat) returns (first: nat)
    requires IsOrder(values, order) && rank < |order|
    ensures first <= rank && values[order[first]] == values[order[rank]] && Below(values, values[order[rank]]) == first
  {
    first := rank;
    while first > 0 && values[order[first - 1]] == values[order[rank]]
      invariant first <= rank && values[order[first]] == values[order[rank]]
    {
      first := first - 1;
    }
    BelowIsRank(values, order, values[order[rank]], first);
  }

  /** The adjustment of p with no order at all: the largest scaled value among those not above p. */
  ghost predicate IsAdjusted(values: seq<real>, p: real, m: real) {
    && (forall j: nat :: j < |values| && values[j] <= p ==> Scaled(|values|, Below(values, values[j]), values[j]) <= m)
    && (m == 0.0
        || exists j: nat ::
             j < |values| && values[j] <= p && m == Scaled(|values|, Below(values, values[j]), values[j]))
    && m >= 0.0
  }

  /** Within a group of ties the first rank scales the most. */
  lemma FirstScalesMost(values: seq<real>, order: seq<nat>, s: nat)
    requires IsOrder(values, order) && s < |order| && values[order[s]] >= 0.0
    ensures Scaled(|values|, s, values[order[s]]) <= Scaled(|values|, Below(values, values[order[s]]), values[order[s]])
  {
    var first := FirstRank(values, order, s);
    ScaledGrows(|values|, s, first, values[order[s]]);
  }

  /** The running maximum covers every scaled value up to its rank. */
  lemma {:induction false} RunningCovers(values: seq<real>, order: seq<nat>, s: nat, rank: nat)
    requires IsOrder(values, order) && s <= rank < |order|
    ensures Scaled(|values|, s, values[order[s]]) <= Running(values, order, rank)
    ensures Running(values, order, rank) >= 0.0
    decreases rank
  {
    hide Scaled, IsOrder;
    if s < rank {
      RunningCovers(values, order, s, rank - 1);
    } else if rank > 0 {
      RunningCovers(values, order, rank - 1, rank - 1);
    }
  }

  /** And it is zero or one of them. */
  lemma {:induction false} RunningAttained(values: seq<real>, order: seq<nat>, rank: nat) returns (s: nat)
    requires IsOrder(values, order) && rank < |order|
    ensures s <= rank
    ensures Running(values, order, rank) == 0.0 || Running(values, order, rank) == Scaled(|values|, s, values[order[s]])
  {
    hide Scaled, IsOrder;
    s := rank;
    if rank > 0 {
      var t := RunningAttained(values, order, rank - 1);
      if Running(values, order, rank) == Running(values, order, rank - 1) {
        s := t;
      }
    }
  }

  /** The first rank of a value not above p comes no later than the rank of p. */
  lemma FirstComesBefore(values: seq<real>, order: seq<nat>, j: nat, rank: nat) returns (first: nat)
    requires IsOrder(values, order) && rank < |order| && j < |values| && values[j] <= values[order[rank]]
    ensures first <= rank && values[order[first]] == values[j] && Below(values, values[j]) == first
  {
    assert j in order;
    var s :| 0 <= s < |order| && order[s] == j;
    if s <= rank {
      first := FirstRank(values, order, s);
    } else {
      assert values[order[rank]] <= values[order[s]];
      first := FirstRank(values, order, rank);
    }
  }

  /** The running maximum is the adjustment that mentions no order. */
  lemma RunningIsAdjusted(values: seq<real>, order: seq<nat>, rank: nat)
    requires IsOrder(values, order) && rank < |order|
    requires forall i :: 0 <= i < |values| ==> values[i] >= 0.0
    ensures IsAdjusted(values, values[order[rank]], Running(values, order, rank))
  {
    hide Scaled, Below;
    var m, p := Running(values, order, rank), values[order[rank]];
    forall j: nat | j < |values| && values[j] <= p
      ensures Scaled(|values|, Below(values, values[j]), values[j]) <= m
    {
      var first := FirstComesBefore(values, order, j, rank);
      RunningCovers(values, order, first, rank);
    }
    RunningCovers(values, order, 0, rank);
    var s := RunningAttained(values, order, rank);
    if m != 0.0 {
      FirstScalesMost(values, order, s);
      assert values[order[s]] <= p;
    }
  }

  lemma AdjustedUnique(values: seq<real>, p: real, m: real, m': real)
    requires IsAdjusted(values, p, m) && IsAdjusted(values, p, m')
    ensures m == m'
  {
    hide Scaled, Below;
  }

  /** Two orders that break ties differently give every index the same result. */
  lemma TiesDoNotMatter(values: seq<real>, order: seq<nat>, order': seq<nat>, r: nat, r': nat)
    requires IsOrder(values, order) && IsOrder(values, order') && r < |order| && r' < |order'| && order[r] == order'[r']
    requires forall i :: 0 <= i < |values| ==> values[i] >= 0.0
    ensures Running(values, order, r) == Running(values, order', r')
  {
    hide IsAdjusted, Running;
    RunningIsAdjusted(values, order, r);
    RunningIsAdjusted(values, order', r');
    AdjustedUnique(values, values[order[r]], Running(values, order, r), Running(values, order', r'));
  }
}
