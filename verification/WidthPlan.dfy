/**
 The accumulator-width search: location ladder, refinement, screening bracket
 and its extensions, run against the measured event counts of every width.
 */
module WidthPlan {
  import opened IntArithmetic
  import opened Results

  const LADDER_STEP := 3
  const LADDER_MAX_RUNGS := 12
  const BOTTOM_MARGIN := 2
  const MIN_WIDTH := 2
  const MAX_WIDTH := 63

  /** One measured width: images with an event, and the expected Top-1 percentage. */
  datatype Rung = Rung(events: nat, percent: real) {
    ghost predicate AtMostHalf(wide: real) { percent <= wide / 2.0 }
  }

  type Measured = map<nat, Rung>

  /** The registers that exist: a job for any other width fails. */
  predicate Admissible(w: int) { MIN_WIDTH <= w <= MAX_WIDTH }

  /** The widest register below the certified width. */
  function Cap(certified: int): int { MinInt(certified - 1, MAX_WIDTH) }

  // ----- sorted(keys, reverse=True) -----

  ghost predicate Descending(s: seq<nat>) {
    forall i, j :: 0 <= i < j < |s| ==> s[i] > s[j]
  }

  method Sorted(keys: set<nat>) returns (order: seq<nat>)
    ensures Descending(order)
    ensures forall x :: x in order <==> x in keys
  {
    order := [];
    var rest := keys;
    while rest != {}
      invariant Descending(order) && rest <= keys
      invariant forall x :: x in order <==> x in keys && x !in rest
      invariant forall i, y :: 0 <= i < |order| && y in rest ==> order[i] > y
      decreases rest
    {
      var w := Widest(rest);
      order, rest := order + [w], rest - {w};
    }
  }

  method Widest(keys: set<nat>) returns (w: nat)
    requires keys != {}
    ensures w in keys && forall x :: x in keys ==> x <= w
  {
    w :| w in keys;
    var rest := keys - {w};
    while rest != {}
      invariant rest <= keys && w in keys
      invariant forall x :: x in keys && x !in rest ==> x <= w
      decreases rest
    {
      var x :| x in rest;
      w, rest := if x > w then x else w, rest - {x};
    }
  }

  // ----- ladder -----

  /** The widest admissible rung. */
  function FirstRung(w: int): (first: int)
    ensures first <= MAX_WIDTH && first <= w
    ensures first == w || first > MAX_WIDTH - LADDER_STEP
    decreases w
  {
    if w <= MAX_WIDTH then w else FirstRung(w - LADDER_STEP)
  }

  ghost predicate IsLadder(rungs: seq<nat>, certified: int) {
    && |rungs| <= LADDER_MAX_RUNGS
    && (forall i :: 0 <= i < |rungs| ==> rungs[i] == FirstRung(certified - 2) - LADDER_STEP * i)
    && (forall i :: 0 <= i < |rungs| ==> MIN_WIDTH <= rungs[i] <= MinInt(certified - 2, MAX_WIDTH))
    && (|rungs| < LADDER_MAX_RUNGS ==> FirstRung(certified - 2) - LADDER_STEP * |rungs| < MIN_WIDTH)
  }

  /** ladder: every third width down from certified - 2, at most twelve, those above 63 bits skipped. */
  method Ladder(certified: int) returns (rungs: seq<nat>)
    ensures IsLadder(rungs, certified) && |rungs| <= 12
  {
    rungs := [];
    var w := certified - 2;
    while w >= MIN_WIDTH && |rungs| < LADDER_MAX_RUNGS
      invariant |rungs| <= LADDER_MAX_RUNGS && w <= certified - 2
      invariant forall i :: 0 <= i < |rungs| ==> rungs[i] == FirstRung(certified - 2) - LADDER_STEP * i
      invariant forall i :: 0 <= i < |rungs| ==> MIN_WIDTH <= rungs[i] <= MinInt(certified - 2, MAX_WIDTH)
      invariant |rungs| == 0 ==> FirstRung(w) == FirstRung(certified - 2)
      invariant |rungs| > 0 ==> w == FirstRung(certified - 2) - LADDER_STEP * |rungs|
      decreases w
    {
      if w <= MAX_WIDTH {
        rungs := rungs + [w];
      }
      w := w - LADDER_STEP;
    }
  }

  // ----- the two transitions of the measured widths -----

  /** No measured width from w upward has an event. */
  ghost predicate Clean(results: Measured, w: nat) {
    w in results && forall x :: x in results && x >= w ==> results[x].events == 0
  }

  /** The narrowest clean width, if any. */
  ghost predicate IsCleanTop(results: Measured, clean: Option<nat>) {
    match clean
    case None => forall x :: x in results ==> !Clean(results, x)
    case Some(c) => Clean(results, c) && forall x :: x in results && Clean(results, x) ==> c <= x
  }

  method CleanTop(results: Measured, order: seq<nat>) returns (clean: Option<nat>)
    requires Descending(order) && forall w :: w in order <==> w in results
    ensures IsCleanTop(results, clean) && (clean.Some? ==> clean.value in results)
  {
    assert forall i :: 0 <= i < |order| ==> order[i] in results;
    clean := None;
    for n := 0 to |order|
      invariant clean == if n == 0 then None else Some(order[n - 1])
      invariant forall i :: 0 <= i < n ==> results[order[i]].events == 0
    {
      assert order[n] in results;
      if results[order[n]].events > 0 {
        forall x | x in results && Clean(results, x)
          ensures n > 0 && order[n - 1] <= x
        {
          var i :| 0 <= i < |order| && order[i] == x;
        }
        return;
      }
      clean := Some(order[n]);
    }
  }

  /** The widest measured width at or below half of the exact arm. */
  ghost predicate IsHalfTop(results: Measured, wide: real, half: Option<nat>) {
    match half
    case None => forall x :: x in results ==> !results[x].AtMostHalf(wide)
    case Some(h) => h in results && results[h].AtMostHalf(wide)
                    && forall x :: x in results && results[x].AtMostHalf(wide) ==> x <= h
  }

  method HalfTop(results: Measured, order: seq<nat>, wide: real) returns (half: Option<nat>)
    requires Descending(order) && forall w :: w in order <==> w in results
    ensures IsHalfTop(results, wide, half) && (half.Some? ==> half.value in results)
  {
    assert forall i :: 0 <= i < |order| ==> order[i] in results;
    for n := 0 to |order|
      invariant forall i :: 0 <= i < n ==> !results[order[i]].AtMostHalf(wide)
    {
      assert order[n] in results;
      if results[order[n]].percent <= wide / 2.0 {
        forall x | x in results && results[x].AtMostHalf(wide)
          ensures x <= order[n]
        {
          var i :| 0 <= i < |order| && order[i] == x;
        }
        return Some(order[n]);
      }
    }
    half := None;
  }

  predicate Between(low: int, w: int, high: int) { low <= w < high }

  function Range(low: int, high: int): set<nat> {
    set w: nat | w < high && Between(low, w, high)
  }

  // ----- refine and bracket -----

  /**
   The widths beside the transitions: between the narrowest clean width and the
   next, or all above an eventful widest.
   */
  ghost predicate BesideEvents(results: Measured, clean: Option<nat>, certified: int, w: nat) {
    match clean
    case Some(c) => c - LADDER_STEP < w < c && exists x :: x in results && x < c
    case None => w <= Cap(certified) && results.Keys != {} && forall x :: x in results ==> x < w
  }

  ghost predicate BesideHalf(results: Measured, half: Option<nat>, w: nat) {
    half.Some? && half.value < w < half.value + LADDER_STEP && exists x :: x in results && x > half.value
  }

  ghost predicate Proposed(results: Measured, clean: Option<nat>, half: Option<nat>, certified: int, w: nat) {
    w !in results && MIN_WIDTH <= w < certified
    && (BesideEvents(results, clean, certified, w) || BesideHalf(results, half, w))
  }

  /** refine: exactly the unmeasured widths beside the two transitions, widest first. */
  method Refine(results: Measured, wide: real, certified: int)
    returns (widths: seq<nat>, ghost clean: Option<nat>, ghost half: Option<nat>)
    ensures IsCleanTop(results, clean) && IsHalfTop(results, wide, half)
    ensures (clean.Some? ==> clean.value in results) && (half.Some? ==> half.value in results)
    ensures Descending(widths)
    ensures forall w :: w in widths <==> Proposed(results, clean, half, certified, w)
  {
    hide IsCleanTop, IsHalfTop, BesideEvents, BesideHalf, Descending;
    var order := Sorted(results.Keys);
    OrderEnds(order, results.Keys);
    var top := CleanTop(results, order);
    var atHalf := HalfTop(results, order, wide);
    clean, half := top, atHalf;
    var add := EventRange(results, order, top, certified) + HalfRange(results, order, atHalf);
    widths := Sorted(set w: nat | w in add && w !in results && MIN_WIDTH <= w < certified);
  }

  function EventRange(results: Measured, order: seq<nat>, clean: Option<nat>, certified: int): (add: set<nat>)
    requires results.Keys != {} ==> |order| > 0 && order[0] in results && order[|order| - 1] in results
    requires forall x :: x in results ==> |order| > 0 && order[|order| - 1] <= x <= order[0]
    requires forall x :: x in order ==> x in results
    requires clean.Some? ==> clean.value in results
    ensures forall w :: w in add <==> BesideEvents(results, clean, certified, w)
  {
    if clean.Some? && clean.value != order[|order| - 1] then Range(clean.value - LADDER_STEP + 1, clean.value)
    else if clean.None? && |order| > 0 && order[0] < MinInt(certified - 1, MAX_WIDTH)
    then assert order[0] in order; Range(order[0] + 1, MinInt(certified, MAX_WIDTH + 1))
    else {}
  }

  function HalfRange(results: Measured, order: seq<nat>, half: Option<nat>): (add: set<nat>)
    requires results.Keys != {} ==> |order| > 0 && order[0] in results
    requires forall x :: x in results ==> |order| > 0 && x <= order[0]
    requires half.Some? ==> half.value in results
    ensures forall w :: w in add <==> BesideHalf(results, half, w)
  {
    if half.Some? && half.value != order[0] then Range(half.value + 1, half.value + LADDER_STEP) else {}
  }

  lemma OrderEnds(order: seq<nat>, keys: set<nat>)
    requires Descending(order) && forall x :: x in order <==> x in keys
    ensures keys != {} ==> |order| > 0 && order[0] in keys && order[|order| - 1] in keys
    ensures forall x :: x in keys ==> |order| > 0 && order[|order| - 1] <= x <= order[0]
  {
    forall x | x in keys
      ensures |order| > 0 && order[|order| - 1] <= x <= order[0]
    {
      var i :| 0 <= i < |order| && order[i] == x;
    }
  }

  /** bracket: from the narrowest clean width down to a margin below the widest width at or below half. */
  method Bracket(results: Measured, wide: real, certified: int)
    returns (bottom: nat, top: nat, ghost clean: Option<nat>, ghost half: Option<nat>, ghost narrowest: nat)
    requires results.Keys != {} && forall w :: w in results ==> MIN_WIDTH <= w < certified
    ensures IsCleanTop(results, clean) && IsHalfTop(results, wide, half)
    ensures MIN_WIDTH <= bottom <= top <= Cap(certified)
    ensures top == MinInt(clean.GetOr(Cap(certified)), Cap(certified))
    ensures IsNarrowest(results, narrowest)
    ensures bottom == MinInt(MaxInt(MIN_WIDTH, half.GetOr(narrowest) - 2), top)
  {
    hide IsCleanTop, IsHalfTop, Descending;
    var order := Sorted(results.Keys);
    OrderEnds(order, results.Keys);
    var quiet := CleanTop(results, order);
    var atHalf := HalfTop(results, order, wide);
    clean, half, narrowest := quiet, atHalf, order[|order| - 1];
    bottom, top := Clip(quiet, atHalf.GetOr(order[|order| - 1]), certified);
  }

  /** Both ends clipped to the admissible widths. */
  method Clip(clean: Option<nat>, anchor: nat, certified: int) returns (bottom: nat, top: nat)
    requires MIN_WIDTH < certified && (clean.Some? ==> MIN_WIDTH <= clean.value)
    ensures MIN_WIDTH <= bottom <= top <= Cap(certified)
    ensures top == MinInt(clean.GetOr(Cap(certified)), Cap(certified))
    ensures bottom == MinInt(MaxInt(MIN_WIDTH, anchor - BOTTOM_MARGIN), top)
  {
    var widest := clean.GetOr(certified - 1);
    bottom := MaxInt(MIN_WIDTH, anchor - BOTTOM_MARGIN);
    top := MinInt(MinInt(widest, certified - 1), MAX_WIDTH);
    if bottom > top {
      bottom := top;
    }
  }

  // ----- the location phase -----

  /** An event at one width is an event at every narrower one. */
  ghost predicate Monotone(measure: nat -> Rung) {
    forall v: nat, w: nat :: MIN_WIDTH <= v <= w <= MAX_WIDTH && measure(w).events > 0 ==> measure(v).events > 0
  }

  /** A run without events is the exact arm. */
  ghost predicate Exact(measure: nat -> Rung, wide: real) {
    forall w: nat :: Admissible(w) && measure(w).events == 0 ==> measure(w).percent == wide
  }

  ghost predicate Faithful(results: Measured, measure: nat -> Rung) {
    forall w :: w in results ==> Admissible(w) && results[w] == measure(w)
  }

  /** Exactly the first m rungs are measured. */
  ghost predicate FirstRungs(coarse: Measured, rungs: seq<nat>, m: nat)
    requires m <= |rungs|
  {
    && (forall i :: 0 <= i < m ==> rungs[i] in coarse)
    && (forall w :: w in coarse ==> exists i :: 0 <= i < m && rungs[i] == w)
  }

  lemma RungOf(certified: int, coarse: Measured, rungs: seq<nat>, m: nat, w: nat) returns (i: nat)
    requires IsLadder(rungs, certified) && m <= |rungs| && FirstRungs(coarse, rungs, m) && w in coarse
    ensures i < m && rungs[i] == w == rungs[0] - LADDER_STEP * i
    ensures MIN_WIDTH <= w <= rungs[0] <= Cap(certified) && w + 1 < certified
  {
    i :| 0 <= i < m && rungs[i] == w;
  }

  /** Exactly the rungs down to the first one at or below half are measured, or all of them. */
  ghost predicate StopsAtHalf(rungs: seq<nat>, m: nat, wide: real, measure: nat -> Rung) {
    && m <= |rungs| && (|rungs| > 0 ==> m > 0)
    && (forall i :: 0 <= i < m - 1 ==> !measure(rungs[i]).AtMostHalf(wide))
    && (m < |rungs| ==> measure(rungs[m - 1]).AtMostHalf(wide))
  }

  /** The ladder is measured downward and stops after the first rung at or below half. */
  method MeasureLadder(rungs: seq<nat>, wide: real, measure: nat -> Rung) returns (results: Measured, m: nat)
    requires forall i :: 0 <= i < |rungs| ==> Admissible(rungs[i])
    ensures Faithful(results, measure) && StopsAtHalf(rungs, m, wide, measure)
    ensures FirstRungs(results, rungs, m)
  {
    results, m := map[], 0;
    while m < |rungs|
      invariant m <= |rungs| && Faithful(results, measure) && FirstRungs(results, rungs, m)
      invariant forall w :: w in results ==> !results[w].AtMostHalf(wide)
    {
      results := results[rungs[m] := measure(rungs[m])];
      m := m + 1;
      if exists w :: w in results && results[w].percent <= wide / 2.0 {
        return;
      }
    }
  }

  /** The search found the narrowest event-free width, or every admissible width has an event. */
  ghost predicate FoundTransition(measure: nat -> Rung, certified: int, top: int) {
    || (forall w: nat :: MIN_WIDTH <= w <= Cap(certified) ==> (measure(w).events == 0 <==> w >= top))
    || ((forall w: nat :: MIN_WIDTH <= w <= Cap(certified) ==> measure(w).events > 0) && top == Cap(certified))
  }

  /** A clean width whose narrower neighbour is measured and not clean is the transition. */
  lemma NeighbourDecides(results: Measured, measure: nat -> Rung, certified: int, top: nat)
    requires Monotone(measure) && Faithful(results, measure)
    requires IsCleanTop(results, Some(top)) && top > 0 && top - 1 in results && Cap(certified) >= 0
    ensures FoundTransition(measure, certified, MinInt(top, Cap(certified)))
  {
    var below: nat := top - 1;
    EventBelow(results, measure, top);
    hide Monotone, Faithful, IsCleanTop;
    EventFreeUpward(measure, top);
    EventDownward(measure, below);
  }

  lemma EventBelow(results: Measured, measure: nat -> Rung, top: nat)
    requires Monotone(measure) && Faithful(results, measure)
    requires IsCleanTop(results, Some(top)) && top > 0 && top - 1 in results
    ensures Admissible(top) && Admissible(top - 1) && measure(top).events == 0 && measure(top - 1).events > 0
  {
    hide Monotone, Faithful, IsCleanTop;
    var below: nat := top - 1;
    FaithfulAt(results, measure, below);
    FaithfulAt(results, measure, top);
    NotCleanBelow(results, top, below);
  }

  lemma FaithfulAt(results: Measured, measure: nat -> Rung, w: nat)
    requires Faithful(results, measure)
    ensures w in results ==> Admissible(w) && results[w] == measure(w)
  {
  }

  /** The width just below the narrowest clean one had an event. */
  lemma NotCleanBelow(results: Measured, top: nat, below: nat)
    requires IsCleanTop(results, Some(top)) && below + 1 == top && below in results
    ensures top in results && results[top].events == 0 && results[below].events > 0
  {
    assert Clean(results, top);
    assert forall x :: x in results && x >= below ==> x == below || x >= top;
    assert results[below].events == 0 ==> Clean(results, below);
  }

  /** If every admissible width above a measured eventful one is measured, the transition is found. */
  lemma ScannedAbove(results: Measured, measure: nat -> Rung, certified: int, w: nat, clean: Option<nat>)
    requires Monotone(measure) && Faithful(results, measure) && IsCleanTop(results, clean)
    requires w in results && measure(w).events > 0 && w <= Cap(certified)
    requires forall v: nat :: w <= v <= Cap(certified) ==> v in results
    ensures FoundTransition(measure, certified, MinInt(clean.GetOr(Cap(certified)), Cap(certified)))
  {
    hide FoundTransition, Monotone, MinInt, IsCleanTop, Faithful;
    if measure(Cap(certified)).events == 0 {
      QuietCap(results, measure, certified, w, clean);
    } else {
      EventfulCap(results, measure, certified, w, clean);
    }
  }

  lemma QuietCap(results: Measured, measure: nat -> Rung, certified: int, w: nat, clean: Option<nat>)
    requires Monotone(measure) && Faithful(results, measure) && IsCleanTop(results, clean)
    requires w in results && measure(w).events > 0 && w <= Cap(certified) && measure(Cap(certified)).events == 0
    requires forall v: nat :: w <= v <= Cap(certified) ==> v in results
    ensures FoundTransition(measure, certified, MinInt(clean.GetOr(Cap(certified)), Cap(certified)))
  {
    hide FoundTransition, Monotone;
    var cap: nat := Cap(certified);
    assert cap in results;
    EventFreeUpward(measure, cap);
    var c := CleanAbove(results, measure, w, cap, clean);
    hide Faithful, IsCleanTop, Cap, MinInt;
    NeighbourDecides(results, measure, certified, c);
  }

  lemma CleanAbove(results: Measured, measure: nat -> Rung, w: nat, cap: nat, clean: Option<nat>) returns (c: nat)
    requires Faithful(results, measure) && IsCleanTop(results, clean)
    requires w in results && measure(w).events > 0 && w <= cap
    requires forall v: nat :: cap <= v <= MAX_WIDTH ==> measure(v).events == 0
    requires forall v: nat :: w <= v <= cap ==> v in results
    ensures clean == Some(c) && c > 0 && c - 1 in results
  {
    assert cap in results;
    assert Clean(results, cap);
    c := clean.value;
    assert w < c <= cap;
    var v: nat := c - 1;
    assert v in results;
  }

  lemma EventfulCap(results: Measured, measure: nat -> Rung, certified: int, w: nat, clean: Option<nat>)
    requires Monotone(measure) && Faithful(results, measure) && IsCleanTop(results, clean)
    requires w in results && w <= Cap(certified) && measure(Cap(certified)).events > 0
    ensures FoundTransition(measure, certified, MinInt(clean.GetOr(Cap(certified)), Cap(certified)))
  {
    hide Monotone, IsCleanTop, Faithful;
    var cap: nat := Cap(certified);
    FaithfulAt(results, measure, w);
    EventDownward(measure, cap);
    if clean.Some? {
      CleanHasNoEvent(results, clean.value);
      FaithfulAt(results, measure, clean.value);
    }
  }

  lemma CleanHasNoEvent(results: Measured, c: nat)
    requires IsCleanTop(results, Some(c))
    ensures c in results && results[c].events == 0
  {
    assert Clean(results, c);
  }

  lemma EventDownward(measure: nat -> Rung, w: nat)
    requires Monotone(measure) && Admissible(w) && measure(w).events > 0
    ensures forall v: nat :: MIN_WIDTH <= v <= w ==> measure(v).events > 0
  {
    hide Monotone;
    forall v: nat | MIN_WIDTH <= v <= w
      ensures measure(v).events > 0
    {
      Downward(measure, v, w);
    }
  }

  lemma Downward(measure: nat -> Rung, v: nat, w: nat)
    requires Monotone(measure) && MIN_WIDTH <= v <= w <= MAX_WIDTH
    ensures measure(w).events > 0 ==> measure(v).events > 0
  {
  }

  lemma EventFreeUpward(measure: nat -> Rung, v: nat)
    requires Monotone(measure) && MIN_WIDTH <= v && measure(v).events == 0
    ensures forall w: nat :: v <= w <= MAX_WIDTH ==> measure(w).events == 0
  {
    hide Monotone;
    forall w: nat | v <= w <= MAX_WIDTH
      ensures measure(w).events == 0
    {
      Downward(measure, v, w);
    }
  }

  /** The jobs of the refined widths: those of admissible widths are measured, the others fail. */
  method MeasureWidths(results: Measured, widths: seq<nat>, measure: nat -> Rung) returns (refined: Measured)
    requires Faithful(results, measure)
    ensures Faithful(refined, measure)
    ensures forall w :: w in refined <==> w in results || (w in widths && Admissible(w))
  {
    refined := results;
    for n := 0 to |widths|
      invariant Faithful(refined, measure)
      invariant forall w :: w in refined <==> w in results || (w in widths[..n] && Admissible(w))
    {
      assert widths[..n + 1] == widths[..n] + [widths[n]];
      if Admissible(widths[n]) {
        refined := refined[widths[n] := measure(widths[n])];
      }
    }
    assert widths[..|widths|] == widths;
  }

  /** Some measured rung had an event. */
  ghost predicate Eventful(rungs: seq<nat>, m: nat, measure: nat -> Rung)
    requires m <= |rungs|
  {
    exists i :: 0 <= i < m && measure(rungs[i]).events > 0
  }

  /** The coarse ladder and the widths beside its clean transition are measured. */
  ghost predicate FillsGap(coarse: Measured, rough: Option<nat>, certified: int, refined: Measured) {
    && (forall w :: w in coarse ==> w in refined)
    && forall w: nat :: MIN_WIDTH <= w <= Cap(certified) && BesideEvents(coarse, rough, certified, w) ==> w in refined
  }

  /** The coarse ladder and the widths beside its narrowest clean rung pin the transition. */
  lemma RefinedTop(certified: int, rungs: seq<nat>, m: nat, coarse: Measured, rough: Option<nat>, refined: Measured,
                   clean: Option<nat>, measure: nat -> Rung)
    requires Monotone(measure) && IsLadder(rungs, certified) && 0 < m <= |rungs|
    requires Faithful(coarse, measure) && IsCleanTop(coarse, rough) && FirstRungs(coarse, rungs, m)
    requires Faithful(refined, measure) && IsCleanTop(refined, clean)
    requires FillsGap(coarse, rough, certified, refined)
    requires Eventful(rungs, m, measure)
    ensures MIN_WIDTH <= Cap(certified)
    ensures FoundTransition(measure, certified, MinInt(clean.GetOr(Cap(certified)), Cap(certified)))
  {
    hide FoundTransition, Monotone, Faithful, IsLadder, IsCleanTop, FillsGap, FirstRungs, Cap, MinInt, Eventful;
    if rough == None {
      NothingClean(certified, rungs, m, coarse, refined, clean, measure);
    } else {
      var c := rough.value;
      assert rough == Some(c);
      SomeClean(certified, rungs, m, coarse, c, refined, clean, measure);
    }
  }

  lemma NothingClean(certified: int, rungs: seq<nat>, m: nat, coarse: Measured, refined: Measured, clean: Option<nat>,
                     measure: nat -> Rung)
    requires Monotone(measure) && IsLadder(rungs, certified) && 0 < m <= |rungs|
    requires Faithful(coarse, measure) && IsCleanTop(coarse, None) && FirstRungs(coarse, rungs, m)
    requires Faithful(refined, measure) && IsCleanTop(refined, clean)
    requires FillsGap(coarse, None, certified, refined)
    ensures MIN_WIDTH <= Cap(certified)
    ensures FoundTransition(measure, certified, MinInt(clean.GetOr(Cap(certified)), Cap(certified)))
  {
    hide FoundTransition, Monotone, Faithful, IsLadder, IsCleanTop, FillsGap, FirstRungs, Cap, MinInt, Eventful;
    EventAtTop(certified, rungs, m, coarse, measure);
    AllAbove(certified, coarse, refined, rungs[0]);
    ScannedAbove(refined, measure, certified, rungs[0], clean);
  }

  lemma SomeClean(certified: int, rungs: seq<nat>, m: nat, coarse: Measured, c: nat, refined: Measured,
                  clean: Option<nat>, measure: nat -> Rung)
    requires Monotone(measure) && IsLadder(rungs, certified) && 0 < m <= |rungs|
    requires Faithful(coarse, measure) && IsCleanTop(coarse, Some(c)) && FirstRungs(coarse, rungs, m)
    requires Faithful(refined, measure) && IsCleanTop(refined, clean)
    requires FillsGap(coarse, Some(c), certified, refined)
    requires Eventful(rungs, m, measure)
    ensures MIN_WIDTH <= Cap(certified)
    ensures FoundTransition(measure, certified, MinInt(clean.GetOr(Cap(certified)), Cap(certified)))
  {
    hide FoundTransition, Monotone, Faithful, IsLadder, IsCleanTop, FillsGap, FirstRungs, Cap, MinInt, Eventful;
    var j := NextRung(certified, rungs, m, coarse, c, measure);
    GapFilled(certified, coarse, refined, c, rungs[j]);
    CleanBetween(refined, measure, rungs[j], c, clean);
    var top := clean.value;
    assert top > 0;
    assert Cap(certified) >= 0;
    assert clean == Some(top);
    NeighbourDecides(refined, measure, certified, top);
    assert clean.GetOr(Cap(certified)) == top;
  }

  /** With no clean rung, the widest one has an event. */
  lemma EventAtTop(certified: int, rungs: seq<nat>, m: nat, coarse: Measured, measure: nat -> Rung)
    requires IsLadder(rungs, certified) && 0 < m <= |rungs|
    requires Faithful(coarse, measure) && IsCleanTop(coarse, None) && FirstRungs(coarse, rungs, m)
    ensures rungs[0] in coarse && measure(rungs[0]).events > 0
    ensures forall x :: x in coarse ==> x <= rungs[0]
    ensures MIN_WIDTH <= rungs[0] <= Cap(certified)
  {
    hide IsLadder, IsCleanTop, Faithful;
    assert rungs[0] in coarse;
    hide FirstRungs;
    var i := RungOf(certified, coarse, rungs, m, rungs[0]);
    forall x | x in coarse
      ensures x <= rungs[0]
    {
      var j := RungOf(certified, coarse, rungs, m, x);
    }
    NoCleanWidest(coarse, measure, rungs[0]);
  }

  lemma NoCleanWidest(coarse: Measured, measure: nat -> Rung, w: nat)
    requires Faithful(coarse, measure) && IsCleanTop(coarse, None) && w in coarse && forall x :: x in coarse ==> x <= w
    ensures measure(w).events > 0
  {
    FaithfulAt(coarse, measure, w);
    hide Faithful;
    assert forall x :: x in coarse && x >= w ==> x == w;
    assert coarse[w].events == 0 ==> Clean(coarse, w);
  }

  lemma AllAbove(certified: int, coarse: Measured, refined: Measured, w: nat)
    requires w in coarse && w >= MIN_WIDTH && forall x :: x in coarse ==> x <= w
    requires FillsGap(coarse, None, certified, refined)
    ensures forall v: nat :: w <= v <= Cap(certified) ==> v in refined
  {
    forall v: nat | w < v <= Cap(certified)
      ensures v in refined
    {
      assert BesideEvents(coarse, None, certified, v);
    }
  }

  lemma GapFilled(certified: int, coarse: Measured, refined: Measured, c: nat, below: nat)
    requires below in coarse && below == c - LADDER_STEP && below >= MIN_WIDTH && c <= Cap(certified)
    requires FillsGap(coarse, Some(c), certified, refined)
    requires c in coarse
    ensures forall v: nat :: below <= v <= c ==> v in refined
  {
    forall v: nat | below < v < c
      ensures v in refined
    {
      assert BesideEvents(coarse, Some(c), certified, v);
    }
  }

  lemma CleanBetween(refined: Measured, measure: nat -> Rung, below: nat, c: nat, clean: Option<nat>)
    requires Monotone(measure) && Faithful(refined, measure) && IsCleanTop(refined, clean)
    requires below < c && measure(below).events > 0 && measure(c).events == 0
    requires forall v: nat :: below <= v <= c ==> v in refined
    ensures clean.Some? && clean.value > below && clean.value - 1 in refined
  {
    hide Monotone;
    assert c in refined && below in refined;
    EventFreeUpward(measure, c);
    assert Clean(refined, c);
    var t := clean.value;
    assert t > below;
    var v: nat := t - 1;
    assert v in refined;
  }

  /** The rung below the narrowest clean one has an event. */
  lemma NextRung(certified: int, rungs: seq<nat>, m: nat, coarse: Measured, c: nat, measure: nat -> Rung)
    returns (j: nat)
    requires Monotone(measure) && Faithful(coarse, measure) && IsCleanTop(coarse, Some(c))
    requires 0 < m <= |rungs| && FirstRungs(coarse, rungs, m)
    requires IsLadder(rungs, certified)
    requires Eventful(rungs, m, measure)
    ensures j < m && MIN_WIDTH <= rungs[j] == c - LADDER_STEP && rungs[j] in coarse && measure(rungs[j]).events > 0
    ensures c in coarse && c <= Cap(certified) && measure(c).events == 0
  {
    hide Monotone;
    var e :| 0 <= e < m && measure(rungs[e]).events > 0;
    var w := rungs[e];
    var i := RungOf(certified, coarse, rungs, m, c);
    var k := RungOf(certified, coarse, rungs, m, w);
    assert Clean(coarse, c) && w < c;
    j := i + 1;
    assert rungs[j] == c - LADDER_STEP && rungs[j] in coarse;
    hide IsLadder, FirstRungs;
    NarrowerEvent(coarse, c, rungs[j], measure);
  }

  /** A measured width below the narrowest clean one has an event. */
  lemma NarrowerEvent(coarse: Measured, c: nat, below: nat, measure: nat -> Rung)
    requires Monotone(measure) && Faithful(coarse, measure) && IsCleanTop(coarse, Some(c))
    requires below in coarse && below < c
    ensures measure(below).events > 0
  {
    assert !Clean(coarse, below);
  }

  /** The measurements of the location phase and the transitions read off them. */
  datatype Location = Location(rungs: seq<nat>, m: nat, results: Measured, clean: Option<nat>, half: Option<nat>)

  /** The ladder and its refinements are measured, and no admissible width is proposed any more. */
  ghost predicate Located(at: Location, certified: int, wide: real, measure: nat -> Rung) {
    && IsLadder(at.rungs, certified) && StopsAtHalf(at.rungs, at.m, wide, measure)
    && (forall i :: 0 <= i < at.m ==> at.rungs[i] in at.results)
    && Faithful(at.results, measure) && (forall w :: w in at.results ==> |at.rungs| > 0 && w < certified)
    && IsCleanTop(at.results, at.clean) && IsHalfTop(at.results, wide, at.half)
    && forall w: nat :: Proposed(at.results, at.clean, at.half, certified, w) ==> w > MAX_WIDTH
  }

  /** location_complete: something is measured and refine proposes nothing. */
  ghost predicate Complete(at: Location, certified: int) {
    at.results.Keys != {} && forall w: nat :: !Proposed(at.results, at.clean, at.half, certified, w)
  }

  /** From a margin below the widest width at half, or below the narrowest one measured, to the narrowest clean one. */
  ghost predicate IsBracket(at: Location, certified: int, bracket: (nat, nat)) {
    var (bottom, top) := bracket;
    && MIN_WIDTH <= bottom <= top <= Cap(certified)
    && top == MinInt(at.clean.GetOr(Cap(certified)), Cap(certified))
    && exists narrowest :: IsNarrowest(at.results, narrowest)
         && bottom == MinInt(MaxInt(MIN_WIDTH, at.half.GetOr(narrowest) - BOTTOM_MARGIN), top)
  }

  ghost predicate IsNarrowest(results: Measured, w: nat) { w in results && forall x :: x in results ==> w <= x }

  /** The widths just above the widest one at or below half are measured, and above half. */
  ghost predicate HalfTransition(at: Location, certified: int, wide: real, measure: nat -> Rung) {
    at.half.Some? && (exists w :: w in at.results && w > at.half.value) ==>
      forall w: nat :: at.half.value < w < at.half.value + LADDER_STEP && w < certified ==>
        w in at.results && !measure(w).AtMostHalf(wide)
  }

  lemma TopsUnique(results: Measured, wide: real, c: Option<nat>, c': Option<nat>, h: Option<nat>, h': Option<nat>)
    requires IsCleanTop(results, c) && IsCleanTop(results, c')
    requires IsHalfTop(results, wide, h) && IsHalfTop(results, wide, h')
    ensures c == c' && h == h'
  {
  }

  lemma HalfSettled(at: Location, certified: int, wide: real, measure: nat -> Rung)
    requires Located(at, certified, wide, measure) && Complete(at, certified)
    ensures HalfTransition(at, certified, wide, measure)
  {
    hide IsLadder, IsCleanTop, StopsAtHalf, BesideEvents;
    if at.half.Some? && exists w :: w in at.results && w > at.half.value {
      forall w: nat | at.half.value < w < at.half.value + LADDER_STEP && w < certified
        ensures w in at.results && !measure(w).AtMostHalf(wide)
      {
        assert BesideHalf(at.results, at.half, w);
        assert at.half.value in at.results;
        assert !Proposed(at.results, at.clean, at.half, certified, w);
      }
    }
  }

  // ----- when the location phase never completes -----

  /** Every width from r + 2 up to w that is no rung of 63, 60, ... is at or below half, as r is. */
  ghost predicate Climbed(r: nat, w: nat, wide: real, measure: nat -> Rung) {
    && measure(r).AtMostHalf(wide) && r < w < MAX_WIDTH && w % LADDER_STEP != 0
    && forall v: nat :: r + 2 <= v < w && v % LADDER_STEP != 0 ==> measure(v).AtMostHalf(wide)
  }

  /** From the first rung of 63, 60, ... at or below half the refinements climb to 62. */
  ghost predicate ClimbsFrom(r: nat, wide: real, measure: nat -> Rung) {
    && MAX_WIDTH - LADDER_STEP * (LADDER_MAX_RUNGS - 1) <= r && r % LADDER_STEP == 0
    && (forall w: nat :: r < w < MAX_WIDTH && w % LADDER_STEP == 0 ==> !measure(w).AtMostHalf(wide))
    && Climbed(r, MAX_WIDTH - 1, wide, measure)
  }

  /**
   The runs that never complete: 62 bits at or below half, 63 bits above, both
   measured, so that refine keeps proposing 64 bits, for which there is no
   register. 62 bits is not measured only when the ladder starts at an eventful
   63 and its refinements do not climb up to it.
   */
  ghost predicate Stalls(certified: int, wide: real, measure: nat -> Rung) {
    && certified > MAX_WIDTH + 1
    && measure(MAX_WIDTH - 1).AtMostHalf(wide) && !measure(MAX_WIDTH).AtMostHalf(wide)
    && (FirstRung(certified - 2) != MAX_WIDTH || measure(MAX_WIDTH).events == 0
        || exists r: nat :: ClimbsFrom(r, wide, measure))
  }

  /** With an eventful 63 as first rung, every other measured width is a rung or was climbed to. */
  ghost predicate Explained(rungs: seq<nat>, m: nat, known: Measured, wide: real, measure: nat -> Rung)
    requires m <= |rungs|
  {
    m > 0 && rungs[0] == MAX_WIDTH && measure(MAX_WIDTH).events > 0 ==>
      forall w :: w in known ==> (exists i :: 0 <= i < m && rungs[i] == w) || Climbed(rungs[m - 1], w, wide, measure)
  }

  /** Beside an eventful 63 a measurable width is proposed only above the widest one at half. */
  lemma ProposedAboveHalf(at: Location, certified: int, wide: real, measure: nat -> Rung, w: nat)
    requires MAX_WIDTH in at.results && measure(MAX_WIDTH).events > 0 && Faithful(at.results, measure)
    requires IsCleanTop(at.results, at.clean) && IsHalfTop(at.results, wide, at.half)
    requires Proposed(at.results, at.clean, at.half, certified, w) && w <= MAX_WIDTH
    ensures at.half.Some? && at.half.value in at.results && measure(at.half.value).AtMostHalf(wide)
    ensures at.half.value < w < at.half.value + LADDER_STEP && w < MAX_WIDTH
  {
    assert forall x :: x in at.results ==> x <= MAX_WIDTH;
    NothingQuiet(at.results, at.clean, measure, MAX_WIDTH);
    hide IsCleanTop, IsHalfTop, Faithful;
    OnlyBesideHalf(at.results, at.half, certified, w);
    HalfMeasured(at.results, measure, wide, at.half.value);
  }

  lemma OnlyBesideHalf(results: Measured, half: Option<nat>, certified: int, w: nat)
    requires MAX_WIDTH in results && w <= MAX_WIDTH && Proposed(results, None, half, certified, w)
    ensures half.Some? && half.value < w < half.value + LADDER_STEP && w < MAX_WIDTH
  {
    assert !BesideEvents(results, None, certified, w);
  }

  lemma HalfMeasured(results: Measured, measure: nat -> Rung, wide: real, h: nat)
    requires Faithful(results, measure) && IsHalfTop(results, wide, Some(h))
    ensures h in results && measure(h).AtMostHalf(wide)
  {
    FaithfulAt(results, measure, h);
    hide Faithful;
  }

  /** A width newly proposed was climbed to as well. */
  lemma ProposedIsClimbed(at: Location, certified: int, wide: real, measure: nat -> Rung, w: nat)
    requires IsLadder(at.rungs, certified) && StopsAtHalf(at.rungs, at.m, wide, measure)
    requires 0 < at.m && at.rungs[0] == MAX_WIDTH && measure(MAX_WIDTH).events > 0
    requires forall i :: 0 <= i < at.m ==> at.rungs[i] in at.results
    requires Faithful(at.results, measure) && Explained(at.rungs, at.m, at.results, wide, measure)
    requires IsCleanTop(at.results, at.clean) && IsHalfTop(at.results, wide, at.half)
    requires Proposed(at.results, at.clean, at.half, certified, w) && w <= MAX_WIDTH
    ensures Climbed(at.rungs[at.m - 1], w, wide, measure)
  {
    assert at.rungs[0] in at.results;
    ProposedAboveHalf(at, certified, wide, measure, w);
    assert w !in at.results;
    hide Proposed, IsCleanTop, IsHalfTop, Faithful;
    ClimbStep(at.rungs, at.m, certified, at.results, wide, measure, at.half.value, w);
  }

  /** From a measured width h at half to an unmeasured w just above it. */
  lemma ClimbStep(rungs: seq<nat>, m: nat, certified: int, known: Measured, wide: real, measure: nat -> Rung, h: nat,
                  w: nat)
    requires IsLadder(rungs, certified) && StopsAtHalf(rungs, m, wide, measure)
    requires 0 < m && rungs[0] == MAX_WIDTH && measure(MAX_WIDTH).events > 0
    requires forall i :: 0 <= i < m ==> rungs[i] in known
    requires Explained(rungs, m, known, wide, measure)
    requires h in known && measure(h).AtMostHalf(wide) && w !in known && h < w < h + LADDER_STEP && w < MAX_WIDTH
    ensures Climbed(rungs[m - 1], w, wide, measure)
  {
    var r := rungs[m - 1];
    OnlyLastRung(rungs, m, wide, measure, h);
    assert h == r || Climbed(r, h, wide, measure);
    hide IsLadder, StopsAtHalf, Explained;
    if w % LADDER_STEP == 0 {
      RungBetween(rungs, m, certified, w);
      assert false;
    }
  }

  /** Of the measured rungs only the last one can be at or below half. */
  lemma OnlyLastRung(rungs: seq<nat>, m: nat, wide: real, measure: nat -> Rung, h: nat)
    requires StopsAtHalf(rungs, m, wide, measure) && m > 0 && measure(h).AtMostHalf(wide)
    ensures forall i :: 0 <= i < m && rungs[i] == h ==> h == rungs[m - 1]
  {
  }

  /** The multiples of three from the last measured rung to 63 are the measured rungs. */
  lemma RungBetween(rungs: seq<nat>, m: nat, certified: int, w: nat)
    requires IsLadder(rungs, certified) && 0 < m <= |rungs| && rungs[0] == MAX_WIDTH
    requires rungs[m - 1] < w <= MAX_WIDTH && w % LADDER_STEP == 0
    ensures exists i :: 0 <= i < m - 1 && rungs[i] == w
  {
    var i := (MAX_WIDTH - w) / LADDER_STEP;
    assert rungs[i] == w;
  }

  lemma ExplainedStep(at: Location, certified: int, wide: real, measure: nat -> Rung, widths: seq<nat>,
                      refined: Measured)
    requires at.m <= |at.rungs|
    requires IsLadder(at.rungs, certified) && StopsAtHalf(at.rungs, at.m, wide, measure)
    requires forall i :: 0 <= i < at.m ==> at.rungs[i] in at.results
    requires Faithful(at.results, measure) && Explained(at.rungs, at.m, at.results, wide, measure)
    requires IsCleanTop(at.results, at.clean) && IsHalfTop(at.results, wide, at.half)
    requires forall w :: w in widths ==> Proposed(at.results, at.clean, at.half, certified, w)
    requires forall w :: w in refined <==> w in at.results || (w in widths && Admissible(w))
    ensures Explained(at.rungs, at.m, refined, wide, measure)
  {
    hide IsLadder, StopsAtHalf, Faithful, IsCleanTop, IsHalfTop, Proposed, Climbed;
    if at.m > 0 && at.rungs[0] == MAX_WIDTH && measure(MAX_WIDTH).events > 0 {
      forall w | w in refined && w !in at.results
        ensures Climbed(at.rungs[at.m - 1], w, wide, measure)
      {
        ProposedIsClimbed(at, certified, wide, measure, w);
      }
    }
  }

  /** Only 62 at half beside a measured 63 keeps a width proposed. */
  lemma LeftProposed(at: Location, certified: int, wide: real, measure: nat -> Rung)
    requires Located(at, certified, wide, measure)
    ensures (forall w: nat :: !Proposed(at.results, at.clean, at.half, certified, w))
       <==> !(at.half == Some(MAX_WIDTH - 1) && MAX_WIDTH in at.results && certified > MAX_WIDTH + 1)
  {
    hide IsLadder, StopsAtHalf;
    RefineAdmissible(at.results, at.clean, at.half, certified);
  }

  /** A run that does not complete stalls in the stated way. */
  lemma IncompleteStalls(at: Location, certified: int, wide: real, measure: nat -> Rung)
    requires Located(at, certified, wide, measure) && Explained(at.rungs, at.m, at.results, wide, measure)
    requires at.half == Some(MAX_WIDTH - 1) && MAX_WIDTH in at.results && certified > MAX_WIDTH + 1
    ensures Stalls(certified, wide, measure)
  {
    hide IsCleanTop, Proposed;
    var rungs, m := at.rungs, at.m;
    if FirstRung(certified - 2) == MAX_WIDTH && measure(MAX_WIDTH).events > 0 {
      var r := rungs[m - 1];
      assert rungs[0] == MAX_WIDTH;
      assert Climbed(r, MAX_WIDTH - 1, wide, measure);
      forall w: nat | r < w < MAX_WIDTH && w % LADDER_STEP == 0
        ensures !measure(w).AtMostHalf(wide)
      {
        RungBetween(rungs, m, certified, w);
      }
      assert ClimbsFrom(r, wide, measure);
    }
  }

  /** And where the condition holds, 62 and 63 bits end up measured. */
  lemma StallsMeasured(at: Location, certified: int, wide: real, measure: nat -> Rung, coarse: Measured,
                       rough: Option<nat>)
    requires Located(at, certified, wide, measure) && Stalls(certified, wide, measure)
    requires Monotone(measure) && Exact(measure, wide)
    requires Faithful(coarse, measure) && IsCleanTop(coarse, rough) && FirstRungs(coarse, at.rungs, at.m)
    requires FillsGap(coarse, rough, certified, at.results)
    ensures MAX_WIDTH in at.results && MAX_WIDTH - 1 in at.results
  {
    hide Exact, Monotone, IsHalfTop, IsCleanTop, Proposed, Faithful, FirstRungs, FillsGap, ClimbsFrom, IsLadder, Cap,
         FirstRung, Located, StopsAtHalf;
    LadderMeasured(at, certified, wide, measure);
    LadderStart(at.rungs, certified);
    EventAt62(wide, measure);
    if FirstRung(certified - 2) != MAX_WIDTH {
      EventfulStart(at, certified, measure, coarse, rough);
    } else if measure(MAX_WIDTH).events == 0 {
      QuietStart(at, certified, wide, measure, coarse, rough);
    } else {
      var r: nat :| ClimbsFrom(r, wide, measure);
      ClimbReaches(at, certified, wide, measure, r);
    }
  }

  lemma LadderStart(rungs: seq<nat>, certified: int)
    requires IsLadder(rungs, certified) && certified > MAX_WIDTH + 1
    ensures |rungs| == LADDER_MAX_RUNGS && rungs[0] == FirstRung(certified - 2) && MAX_WIDTH - 2 <= rungs[0]
    ensures Cap(certified) == MAX_WIDTH
  {
  }

  /** An event-free 62 would make 63 event-free too, and both of them the exact arm. */
  lemma EventAt62(wide: real, measure: nat -> Rung)
    requires Monotone(measure) && Exact(measure, wide)
    requires measure(MAX_WIDTH - 1).AtMostHalf(wide) && !measure(MAX_WIDTH).AtMostHalf(wide)
    ensures measure(MAX_WIDTH - 1).events > 0
    ensures forall v: nat :: MIN_WIDTH <= v <= MAX_WIDTH - 1 ==> measure(v).events > 0
  {
  }

  lemma EventfulStart(at: Location, certified: int, measure: nat -> Rung, coarse: Measured, rough: Option<nat>)
    requires IsLadder(at.rungs, certified) && 0 < at.m <= |at.rungs| && certified > MAX_WIDTH + 1
    requires MAX_WIDTH - 2 <= at.rungs[0] <= MAX_WIDTH - 1
    requires forall i :: 0 <= i < at.m ==> at.rungs[i] in at.results
    requires forall v: nat :: MIN_WIDTH <= v <= MAX_WIDTH - 1 ==> measure(v).events > 0
    requires Faithful(coarse, measure) && IsCleanTop(coarse, rough) && FirstRungs(coarse, at.rungs, at.m)
    requires FillsGap(coarse, rough, certified, at.results)
    ensures MAX_WIDTH in at.results && MAX_WIDTH - 1 in at.results
  {
    hide BesideEvents, FillsGap, IsCleanTop;
    assert at.rungs[0] in coarse && at.rungs[0] in at.results;
    forall x | x in coarse
      ensures x <= at.rungs[0]
    {
      var i := RungOf(certified, coarse, at.rungs, at.m, x);
    }
    hide IsLadder, FirstRungs;
    NothingQuiet(coarse, rough, measure, at.rungs[0]);
    AllAbove(certified, coarse, at.results, at.rungs[0]);
  }

  /** An event at the widest measured width leaves no clean one. */
  lemma NothingQuiet(results: Measured, clean: Option<nat>, measure: nat -> Rung, widest: nat)
    requires Faithful(results, measure) && IsCleanTop(results, clean)
    requires widest in results && measure(widest).events > 0 && forall x :: x in results ==> x <= widest
    ensures clean == None
  {
    FaithfulAt(results, measure, widest);
    NoEventAbove(results, clean, widest);
    hide Faithful, IsCleanTop;
  }

  lemma NoEventAbove(results: Measured, clean: Option<nat>, w: nat)
    requires IsCleanTop(results, clean) && w in results
    ensures clean.Some? ==> clean.value in results && (clean.value <= w ==> results[w].events == 0)
  {
    assert clean.Some? ==> Clean(results, clean.value);
  }

  lemma QuietStart(at: Location, certified: int, wide: real, measure: nat -> Rung, coarse: Measured, rough: Option<nat>)
    requires IsLadder(at.rungs, certified) && StopsAtHalf(at.rungs, at.m, wide, measure) && certified > MAX_WIDTH + 1
    requires |at.rungs| == LADDER_MAX_RUNGS && at.rungs[0] == MAX_WIDTH && !measure(MAX_WIDTH).AtMostHalf(wide)
    requires forall i :: 0 <= i < at.m ==> at.rungs[i] in at.results
    requires measure(MAX_WIDTH).events == 0
    requires forall v: nat :: MIN_WIDTH <= v <= MAX_WIDTH - 1 ==> measure(v).events > 0
    requires Faithful(coarse, measure) && IsCleanTop(coarse, rough) && FirstRungs(coarse, at.rungs, at.m)
    requires FillsGap(coarse, rough, certified, at.results)
    ensures MAX_WIDTH in at.results && MAX_WIDTH - 1 in at.results
  {
    assert at.rungs[0] in coarse && at.rungs[1] in coarse && at.rungs[0] in at.results;
    assert at.rungs[1] == MAX_WIDTH - LADDER_STEP;
    forall x | x in coarse
      ensures x <= MAX_WIDTH
    {
      var i := RungOf(certified, coarse, at.rungs, at.m, x);
    }
    assert Clean(coarse, MAX_WIDTH);
    assert rough == Some(MAX_WIDTH);
    assert BesideEvents(coarse, rough, certified, MAX_WIDTH - 1);
  }

  /** Climbing ends at 62: no lower width can be the widest measured one at half. */
  lemma ClimbReaches(at: Location, certified: int, wide: real, measure: nat -> Rung, r: nat)
    requires Located(at, certified, wide, measure) && ClimbsFrom(r, wide, measure) && certified > MAX_WIDTH + 1
    requires |at.rungs| == LADDER_MAX_RUNGS && at.rungs[0] == MAX_WIDTH && !measure(MAX_WIDTH).AtMostHalf(wide)
    ensures MAX_WIDTH in at.results && MAX_WIDTH - 1 in at.results
  {
    hide IsCleanTop, BesideEvents;
    LadderStopsAt(at.rungs, at.m, certified, wide, measure, r);
    assert at.rungs[0] in at.results && r in at.results;
    var h := at.half.value;
    assert r <= h < MAX_WIDTH;
    forall w: nat | h < w < h + LADDER_STEP && w <= MAX_WIDTH
      ensures w in at.results && !measure(w).AtMostHalf(wide)
    {
      assert BesideHalf(at.results, at.half, w);
      assert !Proposed(at.results, at.clean, at.half, certified, w);
    }
    if h + 2 < MAX_WIDTH - 1 {
      var v := ClimbOn(r, h, wide, measure);
      assert false;
    }
  }

  /** One of the two widths above any width of the climb is at half as well. */
  lemma ClimbOn(r: nat, h: nat, wide: real, measure: nat -> Rung) returns (v: nat)
    requires ClimbsFrom(r, wide, measure) && r <= h && h + 2 < MAX_WIDTH - 1
    ensures h < v < h + LADDER_STEP && measure(v).AtMostHalf(wide)
  {
    v := if (h + 1) % LADDER_STEP == 0 || h == r then h + 2 else h + 1;
  }

  lemma LadderStopsAt(rungs: seq<nat>, m: nat, certified: int, wide: real, measure: nat -> Rung, r: nat)
    requires IsLadder(rungs, certified) && StopsAtHalf(rungs, m, wide, measure) && ClimbsFrom(r, wide, measure)
    requires |rungs| == LADDER_MAX_RUNGS && rungs[0] == MAX_WIDTH && !measure(MAX_WIDTH).AtMostHalf(wide)
    ensures 0 < m <= |rungs| && rungs[m - 1] == r
  {
    var j := (MAX_WIDTH - r) / LADDER_STEP;
    assert rungs[j] == r;
    forall i | 0 <= i < j
      ensures !measure(rungs[i]).AtMostHalf(wide)
    {
      assert rungs[i] == MAX_WIDTH - LADDER_STEP * i;
    }
  }

  /** The location phase completes exactly when it does not stall. */
  lemma CompleteIff(at: Location, certified: int, wide: real, measure: nat -> Rung, coarse: Measured,
                    rough: Option<nat>)
    requires Located(at, certified, wide, measure) && Explained(at.rungs, at.m, at.results, wide, measure)
    requires at.results.Keys != {} && Monotone(measure) && Exact(measure, wide)
    requires Faithful(coarse, measure) && IsCleanTop(coarse, rough) && FirstRungs(coarse, at.rungs, at.m)
    requires FillsGap(coarse, rough, certified, at.results)
    ensures Complete(at, certified) <==> !Stalls(certified, wide, measure)
  {
    LeftProposed(at, certified, wide, measure);
    if !Complete(at, certified) {
      IncompleteStalls(at, certified, wide, measure);
    }
    if Stalls(certified, wide, measure) {
      StallsMeasured(at, certified, wide, measure, coarse, rough);
      HalfAt62(at, certified, wide, measure);
    }
  }

  lemma HalfAt62(at: Location, certified: int, wide: real, measure: nat -> Rung)
    requires Located(at, certified, wide, measure) && Stalls(certified, wide, measure)
    requires MAX_WIDTH in at.results && MAX_WIDTH - 1 in at.results
    ensures at.half == Some(MAX_WIDTH - 1) && certified > MAX_WIDTH + 1
  {
    hide IsLadder, StopsAtHalf, IsCleanTop, Proposed, ClimbsFrom;
  }

  /** A run that stalls: certified at 75 bits, every width with events, 63 bits alone above half. */
  lemma LocationMayStall(measure: nat -> Rung)
    requires forall w: nat :: measure(w) == if w >= MAX_WIDTH then Rung(1, 70.0) else Rung(50, 30.0)
    ensures Monotone(measure) && Exact(measure, 70.0) && Stalls(75, 70.0, measure)
  {
    hide ClimbsFrom;
    assert FirstRung(73) == FirstRung(70) == FirstRung(67) == FirstRung(64) == 61;
  }

  /** The ladder of that run stops at its first rung, 61; 62 and 63 are added above it, and then 64 for good. */
  lemma RefineMayLeaveTheCap()
    ensures var results: Measured := map[63 := Rung(1, 70.0), 62 := Rung(50, 30.0), 61 := Rung(50, 30.0)];
      && IsHalfTop(results, 70.0, Some(62)) && IsCleanTop(results, None)
      && Proposed(results, None, Some(62), 75, 64) && !Admissible(64)
  {
    var results: Measured := map[63 := Rung(1, 70.0), 62 := Rung(50, 30.0), 61 := Rung(50, 30.0)];
    assert 63 in results && 62 in results && results[63].events > 0;
    SixtyFourProposed(results);
    hide Proposed;
  }

  lemma SixtyFourProposed(results: Measured)
    requires 63 in results && 64 !in results
    ensures Proposed(results, None, Some(62), 75, 64)
  {
    hide BesideEvents;
    assert BesideHalf(results, Some(62), 64);
  }

  /** Exactly 62 at half beside a measured 63 makes refine propose a width above 63 bits. */
  lemma RefineAdmissible(results: Measured, clean: Option<nat>, half: Option<nat>, certified: int)
    requires forall w :: w in results ==> MIN_WIDTH <= w <= MinInt(certified - 1, MAX_WIDTH)
    requires (clean.Some? ==> clean.value in results) && (half.Some? ==> half.value in results)
    ensures (forall w: nat :: Proposed(results, clean, half, certified, w) ==> w <= MAX_WIDTH)
       <==> !(half == Some(62) && 63 in results && certified > 64)
  {
    if half == Some(62) && 63 in results && certified > 64 {
      assert Proposed(results, clean, half, certified, 64);
    }
  }

  // ----- the location phase -----

  /** Refinements of the measured ladder until no proposed width can be measured. */
  method Settle(certified: int, wide: real, measure: nat -> Rung, ladder: seq<nat>, m: nat, coarse: Measured)
    returns (known: Measured, widths: seq<nat>, ghost at: Location, ghost rough: Option<nat>)
    requires IsLadder(ladder, certified) && m <= |ladder| && StopsAtHalf(ladder, m, wide, measure)
    requires Faithful(coarse, measure) && FirstRungs(coarse, ladder, m)
    ensures Located(at, certified, wide, measure) && at == Location(ladder, m, known, at.clean, at.half)
    ensures forall w :: w in widths <==> Proposed(known, at.clean, at.half, certified, w)
    ensures Explained(ladder, m, known, wide, measure)
    ensures IsCleanTop(coarse, rough) && FillsGap(coarse, rough, certified, known)
  {
    hide BesideEvents, BesideHalf, IsHalfTop, IsCleanTop, Descending, Explained, Climbed, IsLadder, StopsAtHalf,
         Proposed, Faithful, FirstRungs;
    CoarseWidths(certified, ladder, m, coarse);
    CoarseExplained(ladder, m, coarse, wide, measure);
    ghost var c, h;
    known := coarse;
    widths, c, h := Refine(known, wide, certified);
    rough := c;
    GapProposed(coarse, c, h, certified);
    while exists i :: 0 <= i < |widths| && widths[i] <= MAX_WIDTH
      invariant Faithful(known, measure) && (forall w :: w in coarse ==> w in known)
      invariant forall i :: 0 <= i < m ==> ladder[i] in known
      invariant forall w :: w in known ==> |ladder| > 0 && w < certified
      invariant IsCleanTop(known, c) && IsHalfTop(known, wide, h)
      invariant (c.Some? ==> c.value in known) && (h.Some? ==> h.value in known)
      invariant forall w :: w in widths <==> Proposed(known, c, h, certified, w)
      invariant Explained(ladder, m, known, wide, measure)
      invariant forall w: nat :: MIN_WIDTH <= w <= Cap(certified) && BesideEvents(coarse, rough, certified, w) ==>
        w in known || w in widths
      decreases Range(0, certified) - known.Keys
    {
      ghost var before := Location(ladder, m, known, c, h);
      ghost var i :| 0 <= i < |widths| && widths[i] <= MAX_WIDTH;
      assert widths[i] in widths;
      known := MeasureWidths(known, widths, measure);
      ProposedBelow(before, certified, widths, i);
      assert widths[i] in known && widths[i] !in before.results;
      ExplainedStep(before, certified, wide, measure, widths, known);
      widths, c, h := Refine(known, wide, certified);
    }
    assert forall w :: w in widths ==> w > MAX_WIDTH;
    at := Location(ladder, m, known, c, h);
  }

  lemma GapProposed(coarse: Measured, rough: Option<nat>, half: Option<nat>, certified: int)
    ensures forall w: nat :: MIN_WIDTH <= w <= Cap(certified) && BesideEvents(coarse, rough, certified, w) ==>
      w in coarse || Proposed(coarse, rough, half, certified, w)
  {
  }

  lemma ProposedBelow(at: Location, certified: int, widths: seq<nat>, i: nat)
    requires forall w :: w in widths ==> Proposed(at.results, at.clean, at.half, certified, w)
    requires (at.clean.Some? ==> at.clean.value in at.results) && (at.half.Some? ==> at.half.value in at.results)
    requires i < |widths|
    ensures forall w :: w in widths ==> MIN_WIDTH <= w < certified && w !in at.results
    ensures exists w :: w in at.results
    ensures widths[i] in widths
  {
    var w: nat := widths[i];
    assert Proposed(at.results, at.clean, at.half, certified, w);
    if at.results.Keys != {} {
      var x :| x in at.results.Keys;
      assert x in at.results;
    }
  }

  /**
   The location phase: the ladder, its refinements, and the bracket, which is
   defined only once nothing is proposed. When some measured rung had an event,
   the top of the bracket is the narrowest event-free width.
   */
  method Locate(certified: int, wide: real, measure: nat -> Rung)
    returns (bracket: Option<(nat, nat)>, ghost at: Location)
    requires Monotone(measure)
    ensures Located(at, certified, wide, measure)
    ensures bracket.Some? <==> Complete(at, certified)
    ensures Exact(measure, wide) ==> (bracket.Some? <==> certified >= 4 && !Stalls(certified, wide, measure))
    ensures bracket.Some? ==>
      && IsBracket(at, certified, bracket.value)
      && HalfTransition(at, certified, wide, measure)
      && (Eventful(at.rungs, at.m, measure) ==> FoundTransition(measure, certified, bracket.value.1))
  {
    var ladder := Ladder(certified);
    LadderWidths(ladder, certified);
    hide FoundTransition, Monotone, IsHalfTop, IsCleanTop, Exact, Stalls, HalfTransition, Explained, FillsGap, IsLadder,
         Proposed, Faithful, StopsAtHalf, FirstRungs, Cap, MinInt, MaxInt, Eventful, IsBracket, IsNarrowest,
         Complete, Located;
    var coarse, m := MeasureLadder(ladder, wide, measure);
    ghost var rough;
    var known, widths;
    known, widths, at, rough := Settle(certified, wide, measure, ladder, m, coarse);
    LadderMeasured(at, certified, wide, measure);
    NothingLeft(at, certified, widths);
    if Exact(measure, wide) && |ladder| > 0 {
      CompleteIff(at, certified, wide, measure, coarse, rough);
    }
    if |ladder| == 0 || widths != [] {
      return None, at;
    }
    HalfSettled(at, certified, wide, measure);
    var bottom, top := Conclude(certified, wide, measure, known, at);
    if Eventful(ladder, m, measure) {
      RefinedTop(certified, ladder, m, coarse, rough, known, at.clean, measure);
    }
    bracket := Some((bottom, top));
  }

  /** The bracket of a completed location. */
  method Conclude(certified: int, wide: real, measure: nat -> Rung, known: Measured, ghost at: Location)
    returns (bottom: nat, top: nat)
    requires Located(at, certified, wide, measure) && known == at.results && known.Keys != {}
    ensures IsBracket(at, certified, (bottom, top))
    ensures top == MinInt(at.clean.GetOr(Cap(certified)), Cap(certified))
  {
    hide Located, IsCleanTop, IsHalfTop, Faithful, IsLadder, StopsAtHalf, MinInt, MaxInt, Cap, IsBracket, IsNarrowest;
    LadderMeasured(at, certified, wide, measure);
    ghost var clean, half, narrowest;
    bottom, top, clean, half, narrowest := Bracket(known, wide, certified);
    TopsUnique(known, wide, at.clean, clean, at.half, half);
    BracketMeaning(at, certified, bottom, top, narrowest);
  }

  lemma BracketMeaning(at: Location, certified: int, bottom: nat, top: nat, narrowest: nat)
    requires MIN_WIDTH <= bottom <= top <= Cap(certified) && IsNarrowest(at.results, narrowest)
    requires top == MinInt(at.clean.GetOr(Cap(certified)), Cap(certified))
    requires bottom == MinInt(MaxInt(MIN_WIDTH, at.half.GetOr(narrowest) - BOTTOM_MARGIN), top)
    ensures IsBracket(at, certified, (bottom, top))
  {
  }

  lemma NothingLeft(at: Location, certified: int, widths: seq<nat>)
    requires forall w :: w in widths <==> Proposed(at.results, at.clean, at.half, certified, w)
    ensures Complete(at, certified) <==> at.results.Keys != {} && widths == []
  {
    hide Proposed;
    assert widths != [] ==> widths[0] in widths;
  }

  lemma LadderWidths(rungs: seq<nat>, certified: int)
    requires IsLadder(rungs, certified)
    ensures forall i :: 0 <= i < |rungs| ==> Admissible(rungs[i])
    ensures |rungs| > 0 <==> certified >= 4
  {
    assert |rungs| > 0 ==> rungs[0] == FirstRung(certified - 2);
  }

  lemma LadderMeasured(at: Location, certified: int, wide: real, measure: nat -> Rung)
    requires Located(at, certified, wide, measure)
    ensures IsLadder(at.rungs, certified) && StopsAtHalf(at.rungs, at.m, wide, measure)
    ensures at.m <= |at.rungs| && (|at.rungs| > 0 ==> at.m > 0)
    ensures Faithful(at.results, measure) && IsCleanTop(at.results, at.clean) && IsHalfTop(at.results, wide, at.half)
    ensures forall i :: 0 <= i < at.m ==> at.rungs[i] in at.results
    ensures |at.rungs| > 0 <==> at.results.Keys != {}
    ensures forall w :: w in at.results ==> MIN_WIDTH <= w < certified
  {
    hide IsLadder, IsCleanTop, IsHalfTop, Proposed;
    assert |at.rungs| > 0 ==> at.rungs[0] in at.results;
  }

  lemma CoarseWidths(certified: int, ladder: seq<nat>, m: nat, coarse: Measured)
    requires IsLadder(ladder, certified) && m <= |ladder| && FirstRungs(coarse, ladder, m)
    ensures forall w :: w in coarse ==> |ladder| > 0 && w < certified
    ensures forall i :: 0 <= i < m ==> ladder[i] in coarse
  {
    forall w | w in coarse
      ensures |ladder| > 0 && w < certified
    {
      var i := RungOf(certified, coarse, ladder, m, w);
    }
  }

  lemma CoarseExplained(rungs: seq<nat>, m: nat, coarse: Measured, wide: real, measure: nat -> Rung)
    requires m <= |rungs| && FirstRungs(coarse, rungs, m)
    ensures Explained(rungs, m, coarse, wide, measure)
  {
  }

  // ----- the screening extensions -----

  function ExtendTop(top: nat, eventsAtTop: bool, certified: int): Option<nat> {
    if eventsAtTop && top + 1 < certified && top + 1 <= MAX_WIDTH then Some(top + 1) else None
  }

  /** The widest width of [bottom, top] at or below half. */
  function WidestHalf(bottom: nat, top: nat, wide: real, measure: nat -> Rung): (half: Option<nat>)
    ensures half.Some? ==> bottom <= half.value <= top && measure(half.value).AtMostHalf(wide)
    ensures forall w: nat :: bottom <= w <= top && measure(w).AtMostHalf(wide) ==> half.Some? && w <= half.value
    decreases top
  {
    if top < bottom then None
    else if measure(top).percent <= wide / 2.0 then Some(top)
    else if top == 0 then None
    else WidestHalf(bottom, top - 1, wide, measure)
  }

  /** extend_bottom on the contiguous bracket [bottom, top]. */
  function ExtendBottom(bottom: nat, top: nat, wide: real, measure: nat -> Rung): Option<nat> {
    if bottom <= MIN_WIDTH then None
    else
      var half := WidestHalf(bottom, top, wide, measure);
      if half.None? || half.value - bottom < BOTTOM_MARGIN then Some(bottom - 1) else None
  }

  /** The bracket [w, t] has no two widths below one at or below half. */
  ghost predicate TooShort(w: int, t: nat, wide: real, measure: nat -> Rung) {
    forall v: nat :: w <= v <= t && measure(v).AtMostHalf(wide) ==> v < w + BOTTOM_MARGIN
  }

  /** At some top reached between the two, the bracket from w was still too short. */
  ghost predicate Lacking(w: int, top: nat, high: nat, wide: real, measure: nat -> Rung) {
    exists t: nat :: top <= t <= high && TooShort(w, t, wide, measure)
  }

  lemma LackingBelow(low: nat, top: nat, high: nat, wide: real, measure: nat -> Rung)
    requires top <= high && ExtendBottom(low, high, wide, measure).Some?
    ensures Lacking(low, top, high, wide, measure)
  {
    var half := WidestHalf(low, high, wide, measure);
    forall v: nat | low <= v <= high && measure(v).AtMostHalf(wide)
      ensures v < low + BOTTOM_MARGIN
    {
      assert half.Some? && v <= half.value;
    }
    assert TooShort(low, high, wide, measure);
  }

  /**
   Both extensions applied until neither adds a width: the bracket ends
   event-free or at the cap, and with two widths below half or at two bits.
   */
  method Screen(certified: int, wide: real, measure: nat -> Rung, bottom: nat, top: nat) returns (low: nat, high: nat)
    requires MIN_WIDTH <= bottom <= top <= Cap(certified)
    ensures MIN_WIDTH <= low <= bottom && top <= high <= Cap(certified)
    ensures measure(high).events == 0 || high == Cap(certified)
    ensures forall w: nat :: top <= w < high ==> measure(w).events > 0
    ensures low == MIN_WIDTH
      || exists half: nat :: low + BOTTOM_MARGIN <= half <= high && measure(half).AtMostHalf(wide)
           && forall w: nat :: half < w <= high ==> !measure(w).AtMostHalf(wide)
    ensures low < bottom ==> Lacking(low + 1, top, high, wide, measure)
  {
    low, high := bottom, top;
    while true
      invariant MIN_WIDTH <= low <= bottom && top <= high <= Cap(certified)
      invariant forall w: nat :: top <= w < high ==> measure(w).events > 0
      invariant low < bottom ==> Lacking(low + 1, top, high, wide, measure)
      decreases Cap(certified) - high, low
    {
      var up := ExtendTop(high, measure(high).events > 0, certified);
      var down := ExtendBottom(low, high, wide, measure);
      if up.None? && down.None? {
        break;
      }
      if down.Some? {
        LackingBelow(low, top, high, wide, measure);
      }
      high, low := up.GetOr(high), down.GetOr(low);
    }
  }
}
