/**
 Widths read off measured settings: the "from upward" thresholds of a family
 and the hardware widths that need no run of their own.
 */
module DerivedWidths {
  import opened SaturatingRegister
  import opened WidthCertificate
  import opened GraphRun
  import opened Results
  import WidthPlan

  const HARDWARE_WIDTHS: seq<nat> := [16, 20, 24, 28, 32]

  datatype Setting = Setting(events: nat, changed: nat, percent: real)

  type Grid = map<nat, Setting>

  /** A register width is safer when larger, a per-node deficit when smaller. */
  predicate Safer(s: nat, t: nat, saferIsLarger: bool) {
    if saferIsLarger then s > t else s < t
  }

  /** Which is so for every pair of settings: of two different ones exactly one is safer. */
  lemma SaferOrder(s: nat, t: nat, saferIsLarger: bool)
    ensures Safer(s, t, true) <==> s > t
    ensures Safer(s, t, false) <==> s < t
    ensures s != t ==> (Safer(s, t, saferIsLarger) <==> !Safer(t, s, saferIsLarger))
  {
  }

  ghost predicate SafestFirst(order: seq<nat>, grid: Grid, saferIsLarger: bool) {
    && (forall i, j :: 0 <= i < j < |order| ==> Safer(order[i], order[j], saferIsLarger))
    && (forall s :: s in order <==> s in grid)
  }

  /** The condition holds at s and at every measured setting that is safer. */
  ghost predicate FromUpward(grid: Grid, ok: Setting -> bool, saferIsLarger: bool, s: nat) {
    s in grid && ok(grid[s]) && forall t :: t in grid && Safer(t, s, saferIsLarger) ==> ok(grid[t])
  }

  /** narrowest: the least safe setting from which upward the condition holds. */
  method Narrowest(grid: Grid, order: seq<nat>, ok: Setting -> bool, saferIsLarger: bool) returns (best: Option<nat>)
    requires SafestFirst(order, grid, saferIsLarger)
    ensures best.None? ==> forall s :: s in grid ==> !FromUpward(grid, ok, saferIsLarger, s)
    ensures best.Some? ==> FromUpward(grid, ok, saferIsLarger, best.value)
    ensures best.Some? ==> forall s :: FromUpward(grid, ok, saferIsLarger, s) ==> !Safer(best.value, s, saferIsLarger)
  {
    assert forall i :: 0 <= i < |order| ==> order[i] in order && order[i] in grid;
    best := None;
    for n := 0 to |order|
      invariant best == if n == 0 then None else Some(order[n - 1])
      invariant forall i :: 0 <= i < n ==> ok(grid[order[i]])
    {
      if !ok(grid[order[n]]) {
        Stopped(grid, order, ok, saferIsLarger, n);
        return;
      }
      best := Some(order[n]);
    }
    Stopped(grid, order, ok, saferIsLarger, |order|);
  }

  /** Stopping at the first failing setting leaves the last passing one as the answer. */
  lemma Stopped(grid: Grid, order: seq<nat>, ok: Setting -> bool, saferIsLarger: bool, n: nat)
    requires SafestFirst(order, grid, saferIsLarger) && n <= |order|
    requires forall i :: 0 <= i < n ==> order[i] in grid && ok(grid[order[i]])
    requires n < |order| ==> order[n] in grid && !ok(grid[order[n]])
    ensures n > 0 ==> FromUpward(grid, ok, saferIsLarger, order[n - 1])
    ensures forall s :: FromUpward(grid, ok, saferIsLarger, s) ==> n > 0 && !Safer(order[n - 1], s, saferIsLarger)
  {
    if n > 0 {
      forall t | t in grid && Safer(t, order[n - 1], saferIsLarger)
        ensures ok(grid[t])
      {
        var i :| 0 <= i < |order| && order[i] == t;
      }
    }
    forall s | FromUpward(grid, ok, saferIsLarger, s)
      ensures n > 0 && !Safer(order[n - 1], s, saferIsLarger)
    {
      var i :| 0 <= i < |order| && order[i] == s;
      assert i < n;
    }
  }

  /** Measured widths have monotone events with larger ones safer, deficits from one width with smaller ones safer. */
  lemma MeasuredSettings(grid: Grid, full: nat, measure: nat -> WidthPlan.Rung)
    requires WidthPlan.Monotone(measure)
    ensures (forall w :: w in grid ==> WidthPlan.Admissible(w) && grid[w].events == measure(w).events) ==>
      EventsMonotone(grid, true)
    ensures (forall d :: d in grid ==>
               d <= full && WidthPlan.Admissible(full - d) && grid[d].events == measure(full - d).events) ==>
      EventsMonotone(grid, false)
  {
  }

  predicate NoEvent(g: Setting) { g.events == 0 }

  /** Whether a setting is event-free depends monotonically on how safe it is. */
  ghost predicate EventsMonotone(grid: Grid, saferIsLarger: bool) {
    forall s, t :: s in grid && t in grid && Safer(s, t, saferIsLarger) && grid[t].events == 0 ==> grid[s].events == 0
  }

  /** noevent: with monotone events, the least safe event-free measured setting. */
  method NoEventThreshold(grid: Grid, order: seq<nat>, saferIsLarger: bool) returns (noevent: Option<nat>)
    requires SafestFirst(order, grid, saferIsLarger) && EventsMonotone(grid, saferIsLarger)
    ensures noevent.None? <==> forall s :: s in grid ==> grid[s].events > 0
    ensures noevent.Some? ==>
      && noevent.value in grid && grid[noevent.value].events == 0
      && forall s :: s in grid && grid[s].events == 0 ==> !Safer(noevent.value, s, saferIsLarger)
  {
    noevent := Narrowest(grid, order, NoEvent, saferIsLarger);
    forall s | s in grid && grid[s].events == 0
      ensures FromUpward(grid, NoEvent, saferIsLarger, s)
    {
    }
  }

  /** hardware_derived: the hardware widths above an event-free width or at the certified one. */
  function HardwareDerived(certified: int, topNoEvent: Option<nat>): seq<nat> {
    Kept(HARDWARE_WIDTHS, certified, topNoEvent)
  }

  /** Of the widths 16, 20, 24, 28 and 32, exactly those above an event-free width or at least the certified one. */
  lemma HardwareWidths(certified: int, topNoEvent: Option<nat>, w: nat)
    ensures w in HardwareDerived(certified, topNoEvent) <==>
      16 <= w <= 32 && w % 4 == 0 && ((topNoEvent.Some? && w > topNoEvent.value) || w >= certified)
  {
    hide Kept;
    var candidates := HARDWARE_WIDTHS;
    assert candidates[0] == 16 && candidates[1] == 20 && candidates[2] == 24 && candidates[3] == 28;
    assert candidates[4] == 32;
  }

  function Kept(widths: seq<nat>, certified: int, topNoEvent: Option<nat>): (kept: seq<nat>)
    ensures forall w :: w in kept <==>
      w in widths && ((topNoEvent.Some? && w > topNoEvent.value) || w >= certified)
  {
    if |widths| == 0 then []
    else
      var rest := Kept(widths[1..], certified, topNoEvent);
      assert widths == [widths[0]] + widths[1..];
      if (topNoEvent.Some? && widths[0] > topNoEvent.value) || widths[0] >= certified then [widths[0]] + rest else rest
  }

  /**
   Every derived hardware width gives the exact arm at every node, on every
   input of the screen: above an event-free width by monotonicity, from the
   certified width upward by the weights' own bound.
   */
  lemma HardwareDerivedIsExact(units: Layer -> MacUnits, finish: (Layer, nat, int) -> Option<nat>, nodes: seq<Node>,
                               decode: nat -> real, images: seq<Environment>, topNoEvent: Option<nat>, w: nat)
    requires w in HardwareDerived(NetworkBits(units, nodes), topNoEvent)
    requires forall n :: 0 <= n < |nodes| && nodes[n].Mac? ==> units(nodes[n].layer).Covers(decode)
    requires topNoEvent.Some? ==>
      && topNoEvent.value >= 1
      && forall i :: 0 <= i < |images| ==> QuietRun(Path(units, finish), topNoEvent.value, nodes, decode, images[i])
    ensures w >= 1 && forall i :: 0 <= i < |images| ==>
      QuietRun(Path(units, finish), w, nodes, decode, images[i])
      && Run(nodes, Path(units, finish).Saturated(w), decode, images[i])
         == Run(nodes, Path(units, finish).Wide(), decode, images[i])
  {
    hide QuietRun, Run, Path, NetworkBits, MacUnits.Covers;
    var path := Path(units, finish);
    forall i | 0 <= i < |images|
      ensures QuietRun(path, w, nodes, decode, images[i])
           && Run(nodes, path.Saturated(w), decode, images[i]) == Run(nodes, path.Wide(), decode, images[i])
    {
      if w >= NetworkBits(units, nodes) {
        CertifiedRunIsQuiet(units, finish, w, nodes, decode, images[i]);
        QuietRunIsExact(path, w, nodes, decode, images[i]);
      } else {
        QuietRunsWiden(path, topNoEvent.value, w, nodes, decode, images[i]);
      }
    }
  }

  /** How many inputs have some event at width w. */
  ghost function ImagesWithEvent(path: Datapath, w: Width, nodes: seq<Node>, decode: nat -> real,
                                 images: seq<Environment>): nat {
    if |images| == 0 then 0
    else
      ImagesWithEvent(path, w, nodes, decode, images[..|images| - 1])
      + if QuietRun(path, w, nodes, decode, images[|images| - 1]) then 0 else 1
  }

  ghost function Noisy(path: Datapath, w: Width, nodes: seq<Node>, decode: nat -> real, images: seq<Environment>)
    : set<nat>
  {
    set i: nat | i < |images| && !QuietRun(path, w, nodes, decode, images[i])
  }

  /** It is the number of inputs whose run is not quiet. */
  lemma {:induction false} ImagesCounted(path: Datapath, w: Width, nodes: seq<Node>, decode: nat -> real,
                                         images: seq<Environment>)
    ensures ImagesWithEvent(path, w, nodes, decode, images) == |Noisy(path, w, nodes, decode, images)|
  {
    hide QuietRun;
    if |images| > 0 {
      var k := |images| - 1;
      ImagesCounted(path, w, nodes, decode, images[..k]);
      var before, after := Noisy(path, w, nodes, decode, images[..k]), Noisy(path, w, nodes, decode, images);
      assert k !in before && forall i: nat :: i < k ==> images[..k][i] == images[i];
      if QuietRun(path, w, nodes, decode, images[k]) {
        assert after == before;
      } else {
        assert after == before + {k};
      }
    }
  }

  lemma {:induction false} EventFreeImages(path: Datapath, w: Width, nodes: seq<Node>, decode: nat -> real,
                                           images: seq<Environment>)
    ensures ImagesWithEvent(path, w, nodes, decode, images) == 0
       <==> forall i :: 0 <= i < |images| ==> QuietRun(path, w, nodes, decode, images[i])
  {
    hide QuietRun;
    if |images| > 0 {
      EventFreeImages(path, w, nodes, decode, images[..|images| - 1]);
    }
  }

  /** The codes of every input's run. */
  ghost function Runs(nodes: seq<Node>, store: Store, decode: nat -> real, images: seq<Environment>): seq<Environment> {
    seq(|images|, i requires 0 <= i < |images| => Run(nodes, store, decode, images[i]))
  }

  /** The measurement of a width: images with an event, and a score of the codes of all runs. */
  ghost predicate Measures(path: Datapath, nodes: seq<Node>, decode: nat -> real, images: seq<Environment>,
                           score: seq<Environment> -> real, measure: nat -> WidthPlan.Rung)
  {
    forall w: nat :: WidthPlan.Admissible(w) ==>
      measure(w) == WidthPlan.Rung(ImagesWithEvent(path, w, nodes, decode, images),
                                   score(Runs(nodes, path.Saturated(w), decode, images)))
  }

  /**
   Measurements of whole runs have what the location phase relies on: monotone
   events, and the exact score without them.
   */
  lemma MeasurementsAreMonotone(path: Datapath, nodes: seq<Node>, decode: nat -> real, images: seq<Environment>,
                                score: seq<Environment> -> real, measure: nat -> WidthPlan.Rung)
    requires Measures(path, nodes, decode, images, score, measure)
    ensures WidthPlan.Monotone(measure)
    ensures WidthPlan.Exact(measure, score(Runs(nodes, path.Wide(), decode, images)))
  {
    hide QuietRun, ImagesWithEvent, Runs;
    forall v: nat, w: nat | WidthPlan.MIN_WIDTH <= v <= w <= WidthPlan.MAX_WIDTH && measure(v).events == 0
      ensures measure(w).events == 0
    {
      EventFreeImages(path, v, nodes, decode, images);
      EventFreeImages(path, w, nodes, decode, images);
      forall i | 0 <= i < |images|
        ensures QuietRun(path, w, nodes, decode, images[i])
      {
        QuietRunsWiden(path, v, w, nodes, decode, images[i]);
      }
    }
    forall w: nat | WidthPlan.Admissible(w) && measure(w).events == 0
      ensures measure(w).percent == score(Runs(nodes, path.Wide(), decode, images))
    {
      EventFreeImages(path, w, nodes, decode, images);
      QuietRunsExact(path, w, nodes, decode, images);
    }
  }

  lemma QuietRunsExact(path: Datapath, w: Width, nodes: seq<Node>, decode: nat -> real, images: seq<Environment>)
    requires forall i :: 0 <= i < |images| ==> QuietRun(path, w, nodes, decode, images[i])
    ensures Runs(nodes, path.Saturated(w), decode, images) == Runs(nodes, path.Wide(), decode, images)
  {
    hide QuietRun, Run;
    forall i | 0 <= i < |images|
      ensures Run(nodes, path.Saturated(w), decode, images[i]) == Run(nodes, path.Wide(), decode, images[i])
    {
      QuietRunIsExact(path, w, nodes, decode, images[i]);
    }
  }
}
