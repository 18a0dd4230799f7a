/**
 The W-bit saturating register: end-point saturation after every add, its
 events, and why a run without events at one width is the exact run at every
 wider one, over a reduction and over a whole network.
 */
module SaturatingRegister {
  import opened ExactArithmetic
  import opened IntegerSum
  import opened Quantum
  import opened GraphRun
  import opened Results

  type Width = w: nat | w >= 1 witness 1

  function High(w: Width): int { IntPow2(w - 1) - 1 }

  function Low(w: Width): int { -High(w) - 1 }

  predicate Fits(w: Width, v: int) { Low(w) <= v <= High(w) }

  function Saturate(w: Width, v: int): int {
    if v > High(w) then High(w) else if v < Low(w) then Low(w) else v
  }

  /** One clamped add leaves the number of the register's range nearest to the exact sum. */
  lemma SaturateNearest(w: Width, v: int, x: int)
    requires Fits(w, x)
    ensures Fits(w, Saturate(w, v)) && AbsInt(Saturate(w, v) - v) <= AbsInt(x - v)
    ensures Fits(w, v) ==> Saturate(w, v) == v
  {
    hide High;
  }

  /** saturating: the register value after all terms. */
  function Register(w: Width, terms: seq<int>): int {
    if |terms| == 0 then 0 else Saturate(w, Register(w, terms[..|terms| - 1]) + terms[|terms| - 1])
  }

  /** The adds clamped at the high end. */
  function HighClamps(w: Width, terms: seq<int>): nat {
    if |terms| == 0 then 0
    else
      var k := |terms| - 1;
      HighClamps(w, terms[..k]) + if Register(w, terms[..k]) + terms[k] > High(w) then 1 else 0
  }

  /** The adds clamped at the low end. */
  function LowClamps(w: Width, terms: seq<int>): nat {
    if |terms| == 0 then 0
    else
      var k := |terms| - 1;
      LowClamps(w, terms[..k]) + if Register(w, terms[..k]) + terms[k] < Low(w) then 1 else 0
  }

  function Events(w: Width, terms: seq<int>): nat { HighClamps(w, terms) + LowClamps(w, terms) }

  lemma EventsStep(w: Width, terms: seq<int>)
    requires |terms| > 0
    ensures var k := |terms| - 1;
      Events(w, terms) == Events(w, terms[..k]) + if Fits(w, Register(w, terms[..k]) + terms[k]) then 0 else 1
  {
    RangeOrdered(w);
    hide High;
  }

  /** The value always fits, and is the number of the range nearest to the last exact sum. */
  lemma RegisterNearest(w: Width, terms: seq<int>, x: int)
    requires Fits(w, x)
    ensures Fits(w, Register(w, terms))
    ensures |terms| > 0 ==>
      var exact := Register(w, terms[..|terms| - 1]) + terms[|terms| - 1];
      AbsInt(Register(w, terms) - exact) <= AbsInt(x - exact)
  {
    RangeHoldsZero(w);
    if |terms| > 0 {
      SaturateNearest(w, Register(w, terms[..|terms| - 1]) + terms[|terms| - 1], x);
    }
    hide High, Saturate;
  }

  /** The last add is counted upward exactly above 2^(w-1) - 1 and then ends there, downward exactly below -2^(w-1). */
  lemma LastClamp(w: Width, terms: seq<int>)
    requires |terms| > 0
    ensures var (head, top) := (terms[..|terms| - 1], IntPow2(w - 1) - 1);
      var exact := Register(w, head) + terms[|terms| - 1];
      && HighClamps(w, terms) == HighClamps(w, head) + (if exact > top then 1 else 0)
      && LowClamps(w, terms) == LowClamps(w, head) + (if exact < 0 - IntPow2(w - 1) then 1 else 0)
      && (exact > top ==> Register(w, terms) == top)
      && (exact < 0 - IntPow2(w - 1) ==> Register(w, terms) == 0 - IntPow2(w - 1))
  {
    hide IntPow2;
  }

  lemma RangeOrdered(w: Width)
    ensures Low(w) <= High(w)
  {
  }

  /** The register loop with its two clamp counters. */
  method Saturating(w: Width, terms: seq<int>) returns (total: int, up: nat, down: nat)
    ensures total == Register(w, terms) && up == HighClamps(w, terms) && down == LowClamps(w, terms)
    ensures up + down == 0 ==> total == IntSum(terms)
    ensures Fits(w, total)
    ensures |terms| > 0 && up > HighClamps(w, terms[..|terms| - 1]) ==> total == IntPow2(w - 1) - 1
    ensures |terms| > 0 && down > LowClamps(w, terms[..|terms| - 1]) ==> total == 0 - IntPow2(w - 1)
  {
    var hi := IntPow2(w - 1) - 1;
    var lo := -hi - 1;
    hide IntPow2;
    RangeOrdered(w);
    total, up, down := 0, 0, 0;
    for n := 0 to |terms|
      invariant total == Register(w, terms[..n]) && up == HighClamps(w, terms[..n]) && down == LowClamps(w, terms[..n])
    {
      assert terms[..n + 1][..n] == terms[..n];
      total := total + terms[n];
      if total > hi {
        total, up := hi, up + 1;
      } else if total < lo {
        total, down := lo, down + 1;
      }
    }
    assert terms[..|terms|] == terms;
    if up + down == 0 {
      QuietIsExact(w, terms);
    }
    RangeHoldsZero(w);
    RegisterNearest(w, terms, 0);
    if |terms| > 0 {
      LastClamp(w, terms);
    }
  }

  lemma {:induction false} QuietIsExact(w: Width, terms: seq<int>)
    requires Events(w, terms) == 0
    ensures Register(w, terms) == IntSum(terms)
  {
    hide High, Events;
    if |terms| > 0 {
      EventsStep(w, terms);
      QuietIsExact(w, terms[..|terms| - 1]);
    }
  }

  /** There is no event exactly when every exact prefix sum fits the register. */
  lemma {:induction false} QuietIffPrefixesFit(w: Width, terms: seq<int>)
    ensures Events(w, terms) == 0 <==> forall n :: 0 <= n <= |terms| ==> Fits(w, IntSum(terms[..n]))
  {
    RangeHoldsZero(w);
    hide High, Events;
    EmptyQuiet(w);
    if |terms| > 0 {
      var k := |terms| - 1;
      var head := terms[..k];
      EventsStep(w, terms);
      QuietIffPrefixesFit(w, head);
      assert forall n :: 0 <= n <= k ==> head[..n] == terms[..n];
      assert terms[..|terms|] == terms;
      if Events(w, head) == 0 {
        QuietIsExact(w, head);
      }
    }
  }

  lemma RangeHoldsZero(w: Width)
    ensures Fits(w, 0)
  {
  }

  lemma EmptyQuiet(w: Width)
    ensures Events(w, []) == 0
  {
  }

  lemma WiderFits(w: Width, wider: Width, v: int)
    requires w <= wider && Fits(w, v)
    ensures Fits(wider, v)
  {
    IntPow2Monotone(w - 1, wider - 1);
  }

  /** No event at one width, none at any wider one, and the same value. */
  lemma WiderIsQuiet(w: Width, wider: Width, terms: seq<int>)
    requires w <= wider && Events(w, terms) == 0
    ensures Events(wider, terms) == 0
    ensures Register(wider, terms) == Register(w, terms) == IntSum(terms)
  {
    hide Fits, Register, IntSum;
    QuietIffPrefixesFit(w, terms);
    forall n | 0 <= n <= |terms|
      ensures Fits(wider, IntSum(terms[..n]))
    {
      WiderFits(w, wider, IntSum(terms[..n]));
    }
    QuietIffPrefixesFit(wider, terms);
    QuietIsExact(w, terms);
    QuietIsExact(wider, terms);
  }

  // ----- whole networks -----

  /** The products of one output in grid units, and what is stored for its total. */
  datatype Datapath = Datapath(terms: (Layer, nat, seq<real>) -> seq<int>, finish: (Layer, nat, int) -> Option<nat>) {
    function Wide(): Store {
      (layer: Layer, channel: nat, xs: seq<real>) => finish(layer, channel, IntSum(terms(layer, channel, xs)))
    }

    function Saturated(w: Width): Store {
      (layer: Layer, channel: nat, xs: seq<real>) => finish(layer, channel, Register(w, terms(layer, channel, xs)))
    }
  }

  /** No output of the layer has an event on this tensor. */
  ghost predicate QuietLayer(path: Datapath, w: Width, layer: Layer, decode: nat -> real, tensor: Tensor) {
    forall o :: 0 <= o < |layer.outputs| ==>
      Events(w, path.terms(layer, layer.outputs[o].channel, Gather(decode, tensor, layer.outputs[o].taps))) == 0
  }

  /** The run at width w has no event at any node. */
  ghost predicate QuietRun(path: Datapath, w: Width, nodes: seq<Node>, decode: nat -> real, env: Environment) {
    forall n :: 0 <= n < |nodes| && nodes[n].Mac? ==>
      QuietLayer(path, w, nodes[n].layer, decode, Fed(nodes, path.Saturated(w), decode, env, n))
  }

  lemma QuietStores(path: Datapath, w: Width, layer: Layer, decode: nat -> real, tensor: Tensor)
    requires QuietLayer(path, w, layer, decode, tensor)
    ensures SameStores(layer, path.Saturated(w), path.Wide(), decode, tensor)
  {
    forall o | 0 <= o < |layer.outputs|
      ensures var xs := Gather(decode, tensor, layer.outputs[o].taps);
        path.Saturated(w)(layer, layer.outputs[o].channel, xs) == path.Wide()(layer, layer.outputs[o].channel, xs)
    {
      QuietIsExact(w, path.terms(layer, layer.outputs[o].channel, Gather(decode, tensor, layer.outputs[o].taps)));
    }
  }

  /** An event-free run is the exact run, node by node. */
  lemma QuietRunIsExact(path: Datapath, w: Width, nodes: seq<Node>, decode: nat -> real, env: Environment)
    requires QuietRun(path, w, nodes, decode, env)
    ensures Run(nodes, path.Saturated(w), decode, env) == Run(nodes, path.Wide(), decode, env)
  {
    forall n | 0 <= n < |nodes| && nodes[n].Mac?
      ensures SameStores(nodes[n].layer, path.Saturated(w), path.Wide(), decode,
                         Fed(nodes, path.Saturated(w), decode, env, n))
    {
      QuietStores(path, w, nodes[n].layer, decode, Fed(nodes, path.Saturated(w), decode, env, n));
    }
    RunsAgree(nodes, path.Saturated(w), path.Wide(), decode, env);
  }

  lemma QuietPrefix(path: Datapath, w: Width, nodes: seq<Node>, decode: nat -> real, env: Environment, k: nat)
    requires k <= |nodes| && QuietRun(path, w, nodes, decode, env)
    ensures QuietRun(path, w, nodes[..k], decode, env)
  {
    hide QuietLayer;
    forall n | 0 <= n < k && nodes[..k][n].Mac?
      ensures QuietLayer(path, w, nodes[..k][n].layer, decode, Fed(nodes[..k], path.Saturated(w), decode, env, n))
    {
      assert nodes[..k][..n] == nodes[..n];
    }
  }

  /**
   Monotonicity over a network: an event-free width makes every wider width
   event-free, although the wider run feeds its own stored codes forward.
   */
  lemma {:induction false} QuietRunsWiden(path: Datapath, w: Width, wider: Width, nodes: seq<Node>, decode: nat -> real,
                                          env: Environment)
    requires w <= wider && QuietRun(path, w, nodes, decode, env)
    ensures QuietRun(path, wider, nodes, decode, env)
    ensures Run(nodes, path.Saturated(wider), decode, env) == Run(nodes, path.Wide(), decode, env)
  {
    hide QuietLayer, Run;
    forall n | 0 <= n < |nodes| && nodes[n].Mac?
      ensures QuietLayer(path, wider, nodes[n].layer, decode, Fed(nodes, path.Saturated(wider), decode, env, n))
    {
      var head := nodes[..n];
      QuietPrefix(path, w, nodes, decode, env, n);
      QuietRunIsExact(path, w, head, decode, env);
      QuietRunsWiden(path, w, wider, head, decode, env);
      assert Fed(nodes, path.Saturated(wider), decode, env, n) == Fed(nodes, path.Saturated(w), decode, env, n);
      QuietLayerWidens(path, w, wider, nodes[n].layer, decode, Fed(nodes, path.Saturated(w), decode, env, n));
    }
    QuietRunIsExact(path, wider, nodes, decode, env);
  }

  lemma QuietLayerWidens(path: Datapath, w: Width, wider: Width, layer: Layer, decode: nat -> real, tensor: Tensor)
    requires w <= wider && QuietLayer(path, w, layer, decode, tensor)
    ensures QuietLayer(path, wider, layer, decode, tensor)
  {
    hide Events, Register;
    forall o | 0 <= o < |layer.outputs|
      ensures Events(wider, path.terms(layer, layer.outputs[o].channel, Gather(decode, tensor, layer.outputs[o].taps)))
           == 0
    {
      WiderIsQuiet(w, wider,
                   path.terms(layer, layer.outputs[o].channel, Gather(decode, tensor, layer.outputs[o].taps)));
    }
  }
}
