/**
 What the channel certificates mean for whole graphs in the other number systems,
 and for graphs that also average: settled layers compose to equal runs.
 */
module CertifiedGraphs {
  import opened FloatAccumulator
  import opened MacError
  import opened Quantum
  import opened Codebook
  import opened Operands
  import opened DyadicMac
  import opened PositMac
  import opened MarginMac
  import opened MappedMean
  import opened GraphRun
  import opened StoredGraph
  import opened Results

  // ----- posits with a quire -----

  function QuireStore(acc: Quire, format: Format): Store
    requires acc.Valid() && |format.codes| > 0
  {
    (layer: Layer, channel: nat, xs: seq<real>) =>
      if Addressed(layer, channel, xs) then
        Some(QuireCode(acc, format.Book(), Products(xs, Decoded(format.codes, layer.weight.Row(channel))),
                       layer.Bias(channel)))
      else None
  }

  /** Every channel of the layer has a proven quire certificate. */
  ghost predicate QuireCertified(acc: Quire, format: Format, layer: Layer)
    requires acc.Valid() && |format.codes| > 0
  {
    && layer.weight.Populated()
    && forall channel: nat :: channel < layer.weight.channels ==>
         QuireAgrees(acc, format.codes, format.Book(), layer.weight.Row(channel), layer.Bias(channel))
  }

  lemma QuireLayerSettled(acc: Quire, format: Format, layer: Layer)
    requires acc.Valid() && |format.codes| > 0 && QuireCertified(acc, format, layer)
    ensures LayerSettled(format, layer, ExactStore(format), QuireStore(acc, format))
  {
    hide QuireCode, ExactCode, Decode, Products, Decoded, FedFinite;
    forall tensor, o | FedFinite(format, layer, tensor) && 0 <= o < |layer.outputs|
      ensures var xs := Gather(Decode(format), tensor, layer.outputs[o].taps);
        ExactStore(format)(layer, layer.outputs[o].channel, xs)
        == QuireStore(acc, format)(layer, layer.outputs[o].channel, xs)
    {
      GatheredOperands(format, layer, tensor, o);
    }
  }

  /** A graph of proven posit channels stores the exact codes at every node. */
  lemma QuireGraphAgrees(acc: Quire, format: Format, nodes: seq<Node>, env: Environment)
    requires acc.Valid() && |format.codes| > 0
    requires forall n :: 0 <= n < |nodes| && nodes[n].Mac? ==> QuireCertified(acc, format, nodes[n].layer)
    requires FiniteRun(format, nodes, ExactStore(format), env)
    ensures Run(nodes, ExactStore(format), Decode(format), env)
         == Run(nodes, QuireStore(acc, format), Decode(format), env)
  {
    hide QuireCertified, LayerSettled, Decode, ExactStore, QuireStore, FiniteRun;
    forall n | 0 <= n < |nodes| && nodes[n].Mac?
      ensures LayerSettled(format, nodes[n].layer, ExactStore(format), QuireStore(acc, format))
    {
      QuireLayerSettled(acc, format, nodes[n].layer);
    }
    SettledGraphAgrees(format, nodes, ExactStore(format), QuireStore(acc, format), env);
  }

  // ----- scaled binary and ternary -----

  /** The encodings around one layer; tensors hold unscaled codes, the layer knows the scales. */
  datatype Encodings = Encodings(x: Mapped, w: Mapped, out: Mapped) {
    predicate Valid(format: Format) { x.Valid() && w.Valid() && out.Valid() && x.codes == format.codes }

    function Terms(layer: Layer, channel: nat, us: seq<real>): seq<real>
      requires x.Valid() && w.Valid() && Addressed(layer, channel, us)
    {
      var ws := Decoded(w.codes, layer.weight.Row(channel));
      Products(ScaledValues(us, x.Scale(0)), ScaledValues(ws, w.Scale(channel)))
    }
  }

  function MappedExact(encodings: Layer -> Encodings, format: Format): Store {
    (layer: Layer, channel: nat, us: seq<real>) =>
      if encodings(layer).Valid(format) && Addressed(layer, channel, us) then
        Some(StoreMapped(encodings(layer).out,
                         Sum(encodings(layer).Terms(layer, channel, us)) + layer.Bias(channel).GetOr(0.0)))
      else None
  }

  function MappedModel(f: FloatFormat, encodings: Layer -> Encodings, format: Format): Store {
    (layer: Layer, channel: nat, us: seq<real>) =>
      if encodings(layer).Valid(format) && Addressed(layer, channel, us) then
        var state := ModelC(f, encodings(layer).Terms(layer, channel, us), layer.Bias(channel));
        if state.IsReal() then Some(StoreMapped(encodings(layer).out, state.Value())) else None
      else None
  }

  /** Scaled exact arithmetic stores the sum of the scaled products plus the bias over the output scale. */
  lemma MappedStored(encodings: Layer -> Encodings, format: Format, layer: Layer, channel: nat, us: seq<real>)
    requires var e := encodings(layer); e.x.Valid() && e.w.Valid() && e.out.Valid() && e.x.codes == format.codes
    requires |layer.weight.codes| == layer.weight.k * layer.weight.channels
    requires channel < layer.weight.channels && |us| == layer.weight.k
    ensures var e := encodings(layer); var terms := e.Terms(layer, channel, us);
      && |terms| == |us|
      && (forall j :: 0 <= j < |us| ==>
            terms[j] == Times(Times(us[j], e.x.Scale(0)),
                              Times(ValueOf(e.w.codes, layer.weight.Row(channel)[j]), e.w.Scale(channel))))
      && MappedExact(encodings, format)(layer, channel, us)
         == Some(StoreMapped(e.out, Sum(terms) + layer.Bias(channel).GetOr(0.0)))
  {
    hide StoreMapped, Times, Mapped.Scale, Mapped.Valid, ValueOf, Sum;
    assert encodings(layer).Valid(format) && Addressed(layer, channel, us);
    hide Encodings.Valid, Addressed;
  }

  /** Every channel of the layer has passed the mapped certificate. */
  ghost predicate MappedCertified(f: FloatFormat, encodings: Layer -> Encodings, format: Format, layer: Layer) {
    var e := encodings(layer);
    && e.Valid(format) && layer.weight.Populated()
    && forall channel: nat :: channel < layer.weight.channels ==>
         MappedAgrees(f, e.x, e.w, e.out, channel, layer.weight.Row(channel), layer.Bias(channel))
  }

  lemma MappedLayerSettled(f: FloatFormat, encodings: Layer -> Encodings, format: Format, layer: Layer)
    requires MappedCertified(f, encodings, format, layer)
    ensures LayerSettled(format, layer, MappedExact(encodings, format), MappedModel(f, encodings, format))
  {
    hide MappedCertified, MappedExact, MappedModel, Decode, FedFinite;
    forall tensor, o | FedFinite(format, layer, tensor) && 0 <= o < |layer.outputs|
      ensures var us := Gather(Decode(format), tensor, layer.outputs[o].taps);
        MappedExact(encodings, format)(layer, layer.outputs[o].channel, us)
        == MappedModel(f, encodings, format)(layer, layer.outputs[o].channel, us)
    {
      GatheredOperands(format, layer, tensor, o);
      MappedOutput(f, encodings, format, layer, layer.outputs[o].channel,
                   Gather(Decode(format), tensor, layer.outputs[o].taps));
    }
  }

  lemma MappedOutput(f: FloatFormat, encodings: Layer -> Encodings, format: Format, layer: Layer, channel: nat,
                     us: seq<real>)
    requires MappedCertified(f, encodings, format, layer) && AreOperands(format.codes, us)
    ensures MappedExact(encodings, format)(layer, channel, us) == MappedModel(f, encodings, format)(layer, channel, us)
  {
    hide ModelC, StoreMapped, Encodings.Terms, Sum, StoredAlike, MappedAgrees, Mapped.Valid;
    if Addressed(layer, channel, us) {
      MappedTerms(f, encodings(layer), layer, channel, us);
    }
    hide MappedCertified;
  }

  lemma MappedTerms(f: FloatFormat, e: Encodings, layer: Layer, channel: nat, us: seq<real>)
    requires e.x.Valid() && e.w.Valid() && e.out.Valid() && Addressed(layer, channel, us) && AreOperands(e.x.codes, us)
    requires MappedAgrees(f, e.x, e.w, e.out, channel, layer.weight.Row(channel), layer.Bias(channel))
    ensures var state := ModelC(f, e.Terms(layer, channel, us), layer.Bias(channel));
      && state.IsReal()
      && StoreMapped(e.out, state.Value())
         == StoreMapped(e.out, Sum(e.Terms(layer, channel, us)) + layer.Bias(channel).GetOr(0.0))
  {
    hide ScaledValues, Products, Decoded, Mapped.Scale, Mapped.Valid, ModelC, StoreMapped, Sum, AreOperands;
    assert StoredAlike(f, e.out, e.Terms(layer, channel, us), layer.Bias(channel)) by {
      hide StoredAlike;
    }
  }

  /** A graph of passed channels stores the codes of exact arithmetic at every node. */
  lemma MappedGraphAgrees(f: FloatFormat, encodings: Layer -> Encodings, format: Format, nodes: seq<Node>,
                          env: Environment)
    requires forall n :: 0 <= n < |nodes| && nodes[n].Mac? ==> MappedCertified(f, encodings, format, nodes[n].layer)
    requires FiniteRun(format, nodes, MappedExact(encodings, format), env)
    ensures Run(nodes, MappedExact(encodings, format), Decode(format), env)
         == Run(nodes, MappedModel(f, encodings, format), Decode(format), env)
  {
    hide MappedCertified, LayerSettled, Decode, MappedExact, MappedModel, FiniteRun;
    forall n | 0 <= n < |nodes| && nodes[n].Mac?
      ensures LayerSettled(format, nodes[n].layer, MappedExact(encodings, format), MappedModel(f, encodings, format))
    {
      MappedLayerSettled(f, encodings, format, nodes[n].layer);
    }
    SettledGraphAgrees(format, nodes, MappedExact(encodings, format), MappedModel(f, encodings, format), env);
  }

  // ----- means beside MACs -----

  /** The store of a global average: the mean of the values of its window. */
  function MeanExact(format: Format): Store
    requires |format.codes| > 0
  {
    (layer: Layer, channel: nat, xs: seq<real>) =>
      if |xs| > 0 then Some(Encode(format.Book(), Finite(Sum(xs) / |xs| as real))) else None
  }

  function MeanModel(f: FloatFormat, format: Format): Store
    requires |format.codes| > 0
  {
    (layer: Layer, channel: nat, xs: seq<real>) =>
      if |xs| > 0 && MeanState(f, xs).IsReal() then Some(Encode(format.Book(), MeanState(f, xs))) else None
  }

  /** The values hold every code of the format. */
  ghost predicate Lists(values: seq<Fraction>, format: Format) {
    forall i :: 0 <= i < |format.codes| ==>
      exists k :: 0 <= k < |values| && values[k].Value() == format.codes[i].value.Value()
  }

  /** Every window has `count` addressed values, and the mean of that many is certified. */
  ghost predicate MeanCertified(f: FloatFormat, format: Format, values: seq<Fraction>, count: nat, layer: Layer)
    requires |format.codes| > 0
  {
    && count > 0 && Lists(values, format)
    && (forall o :: 0 <= o < |layer.outputs| ==> |layer.outputs[o].taps| == count)
    && (forall o, j :: 0 <= o < |layer.outputs| && 0 <= j < |layer.outputs[o].taps| ==>
          layer.outputs[o].taps[j].Address?)
    && forall xs :: |xs| == count && AllStored(values, xs) ==> MeanAgrees(f, format.Book(), xs)
  }

  lemma MeanLayerSettled(f: FloatFormat, format: Format, values: seq<Fraction>, count: nat, layer: Layer)
    requires |format.codes| > 0 && MeanCertified(f, format, values, count, layer)
    ensures LayerSettled(format, layer, MeanExact(format), MeanModel(f, format))
  {
    hide MeanState, Encode, Sum, Decode, FedFinite, AllStored, Fraction.Value;
    forall tensor, o | FedFinite(format, layer, tensor) && 0 <= o < |layer.outputs|
      ensures var xs := Gather(Decode(format), tensor, layer.outputs[o].taps);
        MeanExact(format)(layer, layer.outputs[o].channel, xs)
        == MeanModel(f, format)(layer, layer.outputs[o].channel, xs)
    {
      GatheredStored(format, values, layer, tensor, o);
      assert MeanAgrees(f, format.Book(), Gather(Decode(format), tensor, layer.outputs[o].taps));
    }
  }

  /** Addressed finite codes decode to listed values. */
  lemma GatheredStored(format: Format, values: seq<Fraction>, layer: Layer, tensor: Tensor, o: nat)
    requires o < |layer.outputs| && FedFinite(format, layer, tensor) && Lists(values, format)
    requires forall j :: 0 <= j < |layer.outputs[o].taps| ==> layer.outputs[o].taps[j].Address?
    ensures AllStored(values, Gather(Decode(format), tensor, layer.outputs[o].taps))
  {
    hide Fraction.Value;
    var taps := layer.outputs[o].taps;
    var xs := Gather(Decode(format), tensor, taps);
    forall j | 0 <= j < |xs|
      ensures IsStored(values, xs[j])
    {
      var tap := taps[j];
      var i := LookedUp(format.codes, tensor[tap.index].value);
      assert xs[j] == Operand(Decode(format), tensor, tap) == format.codes[i].value.Value();
      var k :| 0 <= k < |values| && values[k].Value() == format.codes[i].value.Value();
      assert xs[j] == values[k].Value();
    }
  }

  /** One store for the averages of a graph, another for its MACs. */
  function Either(isMean: Layer -> bool, mean: Store, mac: Store): Store {
    (layer: Layer, channel: nat, xs: seq<real>) =>
      if isMean(layer) then mean(layer, channel, xs) else mac(layer, channel, xs)
  }

  lemma EitherSettled(format: Format, layer: Layer, isMean: Layer -> bool, mean: Store, mac: Store, mean': Store,
                      mac': Store)
    requires if isMean(layer) then LayerSettled(format, layer, mean, mean') else LayerSettled(format, layer, mac, mac')
    ensures LayerSettled(format, layer, Either(isMean, mean, mac), Either(isMean, mean', mac'))
  {
    hide FedFinite, Decode;
    forall tensor | FedFinite(format, layer, tensor)
      ensures SameStores(layer, Either(isMean, mean, mac), Either(isMean, mean', mac'), Decode(format), tensor)
    {
      assert if isMean(layer) then SameStores(layer, mean, mean', Decode(format), tensor)
             else SameStores(layer, mac, mac', Decode(format), tensor);
    }
  }

  /** A graph of settled MACs and certified averages has equal runs. */
  lemma AveragingGraphAgrees(f: FloatFormat, format: Format, values: seq<Fraction>, isMean: Layer -> bool,
                             count: Layer -> nat, mac: Store, mac': Store, nodes: seq<Node>, env: Environment)
    requires |format.codes| > 0
    requires forall n :: 0 <= n < |nodes| && nodes[n].Mac? ==>
      if isMean(nodes[n].layer) then MeanCertified(f, format, values, count(nodes[n].layer), nodes[n].layer)
      else LayerSettled(format, nodes[n].layer, mac, mac')
    requires FiniteRun(format, nodes, Either(isMean, MeanExact(format), mac), env)
    ensures Run(nodes, Either(isMean, MeanExact(format), mac), Decode(format), env)
         == Run(nodes, Either(isMean, MeanModel(f, format), mac'), Decode(format), env)
  {
    hide MeanCertified, LayerSettled, Decode, MeanExact, MeanModel, FiniteRun, Either;
    forall n | 0 <= n < |nodes| && nodes[n].Mac?
      ensures LayerSettled(format, nodes[n].layer, Either(isMean, MeanExact(format), mac),
                      Either(isMean, MeanModel(f, format), mac'))
    {
      if isMean(nodes[n].layer) {
        MeanLayerSettled(f, format, values, count(nodes[n].layer), nodes[n].layer);
      }
      EitherSettled(format, nodes[n].layer, isMean, MeanExact(format), mac, MeanModel(f, format), mac');
    }
    SettledGraphAgrees(format, nodes, Either(isMean, MeanExact(format), mac),
                       Either(isMean, MeanModel(f, format), mac'), env);
  }
}
