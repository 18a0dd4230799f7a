/**
 Graphs of stored codes in one frozen format: a layer is settled when two stores
 agree on every tensor of finite codes, and a graph of settled layers has equal
 runs.
 */
module StoredGraph {
  import opened FloatAccumulator
  import opened MacError
  import opened Quantum
  import Codebook
  import opened Operands
  import opened DyadicMac
  import opened GraphRun
  import opened Results

  /** The frozen format of a graph: its finite codes, and the code of a negative zero if there is one. */
  datatype Format = Format(name: string, codes: seq<Coded>, signedZero: bool, signBit: nat) {
    /** The domain of the float proof: a nonempty dyadic codebook with signed zeros. */
    predicate Dyadic() {
      |codes| > 0 && signedZero && forall i :: 0 <= i < |codes| ==> IsPowerOfTwo(Reduce(codes[i].value).denominator)
    }

    function Book(): (book: Codebook.Book)
      ensures |book.entries| == |codes|
    {
      BookOf(codes, signedZero, signBit)
    }
  }

  /** The domain: nonempty, with signed zeros, and every value an integer over some power of two. */
  lemma DyadicDomain(format: Format)
    ensures format.Dyadic() <==>
      && format.codes != [] && format.signedZero
      && forall i :: 0 <= i < |format.codes| ==> IsDyadic(format.codes[i].value)
  {
    hide IsDyadic, IsPowerOfTwo, Reduce;
    forall i | 0 <= i < |format.codes|
      ensures IsPowerOfTwo(Reduce(format.codes[i].value).denominator) <==> IsDyadic(format.codes[i].value)
    {
      DyadicExactly(format.codes[i].value);
    }
  }

  /** The store of exact arithmetic. */
  function ExactStore(format: Format): Store
    requires |format.codes| > 0
  {
    (layer: Layer, channel: nat, xs: seq<real>) =>
      if Addressed(layer, channel, xs) then
        Some(ExactCode(format.Book(), Products(xs, Decoded(format.codes, layer.weight.Row(channel))),
                       layer.Bias(channel).GetOr(0.0)))
      else None
  }

  /** Exact arithmetic stores the code of the dot product with the channel's weights plus its bias, if it has one. */
  lemma ExactStored(format: Format, layer: Layer, channel: nat, xs: seq<real>)
    requires |format.codes| > 0 && |layer.weight.codes| == layer.weight.k * layer.weight.channels
    requires channel < layer.weight.channels && |xs| == layer.weight.k
    ensures var row := layer.weight.Row(channel);
            var b := if layer.Bias(channel).Some? then layer.Bias(channel).value else 0.0;
      ExactStore(format)(layer, channel, xs)
      == Some(Codebook.Encode(format.Book(), Finite(Sum(Products(xs, Decoded(format.codes, row))) + b)))
  {
    hide Codebook.Encode, Products, Decoded;
  }

  predicate Addressed(layer: Layer, channel: nat, xs: seq<real>) {
    layer.weight.Populated() && channel < layer.weight.channels && |xs| == layer.weight.k
  }

  function Decode(format: Format): nat -> real {
    (code: nat) => ValueOf(format.codes, code)
  }

  /** The addressed inputs of a layer are present and carry finite codes. */
  ghost predicate FedFinite(format: Format, layer: Layer, tensor: Tensor) {
    forall o, j :: 0 <= o < |layer.outputs| && 0 <= j < |layer.outputs[o].taps| ==>
      layer.outputs[o].taps[j].Address? ==>
        var index := layer.outputs[o].taps[j].index;
        index < |tensor| && tensor[index].Some? && HasCode(format.codes, tensor[index].value)
  }

  /** Finite codes decode to operands; padding is one too. */
  lemma GatheredOperands(format: Format, layer: Layer, tensor: Tensor, o: nat)
    requires o < |layer.outputs| && FedFinite(format, layer, tensor)
    ensures AreOperands(format.codes, Gather(Decode(format), tensor, layer.outputs[o].taps))
  {
    var taps := layer.outputs[o].taps;
    var xs := Gather(Decode(format), tensor, taps);
    forall j | 0 <= j < |xs|
      ensures IsOperand(format.codes, xs[j])
    {
      if taps[j].Address? {
        var i := LookedUp(format.codes, tensor[taps[j].index].value);
      }
    }
  }

  /** Every MAC of a run receives finite codes. */
  ghost predicate FiniteRun(format: Format, nodes: seq<Node>, store: Store, env: Environment) {
    forall n :: 0 <= n < |nodes| && nodes[n].Mac? ==>
      FedFinite(format, nodes[n].layer, Fed(nodes, store, Decode(format), env, n))
  }

  /** Two stores agree on a layer for every tensor of finite codes. */
  ghost predicate LayerSettled(format: Format, layer: Layer, s: Store, t: Store) {
    forall tensor :: FedFinite(format, layer, tensor) ==> SameStores(layer, s, t, Decode(format), tensor)
  }

  /** A graph of settled layers stores the same codes at every node in both executions. */
  lemma SettledGraphAgrees(format: Format, nodes: seq<Node>, s: Store, t: Store, env: Environment)
    requires forall n :: 0 <= n < |nodes| && nodes[n].Mac? ==> LayerSettled(format, nodes[n].layer, s, t)
    requires FiniteRun(format, nodes, s, env)
    ensures Run(nodes, s, Decode(format), env) == Run(nodes, t, Decode(format), env)
  {
    hide FedFinite, SameStores, Decode, Run;
    forall n | 0 <= n < |nodes| && nodes[n].Mac?
      ensures SameStores(nodes[n].layer, s, t, Decode(format), Fed(nodes, s, Decode(format), env, n))
    {
      assert LayerSettled(format, nodes[n].layer, s, t);
    }
    RunsAgree(nodes, s, t, Decode(format), env);
  }
}
