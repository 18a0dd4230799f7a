/**
 A quantized graph run node by node on stored codes. MAC layers gather decoded
 operands (padding contributes a real zero), reduce them and store a code; every
 other operator is a function of stored codes. Two runs that differ only in how
 MACs reduce agree everywhere if they agree at each MAC on the values fed to it.
 */
module GraphRun {
  import opened IntArithmetic
  import opened Results

  /** Stored codes; None stands for a state that is not a real number. */
  type Tensor = seq<Option<nat>>

  datatype Tap = Padding | Address(index: nat)

  datatype Output = Output(channel: nat, taps: seq<Tap>)

  datatype Encoding = Encoding(format: string, unscaled: bool)

  /** A weight constant: `channels` rows of k codes. */
  datatype Weight = Weight(encoding: Encoding, channels: nat, k: nat, codes: seq<nat>) {
    predicate Populated() { |codes| == k * channels }

    /** codes[channel*k:(channel+1)*k] */
    function Row(channel: nat): (row: seq<nat>)
      requires Populated() && channel < channels
      ensures |row| == k
      ensures forall c :: c in row ==> c in codes
    {
      Block(codes, channel, channels, k)
    }

    function Rows(): (rows: seq<seq<nat>>)
      requires Populated()
      ensures |rows| == channels && forall c :: 0 <= c < channels ==> rows[c] == Row(c)
    {
      seq(channels, c requires 0 <= c < channels => Row(c))
    }

    /** Code j of a channel is code channel*k + j of the constant. */
    lemma RowAt(channel: nat, j: nat)
      requires Populated() && channel < channels && j < k
      ensures 0 <= channel * k + j < |codes| && Row(channel)[j] == codes[channel * k + j]
    {
      BlockAt(codes, channel, channels, k, j);
    }

    /** The rows of all channels, one after the other, are the codes of the constant. */
    lemma RowsAreCodes()
      requires Populated()
      ensures Concatenated(Rows()) == codes
    {
      BlocksConcatenate(codes, Rows(), channels, k, channels);
    }
  }

  datatype Layer = Layer(accumulator: string, weight: Weight, biases: Option<seq<real>>, outputs: seq<Output>) {
    function Bias(channel: nat): Option<real> {
      if biases.Some? && channel < |biases.value| then Some(biases.value[channel]) else None
    }

    /** Channel c's bias is entry c of the declared list; without a list there is none. */
    lemma BiasOfChannel(channel: nat)
      ensures biases.Some? && channel < |biases.value| ==> Bias(channel) == Some(biases.value[channel])
      ensures biases.None? ==> Bias(channel) == None
    {
    }
  }

  datatype Node =
    | Mac(name: string, source: string, output: Encoding, layer: Layer)
    | Other(name: string, source: string, others: seq<string>, declared: Option<Encoding>,
            apply: (Tensor, seq<Tensor>) -> Tensor)

  /** What the executor stores for one output of a layer, given its decoded operands. */
  type Store = (Layer, nat, seq<real>) -> Option<nat>

  type Environment = map<string, Tensor>

  function Lookup(env: Environment, name: string): Tensor {
    if name in env then env[name] else []
  }

  function Operand(decode: nat -> real, tensor: Tensor, tap: Tap): real {
    match tap
    case Padding => 0.0
    case Address(i) => if i < |tensor| && tensor[i].Some? then decode(tensor[i].value) else 0.0
  }

  function Gather(decode: nat -> real, tensor: Tensor, taps: seq<Tap>): (xs: seq<real>)
    ensures |xs| == |taps|
    ensures forall j :: 0 <= j < |xs| ==> xs[j] == Operand(decode, tensor, taps[j])
  {
    seq(|taps|, j requires 0 <= j < |taps| => Operand(decode, tensor, taps[j]))
  }

  function RunLayer(layer: Layer, store: Store, decode: nat -> real, tensor: Tensor): (r: Tensor)
    ensures |r| == |layer.outputs|
  {
    seq(|layer.outputs|, o requires 0 <= o < |layer.outputs| =>
      store(layer, layer.outputs[o].channel, Gather(decode, tensor, layer.outputs[o].taps)))
  }

  function Evaluate(node: Node, store: Store, decode: nat -> real, env: Environment): Tensor {
    match node
    case Mac(_, source, _, layer) => RunLayer(layer, store, decode, Lookup(env, source))
    case Other(_, source, others, _, apply) =>
      apply(Lookup(env, source), seq(|others|, i requires 0 <= i < |others| => Lookup(env, others[i])))
  }

  function Run(nodes: seq<Node>, store: Store, decode: nat -> real, env: Environment): Environment {
    if |nodes| == 0 then env
    else
      var before := Run(nodes[..|nodes| - 1], store, decode, env);
      var node := nodes[|nodes| - 1];
      before[node.name := Evaluate(node, store, decode, before)]
  }

  /** Both stores give the same code for every output of the layer on this tensor. */
  ghost predicate SameStores(layer: Layer, s: Store, t: Store, decode: nat -> real, tensor: Tensor) {
    forall o :: 0 <= o < |layer.outputs| ==>
      var xs := Gather(decode, tensor, layer.outputs[o].taps);
      s(layer, layer.outputs[o].channel, xs) == t(layer, layer.outputs[o].channel, xs)
  }

  /** The tensor that reaches node n. */
  function Fed(nodes: seq<Node>, store: Store, decode: nat -> real, env: Environment, n: nat): Tensor
    requires n < |nodes|
  {
    Lookup(Run(nodes[..n], store, decode, env), nodes[n].source)
  }

  /** No node from n on stores under that name. */
  predicate Kept(nodes: seq<Node>, n: nat, name: string) {
    forall m :: n <= m < |nodes| ==> nodes[m].name != name
  }

  lemma {:induction false} KeptTensor(nodes: seq<Node>, store: Store, decode: nat -> real, env: Environment, n: nat,
                                      name: string)
    requires n <= |nodes| && Kept(nodes, n, name)
    ensures Lookup(Run(nodes, store, decode, env), name) == Lookup(Run(nodes[..n], store, decode, env), name)
  {
    if n < |nodes| {
      var k := |nodes| - 1;
      KeptTensor(nodes[..k], store, decode, env, n, name);
      assert nodes[..k][..n] == nodes[..n];
    } else {
      assert nodes[..n] == nodes;
    }
  }

  /** A node is evaluated on what its predecessors left, and its tensor stays until its name is stored again. */
  lemma Executed(nodes: seq<Node>, store: Store, decode: nat -> real, env: Environment, n: nat)
    requires n < |nodes| && Kept(nodes, n + 1, nodes[n].name)
    ensures nodes[n].name in Run(nodes, store, decode, env)
    ensures Run(nodes, store, decode, env)[nodes[n].name]
         == Evaluate(nodes[n], store, decode, Run(nodes[..n], store, decode, env))
  {
    hide Evaluate;
    assert nodes[..n + 1][..n] == nodes[..n];
    KeptName(nodes, store, decode, env, n + 1, nodes[n].name);
    KeptTensor(nodes, store, decode, env, n + 1, nodes[n].name);
  }

  lemma {:induction false} KeptName(nodes: seq<Node>, store: Store, decode: nat -> real, env: Environment, n: nat,
                                    name: string)
    requires n <= |nodes| && name in Run(nodes[..n], store, decode, env)
    ensures name in Run(nodes, store, decode, env)
  {
    if n < |nodes| {
      var k := |nodes| - 1;
      assert nodes[..k][..n] == nodes[..n];
      KeptName(nodes[..k], store, decode, env, n, name);
    } else {
      assert nodes[..n] == nodes;
    }
  }

  /** A MAC reads the tensor of the last node before it that stores under its source, or the graph's input. */
  lemma FedBySource(nodes: seq<Node>, store: Store, decode: nat -> real, env: Environment, n: nat, m: nat)
    requires n < |nodes| && m <= n && Kept(nodes[..n], m, nodes[n].source)
    ensures m == 0 && nodes[n].source in env ==> Fed(nodes, store, decode, env, n) == env[nodes[n].source]
    ensures m > 0 && nodes[m - 1].name == nodes[n].source ==>
      Fed(nodes, store, decode, env, n)
      == Evaluate(nodes[m - 1], store, decode, Run(nodes[..m - 1], store, decode, env))
  {
    hide Evaluate;
    KeptTensor(nodes[..n], store, decode, env, m, nodes[n].source);
    assert nodes[..n][..m] == nodes[..m];
    assert m > 0 ==> nodes[..m][..m - 1] == nodes[..m - 1];
  }

  /** Another operator is applied to the tensors under its source and its further inputs. */
  lemma OtherOutput(node: Node, store: Store, decode: nat -> real, env: Environment) returns (others: seq<Tensor>)
    requires node.Other?
    ensures |others| == |node.others| && forall i :: 0 <= i < |others| ==> others[i] == Lookup(env, node.others[i])
    ensures Evaluate(node, store, decode, env) == node.apply(Lookup(env, node.source), others)
  {
    others := seq(|node.others|, i requires 0 <= i < |node.others| => Lookup(env, node.others[i]));
  }

  /** What a tap delivers: zero outside the image, and inside it the decoded code. */
  ghost predicate Delivers(decode: nat -> real, tensor: Tensor, tap: Tap, x: real) {
    match tap
    case Padding => x == 0.0
    case Address(i) => i < |tensor| && tensor[i].Some? ==> x == decode(tensor[i].value)
  }

  /** Output o of a MAC node is the store of its channel on what its taps deliver. */
  lemma MacOutput(node: Node, store: Store, decode: nat -> real, env: Environment, o: nat) returns (xs: seq<real>)
    requires node.Mac? && o < |node.layer.outputs|
    ensures var output := node.layer.outputs[o];
      && |xs| == |output.taps|
      && (forall j :: 0 <= j < |xs| ==> Delivers(decode, Lookup(env, node.source), output.taps[j], xs[j]))
      && |Evaluate(node, store, decode, env)| == |node.layer.outputs|
      && Evaluate(node, store, decode, env)[o] == store(node.layer, output.channel, xs)
  {
    xs := Gather(decode, Lookup(env, node.source), node.layer.outputs[o].taps);
  }

  lemma {:induction false} RunsAgree(nodes: seq<Node>, s: Store, t: Store, decode: nat -> real, env: Environment)
    requires forall n :: 0 <= n < |nodes| && nodes[n].Mac? ==>
      SameStores(nodes[n].layer, s, t, decode, Fed(nodes, s, decode, env, n))
    ensures Run(nodes, s, decode, env) == Run(nodes, t, decode, env)
  {
    if |nodes| > 0 {
      var k := |nodes| - 1;
      var head := nodes[..k];
      forall n | 0 <= n < |head| && head[n].Mac?
        ensures SameStores(head[n].layer, s, t, decode, Fed(head, s, decode, env, n))
      {
        assert head[..n] == nodes[..n];
        assert SameStores(nodes[n].layer, s, t, decode, Fed(nodes, s, decode, env, n));
      }
      RunsAgree(head, s, t, decode, env);
      if nodes[k].Mac? {
        LayersAgree(nodes[k].layer, s, t, decode, Fed(nodes, s, decode, env, k));
      }
    }
  }

  lemma LayersAgree(layer: Layer, s: Store, t: Store, decode: nat -> real, tensor: Tensor)
    requires SameStores(layer, s, t, decode, tensor)
    ensures RunLayer(layer, s, decode, tensor) == RunLayer(layer, t, decode, tensor)
  {
    var a, b := RunLayer(layer, s, decode, tensor), RunLayer(layer, t, decode, tensor);
    forall o | 0 <= o < |layer.outputs|
      ensures a[o] == b[o]
    {
      var xs := Gather(decode, tensor, layer.outputs[o].taps);
      assert s(layer, layer.outputs[o].channel, xs) == t(layer, layer.outputs[o].channel, xs);
    }
  }
}
